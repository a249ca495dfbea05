/** The part of the file system a scan sees: a finite tree of directories,
    together with the two library operations the scripts call on a directory,
    `glob("*" + ext)` (entries whose name ends with `ext`) and `iterdir()`
    (all entries), and the `name`/`stem` of a found path. */
module FsTree {

  /** A directory. `denied` means that listing it raises a permission (or
      other OS) error; `entries` are its entries in enumeration order. */
  datatype Dir = Dir(denied: bool, entries: seq<Entry>)

  /** An entry of a directory: a file, or a sub-directory with its contents. */
  datatype Entry = File(name: string) | Folder(name: string, dir: Dir)

  /** Where a found entry lies: the index, in enumeration order, of each
      directory taken from the scanned root down, the last index being that of
      the entry itself in its directory. `|r| - 1` is the level of that
      directory (the root is level 0). */
  type Route = seq<nat>

  predicate EndsWith(s: string, suffix: string)
  {
    |suffix| <= |s| && s[|s| - |suffix|..] == suffix
  }

  /** `r` lies strictly below `prefix`. */
  predicate Extends(r: Route, prefix: Route)
  {
    |prefix| < |r| && r[..|prefix|] == prefix
  }

  /** Pre-order position: an entry listed by a directory itself comes before
      everything found in the directory's sub-directories; otherwise, at the
      first level where the two routes differ, the smaller index comes first. */
  predicate Precedes(x: Route, y: Route)
    decreases |x|
  {
    1 <= |x| && 1 <= |y| &&
    if |x| == 1 then 1 < |y| || x[0] < y[0]
    else if |y| == 1 then false
    else x[0] < y[0] || (x[0] == y[0] && Precedes(x[1..], y[1..]))
  }

  predicate Sorted(s: seq<Route>)
  {
    forall i, j :: 0 <= i < j < |s| ==> Precedes(s[i], s[j])
  }

  lemma {:induction false} PrecedesAsymmetric(x: Route, y: Route)
    requires Precedes(x, y)
    ensures !Precedes(y, x)
    decreases |x|
  {
    if 1 < |x| && 1 < |y| && x[0] == y[0] {
      PrecedesAsymmetric(x[1..], y[1..]);
    }
  }

  /** Below a common prefix, the order is decided by what follows the prefix. */
  lemma {:induction false} PrecedesBelow(p: Route, x: Route, y: Route)
    requires Extends(x, p) && Extends(y, p)
    ensures Precedes(x, y) == Precedes(x[|p|..], y[|p|..])
    decreases |p|
  {
    if p != [] {
      assert x[0] == y[0] == p[0];
      assert x[1..][..|p| - 1] == p[1..];
      assert y[1..][..|p| - 1] == p[1..];
      PrecedesBelow(p[1..], x[1..], y[1..]);
      assert x[1..][|p| - 1..] == x[|p|..];
      assert y[1..][|p| - 1..] == y[|p|..];
    } else {
      assert x[|p|..] == x && y[|p|..] == y;
    }
  }

  /** Concatenating two sorted listings, all of the first before all of the
      second, gives a sorted listing. */
  lemma SortedConcat(a: seq<Route>, b: seq<Route>)
    requires Sorted(a) && Sorted(b)
    requires forall x, y :: x in a && y in b ==> Precedes(x, y)
    ensures Sorted(a + b)
  {
    forall i, j | 0 <= i < j < |a + b|
      ensures Precedes((a + b)[i], (a + b)[j])
    {
      if j < |a| {
        assert (a + b)[i] == a[i] && (a + b)[j] == a[j];
      } else if |a| <= i {
        assert (a + b)[i] == b[i - |a|] && (a + b)[j] == b[j - |a|];
      } else {
        assert (a + b)[i] in a && (a + b)[j] in b;
      }
    }
  }

  /** A sorted listing holds no entry twice. */
  lemma SortedDistinct(s: seq<Route>)
    requires Sorted(s)
    ensures forall i, j :: 0 <= i < j < |s| ==> s[i] != s[j]
  {
    forall i, j | 0 <= i < j < |s|
      ensures s[i] != s[j]
    {
      if s[i] == s[j] {
        PrecedesAsymmetric(s[i], s[j]);
      }
    }
  }

  lemma FirstIsMember<T>(s: seq<T>)
    ensures s != [] ==> s[0] in s
  {
  }

  /** There is only one sorted listing of a given set of routes. */
  lemma {:induction false} SortedUnique(a: seq<Route>, b: seq<Route>)
    requires Sorted(a) && Sorted(b)
    requires forall x :: x in a <==> x in b
    ensures a == b
    decreases |a|
  {
    if a == [] {
      FirstIsMember(b);
    } else {
      assert a[0] in b;
      var k :| 0 <= k < |b| && b[k] == a[0];
      assert b[0] in a;
      var m :| 0 <= m < |a| && a[m] == b[0];
      if 0 < k {
        if 0 < m {
          assert Precedes(b[0], a[0]) && Precedes(a[0], b[0]);
          PrecedesAsymmetric(a[0], b[0]);
        } else {
          PrecedesAsymmetric(b[0], b[k]);
        }
      }
      assert a[0] == b[0];
      SortedDistinct(a);
      SortedDistinct(b);
      forall x
        ensures x in a[1..] <==> x in b[1..]
      {
        if x in a[1..] {
          var i :| 0 <= i < |a[1..]| && a[1..][i] == x;
          assert a[i + 1] == x && x != a[0];
          assert x in a;
          assert x in b;
          var j :| 0 <= j < |b| && b[j] == x;
          assert j != 0;
          assert b[1..][j - 1] == x;
        }
        if x in b[1..] {
          var i :| 0 <= i < |b[1..]| && b[1..][i] == x;
          assert b[i + 1] == x && x != b[0];
          assert x in b;
          assert x in a;
          var j :| 0 <= j < |a| && a[j] == x;
          assert j != 0;
          assert a[1..][j - 1] == x;
        }
      }
      SortedUnique(a[1..], b[1..]);
      assert a == [a[0]] + a[1..] && b == [b[0]] + b[1..];
    }
  }

  /** The matches among the first `n` entries, in enumeration order. */
  function MatchesUpTo(prefix: Route, es: seq<Entry>, n: nat, ext: string): seq<Route>
    requires n <= |es|
  {
    if n == 0 then []
    else MatchesUpTo(prefix, es, n - 1, ext) + if EndsWith(es[n - 1].name, ext) then [prefix + [n - 1]] else []
  }

  lemma MatchesUpToMembers(prefix: Route, es: seq<Entry>, n: nat, ext: string)
    requires n <= |es|
    ensures var r := MatchesUpTo(prefix, es, n, ext);
      (forall k :: 0 <= k < |r| ==> IsMatchOf(prefix, es, n, ext, r[k])) &&
      (forall i :: 0 <= i < n && EndsWith(es[i].name, ext) ==> prefix + [i] in r) &&
      (forall a, b :: 0 <= a < b < |r| ==> r[a][|prefix|] < r[b][|prefix|])
  {
    MatchesShape(prefix, es, n, ext);
    MatchesComplete(prefix, es, n, ext);
    MatchesIncreasing(prefix, es, n, ext);
  }

  /** `x` is the route of an entry among the first `n` of `es`, listed at
      `prefix`, whose name ends with `ext`. */
  predicate IsMatchOf(prefix: Route, es: seq<Entry>, n: nat, ext: string, x: Route)
    requires n <= |es|
  {
    |x| == |prefix| + 1 && x[..|prefix|] == prefix && x[|prefix|] < n && EndsWith(es[x[|prefix|]].name, ext)
  }

  lemma {:induction false} MatchesShape(prefix: Route, es: seq<Entry>, n: nat, ext: string)
    requires n <= |es|
    ensures forall k :: 0 <= k < |MatchesUpTo(prefix, es, n, ext)| ==>
      IsMatchOf(prefix, es, n, ext, MatchesUpTo(prefix, es, n, ext)[k])
  {
    if n > 0 {
      MatchesShape(prefix, es, n - 1, ext);
      var front := MatchesUpTo(prefix, es, n - 1, ext);
      var last := prefix + [n - 1];
      assert last[..|prefix|] == prefix && last[|prefix|] == n - 1;
      if EndsWith(es[n - 1].name, ext) {
        var r := front + [last];
        forall k | 0 <= k < |r|
          ensures IsMatchOf(prefix, es, n, ext, r[k])
        {
          if k < |front| {
            assert r[k] == front[k];
            assert IsMatchOf(prefix, es, n - 1, ext, front[k]);
          } else {
            assert r[k] == last;
          }
        }
      } else {
        assert MatchesUpTo(prefix, es, n, ext) == front + [];
      }
    }
  }

  /** Every entry among the first `n` whose name ends with `ext` is a match. */
  lemma {:induction false} MatchesComplete(prefix: Route, es: seq<Entry>, n: nat, ext: string)
    requires n <= |es|
    ensures forall i :: 0 <= i < n && EndsWith(es[i].name, ext) ==> prefix + [i] in MatchesUpTo(prefix, es, n, ext)
  {
    if n > 0 {
      MatchesComplete(prefix, es, n - 1, ext);
    }
  }

  /** `x` and `y` lie below `prefix` and `x` has the smaller index there. */
  predicate Before(prefix: Route, x: Route, y: Route)
  {
    |prefix| < |x| && |prefix| < |y| && x[|prefix|] < y[|prefix|]
  }

  /** The matches are in increasing index order. */
  lemma {:induction false} MatchesIncreasing(prefix: Route, es: seq<Entry>, n: nat, ext: string)
    requires n <= |es|
    ensures forall a, b :: 0 <= a < b < |MatchesUpTo(prefix, es, n, ext)| ==>
      Before(prefix, MatchesUpTo(prefix, es, n, ext)[a], MatchesUpTo(prefix, es, n, ext)[b])
  {
    if n > 0 {
      MatchesIncreasing(prefix, es, n - 1, ext);
      MatchesShape(prefix, es, n - 1, ext);
      var front := MatchesUpTo(prefix, es, n - 1, ext);
      var last := prefix + [n - 1];
      assert last[|prefix|] == n - 1;
      if EndsWith(es[n - 1].name, ext) {
        var r := front + [last];
        forall a, b | 0 <= a < b < |r|
          ensures Before(prefix, r[a], r[b])
        {
          assert r[a] == front[a];
          assert IsMatchOf(prefix, es, n - 1, ext, front[a]);
          if b < |front| {
            assert r[b] == front[b];
            assert Before(prefix, front[a], front[b]);
          } else {
            assert r[b] == last;
          }
        }
      } else {
        assert MatchesUpTo(prefix, es, n, ext) == front + [];
      }
    }
  }

  /** `d.glob("*" + ext)` for the directory at `prefix`: the entries (files or
      directories) whose name ends with `ext`, in enumeration order. The
      library swallows the permission error of a denied directory, so a
      denied directory lists nothing. */
  function Glob(prefix: Route, d: Dir, ext: string): (r: seq<Route>)
    ensures d.denied ==> r == []
  {
    if d.denied then [] else MatchesUpTo(prefix, d.entries, |d.entries|, ext)
  }

  /** Glob finds exactly the entries of `d` whose name ends with `ext`, each
      once, in enumeration order. */
  lemma GlobMembers(prefix: Route, d: Dir, ext: string)
    ensures forall x :: x in Glob(prefix, d, ext) <==>
      !d.denied && |x| == |prefix| + 1 && x[..|prefix|] == prefix &&
      x[|prefix|] < |d.entries| && EndsWith(d.entries[x[|prefix|]].name, ext)
    ensures forall a, b :: 0 <= a < b < |Glob(prefix, d, ext)| ==>
      Glob(prefix, d, ext)[a][|prefix|] < Glob(prefix, d, ext)[b][|prefix|]
  {
    if !d.denied {
      var r := MatchesUpTo(prefix, d.entries, |d.entries|, ext);
      MatchesUpToMembers(prefix, d.entries, |d.entries|, ext);
      forall x | |x| == |prefix| + 1 && x[..|prefix|] == prefix &&
        x[|prefix|] < |d.entries| && EndsWith(d.entries[x[|prefix|]].name, ext)
        ensures x in r
      {
        assert x == prefix + [x[|prefix|]];
      }
    }
  }

  /** Two routes below `p` whose positions after `p` are ordered, both
      entries of directories, or an own entry against a deeper one. */
  lemma PrecedesAfter(p: Route, x: Route, y: Route)
    requires Extends(x, p) && Extends(y, p)
    requires
      (|x| == |p| + 1 < |y|) ||
      (|x| == |p| + 1 == |y| && x[|p|] < y[|p|]) ||
      (|p| + 1 < |x| && |p| + 1 < |y| && x[|p|] < y[|p|])
    ensures Precedes(x, y)
  {
    PrecedesBelow(p, x, y);
    assert x[|p|..][0] == x[|p|] && y[|p|..][0] == y[|p|];
  }

  lemma GlobSorted(prefix: Route, d: Dir, ext: string)
    ensures Sorted(Glob(prefix, d, ext))
  {
    var g := Glob(prefix, d, ext);
    GlobMembers(prefix, d, ext);
    forall a, b | 0 <= a < b < |g|
      ensures Precedes(g[a], g[b])
    {
      assert g[a] in g && g[b] in g;
      PrecedesAfter(prefix, g[a], g[b]);
    }
  }

  /** Glob looks at the names of the entries only: two directories with the
      same flag and the same entry names glob alike, whatever lies inside
      their sub-directories. */
  lemma GlobSameNames(prefix: Route, d: Dir, e: Dir, ext: string)
    requires d.denied == e.denied && |d.entries| == |e.entries|
    requires forall i :: 0 <= i < |d.entries| ==> d.entries[i].name == e.entries[i].name
    ensures Glob(prefix, d, ext) == Glob(prefix, e, ext)
  {
    if !d.denied {
      MatchesSameNames(prefix, d.entries, e.entries, |d.entries|, ext);
    }
  }

  lemma {:induction false} MatchesSameNames(prefix: Route, es: seq<Entry>, fs: seq<Entry>, n: nat, ext: string)
    requires n <= |es| == |fs|
    requires forall i :: 0 <= i < |es| ==> es[i].name == fs[i].name
    ensures MatchesUpTo(prefix, es, n, ext) == MatchesUpTo(prefix, fs, n, ext)
  {
    if n > 0 {
      MatchesSameNames(prefix, es, fs, n - 1, ext);
    }
  }

  /** The name of the entry at route `r` below `d` ("" if there is none):
      a name is only found by a route that starts at an entry of `d` and, when
      it goes on, passes through a folder. */
  function NameAt(d: Dir, r: Route): (n: string)
    ensures n != "" ==> 1 <= |r| && r[0] < |d.entries| && (|r| > 1 ==> d.entries[r[0]].Folder?)
    decreases d
  {
    if |r| == 0 || r[0] >= |d.entries| then ""
    else if |r| == 1 then d.entries[r[0]].name
    else match d.entries[r[0]]
      case File(_) => ""
      case Folder(_, sub) => NameAt(sub, r[1..])
  }

  /** Index of the last `.` in `s`, or -1. */
  function LastDot(s: string): (i: int)
    ensures -1 <= i < |s|
    ensures 0 <= i ==> s[i] == '.'
    ensures forall k :: i < k < |s| ==> s[k] != '.'
  {
    if s == [] then -1
    else if s[|s| - 1] == '.' then |s| - 1
    else LastDot(s[..|s| - 1])
  }

  /** pathlib's `stem`: the name without its last suffix, where the suffix
      starts at the last dot, provided that dot is neither the first nor the
      last character of the name. The stem is a prefix of the name: all of
      it, or the part before a dot after which no dot follows. */
  function Stem(name: string): (r: string)
    ensures |r| <= |name| && r == name[..|r|]
    ensures r != name ==>
      0 < |r| < |name| - 1 && name[|r|] == '.' && forall k :: |r| < k < |name| ==> name[k] != '.'
  {
    var i := LastDot(name);
    if 0 < i < |name| - 1 then name[..i] else name
  }

  /** An extension of the form `.xyz` with no further dot. */
  predicate PlainExtension(ext: string)
  {
    2 <= |ext| && ext[0] == '.' && '.' !in ext[1..]
  }

  /** For a plain extension, the stem of a longer name carrying it is the name
      with the extension cut off; a name that is only the extension (a hidden
      file such as `.txt`) is its own stem. */
  lemma StemDropsExtension(name: string, ext: string)
    requires PlainExtension(ext) && EndsWith(name, ext)
    ensures |name| > |ext| ==> Stem(name) + ext == name
    ensures |name| == |ext| ==> Stem(name) == name
  {
    var p := |name| - |ext|;
    assert name[p..] == ext;
    assert name[p] == '.';
    forall k | p < k < |name|
      ensures name[k] != '.'
    {
      assert name[k] == ext[1..][k - p - 1];
    }
    var i := LastDot(name);
    assert i == p;
    if |name| > |ext| {
      assert name[..p] + name[p..] == name;
    }
  }
}
