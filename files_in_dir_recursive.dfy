/** The depth-controlled scanner: `get_files_by_extension(directory,
    extension, depth)` with its nested `collect_files`, the decorated
    `process_and_print_files` and `scan_directories`. */
module FilesInDirRecursive {
  import opened Sequences
  import opened FsTree
  import opened Requests

  // ---------------------------------------------------------------------
  // What collect_files appends, as functions over the tree

  /** What `collect_files(current_dir, level, maxDepth)` appends for the
      directory `d` at route `prefix`: its own glob matches, then, while
      `level < maxDepth`, what each sub-directory contributes, in `iterdir`
      order. Listing a denied directory raises; the handler inside this very
      call swallows it, so a denied directory contributes nothing. The
      scan at the depth limit lists only the directory's own matches. */
  function Collect(prefix: Route, d: Dir, level: int, maxDepth: int, ext: string): (r: seq<Route>)
    ensures maxDepth <= level ==> r == Glob(prefix, d, ext)
    ensures d.denied ==> r == []
    decreases d, 1
  {
    Glob(prefix, d, ext) +
    if level < maxDepth && !d.denied then Descend(prefix, d, |d.entries|, level, maxDepth, ext) else []
  }

  /** The sub-directories among the first `n` entries of `d`, each collected
      one level further down. */
  function Descend(prefix: Route, d: Dir, n: nat, level: int, maxDepth: int, ext: string): seq<Route>
    requires n <= |d.entries|
    decreases d, 0, n
  {
    if n == 0 then []
    else Descend(prefix, d, n - 1, level, maxDepth, ext) + Visit(prefix, d, n - 1, level, maxDepth, ext)
  }

  /** What entry `i` of `d` contributes: a sub-directory is collected one
      level further down, a file contributes nothing. */
  function Visit(prefix: Route, d: Dir, i: nat, level: int, maxDepth: int, ext: string): seq<Route>
    requires i < |d.entries|
    decreases d, 0, i
  {
    if d.entries[i].Folder? then Collect(prefix + [i], d.entries[i].dir, level + 1, maxDepth, ext) else []
  }

  // ---------------------------------------------------------------------
  // Which entries a scan can reach: the reference definitions

  /** The entry at route `r` below `d` (which sits at `level`) is a match that
      a scan limited to `maxDepth` reaches: every directory on the way can be
      listed, every step down happens at a level below `maxDepth`, and the
      entry's name ends with `ext`. */
  ghost predicate Reach(d: Dir, r: Route, level: int, maxDepth: int, ext: string)
    decreases d
  {
    !d.denied && 1 <= |r| && r[0] < |d.entries| &&
    if |r| == 1 then EndsWith(d.entries[r[0]].name, ext)
    else
      level < maxDepth && d.entries[r[0]].Folder? &&
      Reach(d.entries[r[0]].dir, r[1..], level + 1, maxDepth, ext)
  }

  /** The entry at route `r` below `d` is a match at any depth: what
      `rglob("*" + ext)` finds. */
  ghost predicate ReachAny(d: Dir, r: Route, ext: string)
    decreases d
  {
    !d.denied && 1 <= |r| && r[0] < |d.entries| &&
    if |r| == 1 then EndsWith(d.entries[r[0]].name, ext)
    else d.entries[r[0]].Folder? && ReachAny(d.entries[r[0]].dir, r[1..], ext)
  }

  /** `Collect` finds exactly the reachable matches below its prefix. */
  lemma {:induction false} CollectMembers(prefix: Route, d: Dir, level: int, maxDepth: int, ext: string)
    ensures forall r :: r in Collect(prefix, d, level, maxDepth, ext) <==>
      Extends(r, prefix) && Reach(d, r[|prefix|..], level, maxDepth, ext)
    decreases d, 1
  {
    GlobMembers(prefix, d, ext);
    if level < maxDepth && !d.denied {
      DescendMembers(prefix, d, |d.entries|, level, maxDepth, ext);
    }
    forall r
      ensures r in Collect(prefix, d, level, maxDepth, ext) <==>
        Extends(r, prefix) && Reach(d, r[|prefix|..], level, maxDepth, ext)
    {
      if |prefix| < |r| {
        var t := r[|prefix|..];
        assert t[0] == r[|prefix|];
        if 1 < |t| {
          assert t[1..] == r[|prefix| + 1..];
        }
      }
    }
  }

  lemma {:induction false} DescendMembers(prefix: Route, d: Dir, n: nat, level: int, maxDepth: int, ext: string)
    requires n <= |d.entries|
    ensures forall r :: r in Descend(prefix, d, n, level, maxDepth, ext) <==>
      |prefix| + 1 < |r| && r[..|prefix|] == prefix && r[|prefix|] < n &&
      d.entries[r[|prefix|]].Folder? &&
      Reach(d.entries[r[|prefix|]].dir, r[|prefix| + 1..], level + 1, maxDepth, ext)
    decreases d, 0, n
  {
    if n > 0 {
      DescendMembers(prefix, d, n - 1, level, maxDepth, ext);
      VisitMembers(prefix, d, n - 1, level, maxDepth, ext);
    }
  }

  lemma {:induction false} VisitMembers(prefix: Route, d: Dir, i: nat, level: int, maxDepth: int, ext: string)
    requires i < |d.entries|
    ensures forall r :: r in Visit(prefix, d, i, level, maxDepth, ext) <==>
      |prefix| + 1 < |r| && r[..|prefix|] == prefix && r[|prefix|] == i &&
      d.entries[i].Folder? &&
      Reach(d.entries[i].dir, r[|prefix| + 1..], level + 1, maxDepth, ext)
    decreases d, 0, i
  {
    if d.entries[i].Folder? {
      CollectMembers(prefix + [i], d.entries[i].dir, level + 1, maxDepth, ext);
      forall r {
        LastStep(prefix, i, r);
      }
    }
  }

  lemma LastStep(prefix: Route, i: nat, r: Route)
    ensures Extends(r, prefix + [i]) <==>
      |prefix| + 1 < |r| && r[..|prefix|] == prefix && r[|prefix|] == i
  {
    var q := prefix + [i];
    if |prefix| + 1 < |r| {
      assert r[..|q|][..|prefix|] == r[..|prefix|];
      assert r[..|q|][|prefix|] == r[|prefix|];
      if r[..|prefix|] == prefix && r[|prefix|] == i {
        assert r[..|q|] == q;
      }
    }
  }

  // ---------------------------------------------------------------------
  // Pre-order

  /** `collect_files` lists in pre-order: a directory's own matches first,
      then its sub-directories one after the other in `iterdir` order, each
      of them again in pre-order. */
  lemma {:induction false} CollectSorted(prefix: Route, d: Dir, level: int, maxDepth: int, ext: string)
    ensures Sorted(Collect(prefix, d, level, maxDepth, ext))
    decreases d, 1
  {
    GlobSorted(prefix, d, ext);
    GlobMembers(prefix, d, ext);
    if level < maxDepth && !d.denied {
      var g := Glob(prefix, d, ext);
      var rest := Descend(prefix, d, |d.entries|, level, maxDepth, ext);
      DescendSorted(prefix, d, |d.entries|, level, maxDepth, ext);
      DescendMembers(prefix, d, |d.entries|, level, maxDepth, ext);
      forall x, y | x in g && y in rest
        ensures Precedes(x, y)
      {
        PrecedesAfter(prefix, x, y);
      }
      SortedConcat(g, rest);
    } else {
      assert Collect(prefix, d, level, maxDepth, ext) == Glob(prefix, d, ext) + [];
    }
  }

  lemma {:induction false} DescendSorted(prefix: Route, d: Dir, n: nat, level: int, maxDepth: int, ext: string)
    requires n <= |d.entries|
    ensures Sorted(Descend(prefix, d, n, level, maxDepth, ext))
    decreases d, 0, n
  {
    if n > 0 {
      DescendSorted(prefix, d, n - 1, level, maxDepth, ext);
      VisitSorted(prefix, d, n - 1, level, maxDepth, ext);
      DescendBeforeVisit(prefix, d, n - 1, level, maxDepth, ext);
      SortedConcat(Descend(prefix, d, n - 1, level, maxDepth, ext), Visit(prefix, d, n - 1, level, maxDepth, ext));
    }
  }

  lemma {:induction false} VisitSorted(prefix: Route, d: Dir, i: nat, level: int, maxDepth: int, ext: string)
    requires i < |d.entries|
    ensures Sorted(Visit(prefix, d, i, level, maxDepth, ext))
    decreases d, 0, i
  {
    if d.entries[i].Folder? {
      CollectSorted(prefix + [i], d.entries[i].dir, level + 1, maxDepth, ext);
    }
  }

  /** Everything found in the first `i` entries comes before what entry `i` contributes. */
  lemma DescendBeforeVisit(prefix: Route, d: Dir, i: nat, level: int, maxDepth: int, ext: string)
    requires i < |d.entries|
    ensures forall x, y :: x in Descend(prefix, d, i, level, maxDepth, ext) && y in Visit(prefix, d, i, level, maxDepth, ext) ==>
      Precedes(x, y)
  {
    DescendMembers(prefix, d, i, level, maxDepth, ext);
    VisitMembers(prefix, d, i, level, maxDepth, ext);
    forall x, y | x in Descend(prefix, d, i, level, maxDepth, ext) && y in Visit(prefix, d, i, level, maxDepth, ext)
      ensures Precedes(x, y)
    {
      assert |prefix| + 1 < |x| && x[..|prefix|] == prefix && x[|prefix|] < i;
      assert |prefix| + 1 < |y| && y[..|prefix|] == prefix && y[|prefix|] == i;
      PrecedesAfter(prefix, x, y);
    }
  }

  /** The pre-order listing of the reachable matches is unique: any sorted
      sequence holding exactly the matches a limit-`maxDepth` walk from `d`
      reaches is what `collect_files` appends. */
  lemma CollectIsThePreorderListing(prefix: Route, d: Dir, level: int, maxDepth: int, ext: string, s: seq<Route>)
    requires Sorted(s)
    requires forall r :: r in s <==> Extends(r, prefix) && Reach(d, r[|prefix|..], level, maxDepth, ext)
    ensures s == Collect(prefix, d, level, maxDepth, ext)
  {
    CollectSorted(prefix, d, level, maxDepth, ext);
    CollectMembers(prefix, d, level, maxDepth, ext);
    SortedUnique(s, Collect(prefix, d, level, maxDepth, ext));
  }

  // ---------------------------------------------------------------------
  // Depth

  /** A reachable match lies at most `maxDepth - level` levels below `d`. */
  lemma {:induction false} ReachDepth(d: Dir, r: Route, level: int, maxDepth: int, ext: string)
    requires Reach(d, r, level, maxDepth, ext)
    ensures |r| == 1 || level + |r| - 1 <= maxDepth
    decreases d
  {
    if 1 < |r| {
      ReachDepth(d.entries[r[0]].dir, r[1..], level + 1, maxDepth, ext);
    }
  }

  /** With a limit of `maxDepth` levels, every entry `collect_files` returns
      for the root lies in a directory at level `0..maxDepth` (the root being
      level 0); with a limit below 1, only in the root itself. */
  lemma DepthBound(root: Dir, maxDepth: int, ext: string)
    ensures forall r :: r in Collect([], root, 0, maxDepth, ext) ==>
      1 <= |r| && |r| - 1 <= (if maxDepth > 0 then maxDepth else 0)
  {
    CollectMembers([], root, 0, maxDepth, ext);
    forall r | r in Collect([], root, 0, maxDepth, ext)
      ensures 1 <= |r| && |r| - 1 <= (if maxDepth > 0 then maxDepth else 0)
    {
      assert r[0..] == r;
      ReachDepth(root, r, 0, maxDepth, ext);
    }
  }

  /** A limit of 0 or below never enters a sub-directory: `collect_files`
      returns exactly the root's glob, so a depth below -1 behaves like 0. */
  lemma NonPositiveLimitIsRootOnly(prefix: Route, d: Dir, level: int, maxDepth: int, ext: string)
    requires maxDepth <= level
    ensures Collect(prefix, d, level, maxDepth, ext) == Glob(prefix, d, ext)
  {
    assert Collect(prefix, d, level, maxDepth, ext) == Glob(prefix, d, ext) + [];
  }

  /** The tree as far as a walk with `k` more levels to go looks at: entry
      names everywhere down to that level, and, below it, empty directories. */
  function Trim(d: Dir, k: int): Dir
    decreases d, 1
  {
    Dir(d.denied, TrimEntries(d, k, |d.entries|))
  }

  function TrimEntries(d: Dir, k: int, n: nat): (es: seq<Entry>)
    requires n <= |d.entries|
    ensures |es| == n
    ensures forall i :: 0 <= i < n ==> es[i] == TrimEntry(d, k, i)
    decreases d, 0, n
  {
    if n == 0 then [] else TrimEntries(d, k, n - 1) + [TrimEntry(d, k, n - 1)]
  }

  function TrimEntry(d: Dir, k: int, i: nat): Entry
    requires i < |d.entries|
    decreases d, 0, i
  {
    match d.entries[i]
    case File(name) => File(name)
    case Folder(name, sub) => Folder(name, if k <= 0 then Dir(false, []) else Trim(sub, k - 1))
  }

  /** Nothing deeper than the limit is visited: cutting the tree below the
      limit (sub-directories of the deepest level emptied, denied or not)
      leaves the result unchanged. */
  lemma {:induction false} CollectIgnoresBelowLimit(prefix: Route, d: Dir, level: int, maxDepth: int, ext: string)
    ensures Collect(prefix, Trim(d, maxDepth - level), level, maxDepth, ext) == Collect(prefix, d, level, maxDepth, ext)
    decreases d, 1
  {
    var t := Trim(d, maxDepth - level);
    GlobSameNames(prefix, d, t, ext);
    if level < maxDepth && !d.denied {
      DescendIgnoresBelowLimit(prefix, d, |d.entries|, level, maxDepth, ext);
    }
  }

  lemma {:induction false} DescendIgnoresBelowLimit(prefix: Route, d: Dir, n: nat, level: int, maxDepth: int, ext: string)
    requires n <= |d.entries| && level < maxDepth
    ensures Descend(prefix, Trim(d, maxDepth - level), n, level, maxDepth, ext) == Descend(prefix, d, n, level, maxDepth, ext)
    decreases d, 0, n
  {
    if n > 0 {
      DescendIgnoresBelowLimit(prefix, d, n - 1, level, maxDepth, ext);
      var t := Trim(d, maxDepth - level);
      assert t.entries[n - 1] == TrimEntry(d, maxDepth - level, n - 1);
      if d.entries[n - 1].Folder? {
        CollectIgnoresBelowLimit(prefix + [n - 1], d.entries[n - 1].dir, level + 1, maxDepth, ext);
      }
      assert Visit(prefix, t, n - 1, level, maxDepth, ext) == Visit(prefix, d, n - 1, level, maxDepth, ext);
    }
  }

  // ---------------------------------------------------------------------
  // Monotonicity and saturation in the depth limit

  /** Raising the limit by one only adds entries: the old result is a
      subsequence of the new one. */
  lemma {:induction false} CollectMonotone(prefix: Route, d: Dir, level: int, maxDepth: int, ext: string)
    ensures Subseq(Collect(prefix, d, level, maxDepth, ext), Collect(prefix, d, level, maxDepth + 1, ext))
    decreases d, 1
  {
    var g := Glob(prefix, d, ext);
    SubseqRefl(g);
    if !d.denied && level < maxDepth {
      DescendMonotone(prefix, d, |d.entries|, level, maxDepth, ext);
      SubseqConcat(g, g, Descend(prefix, d, |d.entries|, level, maxDepth, ext), Descend(prefix, d, |d.entries|, level, maxDepth + 1, ext));
    } else if !d.denied && level == maxDepth {
      SubseqConcat(g, g, [], Descend(prefix, d, |d.entries|, level, maxDepth + 1, ext));
    } else {
      assert Collect(prefix, d, level, maxDepth, ext) == Collect(prefix, d, level, maxDepth + 1, ext);
      SubseqRefl(Collect(prefix, d, level, maxDepth, ext));
    }
  }

  lemma {:induction false} DescendMonotone(prefix: Route, d: Dir, n: nat, level: int, maxDepth: int, ext: string)
    requires n <= |d.entries|
    ensures Subseq(Descend(prefix, d, n, level, maxDepth, ext), Descend(prefix, d, n, level, maxDepth + 1, ext))
    decreases d, 0, n
  {
    if n > 0 {
      DescendMonotone(prefix, d, n - 1, level, maxDepth, ext);
      if d.entries[n - 1].Folder? {
        CollectMonotone(prefix + [n - 1], d.entries[n - 1].dir, level + 1, maxDepth, ext);
      }
      SubseqConcat(Descend(prefix, d, n - 1, level, maxDepth, ext), Descend(prefix, d, n - 1, level, maxDepth + 1, ext),
        Visit(prefix, d, n - 1, level, maxDepth, ext), Visit(prefix, d, n - 1, level, maxDepth + 1, ext));
    }
  }

  function Max(a: int, b: int): int { if a < b then b else a }

  /** How many directory levels lie below `d`. */
  function Height(d: Dir): nat
    decreases d, 1
  {
    HeightUpTo(d, |d.entries|)
  }

  function HeightUpTo(d: Dir, n: nat): nat
    requires n <= |d.entries|
    decreases d, 0, n
  {
    if n == 0 then 0
    else if d.entries[n - 1].Folder? then Max(HeightUpTo(d, n - 1), 1 + Height(d.entries[n - 1].dir))
    else HeightUpTo(d, n - 1)
  }

  lemma {:induction false} HeightAbove(d: Dir, n: nat, i: nat)
    requires i < n <= |d.entries| && d.entries[i].Folder?
    ensures 1 + Height(d.entries[i].dir) <= HeightUpTo(d, n)
  {
    if i < n - 1 {
      HeightAbove(d, n - 1, i);
    }
  }

  /** A limited walk reaches only matches that `rglob` finds too. */
  lemma {:induction false} ReachIsReachAny(d: Dir, r: Route, level: int, maxDepth: int, ext: string)
    requires Reach(d, r, level, maxDepth, ext)
    ensures ReachAny(d, r, ext)
    decreases d
  {
    if 1 < |r| {
      ReachIsReachAny(d.entries[r[0]].dir, r[1..], level + 1, maxDepth, ext);
    }
  }

  /** With at least `Height(d)` levels to go, a limited walk reaches every
      match `rglob` finds. */
  lemma {:induction false} ReachAnyIsReach(d: Dir, r: Route, level: int, maxDepth: int, ext: string)
    requires ReachAny(d, r, ext) && Height(d) <= maxDepth - level
    ensures Reach(d, r, level, maxDepth, ext)
    decreases d
  {
    if 1 < |r| {
      HeightAbove(d, |d.entries|, r[0]);
      ReachAnyIsReach(d.entries[r[0]].dir, r[1..], level + 1, maxDepth, ext);
    }
  }

  /** Once the limit reaches the tree's height, the entries found are exactly
      those of the unlimited scan. */
  lemma Saturation(root: Dir, maxDepth: int, ext: string)
    requires Height(root) <= maxDepth
    ensures forall r :: r in Collect([], root, 0, maxDepth, ext) <==> ReachAny(root, r, ext)
  {
    CollectMembers([], root, 0, maxDepth, ext);
    forall r
      ensures r in Collect([], root, 0, maxDepth, ext) <==> ReachAny(root, r, ext)
    {
      assert r[0..] == r;
      if ReachAny(root, r, ext) {
        ReachAnyIsReach(root, r, 0, maxDepth, ext);
      }
      if Reach(root, r, 0, maxDepth, ext) {
        ReachIsReachAny(root, r, 0, maxDepth, ext);
      }
    }
  }

  // ---------------------------------------------------------------------
  // Error containment

  /** `d` with its sub-directory `i` made unreadable. */
  function DenyAt(d: Dir, i: nat): Dir
    requires i < |d.entries| && d.entries[i].Folder?
  {
    Dir(d.denied, d.entries[i := Folder(d.entries[i].name, Dir(true, d.entries[i].dir.entries))])
  }

  /** `s` without the routes lying strictly below `q`. */
  function DropBelow(s: seq<Route>, q: Route): seq<Route>
  {
    if s == [] then []
    else (if Extends(s[0], q) then [] else [s[0]]) + DropBelow(s[1..], q)
  }

  lemma {:induction false} DropBelowConcat(a: seq<Route>, b: seq<Route>, q: Route)
    ensures DropBelow(a + b, q) == DropBelow(a, q) + DropBelow(b, q)
  {
    if a == [] {
      assert a + b == b;
    } else {
      assert (a + b)[0] == a[0] && (a + b)[1..] == a[1..] + b;
      DropBelowConcat(a[1..], b, q);
    }
  }

  lemma {:induction false} DropBelowNone(s: seq<Route>, q: Route)
    requires forall x :: x in s ==> !Extends(x, q)
    ensures DropBelow(s, q) == s
  {
    if s != [] {
      assert s[0] in s;
      DropBelowNone(s[1..], q);
    }
  }

  lemma {:induction false} DropBelowAll(s: seq<Route>, q: Route)
    requires forall x :: x in s ==> Extends(x, q)
    ensures DropBelow(s, q) == []
  {
    if s != [] {
      assert s[0] in s;
      DropBelowAll(s[1..], q);
    }
  }

  /** A permission error in sub-directory `i` costs exactly the matches below
      it: the handler sits inside that sub-directory's own `collect_files`
      call, so the loop goes on, every sibling's matches still appear, in
      the same order, and the sub-directory itself is still listed when its
      name matches. */
  lemma DenialIsContained(prefix: Route, d: Dir, i: nat, level: int, maxDepth: int, ext: string)
    requires i < |d.entries| && d.entries[i].Folder?
    ensures Collect(prefix, DenyAt(d, i), level, maxDepth, ext) ==
      DropBelow(Collect(prefix, d, level, maxDepth, ext), prefix + [i])
  {
    var e := DenyAt(d, i);
    var q := prefix + [i];
    var g := Glob(prefix, d, ext);
    GlobSameNames(prefix, d, e, ext);
    GlobMembers(prefix, d, ext);
    forall x | x in g
      ensures !Extends(x, q)
    {
    }
    DropBelowNone(g, q);
    if level < maxDepth && !d.denied {
      DescendDenied(prefix, d, i, |d.entries|, level, maxDepth, ext);
      DropBelowConcat(g, Descend(prefix, d, |d.entries|, level, maxDepth, ext), q);
    } else {
      DropBelowConcat(g, [], q);
    }
  }

  lemma {:induction false} DescendDenied(prefix: Route, d: Dir, i: nat, n: nat, level: int, maxDepth: int, ext: string)
    requires i < |d.entries| && d.entries[i].Folder? && n <= |d.entries|
    ensures Descend(prefix, DenyAt(d, i), n, level, maxDepth, ext) ==
      DropBelow(Descend(prefix, d, n, level, maxDepth, ext), prefix + [i])
  {
    if n > 0 {
      DescendDenied(prefix, d, i, n - 1, level, maxDepth, ext);
      DropBelowConcat(Descend(prefix, d, n - 1, level, maxDepth, ext), Visit(prefix, d, n - 1, level, maxDepth, ext), prefix + [i]);
      if n - 1 == i {
        VisitDenied(prefix, d, i, level, maxDepth, ext);
      } else {
        VisitBesideDenied(prefix, d, i, n - 1, level, maxDepth, ext);
      }
    }
  }

  /** The unreadable sub-directory contributes nothing: all it contributed
      before lay below it. */
  lemma VisitDenied(prefix: Route, d: Dir, i: nat, level: int, maxDepth: int, ext: string)
    requires i < |d.entries| && d.entries[i].Folder?
    ensures Visit(prefix, DenyAt(d, i), i, level, maxDepth, ext) ==
      DropBelow(Visit(prefix, d, i, level, maxDepth, ext), prefix + [i])
  {
    var q := prefix + [i];
    var v := Visit(prefix, d, i, level, maxDepth, ext);
    VisitMembers(prefix, d, i, level, maxDepth, ext);
    forall x | x in v
      ensures Extends(x, q)
    {
      LastStep(prefix, i, x);
    }
    DropBelowAll(v, q);
    assert Visit(prefix, DenyAt(d, i), i, level, maxDepth, ext) == [] + [];
  }

  /** Another entry contributes as before, and nothing it contributes lies
      below the unreadable sub-directory. */
  lemma VisitBesideDenied(prefix: Route, d: Dir, i: nat, k: nat, level: int, maxDepth: int, ext: string)
    requires i < |d.entries| && d.entries[i].Folder? && k < |d.entries| && k != i
    ensures Visit(prefix, DenyAt(d, i), k, level, maxDepth, ext) ==
      DropBelow(Visit(prefix, d, k, level, maxDepth, ext), prefix + [i])
  {
    var q := prefix + [i];
    var v := Visit(prefix, d, k, level, maxDepth, ext);
    VisitMembers(prefix, d, k, level, maxDepth, ext);
    forall x | x in v
      ensures !Extends(x, q)
    {
      LastStep(prefix, i, x);
    }
    DropBelowNone(v, q);
    assert DenyAt(d, i).entries[k] == d.entries[k];
  }

  // ---------------------------------------------------------------------
  // Names of what is found

  /** Every match found at any depth is named with the extension. */
  lemma {:induction false} ReachAnyNamed(d: Dir, r: Route, ext: string)
    requires ReachAny(d, r, ext)
    ensures EndsWith(NameAt(d, r), ext)
    decreases d
  {
    if 1 < |r| {
      ReachAnyNamed(d.entries[r[0]].dir, r[1..], ext);
    }
  }

  // ---------------------------------------------------------------------
  // collect_files itself: an accumulating walk

  /** `collect_files(d, level, maxDepth)` run on the shared list `files`:
      `files.extend(glob)`, then, below the depth limit, a loop over
      `iterdir()` recursing into each sub-directory. */
  method CollectFiles(prefix: Route, d: Dir, level: int, maxDepth: int, ext: string, files: seq<Route>)
    returns (out: seq<Route>)
    ensures out == files + Collect(prefix, d, level, maxDepth, ext)
    decreases d
  {
    var own := Glob(prefix, d, ext);
    out := files + own;
    if level < maxDepth {
      if d.denied {
        // iterdir() raises PermissionError; the except clause drops it
        assert Collect(prefix, d, level, maxDepth, ext) == own + [];
      } else {
        var i := 0;
        assert out == files + own + [];
        while i < |d.entries|
          invariant 0 <= i <= |d.entries|
          invariant out == files + own + Descend(prefix, d, i, level, maxDepth, ext)
        {
          ghost var before := out;
          if d.entries[i].Folder? {
            out := CollectFiles(prefix + [i], d.entries[i].dir, level + 1, maxDepth, ext, out);
          }
          assert out == before + Visit(prefix, d, i, level, maxDepth, ext);
          assert out == files + own + (Descend(prefix, d, i, level, maxDepth, ext) + Visit(prefix, d, i, level, maxDepth, ext));
          i := i + 1;
        }
        assert Collect(prefix, d, level, maxDepth, ext) == own + Descend(prefix, d, |d.entries|, level, maxDepth, ext);
      }
    } else {
      assert Collect(prefix, d, level, maxDepth, ext) == own + [];
    }
  }

  // ---------------------------------------------------------------------
  // get_files_by_extension and the decorated request

  /** What `get_files_by_extension(root, ext, depth)` returns: for 0 the
      root's glob; for -1 the `rglob` matches, in an order the library
      decides, so only which entries appear is fixed; otherwise what
      `collect_files(root, 0, depth)` appends. */
  ghost predicate FilesFor(root: Dir, ext: string, depth: int, files: seq<Route>)
  {
    if depth == 0 then files == Glob([], root, ext)
    else if depth == -1 then Distinct(files) && forall r :: r in files <==> ReachAny(root, r, ext)
    else files == Collect([], root, 0, depth, ext)
  }

  method GetFilesByExtension(root: Dir, ext: string, depth: int) returns (files: seq<Route>)
    ensures FilesFor(root, ext, depth, files)
  {
    if depth == 0 {
      files := Glob([], root, ext);
    } else if depth == -1 {
      // rglob: any listing of all matches will do; a walk without a limit is one
      files := CollectFiles([], root, 0, Height(root), ext, []);
      CollectSorted([], root, 0, Height(root), ext);
      SortedDistinct(files);
      Saturation(root, Height(root), ext);
    } else {
      files := CollectFiles([], root, 0, depth, ext, []);
    }
  }

  /** With depth 0 the result is exactly the root's entries whose name ends
      with the extension, each once, in enumeration order. */
  lemma RootOnlyListing(root: Dir, ext: string, files: seq<Route>)
    requires FilesFor(root, ext, 0, files)
    ensures forall r :: r in files <==>
      !root.denied && |r| == 1 && r[0] < |root.entries| && EndsWith(root.entries[r[0]].name, ext)
    ensures forall a, b :: 0 <= a < b < |files| ==> files[a][0] < files[b][0]
  {
    GlobMembers([], root, ext);
  }

  /** Any depth other than -1 yields the pre-order listing of exactly the
      matches within that many levels (none below the root for a depth
      under 1; a depth below -1 acts like 0). */
  lemma LimitedListing(root: Dir, ext: string, depth: int, files: seq<Route>)
    requires depth != -1 && FilesFor(root, ext, depth, files)
    ensures files == Collect([], root, 0, depth, ext)
    ensures depth <= 0 ==> files == Glob([], root, ext)
    ensures Sorted(files)
    ensures forall r :: r in files <==> Reach(root, r, 0, depth, ext)
    ensures forall r :: r in files ==> |r| - 1 <= (if depth > 0 then depth else 0)
  {
    if depth <= 0 {
      NonPositiveLimitIsRootOnly([], root, 0, depth, ext);
    }
    CollectSorted([], root, 0, depth, ext);
    CollectMembers([], root, 0, depth, ext);
    forall r: Route
      ensures r in files <==> Reach(root, r, 0, depth, ext)
    {
      assert r[0..] == r;
    }
    DepthBound(root, depth, ext);
  }

  /** For N >= 0 the result for N is a subsequence of the result for N + 1. */
  lemma DepthMonotone(root: Dir, ext: string, n: nat, small: seq<Route>, large: seq<Route>)
    requires FilesFor(root, ext, n, small) && FilesFor(root, ext, n + 1, large)
    ensures Subseq(small, large)
  {
    NonPositiveLimitIsRootOnly([], root, 0, 0, ext);
    CollectMonotone([], root, 0, n, ext);
  }

  /** Once N reaches the tree's height, the result for N holds exactly the
      entries of the unlimited scan. */
  lemma DepthSaturates(root: Dir, ext: string, n: nat, limited: seq<Route>, unlimited: seq<Route>)
    requires Height(root) <= n
    requires FilesFor(root, ext, n, limited) && FilesFor(root, ext, -1, unlimited)
    ensures forall r :: r in limited <==> r in unlimited
  {
    NonPositiveLimitIsRootOnly([], root, 0, 0, ext);
    Saturation(root, n, ext);
  }

  /** Whatever the depth, every entry returned lies below the root, is named
      with the extension, and is one the unlimited scan finds as well. */
  lemma FilesAreMatches(root: Dir, ext: string, depth: int, files: seq<Route>)
    requires FilesFor(root, ext, depth, files)
    ensures forall r :: r in files ==> ReachAny(root, r, ext) && EndsWith(NameAt(root, r), ext)
  {
    if depth != -1 {
      LimitedListing(root, ext, depth, files);
      forall r | r in files
        ensures ReachAny(root, r, ext)
      {
        ReachIsReachAny(root, r, 0, depth, ext);
      }
    }
    forall r | r in files
      ensures EndsWith(NameAt(root, r), ext)
    {
      ReachAnyNamed(root, r, ext);
    }
  }

  /** The unlimited scan finds everything a scan of any other depth finds,
      in particular every match directly in the root. */
  lemma UnlimitedCoversLimited(root: Dir, ext: string, depth: int, limited: seq<Route>, unlimited: seq<Route>)
    requires FilesFor(root, ext, depth, limited) && FilesFor(root, ext, -1, unlimited)
    ensures forall r :: r in limited ==> r in unlimited
  {
    FilesAreMatches(root, ext, depth, limited);
  }

  /** The outcome `process_and_print_files(state, ext, depth)` must have: the
      decorators' verdict, or the found files with their names and stems. */
  ghost predicate Admissible(state: PathState, ext: string, depth: int, o: Outcome)
  {
    match Guard(state, ext)
    case Some(why) => o == Skipped(why)
    case None => state.Directory? && o.Listed? && FilesFor(state.root, ext, depth, o.files) && o == Report(state.root, o.files)
  }

  /** `process_and_print_files` behind its two decorators. */
  method ProcessFiles(state: PathState, ext: string, depth: int) returns (o: Outcome)
    ensures Admissible(state, ext, depth, o)
  {
    match Guard(state, ext) {
      case Some(why) =>
        o := Skipped(why);
      case None =>
        var files := GetFilesByExtension(state.root, ext, depth);
        o := Report(state.root, files);
    }
  }

  /** The names and stems lists are aligned with the files: entry `i` of each
      belongs to file `i`; every name ends with the extension, and each stem
      is its name without the extension (a name that is only the extension,
      a hidden file, is its own stem). */
  lemma ListedNamesAndStems(state: PathState, ext: string, depth: int, o: Outcome)
    requires Admissible(state, ext, depth, o) && o.Listed?
    ensures |o.names| == |o.files| && |o.stems| == |o.files|
    ensures forall i :: 0 <= i < |o.files| ==>
      o.names[i] == NameAt(state.root, o.files[i]) && EndsWith(o.names[i], ext) &&
      (|o.names[i]| > |ext| ==> o.stems[i] + ext == o.names[i]) &&
      (|o.names[i]| == |ext| ==> o.stems[i] == o.names[i])
  {
    FilesAreMatches(state.root, ext, depth, o.files);
    AcceptedExtensionIsPlain(ext);
    forall i | 0 <= i < |o.files|
      ensures EndsWith(o.names[i], ext)
    {
      assert o.files[i] in o.files;
    }
    forall i | 0 <= i < |o.files|
      ensures (|o.names[i]| > |ext| ==> o.stems[i] + ext == o.names[i]) && (|o.names[i]| == |ext| ==> o.stems[i] == o.names[i])
    {
      StemDropsExtension(o.names[i], ext);
    }
  }

  /** `scan_directories`: one request per element of
      `itertools.product(pairs, exts)`, in the product's order; outcome `k`
      is an admissible outcome of request `k`. */
  method ScanDirectories(pairs: seq<(PathState, int)>, exts: seq<string>) returns (outcomes: seq<Outcome>)
    ensures |outcomes| == |Product(pairs, exts)|
    ensures forall k :: 0 <= k < |outcomes| ==> Answers(Product(pairs, exts)[k], outcomes[k])
  {
    var requests := Product(pairs, exts);
    outcomes := [];
    for k := 0 to |requests|
      invariant |outcomes| == k
      invariant forall m :: 0 <= m < k ==> Answers(requests[m], outcomes[m])
    {
      var o := ProcessFiles(requests[k].0.0, requests[k].1, requests[k].0.1);
      outcomes := outcomes + [o];
    }
  }

  /** `o` is an admissible outcome of the request `((directory, depth), extension)`. */
  ghost predicate Answers(request: ((PathState, int), string), o: Outcome)
  {
    Admissible(request.0.0, request.1, request.0.1, o)
  }

  /** Directory-major order: the outcome for pair `i` and extension `j` is
      number `i * |exts| + j`. */
  lemma ScanOrder(pairs: seq<(PathState, int)>, exts: seq<string>, outcomes: seq<Outcome>, i: int, j: int)
    requires |outcomes| == |Product(pairs, exts)|
    requires forall k :: 0 <= k < |outcomes| ==> Answers(Product(pairs, exts)[k], outcomes[k])
    requires 0 <= i < |pairs| && 0 <= j < |exts|
    ensures 0 <= i * |exts| + j < |outcomes|
    ensures Admissible(pairs[i].0, exts[j], pairs[i].1, outcomes[i * |exts| + j])
  {
    ProductAt(pairs, exts, i, j);
    var k := i * |exts| + j;
    var request := Product(pairs, exts)[k];
    assert Answers(request, outcomes[k]);
    assert request == (pairs[i], exts[j]);
  }
}
