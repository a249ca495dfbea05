/** Generic facts about sequences used by the scanners. */
module Sequences {

  predicate Distinct<T(==)>(s: seq<T>)
  {
    forall i, j :: 0 <= i < j < |s| ==> s[i] != s[j]
  }

  /** `a` is obtained from `b` by deleting some of its elements. */
  predicate Subseq<T(==)>(a: seq<T>, b: seq<T>)
    decreases |b|
  {
    a == [] || (b != [] && ((a[0] == b[0] && Subseq(a[1..], b[1..])) || Subseq(a, b[1..])))
  }

  lemma {:induction false} SubseqRefl<T>(a: seq<T>)
    ensures Subseq(a, a)
    decreases |a|
  {
    if a != [] {
      SubseqRefl(a[1..]);
    }
  }

  lemma {:induction false} SubseqPad<T>(a: seq<T>, b: seq<T>, c: seq<T>)
    requires Subseq(a, c)
    ensures Subseq(a, b + c)
    decreases |b|
  {
    if b == [] {
      assert b + c == c;
    } else if a != [] {
      SubseqPad(a, b[1..], c);
      assert (b + c)[1..] == b[1..] + c;
    }
  }

  /** Subsequences of the parts give a subsequence of the concatenation. */
  lemma {:induction false} SubseqConcat<T>(a: seq<T>, b: seq<T>, c: seq<T>, d: seq<T>)
    requires Subseq(a, b) && Subseq(c, d)
    ensures Subseq(a + c, b + d)
    decreases |b|
  {
    if b == [] {
      assert a == [] && a + c == c && b + d == d;
    } else if a == [] {
      SubseqPad(c, b, d);
      assert a + c == c;
    } else if a[0] == b[0] && Subseq(a[1..], b[1..]) {
      SubseqConcat(a[1..], b[1..], c, d);
      assert (a + c)[1..] == a[1..] + c;
      assert (b + d)[1..] == b[1..] + d;
    } else {
      SubseqConcat(a, b[1..], c, d);
      assert (b + d)[1..] == b[1..] + d;
    }
  }

  lemma {:induction false} IndexInProduct(i: int, j: int, n: int, m: int)
    requires 0 <= i < n && 0 <= j < m
    ensures 0 <= i * m + j < n * m
    decreases n - i
  {
    assert (i + 1) * m == i * m + m;
    if i + 1 < n {
      IndexInProduct(i + 1, j, n, m);
    }
  }

  /** `itertools.product(xs, ys)`: every pair, the first component varying slowest. */
  function Product<A, B>(xs: seq<A>, ys: seq<B>): (r: seq<(A, B)>)
    ensures |r| == |xs| * |ys|
    decreases |xs|
  {
    if xs == [] then []
    else
      assert |xs| * |ys| == (|xs| - 1) * |ys| + |ys|;
      seq(|ys|, j requires 0 <= j < |ys| => (xs[0], ys[j])) + Product(xs[1..], ys)
  }

  /** Pair `(xs[i], ys[j])` sits at position `i * |ys| + j`: the order is row-major. */
  lemma {:induction false} ProductAt<A, B>(xs: seq<A>, ys: seq<B>, i: int, j: int)
    requires 0 <= i < |xs| && 0 <= j < |ys|
    ensures 0 <= i * |ys| + j < |Product(xs, ys)|
    ensures Product(xs, ys)[i * |ys| + j] == (xs[i], ys[j])
    decreases |xs|
  {
    IndexInProduct(i, j, |xs|, |ys|);
    if i > 0 {
      ProductAt(xs[1..], ys, i - 1, j);
      assert i * |ys| == (i - 1) * |ys| + |ys|;
      assert xs[1..][i - 1] == xs[i];
    }
  }
}
