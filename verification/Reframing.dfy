/** Cutting a byte stream into equal slices, leaving at least `keep` bytes behind. */
module Reframing {
  import opened Streams

  function Slices(b: Block, n: nat, keep: nat): (cut: seq<Block>)
    requires n > 0
    decreases |b|
  {
    if |b| < n + keep then [] else [b[..n]] + Slices(b[n..], n, keep)
  }

  function Residue(b: Block, n: nat, keep: nat): (rest: Block)
    requires n > 0
    decreases |b|
  {
    if |b| < n + keep then b else Residue(b[n..], n, keep)
  }

  ghost predicate AllSized(cut: seq<Block>, n: nat) {
    forall i :: 0 <= i < |cut| ==> |cut[i]| == n
  }

  lemma FlattenOne(b: Block)
    ensures Flatten([b]) == b
  {
    FlattenSnoc([], b);
    assert [] + [b] == [b];
  }

  /** Nothing is lost, invented or reordered, and the residue pins the number of slices down. */
  lemma {:induction false} SlicesPartition(b: Block, n: nat, keep: nat)
    requires n > 0
    ensures Flatten(Slices(b, n, keep)) + Residue(b, n, keep) == b
    ensures AllSized(Slices(b, n, keep), n)
    ensures |Residue(b, n, keep)| < n + keep && (|b| >= keep ==> |Residue(b, n, keep)| >= keep)
    ensures |b| == |Slices(b, n, keep)| * n + |Residue(b, n, keep)|
    decreases |b|
  {
    if |b| >= n + keep {
      var rest := Slices(b[n..], n, keep);
      SlicesPartition(b[n..], n, keep);
      FlattenConcat([b[..n]], rest);
      FlattenOne(b[..n]);
      assert b == b[..n] + b[n..];
      assert (1 + |rest|) * n == n + |rest| * n;
    }
  }

  /** Cutting what has arrived and then the rest is cutting everything at once. */
  lemma {:induction false} SlicesAppend(a: Block, b: Block, n: nat, keep: nat)
    requires n > 0
    ensures Slices(a + b, n, keep) == Slices(a, n, keep) + Slices(Residue(a, n, keep) + b, n, keep)
    ensures Residue(a + b, n, keep) == Residue(Residue(a, n, keep) + b, n, keep)
    decreases |a|
  {
    if |a| >= n + keep {
      assert (a + b)[..n] == a[..n] && (a + b)[n..] == a[n..] + b;
      SlicesAppend(a[n..], b, n, keep);
    }
  }

  /** Equal slices of the same stream are the same slices. */
  lemma {:induction false} SlicesUnique(x: seq<Block>, y: seq<Block>, n: nat)
    requires n > 0 && AllSized(x, n) && AllSized(y, n) && Flatten(x) == Flatten(y)
    ensures x == y
  {
    FlattenSize(x, n);
    FlattenSize(y, n);
    SameCount(|x|, |y|, n);
    if x != [] {
      var x', y' := x[..|x| - 1], y[..|y| - 1];
      FlattenSize(x', n);
      FlattenSize(y', n);
      assert Flatten(x') == Flatten(x)[..|x'| * n] && Flatten(y') == Flatten(y)[..|y'| * n];
      assert x[|x| - 1] == Flatten(x)[|x'| * n..] && y[|y| - 1] == Flatten(y)[|y'| * n..];
      SlicesUnique(x', y', n);
      assert x == x' + [x[|x| - 1]] && y == y' + [y[|y| - 1]];
    }
  }

  /** A stream that is a whole number of slices is cut up completely. */
  lemma {:induction false} SlicesExact(b: Block, n: nat, k: nat)
    requires n > 0 && |b| == n * k
    ensures |Slices(b, n, 0)| == k && Flatten(Slices(b, n, 0)) == b && AllSized(Slices(b, n, 0), n)
  {
    SlicesPartition(b, n, 0);
    var r := Residue(b, n, 0);
    assert |r| < n && (k - |Slices(b, n, 0)|) * n == |r|;
    NoMultipleBelow(k - |Slices(b, n, 0)|, n, |r|);
  }

  lemma NoMultipleBelow(d: int, n: nat, r: nat)
    requires n > 0 && r < n && d * n == r
    ensures d == 0 && r == 0
  {
    assert d >= 1 ==> d * n >= n;
    assert d <= -1 ==> d * n + n <= 0;
  }

  lemma SameCount(a: nat, b: nat, n: nat)
    requires n > 0 && a * n == b * n
    ensures a == b
  {
    assert (a - b) * n == 0;
  }

  lemma {:induction false} FlattenSize(x: seq<Block>, n: nat)
    requires AllSized(x, n)
    ensures |Flatten(x)| == |x| * n
  {
    if x != [] {
      FlattenSize(x[..|x| - 1], n);
      assert |x| * n == (|x| - 1) * n + n;
    }
  }
}
