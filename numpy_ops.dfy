/** The few numpy array operations the vectorised energy uses, on grid
    values: slicing off the last or the first row or column, elementwise
    multiplication and summation. */
module NumpyOps {
  import opened Lattice

  /** `s[:-1]`: everything but the last element (empty stays empty). */
  function ButLast<T>(s: seq<T>): (r: seq<T>)
    ensures |r| == if |s| == 0 then 0 else |s| - 1
    ensures forall k | 0 <= k < |r| :: r[k] == s[k]
  {
    if |s| == 0 then [] else s[..|s| - 1]
  }

  /** `s[1:]`: everything but the first element (empty stays empty). */
  function Tail<T>(s: seq<T>): (r: seq<T>)
    ensures |r| == if |s| == 0 then 0 else |s| - 1
    ensures forall k | 0 <= k < |r| :: r[k] == s[k + 1]
  {
    if |s| == 0 then [] else s[1..]
  }

  /** `g[:, :-1]` */
  function ColumnsButLast(g: Grid): (r: Grid)
    ensures |r| == |g| && forall i | 0 <= i < |g| :: r[i] == ButLast(g[i])
  {
    seq(|g|, i requires 0 <= i < |g| => ButLast(g[i]))
  }

  /** `g[:, 1:]` */
  function ColumnsTail(g: Grid): (r: Grid)
    ensures |r| == |g| && forall i | 0 <= i < |g| :: r[i] == Tail(g[i])
  {
    seq(|g|, i requires 0 <= i < |g| => Tail(g[i]))
  }

  /** Elementwise product of two rows of equal length. */
  function Pointwise(a: seq<int>, b: seq<int>): (r: seq<int>)
    requires |a| == |b|
    ensures |r| == |a| && forall j | 0 <= j < |a| :: r[j] == a[j] * b[j]
  {
    seq(|a|, j requires 0 <= j < |a| => a[j] * b[j])
  }

  /** `a * b` on two grids of the same shape. */
  function Times(a: Grid, b: Grid): (r: Grid)
    requires |a| == |b| && forall i | 0 <= i < |a| :: |a[i]| == |b[i]|
    ensures |r| == |a| && forall i | 0 <= i < |a| :: r[i] == Pointwise(a[i], b[i])
  {
    seq(|a|, i requires 0 <= i < |a| => Pointwise(a[i], b[i]))
  }

  /** Sum of the first `k` entries of a row, added from the back. */
  function SumUpTo(r: seq<int>, k: nat): int
    requires k <= |r|
  {
    if k == 0 then 0 else SumUpTo(r, k - 1) + r[k - 1]
  }

  /** Sum of a row, added from the front. */
  function SumFront(r: seq<int>): int {
    if |r| == 0 then 0 else r[0] + SumFront(r[1..])
  }

  lemma {:induction false} SumSplit(r: seq<int>, k: nat)
    requires k <= |r|
    ensures SumUpTo(r, k) + SumFront(r[k..]) == SumFront(r)
  {
    if k == 0 {
      assert r[0..] == r;
    } else {
      SumSplit(r, k - 1);
      assert r[k - 1..][1..] == r[k..];
    }
  }

  /** `np.sum(r)` of a row: the order the entries are added in does not
      matter, from the back or from the front gives the same total. */
  function Sum(r: seq<int>): (s: int)
    ensures s == SumFront(r)
  {
    SumSplit(r, |r|);
    assert r[|r|..] == [];
    SumUpTo(r, |r|)
  }

  lemma {:induction false} SumFrontConcat(a: seq<int>, b: seq<int>)
    ensures SumFront(a + b) == SumFront(a) + SumFront(b)
  {
    if |a| == 0 {
      assert a + b == b;
    } else {
      SumFrontConcat(a[1..], b);
      assert (a + b)[1..] == a[1..] + b;
    }
  }

  /** Sum of every entry of the first `k` rows. */
  function TotalUpTo(g: Grid, k: nat): int
    requires k <= |g|
  {
    if k == 0 then 0 else TotalUpTo(g, k - 1) + Sum(g[k - 1])
  }

  /** The first `k` rows laid end to end, in row-major order. */
  function FlattenUpTo(g: Grid, k: nat): seq<int>
    requires k <= |g|
  {
    if k == 0 then [] else FlattenUpTo(g, k - 1) + g[k - 1]
  }

  lemma {:induction false} TotalFlattened(g: Grid, k: nat)
    requires k <= |g|
    ensures TotalUpTo(g, k) == SumFront(FlattenUpTo(g, k))
  {
    if k > 0 {
      var front := FlattenUpTo(g, k - 1);
      TotalFlattened(g, k - 1);
      SumFrontConcat(front, g[k - 1]);
      assert FlattenUpTo(g, k) == front + g[k - 1];
      assert TotalUpTo(g, k) == TotalUpTo(g, k - 1) + Sum(g[k - 1]);
    }
  }

  /** `np.sum(g)`: the sum of every entry of the array flattened in
      row-major order. */
  function Total(g: Grid): (t: int)
    ensures t == SumFront(FlattenUpTo(g, |g|))
  {
    TotalFlattened(g, |g|);
    TotalUpTo(g, |g|)
  }
}
