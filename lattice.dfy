/** Lattice states of the 2D Ising model: rectangular grids of spins with open
    (non-wrapping) boundaries. A state is handled either as a value (`Grid`,
    used by the specifications) or as a two-dimensional array (what the
    simulation reads and mutates); `Cells` gives the value an array holds. */
module Lattice {

  /** Row `i`, column `j` of a state is `g[i][j]`. */
  type Grid = seq<seq<int>>

  /** Number of columns; a grid with no rows has none. */
  function Width(g: Grid): nat {
    if |g| == 0 then 0 else |g[0]|
  }

  /** Every row has the same length, as in an N×M array. */
  predicate IsRect(g: Grid) {
    forall i | 0 <= i < |g| :: |g[i]| == Width(g)
  }

  predicate IsSpin(x: int) {
    x == 1 || x == -1
  }

  /** A rectangular grid holding only the values +1 and -1. */
  predicate IsSpinGrid(g: Grid) {
    IsRect(g) && forall i, j | 0 <= i < |g| && 0 <= j < |g[i]| :: IsSpin(g[i][j])
  }

  predicate InGrid(g: Grid, i: int, j: int) {
    0 <= i < |g| && 0 <= j < |g[i]|
  }

  /** The state with the spin at (i, j) negated and every other spin kept. */
  function Flip(g: Grid, i: int, j: int): (f: Grid)
    requires InGrid(g, i, j)
    ensures |f| == |g| && forall k | 0 <= k < |g| :: |f[k]| == |g[k]|
    ensures IsRect(g) ==> IsRect(f) && Width(f) == Width(g)
    ensures forall k, l | InGrid(g, k, l) ::
      f[k][l] == if k == i && l == j then -g[k][l] else g[k][l]
    ensures IsSpinGrid(g) ==> IsSpinGrid(f)
  {
    g[i := g[i][j := -g[i][j]]]
  }

  /** Negation of a row, element by element. */
  function NegRow(r: seq<int>): (n: seq<int>)
    ensures |n| == |r| && forall j | 0 <= j < |r| :: n[j] == -r[j]
  {
    seq(|r|, j requires 0 <= j < |r| => -r[j])
  }

  /** Every spin negated (numpy's unary minus on a state). */
  function Negated(g: Grid): (n: Grid)
    ensures |n| == |g| && forall i | 0 <= i < |g| :: n[i] == NegRow(g[i])
    ensures IsRect(g) ==> IsRect(n) && Width(n) == Width(g)
    ensures IsSpinGrid(g) ==> IsSpinGrid(n)
  {
    seq(|g|, i requires 0 <= i < |g| => NegRow(g[i]))
  }

  /** The N×N grid whose every cell is `c`. */
  function Uniform(n: nat, c: int): (u: Grid)
    ensures |u| == n && IsRect(u) && Width(u) == n
    ensures forall i, j | 0 <= i < n && 0 <= j < n :: u[i][j] == c
  {
    seq(n, _ => seq(n, _ => c))
  }

  /** The neighbour offsets visited when computing a local field, in the
      order north, south, west, east. */
  const Offsets: seq<(int, int)> := [(-1, 0), (1, 0), (0, -1), (0, 1)]

  /** The spin of the neighbour of (i, j) at offset `d`, or 0 when that
      neighbour lies outside the grid (open boundaries). */
  function NeighbourSpin(g: Grid, i: int, j: int, d: (int, int)): int
    requires IsRect(g) && InGrid(g, i, j)
  {
    if 0 <= i + d.0 < |g| && 0 <= j + d.1 < Width(g) then g[i + d.0][j + d.1] else 0
  }

  /** Sum of the spins of the first `k` neighbours in `Offsets`. */
  function FieldUpTo(g: Grid, i: int, j: int, k: nat): int
    requires IsRect(g) && InGrid(g, i, j) && k <= |Offsets|
  {
    if k == 0 then 0 else FieldUpTo(g, i, j, k - 1) + NeighbourSpin(g, i, j, Offsets[k - 1])
  }

  /** Sum of the spins of the in-grid neighbours of (i, j). */
  function Field(g: Grid, i: int, j: int): (h: int)
    requires IsRect(g) && InGrid(g, i, j)
    ensures h == (if 0 < i then g[i - 1][j] else 0) + (if i + 1 < |g| then g[i + 1][j] else 0)
               + (if 0 < j then g[i][j - 1] else 0) + (if j + 1 < Width(g) then g[i][j + 1] else 0)
  {
    assert FieldUpTo(g, i, j, 1) == NeighbourSpin(g, i, j, (-1, 0));
    assert FieldUpTo(g, i, j, 2) == NeighbourSpin(g, i, j, (-1, 0)) + NeighbourSpin(g, i, j, (1, 0));
    assert FieldUpTo(g, i, j, 3) == FieldUpTo(g, i, j, 2) + NeighbourSpin(g, i, j, (0, -1));
    assert FieldUpTo(g, i, j, 4) == FieldUpTo(g, i, j, 3) + NeighbourSpin(g, i, j, (0, 1));
    FieldUpTo(g, i, j, |Offsets|)
  }

  /** The state an array holds, as a value. */
  ghost function Cells(a: array2<int>): (g: Grid)
    reads a
    ensures |g| == a.Length0 && forall i | 0 <= i < |g| :: |g[i]| == a.Length1
    ensures IsRect(g) && (a.Length0 > 0 ==> Width(g) == a.Length1)
    ensures forall i, j | 0 <= i < a.Length0 && 0 <= j < a.Length1 :: g[i][j] == a[i, j]
  {
    seq(a.Length0, i requires 0 <= i < a.Length0 reads a =>
      seq(a.Length1, j requires 0 <= j < a.Length1 reads a => a[i, j]))
  }

  /** A fresh array holding the same state (numpy's `copy`). */
  method Copy(a: array2<int>) returns (b: array2<int>)
    ensures fresh(b) && b.Length0 == a.Length0 && b.Length1 == a.Length1
    ensures Cells(b) == Cells(a)
  {
    b := new int[a.Length0, a.Length1]((i, j) reads a =>
      if 0 <= i < a.Length0 && 0 <= j < a.Length1 then a[i, j] else 0);
    assert forall i | 0 <= i < a.Length0 :: Cells(b)[i] == Cells(a)[i];
  }

  /** Negates the spin at (i, j) in place (`state[i, j] *= -1`). */
  method FlipInPlace(a: array2<int>, i: nat, j: nat)
    requires i < a.Length0 && j < a.Length1
    modifies a
    ensures Cells(a) == Flip(old(Cells(a)), i, j)
  {
    ghost var before := Cells(a);
    a[i, j] := a[i, j] * -1;
    assert forall k | 0 <= k < a.Length0 :: Cells(a)[k] == Flip(before, i, j)[k];
  }
}
