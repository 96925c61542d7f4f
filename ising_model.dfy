/** The unnormalised 2D Ising model with open boundaries (src/MCFF/ising_model.py):
    uniform states, the total energy computed by a double loop and by array
    slices, and the local energy change of a single spin flip. */
module IsingModel {
  import opened Lattice
  import opened Bonds
  import opened NumpyOps

  /** The N×N all up state. */
  function AllUpState(n: nat): (g: Grid)
    ensures |g| == n && IsSpinGrid(g) && Width(g) == n
    ensures forall i, j | 0 <= i < n && 0 <= j < n :: g[i][j] == 1
  {
    Uniform(n, 1)
  }

  /** The N×N all down state, built as the negation of the all up state. */
  function AllDownState(n: nat): (g: Grid)
    ensures |g| == n && IsSpinGrid(g) && Width(g) == n
    ensures forall i, j | 0 <= i < n && 0 <= j < n :: g[i][j] == -1
  {
    Negated(AllUpState(n))
  }

  /** The energy by the nested loop over every cell, adding its bond to the
      neighbour below and its bond to the neighbour on the right. */
  method Energy(state: array2<int>) returns (e: int)
    ensures e == BondEnergy(Cells(state))
    ensures e == EnergyNumpy(Cells(state))
  {
    ghost var g := Cells(state);
    var E := 0;
    var N, M := state.Length0, state.Length1;
    for i := 0 to N
      invariant E == -(VerticalUpTo(g, i) + HorizontalUpTo(g, i))
    {
      for j := 0 to M
        invariant E == -(VerticalUpTo(g, i) + HorizontalUpTo(g, i)
                         + (if i + 1 < N then DotUpTo(g[i], g[i + 1], j) else 0)
                         + ChainUpTo(g[i], j))
      {
        if 0 <= i + 1 < N {
          E := E - state[i, j] * state[i + 1, j];
        }
        if 0 <= j + 1 < M {
          E := E - state[i, j] * state[i, j + 1];
        }
      }
    }
    e := 2 * E;
  }

  /** The energy by array slices: the products of each row with the next
      and of each column with the next, summed. On every rectangular grid,
      1×M, N×1 and empty ones included, it is the bond energy: each
      unordered neighbour pair is counted once. */
  function EnergyNumpy(g: Grid): (e: int)
    requires IsRect(g)
    ensures e == BondEnergy(g)
  {
    SliceSums(g);
    var E := -Total(Times(ButLast(g), Tail(g))) - Total(Times(ColumnsButLast(g), ColumnsTail(g)));
    2 * E
  }

  lemma {:induction false} SumPointwise(a: seq<int>, b: seq<int>, k: nat)
    requires |a| == |b| && k <= |a|
    ensures SumUpTo(Pointwise(a, b), k) == DotUpTo(a, b, k)
  {
    if k > 0 {
      SumPointwise(a, b, k - 1);
    }
  }

  lemma {:induction false} SumShiftedProducts(p: seq<int>, r: seq<int>, k: nat)
    requires |p| + 1 == |r| && k <= |p|
    requires forall l | 0 <= l < |p| :: p[l] == r[l] * r[l + 1]
    ensures SumUpTo(p, k) == ChainUpTo(r, k)
  {
    if k > 0 {
      SumShiftedProducts(p, r, k - 1);
    }
  }

  /** The horizontal products of one row sum to its chain of bonds. */
  lemma RowShiftedProducts(r: seq<int>)
    ensures Sum(Pointwise(ButLast(r), Tail(r))) == Chain(r)
  {
    if |r| > 0 {
      SumShiftedProducts(Pointwise(ButLast(r), Tail(r)), r, |r| - 1);
    }
  }

  lemma {:induction false} TotalRowPairs(g: Grid, k: nat)
    requires IsRect(g) && 0 < |g| && k < |g|
    ensures TotalUpTo(Times(ButLast(g), Tail(g)), k) == VerticalUpTo(g, k)
  {
    if k > 0 {
      TotalRowPairs(g, k - 1);
      assert Times(ButLast(g), Tail(g))[k - 1] == Pointwise(g[k - 1], g[k]);
      SumPointwise(g[k - 1], g[k], |g[k]|);
    }
  }

  lemma {:induction false} TotalColumnPairs(g: Grid, k: nat)
    requires IsRect(g) && k <= |g|
    ensures TotalUpTo(Times(ColumnsButLast(g), ColumnsTail(g)), k) == HorizontalUpTo(g, k)
  {
    if k > 0 {
      TotalColumnPairs(g, k - 1);
      RowShiftedProducts(g[k - 1]);
    }
  }

  /** The summed row-pair and column-pair slices are the vertical and the
      horizontal bonds. */
  lemma SliceSums(g: Grid)
    requires IsRect(g)
    ensures Total(Times(ButLast(g), Tail(g))) + Total(Times(ColumnsButLast(g), ColumnsTail(g))) == BondSum(g)
  {
    TotalColumnPairs(g, |g|);
    var vertical := Times(ButLast(g), Tail(g));
    if |g| > 0 {
      TotalRowPairs(g, |g| - 1);
      assert Total(vertical) == TotalUpTo(vertical, |g| - 1);
      assert VerticalUpTo(g, |g|) == VerticalUpTo(g, |g| - 1);
    }
  }

  /** The change in energy if the spin at (i, j) were flipped, from its
      north, south, west and east neighbours that lie inside the grid. */
  method EnergyDifference(state: array2<int>, i: nat, j: nat) returns (d: int)
    requires i < state.Length0 && j < state.Length1
    ensures d == FlipDelta(Cells(state), i, j)
    ensures BondEnergy(Flip(Cells(state), i, j)) == BondEnergy(Cells(state)) + d
    ensures IsSpinGrid(Cells(state)) ==> -16 <= d <= 16
  {
    ghost var g := Cells(state);
    var N, M := state.Length0, state.Length1;
    var h := 0;
    for k := 0 to |Offsets|
      invariant h == FieldUpTo(g, i, j, k)
    {
      var (di, dj) := Offsets[k];
      if 0 <= i + di < N && 0 <= j + dj < M {
        h := h + state[i + di, j + dj];
      }
    }
    d := 4 * state[i, j] * h;
    FlipEnergy(g, i, j);
    if IsSpinGrid(g) {
      FlipDeltaBound(g, i, j);
    }
  }

  /** Flipping a spin of a uniform state costs 4 per in-grid neighbour; the
      (0, 0) corner of the 4×4 all up state gives 4 * 1 * (1 + 1) = 8. */
  lemma UniformFlipDelta(n: nat, i: nat, j: nat)
    requires i < n && j < n
    ensures FlipDelta(AllUpState(n), i, j)
         == 4 * ((if 0 < i then 1 else 0) + (if i + 1 < n then 1 else 0)
               + (if 0 < j then 1 else 0) + (if j + 1 < n then 1 else 0))
    ensures n == 4 && i == 0 && j == 0 ==> FlipDelta(AllUpState(n), i, j) == 8
  {
  }

  /** Closed form for the L×L all up and all down states. */
  lemma UniformStateEnergy(n: nat)
    ensures BondEnergy(AllUpState(n)) == -(4 * (n - 2) * (n - 2) + 12 * (n - 2) + 8)
    ensures BondEnergy(AllDownState(n)) == -(4 * (n - 2) * (n - 2) + 12 * (n - 2) + 8)
    ensures EnergyNumpy(AllUpState(n)) == EnergyNumpy(AllDownState(n)) == -4 * n * (n - 1)
  {
    UniformEnergy(n, 1);
    NegatedEnergy(AllUpState(n));
  }

  /** The vectorised energy is also unchanged by a global spin flip. */
  lemma EnergyNumpyNegated(g: Grid)
    requires IsRect(g)
    ensures EnergyNumpy(Negated(g)) == EnergyNumpy(g)
  {
    NegatedEnergy(g);
  }
}
