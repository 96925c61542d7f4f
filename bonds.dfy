/** The nearest-neighbour bonds of an open-boundary lattice and the Ising
    energy built from them. Every unordered pair of adjacent sites is one
    bond: the vertical bond between (i, j) and (i + 1, j) and the horizontal
    bond between (i, j) and (i, j + 1). The energy is minus twice the sum of
    s_a * s_b over all bonds. */
module Bonds {
  import opened Lattice

  /** Sum of a[l] * b[l] over l < k. */
  function DotUpTo(a: seq<int>, b: seq<int>, k: nat): int
    requires k <= |a| && k <= |b|
  {
    if k == 0 then 0 else DotUpTo(a, b, k - 1) + a[k - 1] * b[k - 1]
  }

  /** The vertical bonds between two adjacent rows. */
  function Dot(a: seq<int>, b: seq<int>): int
    requires |a| == |b|
  {
    DotUpTo(a, b, |a|)
  }

  /** Sum of r[l] * r[l + 1] over l < k with l + 1 still inside the row. */
  function ChainUpTo(r: seq<int>, k: nat): int
    requires k <= |r|
  {
    if k == 0 then 0 else ChainUpTo(r, k - 1) + (if k < |r| then r[k - 1] * r[k] else 0)
  }

  /** The horizontal bonds within one row. */
  function Chain(r: seq<int>): int {
    ChainUpTo(r, |r|)
  }

  /** Vertical bonds leaving rows 0 .. k - 1 downwards. */
  function VerticalUpTo(g: Grid, k: nat): int
    requires IsRect(g) && k <= |g|
  {
    if k == 0 then 0 else VerticalUpTo(g, k - 1) + (if k < |g| then Dot(g[k - 1], g[k]) else 0)
  }

  /** Horizontal bonds within rows 0 .. k - 1. */
  function HorizontalUpTo(g: Grid, k: nat): int
    requires k <= |g|
  {
    if k == 0 then 0 else HorizontalUpTo(g, k - 1) + Chain(g[k - 1])
  }

  /** Sum of s_a * s_b over every bond, each unordered pair once. */
  function BondSum(g: Grid): int
    requires IsRect(g)
  {
    VerticalUpTo(g, |g|) + HorizontalUpTo(g, |g|)
  }

  /** The Ising energy of a state with open boundaries (coupling scaled by 2). */
  function BondEnergy(g: Grid): int
    requires IsRect(g)
  {
    -2 * BondSum(g)
  }

  /** The energy change caused by flipping the spin at (i, j), computed from
      the in-grid neighbours only. */
  function FlipDelta(g: Grid, i: int, j: int): int
    requires IsRect(g) && InGrid(g, i, j)
  {
    4 * g[i][j] * Field(g, i, j)
  }

  // ---------------------------------------------------------------------
  // Flipping one spin

  lemma {:induction false} DotUpToFlip(a: seq<int>, b: seq<int>, q: nat, k: nat)
    requires |a| == |b| && q < |a| && k <= |a|
    ensures DotUpTo(a[q := -a[q]], b, k) == DotUpTo(a, b, k) - (if q < k then 2 * a[q] * b[q] else 0)
    ensures DotUpTo(a, b[q := -b[q]], k) == DotUpTo(a, b, k) - (if q < k then 2 * a[q] * b[q] else 0)
  {
    if k > 0 {
      DotUpToFlip(a, b, q, k - 1);
    }
  }

  /** Negating one entry of a row changes its chain by the bonds that touch it. */
  lemma {:induction false} ChainUpToFlip(r: seq<int>, q: nat, k: nat)
    requires q < |r| && k <= |r|
    ensures ChainUpTo(r[q := -r[q]], k) == ChainUpTo(r, k)
      - (if 0 < q <= k then 2 * r[q - 1] * r[q] else 0)
      - (if q < k && q + 1 < |r| then 2 * r[q] * r[q + 1] else 0)
  {
    if k > 0 {
      ChainUpToFlip(r, q, k - 1);
      var r' := r[q := -r[q]];
      if k < |r| {
        if k - 1 == q {
          assert r'[k - 1] == -r[q] && r'[k] == r[q + 1];
          NegatedProduct(r[q], r[q + 1]);
        } else if k == q {
          assert r'[k - 1] == r[q - 1] && r'[k] == -r[q];
          NegatedProduct(r[q - 1], r[q]);
        } else {
          assert r'[k - 1] == r[k - 1] && r'[k] == r[k];
        }
      }
    }
  }

  lemma NegatedProduct(a: int, b: int)
    ensures -a * b == a * b - 2 * a * b
    ensures a * -b == a * b - 2 * a * b
  {
  }

  lemma {:induction false} VerticalUpToFlip(g: Grid, p: nat, q: nat, k: nat)
    requires IsRect(g) && InGrid(g, p, q) && k <= |g|
    ensures VerticalUpTo(Flip(g, p, q), k) == VerticalUpTo(g, k)
      - (if 0 < p <= k then 2 * g[p - 1][q] * g[p][q] else 0)
      - (if p < k && p + 1 < |g| then 2 * g[p][q] * g[p + 1][q] else 0)
  {
    if k > 0 {
      VerticalUpToFlip(g, p, q, k - 1);
      var f := Flip(g, p, q);
      if k < |g| {
        if k - 1 == p {
          assert f[k - 1] == g[p][q := -g[p][q]] && f[k] == g[k];
          DotUpToFlip(g[p], g[k], q, |g[k]|);
        } else if k == p {
          assert f[k] == g[p][q := -g[p][q]] && f[k - 1] == g[k - 1];
          DotUpToFlip(g[k - 1], g[p], q, |g[p]|);
        } else {
          assert f[k - 1] == g[k - 1] && f[k] == g[k];
        }
      }
    }
  }

  lemma {:induction false} HorizontalUpToFlip(g: Grid, p: nat, q: nat, k: nat)
    requires IsRect(g) && InGrid(g, p, q) && k <= |g|
    ensures HorizontalUpTo(Flip(g, p, q), k) == HorizontalUpTo(g, k)
      - (if p < k && 0 < q then 2 * g[p][q - 1] * g[p][q] else 0)
      - (if p < k && q + 1 < |g[p]| then 2 * g[p][q] * g[p][q + 1] else 0)
  {
    if k > 0 {
      HorizontalUpToFlip(g, p, q, k - 1);
      var f := Flip(g, p, q);
      if k - 1 == p {
        assert f[p] == g[p][q := -g[p][q]];
        ChainUpToFlip(g[p], q, |g[p]|);
      } else {
        assert f[k - 1] == g[k - 1];
      }
    }
  }

  /** Flipping one spin changes the energy by exactly the local delta: the
      incremental update agrees with full recomputation, at corners, edges
      and interior sites alike. */
  lemma FlipEnergy(g: Grid, i: nat, j: nat)
    requires IsRect(g) && InGrid(g, i, j)
    ensures BondEnergy(Flip(g, i, j)) == BondEnergy(g) + FlipDelta(g, i, j)
  {
    VerticalUpToFlip(g, i, j, |g|);
    HorizontalUpToFlip(g, i, j, |g|);
    assert |g[i]| == Width(g);
    var s, up, down, left, right :=
      g[i][j],
      if 0 < i then g[i - 1][j] else 0,
      if i + 1 < |g| then g[i + 1][j] else 0,
      if 0 < j then g[i][j - 1] else 0,
      if j + 1 < Width(g) then g[i][j + 1] else 0;
    assert BondSum(Flip(g, i, j)) == BondSum(g) - 2 * up * s - 2 * s * down - 2 * left * s - 2 * s * right;
    assert Field(g, i, j) == up + down + left + right;
    LocalDeltaArithmetic(BondSum(g), s, up, down, left, right);
  }

  lemma LocalDeltaArithmetic(b: int, s: int, up: int, down: int, left: int, right: int)
    ensures -2 * (b - 2 * up * s - 2 * s * down - 2 * left * s - 2 * s * right)
         == -2 * b + 4 * s * (up + down + left + right)
  {
    assert s * (up + down + left + right) == up * s + s * down + left * s + s * right;
  }

  /** On a spin grid a flip changes the energy by at most 16, and by a
      multiple of 4. */
  lemma FlipDeltaBound(g: Grid, i: nat, j: nat)
    requires IsSpinGrid(g) && InGrid(g, i, j)
    ensures -16 <= FlipDelta(g, i, j) <= 16 && FlipDelta(g, i, j) % 4 == 0
  {
    var h := Field(g, i, j);
    assert -4 <= h <= 4 by {
      if 0 < i { assert IsSpin(g[i - 1][j]); }
      if i + 1 < |g| { assert IsSpin(g[i + 1][j]); }
      if 0 < j { assert IsSpin(g[i][j - 1]); }
      if j + 1 < Width(g) { assert IsSpin(g[i][j + 1]); }
    }
    assert IsSpin(g[i][j]);
  }

  // ---------------------------------------------------------------------
  // Global spin flip

  lemma {:induction false} NegatedSums(a: seq<int>, b: seq<int>, k: nat)
    requires |a| == |b| && k <= |a|
    ensures DotUpTo(NegRow(a), NegRow(b), k) == DotUpTo(a, b, k)
    ensures ChainUpTo(NegRow(a), k) == ChainUpTo(a, k)
  {
    if k > 0 {
      NegatedSums(a, b, k - 1);
      var na := NegRow(a);
      if k < |a| {
        assert na[k - 1] * na[k] == a[k - 1] * a[k];
      }
    }
  }

  lemma {:induction false} NegatedBondsUpTo(g: Grid, k: nat)
    requires IsRect(g) && k <= |g|
    ensures VerticalUpTo(Negated(g), k) == VerticalUpTo(g, k)
    ensures HorizontalUpTo(Negated(g), k) == HorizontalUpTo(g, k)
  {
    if k > 0 {
      NegatedBondsUpTo(g, k - 1);
      NegatedSums(g[k - 1], g[k - 1], |g[k - 1]|);
      if k < |g| {
        NegatedSums(g[k - 1], g[k], |g[k]|);
      }
    }
  }

  /** Every bond is a product of two spins, so negating every spin leaves
      the energy unchanged. */
  lemma NegatedEnergy(g: Grid)
    requires IsRect(g)
    ensures BondEnergy(Negated(g)) == BondEnergy(g)
  {
    NegatedBondsUpTo(g, |g|);
  }

  // ---------------------------------------------------------------------
  // Bounds on spin grids

  predicate IsSpinRow(r: seq<int>) {
    forall j | 0 <= j < |r| :: IsSpin(r[j])
  }

  lemma {:induction false} SpinSumsBounded(a: seq<int>, b: seq<int>, k: nat)
    requires |a| == |b| && k <= |a| && IsSpinRow(a) && IsSpinRow(b)
    ensures -(k as int) <= DotUpTo(a, b, k) <= k
    ensures -(k as int) <= ChainUpTo(a, k) <= k
  {
    if k > 0 {
      SpinSumsBounded(a, b, k - 1);
      assert IsSpin(a[k - 1]) && IsSpin(b[k - 1]);
      if k < |a| {
        assert IsSpin(a[k]);
      }
    }
  }

  lemma {:induction false} ChainBounded(r: seq<int>)
    requires 0 < |r| && IsSpinRow(r)
    ensures -(|r| - 1) <= Chain(r) <= |r| - 1
  {
    SpinSumsBounded(r, r, |r| - 1);
  }

  lemma {:induction false} HorizontalUpToBounded(g: Grid, k: nat)
    requires IsSpinGrid(g) && 0 < Width(g) && k <= |g|
    ensures -(k * (Width(g) - 1)) <= HorizontalUpTo(g, k) <= k * (Width(g) - 1)
  {
    if k > 0 {
      HorizontalUpToBounded(g, k - 1);
      assert IsSpinRow(g[k - 1]);
      ChainBounded(g[k - 1]);
      assert k * (Width(g) - 1) == (k - 1) * (Width(g) - 1) + (Width(g) - 1);
    }
  }

  lemma {:induction false} VerticalUpToBounded(g: Grid, k: nat)
    requires IsSpinGrid(g) && k < |g|
    ensures -(k * Width(g)) <= VerticalUpTo(g, k) <= k * Width(g)
  {
    if k > 0 {
      VerticalUpToBounded(g, k - 1);
      assert IsSpinRow(g[k - 1]) && IsSpinRow(g[k]);
      SpinSumsBounded(g[k - 1], g[k], Width(g));
      assert k * Width(g) == (k - 1) * Width(g) + Width(g);
    }
  }

  /** On an N×M spin grid (N, M >= 1) the energy is even and bounded by
      twice the number of bonds, N(M - 1) + M(N - 1). */
  lemma EnergyBounded(g: Grid)
    requires IsSpinGrid(g) && 0 < |g| && 0 < Width(g)
    ensures BondEnergy(g) % 2 == 0
    ensures -2 * (|g| * (Width(g) - 1) + Width(g) * (|g| - 1)) <= BondEnergy(g)
    ensures BondEnergy(g) <= 2 * (|g| * (Width(g) - 1) + Width(g) * (|g| - 1))
  {
    var n, m := |g|, Width(g);
    HorizontalUpToBounded(g, n);
    VerticalUpToBounded(g, n - 1);
    assert VerticalUpTo(g, n) == VerticalUpTo(g, n - 1);
    assert (n - 1) * m == m * (n - 1);
    var h, v := HorizontalUpTo(g, n), VerticalUpTo(g, n);
    assert -(n * (m - 1) + m * (n - 1)) <= h + v <= n * (m - 1) + m * (n - 1);
  }

  // ---------------------------------------------------------------------
  // Uniform states

  lemma {:induction false} UniformSums(c: int, a: seq<int>, k: nat)
    requires c * c == 1 && k <= |a| && forall j | 0 <= j < |a| :: a[j] == c
    ensures DotUpTo(a, a, k) == k
    ensures ChainUpTo(a, k) == if 0 < k == |a| then k - 1 else k
  {
    if k > 0 {
      UniformSums(c, a, k - 1);
      assert a[k - 1] * a[k - 1] == 1;
      if k < |a| {
        assert a[k - 1] * a[k] == 1;
      }
    }
  }

  lemma {:induction false} UniformBondsUpTo(n: nat, c: int, k: nat)
    requires c * c == 1 && 0 < n && k <= n
    ensures VerticalUpTo(Uniform(n, c), k) == (if k < n then k else k - 1) * n
    ensures HorizontalUpTo(Uniform(n, c), k) == k * (n - 1)
  {
    if k > 0 {
      var u := Uniform(n, c);
      UniformBondsUpTo(n, c, k - 1);
      UniformSums(c, u[k - 1], n);
      assert k * (n - 1) == (k - 1) * (n - 1) + (n - 1);
      if k < n {
        assert u[k] == u[k - 1];
        assert k * n == (k - 1) * n + n;
      }
    }
  }

  /** An L×L state with every spin equal (+1 or -1) has energy
      -(4(L-2)^2 + 12(L-2) + 8), which is -4L(L-1). */
  lemma UniformEnergy(n: nat, c: int)
    requires IsSpin(c)
    ensures BondEnergy(Uniform(n, c)) == -4 * n * (n - 1)
    ensures BondEnergy(Uniform(n, c)) == -(4 * (n - 2) * (n - 2) + 12 * (n - 2) + 8)
  {
    if n > 0 {
      UniformBondsUpTo(n, c, n);
    }
  }
}
