/** The per-site variant of the Ising model (code/src/MCFF/ising_model.py):
    the same double loop and slice forms, but the result is the interaction
    energy per site, divided by the number of sites N·M. Its uniform states
    are the same expressions as in the unnormalised model and are taken from
    there (`IsingModel.AllUpState`, `IsingModel.AllDownState`). */
module IsingModelPerSite {
  import opened Lattice
  import opened Bonds
  import IsingModel

  /** The per-site energy by the nested loop. The division by N·M needs a
      non-empty state. */
  method Energy(state: array2<int>) returns (e: real)
    requires 0 < state.Length0 && 0 < state.Length1
    ensures e == PerSite(BondEnergy(Cells(state)), state.Length0, state.Length1)
  {
    ghost var g := Cells(state);
    var E := 0;
    var N, M := state.Length0, state.Length1;
    for i := 0 to N
      invariant E == -(VerticalUpTo(g, i) + HorizontalUpTo(g, i))
    {
      for j := 0 to M
        invariant E == -(VerticalUpTo(g, i) + HorizontalUpTo(g, i)
                         + (if i + 1 < N then DotUpTo(g[i], g[i + 1], j) else 0)
                         + ChainUpTo(g[i], j))
      {
        if 0 <= i + 1 < N {
          E := E - state[i, j] * state[i + 1, j];
        }
        if 0 <= j + 1 < M {
          E := E - state[i, j] * state[i, j + 1];
        }
      }
    }
    e := PerSite(2 * E, N, M);
  }

  /** The per-site energy by array slices, divided by the product of the
      shape. It is the bond energy per site, the same value the loop form
      `Energy` returns: the two implementations agree. */
  function EnergyNumpy(g: Grid): (e: real)
    requires IsRect(g) && 0 < |g| && 0 < Width(g)
    ensures e == PerSite(BondEnergy(g), |g|, Width(g))
  {
    PerSite(IsingModel.EnergyNumpy(g), |g|, Width(g))
  }

  /** True division of a total by the number of sites of an N×M state;
      scaling the result back by the number of sites gives the total. */
  function PerSite(total: int, n: nat, m: nat): (e: real)
    requires 0 < n && 0 < m
    ensures Scaled(e, n, m) == total as real
  {
    total as real / (n * m) as real
  }

  /** A per-site value multiplied back by the number of sites N·M. */
  function Scaled(e: real, n: nat, m: nat): real {
    (n * m) as real * e
  }

  /** N·M times the per-site energy is the energy of the unnormalised
      model. */
  lemma SitesTimesEnergy(g: Grid)
    requires IsRect(g) && 0 < |g| && 0 < Width(g)
    ensures Scaled(EnergyNumpy(g), |g|, Width(g)) == BondEnergy(g) as real
  {
  }

  /** A 1×1 state has no bonds, so its energy is 0. */
  lemma SingleSiteEnergy(g: Grid)
    requires IsRect(g) && |g| == 1 && Width(g) == 1
    ensures EnergyNumpy(g) == 0.0
  {
    assert VerticalUpTo(g, 1) == 0 && HorizontalUpTo(g, 1) == Chain(g[0]);
    assert Chain(g[0]) == ChainUpTo(g[0], 0);
  }

  /** The per-site energy is unchanged by a global spin flip. */
  lemma EnergyNumpyNegated(g: Grid)
    requires IsRect(g) && 0 < |g| && 0 < Width(g)
    ensures EnergyNumpy(Negated(g)) == EnergyNumpy(g)
  {
    IsingModel.EnergyNumpyNegated(g);
  }

  lemma Commute(a: int, b: int, c: int)
    ensures a * b * c == (a * c) * b
  {
  }

  lemma ScaledQuotient(x: int, y: int, d: int)
    requires y != 0 && d != 0
    ensures (x * d) as real / (y * d) as real == x as real / y as real
  {
    var xr, yr, dr := x as real, y as real, d as real;
    assert (x * d) as real == xr * dr;
    assert (y * d) as real == yr * dr;
    assert xr * dr / (yr * dr) == xr / yr;
  }

  /** The L×L all up and all down states have per-site energy -4(L-1)/L. */
  lemma UniformStateEnergy(n: nat)
    requires 0 < n
    ensures EnergyNumpy(IsingModel.AllUpState(n)) == (-4 * (n - 1)) as real / n as real
    ensures EnergyNumpy(IsingModel.AllDownState(n)) == (-4 * (n - 1)) as real / n as real
  {
    var up := IsingModel.AllUpState(n);
    IsingModel.UniformStateEnergy(n);
    IsingModel.EnergyNumpyNegated(up);
    Commute(-4, n, n - 1);
    assert |up| * Width(up) == n * n;
    ScaledQuotient(-4 * (n - 1), n, n);
  }

  /** The closed form -(4(L-2)^2 + 12(L-2) + 8) is a total energy, not a
      per-site one: already for the 2×2 all up state the per-site energy
      is -2 while the closed form is -8. */
  lemma ClosedFormIsNotPerSite()
    ensures EnergyNumpy(IsingModel.AllUpState(2)) == -2.0
    ensures EnergyNumpy(IsingModel.AllUpState(2)) != (-(4 * (2 - 2) * (2 - 2) + 12 * (2 - 2) + 8)) as real
  {
    var up := IsingModel.AllUpState(2);
    UniformEnergy(2, 1);
    assert BondEnergy(up) == -8;
    assert PerSite(-8, 2, 2) == -2.0;
  }

  /** Scaled back by the number of sites L·L, the per-site energy of the
      L×L all up and all down states is the closed form
      -(4(L-2)^2 + 12(L-2) + 8). */
  lemma UniformStateTotalEnergy(n: nat)
    requires 0 < n
    ensures Scaled(EnergyNumpy(IsingModel.AllUpState(n)), n, n)
         == (-(4 * (n - 2) * (n - 2) + 12 * (n - 2) + 8)) as real
    ensures Scaled(EnergyNumpy(IsingModel.AllDownState(n)), n, n)
         == (-(4 * (n - 2) * (n - 2) + 12 * (n - 2) + 8)) as real
  {
    var up, down := IsingModel.AllUpState(n), IsingModel.AllDownState(n);
    IsingModel.UniformStateEnergy(n);
    assert Scaled(EnergyNumpy(up), n, n) == BondEnergy(up) as real;
    assert Scaled(EnergyNumpy(down), n, n) == BondEnergy(down) as real;
  }
}
