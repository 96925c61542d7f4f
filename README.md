# Ising model energies and the Metropolis loop, in Dafny

This project models the computational core of MCFF, a small Markov chain
Monte Carlo package for the two-dimensional Ising model. A state is an N×M
grid of spins +1 and −1 with open (non-wrapping) boundaries. Every unordered
pair of adjacent sites is one bond, and the energy is −2 times the sum of
s_a·s_b over all bonds.

The model covers three source files:

- `src/MCFF/ising_model.py` is the unnormalised model. It has the uniform
  states, `energy` (a double loop), `energy_numpy` (array slices) and
  `energy_difference` (the local change caused by flipping one spin). These
  are the modules `IsingModel`, `Bonds` (the bond sums everything is
  specified against), `NumpyOps` (the numpy slicing and summation used by
  `energy_numpy`) and `Lattice` (grids, flips, arrays).
- `code/src/MCFF/ising_model.py` is the same model with the energy divided by
  the number of sites N·M. It is the module `IsingModelPerSite`, and the
  division is exact `real` division.
- `code/src/MCFF/mcmc.py` is the Metropolis driver. It is the module
  `MonteCarlo`: a method over a two-dimensional array that copies the
  initial state, proposes single-spin flips and accepts or rejects them.

The loops of the source stay loops. `IsingModel.Energy`,
`IsingModel.EnergyDifference`, `IsingModelPerSite.Energy` and
`MonteCarlo.Mcmc` are methods over `array2<int>`, and loop invariants tie
them to specification functions on grid values (`Lattice.Cells` reads an
array as a grid). The single-expression functions (`all_up_state`,
`all_down_state`, `energy_numpy`) are Dafny functions.

Randomness is an input to `MonteCarlo.Mcmc`:

- `sites[k]` is the site `rng.integers(N, size=2)` draws at step k.
- `accepts` holds the outcomes of the test `np.exp(-(new_E - E) / T) > rng.uniform()`,
  one per uniform draw, in order.

Because `or` short-circuits, an outcome is consumed only when the proposal
does not lower the energy. The temperature `T` enters only through those
outcomes. `MonteCarlo.Walk` is the specification of the whole run, and
`MonteCarlo.Step` is the specification of one iteration.

Where the files as written cannot run, the model follows the evident intent:

- `code/src/MCFF/ising_model.py:17`: `random_state` lacks the colon after
  its signature. It is not part of this model either way.
- `code/src/MCFF/ising_model.py:40`: `jit` is used but not imported. The
  decorator is a compilation hint and is ignored.
- `code/src/MCFF/mcmc.py`: `np` and `energy` are never imported. `energy` is
  taken to be the per-site energy of `code/src/MCFF/ising_model.py`, which
  is why it is scaled back by `N**2`.
- `code/src/MCFF/mcmc.py:30`: `energy(state)` uses the undefined name
  `state`. The model computes the energy of `initial_state`, the state
  `current_state` was just copied from.

Three further facts about the code that the model keeps:

- The Metropolis loop recomputes the full energy of every proposal
  (`code/src/MCFF/mcmc.py:36`). `MonteCarlo.StepByDelta` proves that the
  difference it sees is the local delta `energy_difference` computes.
- `all_up_state(0)` and `all_down_state(0)` return an empty state.
- `mcmc` does not check the temperature `T`.
- In `src/MCFF/ising_model.py` the docstrings of `energy` and `energy_numpy`
  (lines 63-64 and 92-93) describe the result as the interaction energy per
  site, but lines 78 and 96 return the total `2 * E` with no division. The
  model follows the code: `IsingModel.Energy` and `IsingModel.EnergyNumpy`
  return the total energy. The per-site reading is what
  `code/src/MCFF/ising_model.py` implements, and it is modelled by
  `IsingModelPerSite.Energy` and `IsingModelPerSite.EnergyNumpy`.

## Model

| member | source | states |
|---|---|---|
| `Lattice.Flip` | code/src/MCFF/mcmc.py:34-35 | The proposal has the same shape as the state, the spin at (i, j) negated and every other spin unchanged; a ±1 grid stays a ±1 grid. |
| `Lattice.Copy` | code/src/MCFF/mcmc.py:29 | `copy()` gives a fresh array of the same shape holding the same state. |
| `Lattice.FlipInPlace` | code/src/MCFF/mcmc.py:35 | `new_state[i, j] *= -1` leaves the array holding `Flip` of its old contents. |
| `Lattice.Negated` | src/MCFF/ising_model.py:27 | Unary minus negates every entry and keeps the shape and ±1-ness. |
| `Lattice.Uniform` | src/MCFF/ising_model.py:22 | An N×N grid whose every entry is the given value. |
| `Lattice.Field` | src/MCFF/ising_model.py:105-110 | The sum the offset loop builds is the sum of the north, south, west and east neighbours that lie inside the grid, 0 for each one outside. |
| `NumpyOps.ButLast` | src/MCFF/ising_model.py:95 | `s[:-1]` has one element fewer and keeps the first elements. |
| `NumpyOps.Tail` | src/MCFF/ising_model.py:95 | `s[1:]` has one element fewer and is `s` shifted by one. |
| `NumpyOps.ColumnsButLast` | src/MCFF/ising_model.py:95 | `state[:, :-1]` drops the last column of every row. |
| `NumpyOps.ColumnsTail` | src/MCFF/ising_model.py:95 | `state[:, 1:]` drops the first column of every row. |
| `NumpyOps.Pointwise` | src/MCFF/ising_model.py:95 | Elementwise product of two rows. |
| `NumpyOps.Times` | src/MCFF/ising_model.py:95 | Elementwise product of two arrays of the same shape, row by row. |
| `NumpyOps.Sum` | src/MCFF/ising_model.py:95 | `np.sum` of a row adds all its entries; adding them back to front gives the same total as front to back. |
| `NumpyOps.Total` | src/MCFF/ising_model.py:95 | `np.sum` of an array is the sum of every entry of the array flattened in row-major order. |
| `IsingModel.AllUpState` | src/MCFF/ising_model.py:20-22 | An N×N grid with every entry +1. |
| `IsingModel.AllDownState` | src/MCFF/ising_model.py:25-27 | An N×N grid with every entry −1. |
| `IsingModel.Energy` | src/MCFF/ising_model.py:54-78 | The double loop returns −2 times the sum over every bond counted once (`BondEnergy`), and equals the slice form `energy_numpy`. |
| `IsingModel.EnergyNumpy` | src/MCFF/ising_model.py:81-96 | The slice form equals the bond energy (−2 times the sum over every bond counted once) on every rectangular grid, 1×M, N×1 and empty ones included. |
| `IsingModel.EnergyDifference` | src/MCFF/ising_model.py:99-111 | Returns 4·s[i,j]·(sum of in-grid neighbours), which is exactly the energy of the flipped state minus the energy of the state; on a ±1 grid it lies in −16..16. The state is only read. |
| `IsingModel.UniformFlipDelta` | src/MCFF/ising_model.py:106-111 | On the all up state the delta is 4 per in-grid neighbour; the (0, 0) corner of the 4×4 state gives 8. |
| `IsingModel.UniformStateEnergy` | code/tests/test_energy.py:19-27 | The L×L all up and all down states have energy −(4(L−2)² + 12(L−2) + 8) = −4L(L−1), by both implementations. |
| `IsingModel.EnergyNumpyNegated` | src/MCFF/ising_model.py:95-96 | The slice form is unchanged when every spin is negated. |
| `Bonds.FlipEnergy` | src/MCFF/ising_model.py:99-111 | Flipping any in-grid site (corner, edge or interior) changes the energy by exactly the local delta. |
| `Bonds.FlipDeltaBound` | src/MCFF/ising_model.py:106-111 | On a ±1 grid the local delta is a multiple of 4 between −16 and 16. |
| `Bonds.NegatedEnergy` | src/MCFF/ising_model.py:72-76 | The energy is unchanged when every spin is negated. |
| `Bonds.EnergyBounded` | src/MCFF/ising_model.py:66-78 | On an N×M ±1 grid with N, M ≥ 1 the energy is even and at most 2(N(M−1) + M(N−1)) in absolute value. |
| `Bonds.UniformEnergy` | code/tests/test_energy.py:19-21 | A uniform L×L ±1 grid has energy −4L(L−1), which is the test's closed form. |
| `IsingModelPerSite.Energy` | code/src/MCFF/ising_model.py:41-65 | The double loop returns the bond energy divided by N·M. |
| `IsingModelPerSite.EnergyNumpy` | code/src/MCFF/ising_model.py:67-82 | The slice form is the bond energy divided by the product of the shape, the value the loop form returns, so the two implementations agree. |
| `IsingModelPerSite.PerSite` | code/src/MCFF/ising_model.py:65 | `2*E / (N*M)` is true division: N·M times the result is `2*E` again. |
| `IsingModelPerSite.SitesTimesEnergy` | code/src/MCFF/ising_model.py:51-65 | N·M times the per-site energy is the energy of the unnormalised model. |
| `IsingModelPerSite.SingleSiteEnergy` | code/src/MCFF/ising_model.py:81-82 | A 1×1 state has per-site energy 0 by the slice form: both slice products are empty. The loop form gives the same value through `IsingModelPerSite.Energy`'s ensures, since neither neighbour branch at lines 58-63 fires. |
| `IsingModelPerSite.EnergyNumpyNegated` | code/src/MCFF/ising_model.py:81-82 | The per-site energy is unchanged when every spin is negated. |
| `IsingModelPerSite.UniformStateEnergy` | code/src/MCFF/ising_model.py:67-82 | The L×L all up and all down states (`all_up_state` and `all_down_state`, lines 9-15) have per-site energy −4(L−1)/L by the slice form, and by the loop form at lines 53-65 through `IsingModelPerSite.Energy`'s ensures. |
| `IsingModelPerSite.ClosedFormIsNotPerSite` | code/tests/test_energy.py:24-27 | The per-site energy of the 2×2 all up state is −2, not the closed form −8 the test expects. |
| `IsingModelPerSite.UniformStateTotalEnergy` | code/tests/test_energy.py:19-27 | L² times the per-site energy of the L×L uniform states is the closed form. |
| `MonteCarlo.Start` | code/src/MCFF/mcmc.py:29-30 | The run starts from a copy of the initial state with no draws consumed, and E is N² times the per-site energy of that state. |
| `MonteCarlo.Step` | code/src/MCFF/mcmc.py:32-40 | One iteration keeps the shape and consumes at most one acceptance outcome. |
| `MonteCarlo.Walk` | code/src/MCFF/mcmc.py:31-40 | k iterations keep the shape and consume at most k acceptance outcomes. |
| `MonteCarlo.StepByDelta` | code/src/MCFF/mcmc.py:36-40 | `new_E - E` is the local delta `energy_difference` computes, so each iteration is decided by the sign of that delta and the next outcome. |
| `MonteCarlo.DownhillAlwaysAccepted` | code/src/MCFF/mcmc.py:38-40 | A proposal that lowers the energy is accepted whatever the outcomes are and consumes none of them. |
| `MonteCarlo.StepChangesOneSite` | code/src/MCFF/mcmc.py:34-40 | After an iteration the state is either the proposal, with its energy, or unchanged with an unchanged E; no site but the drawn one ever changes. |
| `MonteCarlo.WalkInvariant` | code/src/MCFF/mcmc.py:30-40 | Along the run E stays the energy of `current_state`, and a ±1 state stays ±1. |
| `MonteCarlo.TotalEnergy` | code/src/MCFF/mcmc.py:30 | `N**2 * energy(state)` is the total bond energy of a square state. |
| `MonteCarlo.MetropolisStep` | code/src/MCFF/mcmc.py:32-40 | One pass of the loop body produces exactly the state, energy and draw count of `Step`, and never modifies the current array. |
| `MonteCarlo.Mcmc` | code/src/MCFF/mcmc.py:7-42 | On a square non-empty state the result is a fresh N×N array equal to the state `Walk` reaches after `steps` iterations; ±1 states stay ±1; zero steps return a copy of the initial state; the initial state is never modified, since the method has no `modifies` clause. |

## Left out

- `show_state` (matplotlib plotting) and `random_state` in both model files. The latter draws from a random generator and has no deterministic behaviour to state.
- The random draws `rng.integers` and `rng.uniform`, the temperature `T` and `np.exp`. They are replaced by the `sites` and `accepts` inputs of `MonteCarlo.Mcmc`.
- `MonteCarlo.Step`: `accepts` is unconstrained, so the model also admits outcome sequences the source cannot produce. A proposal whose energy is unchanged is always accepted by the source, because `np.exp(0) = 1` exceeds every draw of `rng.uniform()` in [0, 1), but the model rejects it when the outcome is `false`. No property proved here depends on this.
- The numba `@jit` decorators. On the in-grid sites the model covers they do not change results. They do switch off bounds checking, which matters only for the out-of-grid sites left out below.
- Floating point. numpy arrays of `float64` are modelled as integers, and the per-site division as exact `real` division. So the rounding of `N**2 * energy(state)` and of `new_E < E` is not modelled.
- The documentation driver and plotting scripts, and the test files as executable harnesses.
- `IsingModel.EnergyDifference`: the site must lie inside the state. Under numba's `@jit` (`src/MCFF/ising_model.py:99`) the array accesses are not bounds-checked, so an index past the end reads outside the array instead of raising, and a negative index wraps around.
- `IsingModelPerSite.Energy`: requires a non-empty state, because the source divides the integer `2*E` by N·M and raises `ZeroDivisionError` on an empty one.
- `IsingModelPerSite.EnergyNumpy`: requires a non-empty state. On an empty one the source divides the numpy scalar `2*E` by `np.product(state.shape)`, which is 0, and returns `nan` with a `RuntimeWarning` rather than raising. That `nan` is not modelled, because the model's energies are exact reals.
- `MonteCarlo.Mcmc`: requires a square (`assert N == M` at line 27) non-empty state (an empty one divides by zero in `energy`). `steps` is a natural number, so the negative counts for which the Python loop runs zero times are not modelled. `accepts` must hold enough outcomes for every step.
- `IsingModel.AllUpState`: N is a natural number, so the negative sizes on which numpy raises are not modelled.

## Findings

| source | as written | input that shows it | evidently intended | confidence | as-written member | corrected member |
|---|---|---|---|---|---|---|
| code/tests/test_energy.py:27 | compares `energy(state)`, which `code/src/MCFF/ising_model.py:65` now divides by N·M, with the closed form of the total energy | the 2×2 all up state: per-site energy −2, closed form −8 (for the test's 100×100 states, −3.96 against −39600) | compare the total energy, N·M times the per-site energy, with the closed form | high, not executed | `IsingModelPerSite.ClosedFormIsNotPerSite` | `IsingModelPerSite.UniformStateTotalEnergy` |
