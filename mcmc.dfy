/** The Metropolis driver (code/src/MCFF/mcmc.py): starting from a copy of a
    square state, repeatedly propose flipping one site, recompute the energy
    of the proposal, and accept it when the energy went down or when the
    random acceptance test passes.

    Randomness is supplied by the caller: `sites` holds the site drawn at
    each step, and `accepts` holds the outcomes of the acceptance test
    exp(-(new_E - E) / T) > u, one per uniform draw u, consumed in order and
    only by proposals that do not lower the energy. */
module MonteCarlo {
  import opened Lattice
  import opened Bonds
  import IsingModelPerSite

  /** A drawn site (row, column). */
  type Site = (nat, nat)

  /** The chain between two steps: the current state, the running total
      energy E and the number of uniform draws consumed so far. */
  datatype Walker = Walker(state: Grid, energy: int, draws: nat)

  /** The walker a run starts from: a copy of the initial square state, no
      draws consumed, and E = N**2 * energy(state), N² times the per-site
      energy, which is the total energy of the state. */
  function Start(g: Grid): (w: Walker)
    requires IsRect(g) && 0 < |g| == Width(g)
    ensures w.state == g && w.draws == 0
    ensures w.energy as real == IsingModelPerSite.Scaled(IsingModelPerSite.EnergyNumpy(g), |g|, |g|)
  {
    IsingModelPerSite.SitesTimesEnergy(g);
    Walker(g, BondEnergy(g), 0)
  }

  /** Every site lies in an N×N state. */
  predicate SitesIn(sites: seq<Site>, n: nat) {
    forall k | 0 <= k < |sites| :: sites[k].0 < n && sites[k].1 < n
  }

  /** One Metropolis step: the proposal is the state with `site` flipped;
      it is accepted outright when its energy is lower, and otherwise when
      the next acceptance outcome says so. */
  function Step(w: Walker, site: Site, accepts: seq<bool>): (r: Walker)
    requires IsRect(w.state) && InGrid(w.state, site.0, site.1) && w.draws < |accepts|
    ensures |r.state| == |w.state| && IsRect(r.state) && Width(r.state) == Width(w.state)
    ensures w.draws <= r.draws <= w.draws + 1
  {
    var proposal := Flip(w.state, site.0, site.1);
    var newE := BondEnergy(proposal);
    if newE < w.energy then Walker(proposal, newE, w.draws)
    else if accepts[w.draws] then Walker(proposal, newE, w.draws + 1)
    else Walker(w.state, w.energy, w.draws + 1)
  }

  /** The walker after one step for each of the first `k` drawn sites, in
      order. */
  function Walk(w: Walker, sites: seq<Site>, k: nat, accepts: seq<bool>): (r: Walker)
    requires IsRect(w.state) && Width(w.state) == |w.state| && SitesIn(sites, |w.state|)
    requires k <= |sites| && w.draws + k <= |accepts|
    ensures |r.state| == |w.state| && IsRect(r.state) && Width(r.state) == Width(w.state)
    ensures w.draws <= r.draws <= w.draws + k
  {
    if k == 0 then w else Step(Walk(w, sites, k - 1, accepts), sites[k - 1], accepts)
  }

  /** The energy the step recomputes for the proposal differs from the
      running energy by the local delta of the flipped site; so a step is
      decided by the sign of that delta alone. */
  lemma StepByDelta(w: Walker, site: Site, accepts: seq<bool>)
    requires IsRect(w.state) && InGrid(w.state, site.0, site.1) && w.draws < |accepts|
    requires w.energy == BondEnergy(w.state)
    ensures BondEnergy(Flip(w.state, site.0, site.1)) - w.energy == FlipDelta(w.state, site.0, site.1)
    ensures var delta := FlipDelta(w.state, site.0, site.1);
      Step(w, site, accepts) ==
        if delta < 0 then Walker(Flip(w.state, site.0, site.1), w.energy + delta, w.draws)
        else if accepts[w.draws] then Walker(Flip(w.state, site.0, site.1), w.energy + delta, w.draws + 1)
        else Walker(w.state, w.energy, w.draws + 1)
  {
    FlipEnergy(w.state, site.0, site.1);
  }

  /** A proposal that lowers the energy is accepted whatever the acceptance
      outcomes are, and consumes none of them. */
  lemma DownhillAlwaysAccepted(w: Walker, site: Site, accepts: seq<bool>, others: seq<bool>)
    requires IsRect(w.state) && InGrid(w.state, site.0, site.1)
    requires w.draws < |accepts| && w.draws < |others|
    requires w.energy == BondEnergy(w.state) && FlipDelta(w.state, site.0, site.1) < 0
    ensures Step(w, site, accepts) == Step(w, site, others)
    ensures Step(w, site, accepts).state == Flip(w.state, site.0, site.1)
    ensures Step(w, site, accepts).draws == w.draws
  {
    FlipEnergy(w.state, site.0, site.1);
  }

  /** Each step either moves to the proposal, which differs from the state
      only at the drawn site, or leaves both the state and the energy as
      they were. */
  lemma StepChangesOneSite(w: Walker, site: Site, accepts: seq<bool>)
    requires IsRect(w.state) && InGrid(w.state, site.0, site.1) && w.draws < |accepts|
    ensures var r := Step(w, site, accepts);
      (r.state == Flip(w.state, site.0, site.1) && r.energy == BondEnergy(r.state))
      || (r.state == w.state && r.energy == w.energy)
    ensures var r := Step(w, site, accepts);
      forall i, j | InGrid(w.state, i, j) && (i, j) != site :: r.state[i][j] == w.state[i][j]
  {
  }

  /** Along a walk the running energy stays the energy of the current state,
      and a state of spins stays a state of spins. */
  lemma {:induction false} WalkInvariant(w: Walker, sites: seq<Site>, k: nat, accepts: seq<bool>)
    requires IsRect(w.state) && Width(w.state) == |w.state| && SitesIn(sites, |w.state|)
    requires k <= |sites| && w.draws + k <= |accepts|
    requires w.energy == BondEnergy(w.state)
    ensures Walk(w, sites, k, accepts).energy == BondEnergy(Walk(w, sites, k, accepts).state)
    ensures IsSpinGrid(w.state) ==> IsSpinGrid(Walk(w, sites, k, accepts).state)
  {
    if k > 0 {
      WalkInvariant(w, sites, k - 1, accepts);
    }
  }

  /** `N**2 * energy(state)`: the per-site energy of a square state scaled
      back to its total energy. */
  method TotalEnergy(state: array2<int>) returns (E: real)
    requires 0 < state.Length0 == state.Length1
    ensures E == BondEnergy(Cells(state)) as real
  {
    var N := state.Length0;
    ghost var g := Cells(state);
    var perSite := IsingModelPerSite.Energy(state);
    E := (N * N) as real * perSite;
    assert E == IsingModelPerSite.Scaled(perSite, N, N);
  }

  /** One pass of the loop in `mcmc`: flip the drawn site in a copy of the
      current state, recompute the total energy of the copy, and keep the
      copy when `new_E < E` or, failing that, when the next acceptance
      outcome says so (the `or` evaluates its right side, and so draws a
      uniform number, only when the energy did not go down). The current
      state itself is never modified. */
  method MetropolisStep(currentState: array2<int>, E: real, draws: nat, site: Site, accepts: seq<bool>,
                        ghost w: Walker)
    returns (nextState: array2<int>, nextE: real, nextDraws: nat)
    requires 0 < currentState.Length0 == currentState.Length1
    requires site.0 < currentState.Length0 && site.1 < currentState.Length0
    requires Cells(currentState) == w.state && E == w.energy as real && draws == w.draws < |accepts|
    ensures nextState == currentState || fresh(nextState)
    ensures nextState.Length0 == nextState.Length1 == currentState.Length0
    ensures var r := Step(w, site, accepts);
      Cells(nextState) == r.state && nextE == r.energy as real && nextDraws == r.draws
  {
    var (i, j) := site;
    var newState := Copy(currentState);
    FlipInPlace(newState, i, j);
    var newE := TotalEnergy(newState);
    nextState, nextE, nextDraws := currentState, E, draws;
    if newE < E {
      nextState, nextE := newState, newE;
    } else {
      var accept := accepts[draws];
      nextDraws := draws + 1;
      if accept {
        nextState, nextE := newState, newE;
      }
    }
  }

  /** Runs `steps` Metropolis steps on a copy of `initialState` and returns
      the final state. The caller's state is only read. */
  method Mcmc(initialState: array2<int>, steps: nat, sites: seq<Site>, accepts: seq<bool>)
    returns (currentState: array2<int>)
    requires 0 < initialState.Length0 == initialState.Length1
    requires |sites| == steps && SitesIn(sites, initialState.Length0)
    requires steps <= |accepts|
    ensures fresh(currentState)
    ensures currentState.Length0 == currentState.Length1 == initialState.Length0
    ensures Cells(currentState) == Walk(Start(Cells(initialState)), sites, steps, accepts).state
    ensures IsSpinGrid(Cells(initialState)) ==> IsSpinGrid(Cells(currentState))
    ensures steps < 1 ==> Cells(currentState) == Cells(initialState)  // steps == 0: no step taken
  {
    var N := initialState.Length0;
    assert IsRect(Cells(initialState)) && |Cells(initialState)| == N && Width(Cells(initialState)) == N;
    ghost var start := Start(Cells(initialState));
    currentState := Copy(initialState);
    var E := TotalEnergy(initialState);
    var draws := 0;
    ghost var walker := start;
    for k := 0 to steps
      invariant fresh(currentState) && currentState.Length0 == N && currentState.Length1 == N
      invariant walker == Walk(start, sites, k, accepts)
      invariant Cells(currentState) == walker.state
      invariant E == walker.energy as real && draws == walker.draws
    {
      currentState, E, draws := MetropolisStep(currentState, E, draws, sites[k], accepts, walker);
      walker := Step(walker, sites[k], accepts);
    }
    WalkInvariant(start, sites, steps, accepts);
  }
}
