/** The suction-pressure minimiser: a bounded secant search for the suction
    pressure at which the throat-entry energy at Mach 1 vanishes, followed
    by the zero-energy lookup on the last entry trace. */
module Suction {
  import opened Numerics
  import opened Status
  import opened Station
  import opened EnergyTrace
  import opened ThroatEntry

  /** The two seeds sit this far below the reservoir pressure, psi. */
  const SeedHigh: real := 300.0
  const SeedLow: real := 400.0

  /** Successive guesses this close (psi) count as converged. */
  const PsuTol: real := 5.0

  /** At most this many secant steps are taken. */
  const SecantCap: nat := 10

  /** The guesses of a secant run, the objective value at each, and the
      number of secant steps taken. */
  datatype SecantRun = SecantRun(psus: seq<real>, tees: seq<real>, steps: nat)

  /** Every recorded objective value is the objective at its guess. */
  ghost predicate Sampled(f: real -> real, psus: seq<real>, tees: seq<real>)
  {
    |psus| == |tees| && forall i :: 0 <= i < |psus| ==> tees[i] == f(psus[i])
  }

  /** Guess i is the secant update of the two guesses before it. */
  predicate SecantStepAt(psus: seq<real>, tees: seq<real>, i: int)
  {
    && 2 <= i < |psus| == |tees|
    && tees[i - 2] != tees[i - 1]
    && psus[i] == PsuSecant(psus[i - 2], psus[i - 1], tees[i - 2], tees[i - 1])
  }

  /** The run w continues the history psus/tees of n steps: it only
      extends the history, every value is the objective at its guess, every
      new guess is the secant update of the two before it, and the loop went
      on from step n exactly while the last two guesses were apart. */
  ghost predicate RunFrom(f: real -> real, psus: seq<real>, tees: seq<real>, n: nat, w: SecantRun)
  {
    && |psus| <= |w.psus| && |tees| <= |w.tees|
    && w.psus[..|psus|] == psus && w.tees[..|tees|] == tees
    && |w.psus| == w.steps + 2 && n <= w.steps <= SecantCap
    && Sampled(f, w.psus, w.tees)
    && (forall i :: |psus| <= i < |w.psus| ==> SecantStepAt(w.psus, w.tees, i))
    && (forall j :: n <= j < w.steps ==> Apart(w.psus, j, PsuTol))
  }

  /** The run h continues the history psus/tees of n steps up to a guess
      where the loop guard still held (the last two guesses are apart, and
      the cap is not reached) but the last two objective values agree, so
      the next secant step would divide by zero. */
  ghost predicate Degenerate(f: real -> real, psus: seq<real>, tees: seq<real>, n: nat, h: SecantRun)
  {
    && RunFrom(f, psus, tees, n, h)
    && h.steps < SecantCap
    && Apart(h.psus, h.steps, PsuTol)
    && h.tees[h.steps] == h.tees[h.steps + 1]
  }

  /** The secant loop after n steps, with guesses psus and objective values
      tees. The run continues the history and stops once the last two
      guesses are within the tolerance or after the tenth step. It fails
      only when a step would divide by zero: the last two objective values
      agree while the guard holds. */
  function SecantSearch(f: real -> real, psus: seq<real>, tees: seq<real>, n: nat)
    : (r: Result<SecantRun>)
    requires |psus| == n + 2 && n < SecantCap && Sampled(f, psus, tees)
    ensures r.Ok? ==> RunFrom(f, psus, tees, n, r.value)
    ensures r.Ok? ==> Settled(r.value.psus, PsuTol) || r.value.steps == SecantCap
    ensures r.Err? ==> r.error == DegenerateSecantStep
    ensures r.Err? ==> exists h :: Degenerate(f, psus, tees, n, h)
    ensures Settled(psus, PsuTol) ==> r == Ok(SecantRun(psus, tees, n))
    ensures !Settled(psus, PsuTol) && tees[n] == tees[n + 1] ==> r.Err?
    decreases SecantCap - n
  {
    if Settled(psus, PsuTol) then Ok(SecantRun(psus, tees, n))
    else if tees[n] == tees[n + 1] then
      assert psus[..|psus|] == psus && tees[..|tees|] == tees;
      assert Degenerate(f, psus, tees, n, SecantRun(psus, tees, n));
      Err(DegenerateSecantStep)
    else
      var p := PsuSecant(psus[n], psus[n + 1], tees[n], tees[n + 1]);
      var psus', tees' := psus + [p], tees + [f(p)];
      if n + 1 == SecantCap then
        var w := SecantRun(psus', tees', n + 1);
        assert psus'[..|psus|] == psus && tees'[..|tees|] == tees;
        assert SecantStepAt(psus', tees', n + 2);
        Ok(w)
      else
        var r := SecantSearch(f, psus', tees', n + 1);
        if r.Ok? then
          RunFromStep(f, psus, tees, n, p, r.value);
          r
        else
          assert exists h :: Degenerate(f, psus, tees, n, h) by {
            var h :| Degenerate(f, psus', tees', n + 1, h);
            RunFromStep(f, psus, tees, n, p, h);
            assert Degenerate(f, psus, tees, n, h);
          }
          r
  }

  /** One secant step followed by a run from the extended history is a run
      from the original history. */
  lemma RunFromStep(f: real -> real, psus: seq<real>, tees: seq<real>, n: nat, p: real, w: SecantRun)
    requires |psus| == n + 2 && Sampled(f, psus, tees) && !Settled(psus, PsuTol)
    requires tees[n] != tees[n + 1] && p == PsuSecant(psus[n], psus[n + 1], tees[n], tees[n + 1])
    requires RunFrom(f, psus + [p], tees + [f(p)], n + 1, w)
    ensures RunFrom(f, psus, tees, n, w)
  {
    var psus', tees' := psus + [p], tees + [f(p)];
    assert w.psus[..|psus|] == w.psus[..|psus'|][..|psus|];
    assert w.tees[..|tees|] == w.tees[..|tees'|][..|tees|];
    assert w.psus[n] == psus'[n] && w.psus[n + 1] == psus'[n + 1] && w.psus[n + 2] == p by {
      assert w.psus[..|psus'|][n] == psus'[n];
      assert w.psus[..|psus'|][n + 1] == psus'[n + 1];
      assert w.psus[..|psus'|][n + 2] == psus'[n + 2];
    }
    assert w.tees[n] == tees[n] && w.tees[n + 1] == tees[n + 1] by {
      assert w.tees[..|tees'|][n] == tees'[n];
      assert w.tees[..|tees'|][n + 1] == tees'[n + 1];
    }
    assert Apart(w.psus, n, PsuTol);
    assert SecantStepAt(w.psus, w.tees, n + 2);
  }

  /** One unsettled, non-degenerate step of the search below the cap moves
      it to the history extended by the secant guess. */
  lemma SecantStep(f: real -> real, psus: seq<real>, tees: seq<real>, n: nat, p: real)
    requires |psus| == n + 2 && n + 1 < SecantCap && Sampled(f, psus, tees)
    requires !Settled(psus, PsuTol) && tees[n] != tees[n + 1]
    requires p == PsuSecant(psus[n], psus[n + 1], tees[n], tees[n + 1])
    ensures SecantSearch(f, psus, tees, n) == SecantSearch(f, psus + [p], tees + [f(p)], n + 1)
  {
  }

  /** On a linear objective m * (p - root) with seeds more than the
      tolerance apart, the search lands on the root with its first step and
      confirms it with at most one more. */
  lemma SecantLinearExact(f: real -> real, m: real, root: real, a: real, b: real)
    requires forall p :: f(p) == m * (p - root)
    requires m != 0.0 && Abs(a - b) > PsuTol
    ensures var r := SecantSearch(f, [a, b], [f(a), f(b)], 0);
            r.Ok? && Last(r.value.psus) == root && 1 <= r.value.steps <= 2
  {
    LinearChord(f, m, root, a, b);
    LinearChord(f, m, root, b, root);
    SecantFromSeeds(f, root, [a, b], [f(a), f(b)]);
  }

  /** The facts about a linear objective m * (p - root) the search needs at
      two distinct guesses x and y: their values differ, the secant through
      them meets the root, and y is a zero of it only when it is the root. */
  lemma LinearChord(f: real -> real, m: real, root: real, x: real, y: real)
    requires forall p :: f(p) == m * (p - root)
    requires m != 0.0
    ensures x != y ==> f(x) != f(y) && PsuSecant(x, y, f(x), f(y)) == root
    ensures f(y) == 0.0 <==> y == root
  {
    assert f(x) == m * (x - root) && f(y) == m * (y - root);
    if x != y {
      PsuSecantLinear(m, root, x, y);
    }
    MulSigns(m, y - root);
    MulSigns(-m, y - root);
  }

  /** The search from two seeds more than the tolerance apart whose secant
      meets a zero of the objective lands there and settles within two
      steps. */
  lemma SecantFromSeeds(f: real -> real, root: real, psus: seq<real>, tees: seq<real>)
    requires |psus| == 2 && Sampled(f, psus, tees) && Abs(psus[0] - psus[1]) > PsuTol
    requires tees[0] != tees[1] && PsuSecant(psus[0], psus[1], tees[0], tees[1]) == root
    requires f(root) == 0.0 && (tees[1] == 0.0 ==> psus[1] == root)
    ensures var r := SecantSearch(f, psus, tees, 0);
            r.Ok? && Last(r.value.psus) == root && 1 <= r.value.steps <= 2
  {
    SecantStep(f, psus, tees, 0, root);
    var psus1, tees1 := psus + [root], tees + [f(root)];
    assert psus1[1] == psus[1] && psus1[2] == root && tees1[1] == tees[1] && tees1[2] == f(root);
    assert Sampled(f, psus1, tees1);
    SecantAtRoot(f, root, psus1, tees1);
  }

  /** Once the last guess sits on a zero of the objective, the next secant
      step (if the guard still holds) stays on it and the run settles. */
  lemma SecantAtRoot(f: real -> real, root: real, psus: seq<real>, tees: seq<real>)
    requires |psus| == 3 && psus[2] == root && Sampled(f, psus, tees)
    requires tees[2] == 0.0 && (tees[1] == 0.0 ==> psus[1] == root)
    ensures var r := SecantSearch(f, psus, tees, 1);
            r.Ok? && Last(r.value.psus) == root && 1 <= r.value.steps <= 2
  {
    if Settled(psus, PsuTol) {
      assert SecantSearch(f, psus, tees, 1) == Ok(SecantRun(psus, tees, 1));
    } else {
      assert tees[1] != 0.0;
      assert PsuSecant(psus[1], root, tees[1], tees[2]) == root;
      SecantStep(f, psus, tees, 1, root);
      var psus2, tees2 := psus + [root], tees + [f(root)];
      assert Settled(psus2, PsuTol);
      assert SecantSearch(f, psus2, tees2, 2) == Ok(SecantRun(psus2, tees2, 2));
    }
  }

  /** The result of the minimiser: the suction pressure, the oil rate there,
      the throat-entry pressure, density and velocity where the entry energy
      crosses zero, and the secant run that led there. */
  datatype Minimized = Minimized(psu: real, qoil: real, pte: real, rhoTe: real, vte: real, run: SecantRun)

  /** The objective: the throat-entry energy at Mach 1 as a function of the
      suction pressure. */
  function EntryEnergy(e: EntryInputs): real -> real
  {
    p => TeeLastAt(e, p).teeFin
  }

  /** The two seeds, 300 and 400 psi below the reservoir pressure. */
  function Seeds(pres: real): (s: seq<real>)
    ensures |s| == 2 && Abs(s[0] - s[1]) > PsuTol
  {
    [pres - SeedHigh, pres - SeedLow]
  }

  /** The objective evaluated at each guess. */
  function Probed(f: real -> real, ps: seq<real>): (ts: seq<real>)
    ensures Sampled(f, ps, ts)
  {
    seq(|ps|, i requires 0 <= i < |ps| => f(ps[i]))
  }

  /** The secant search as the minimiser seeds it: 300 and 400 psi below
      the reservoir pressure. The seeds are 100 psi apart, so at least one
      secant step is taken; at most ten are, and the search stops once the
      last two guesses are within 5 psi. */
  function SeededSearch(f: real -> real, pres: real): (r: Result<SecantRun>)
    ensures r.Ok? ==>
              var w := r.value;
              && |w.psus| == |w.tees| >= 3 && w.psus[0] == pres - SeedHigh && w.psus[1] == pres - SeedLow
              && RunFrom(f, w.psus[..2], w.tees[..2], 0, w)
              && 1 <= w.steps <= SecantCap
              && (Settled(w.psus, PsuTol) || w.steps == SecantCap)
    ensures r.Err? ==> r.error == DegenerateSecantStep
    ensures r.Err? ==> exists h :: Degenerate(f, Seeds(pres), Probed(f, Seeds(pres)), 0, h)
  {
    var seeds := Seeds(pres);
    assert !Settled(seeds, PsuTol);
    var r := SecantSearch(f, seeds, Probed(f, seeds), 0);
    assert r.Ok? ==> r.value.psus[..2] == seeds && r.value.tees[..2] == Probed(f, seeds);
    r
  }

  /** The trace of the entry search at a suction pressure: it starts there
      and steps down by 50 psi. */
  function LastTrace(e: EntryInputs, psu: real): (t: seq<Sample>)
    ensures t == TeeLastAt(e, psu).trace.samples
    ensures |t| >= 1 && t[0].p == psu && SteppedBy(t, -PDec)
  {
    assert SteppedBy(TeeLastAt(e, psu).trace.samples, -PDec) by {
      TeeLastTrace(e, psu);
    }
    TeeLastAt(e, psu).trace.samples
  }

  /** The minimiser: the seeded secant search on the throat-entry energy,
      then the zero-energy lookup on the entry trace of the last guess. It
      returns the last guess even when the search has not converged; the
      oil rate is the reservoir's at that guess, and the throat-entry
      pressure, density and velocity are the zero lookup on that guess's
      entry trace, whose pressure lies between the trace's floor and the
      guess itself. It fails exactly when the search or the lookup fails,
      with their error. */
  function TeeMinimize(e: EntryInputs): (r: Result<Minimized>)
    ensures r.Ok? ==>
              && SeededSearch(EntryEnergy(e), e.ipr.pres) == Ok(r.value.run)
              && r.value.psu == Last(r.value.run.psus)
              && r.value.qoil == e.ipr.oilFlow(r.value.psu)
              && Last(TeeLastAt(e, r.value.psu).trace.samples).p <= r.value.pte <= r.value.psu
    ensures r.Err? ==>
              r.error == DegenerateSecantStep || r.error == TooFewSamples || r.error == EmptyMask
    ensures var s := SeededSearch(EntryEnergy(e), e.ipr.pres);
            s.Err? ==> r == Err(s.error)
    ensures var s := SeededSearch(EntryEnergy(e), e.ipr.pres);
            s.Ok? ==>
              var psu := Last(s.value.psus);
              var z := EntryZero(LastTrace(e, psu));
              && (z.Err? ==> r == Err(z.error))
              && (z.Ok? ==> r == Ok(Minimized(psu, e.ipr.oilFlow(psu), z.value.0, z.value.1, z.value.2, s.value)))
  {
    var w :- SeededSearch(EntryEnergy(e), e.ipr.pres);
    var psu := Last(w.psus);
    var zero :- EntryZero(LastTrace(e, psu));
    Ok(Minimized(psu, e.ipr.oilFlow(psu), zero.0, zero.1, zero.2, w))
  }

  /** The zero-energy lookup on a finished entry trace: the throat-entry
      lookup on its pressures, densities, velocities and total energies,
      which are evenly spaced 50 psi apart. It fails for lack of samples
      exactly when the trace holds only its starting sample, and with two or
      more samples it succeeds exactly when the slope mask keeps a sample;
      the pressure it finds lies between the trace's floor and its start. */
  function EntryZero(t: seq<Sample>): (r: Result<(real, real, real)>)
    requires |t| >= 1 && SteppedBy(t, -PDec)
    ensures |t| >= 2 ==>
              && UniformlySpaced(Pressures(t))
              && r == TeeZero(Pressures(t), Densities(t), Velocities(t), Totals(t))
              && (r.Ok? <==> exists i :: 0 <= i < |t| && TeePositiveSlope(Pressures(t), Totals(t))[i])
    ensures r.Ok? ==> Last(t).p <= r.value.0 <= t[0].p
    ensures r.Err? ==> r.error == TooFewSamples || r.error == EmptyMask
    ensures r == Err(TooFewSamples) <==> |t| == 1
  {
    var ps := Pressures(t);
    assert |t| >= 2 ==> UniformlySpaced(ps) && ps[1] < ps[0] by {
      if |t| >= 2 {
        SteppedUniform(t, -PDec);
      }
    }
    assert ps[0] == t[0].p && Last(ps) == Last(t).p;
    TeeZero(ps, Densities(t), Velocities(t), Totals(t))
  }
}
