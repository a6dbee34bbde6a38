/** The throat-entry station: the downward stepped pressure search that
    records the entry energy trace until the flow goes sonic or the pressure
    floor is reached, and the zero-energy lookup on that trace. */
module ThroatEntry {
  import opened Numerics
  import opened Collaborators
  import opened Station
  import opened EnergyTrace
  import opened Status

  /** Pressure decrement between trial throat-entry pressures, psi; it is
      also the pressure floor below which the search does not step. */
  const PDec: real := 50.0

  /** Inputs of the entry search: suction temperature (deg F), entry loss
      factor, throat entry area (ft2), reservoir inflow, suction fluid and
      the single-phase helpers. */
  datatype EntryInputs = EntryInputs(
    tsu: real, ken: real, ate: real, ipr: InFlow, mix: Mixture, sp: SinglePhase)

  /** The entry trace: energy samples and, alongside, the Mach number of
      each sample. */
  datatype EntryTrace = EntryTrace(samples: seq<Sample>, machs: seq<real>)

  /** Entry velocity at pressure p for oil rate qoil. */
  function Velocity(e: EntryInputs, qoil: real, p: real): real
  {
    e.sp.velocity(e.mix.volmFlow(p, e.tsu, qoil), e.ate)
  }

  /** Mach number of the entry flow at pressure p. */
  function Mach(e: EntryInputs, qoil: real, p: real): real
  {
    Velocity(e, qoil, p) / e.mix.cMix(p, e.tsu)
  }

  /** The entry station as a function of pressure: velocity, suction fluid
      density and entrance kinetic term. */
  function EntryProfile(e: EntryInputs, qoil: real): Profile
  {
    assert forall p :: e.mix.rhoMix(p, e.tsu) > 0.0;
    Conditioning(p => Velocity(e, qoil, p), p => e.mix.rhoMix(p, e.tsu),
                 p => EnteranceKE(e.ken, Velocity(e, qoil, p)))
  }

  /** A sample and its Mach number are the entry station conditioned at the
      sample's own pressure. */
  ghost predicate SampledAt(e: EntryInputs, qoil: real, s: Sample, mach: real)
  {
    && s.v == Velocity(e, qoil, s.p)
    && s.rho == e.mix.rhoMix(s.p, e.tsu)
    && s.ke == EnteranceKE(e.ken, s.v)
    && mach == Mach(e, qoil, s.p)
  }

  ghost predicate Valid(e: EntryInputs, qoil: real, tr: EntryTrace)
  {
    && |tr.samples| == |tr.machs|
    && Accumulated(tr.samples)
    && SteppedBy(tr.samples, -PDec)
    && forall i :: 0 <= i < |tr.samples| ==> SampledAt(e, qoil, tr.samples[i], tr.machs[i])
  }

  /** The loop guard at a trial pressure: still subsonic (Mach at most 1)
      and still above the pressure floor. */
  predicate KeepsStepping(e: EntryInputs, qoil: real, p: real)
  {
    Mach(e, qoil, p) <= 1.0 && p > PDec
  }

  /** The guard at the i-th trial pressure of the search from psu. */
  predicate GuardAt(e: EntryInputs, qoil: real, psu: real, i: nat)
  {
    KeepsStepping(e, qoil, TrialPressure(psu, -PDec, i))
  }

  /** The same guard read off the last entry of a trace. */
  predicate Continues(tr: EntryTrace)
    requires |tr.samples| >= 1 && |tr.machs| >= 1
  {
    Last(tr.machs) <= 1.0 && Last(tr.samples).p > PDec
  }

  /** The number of passes the entry loop makes when it has already made i:
      it goes on exactly while the guard holds at the current trial pressure.
      Each pass lowers the pressure by 50 psi and the guard fails at the
      floor, so the loop ends. */
  function Passes(e: EntryInputs, qoil: real, psu: real, i: nat): (n: nat)
    ensures i <= n
    ensures !GuardAt(e, qoil, psu, n)
    ensures forall j: nat :: i <= j < n ==> GuardAt(e, qoil, psu, j)
    decreases var p := TrialPressure(psu, -PDec, i); if p > 0.0 then p.Floor else 0
  {
    if GuardAt(e, qoil, psu, i) then
      Passes(e, qoil, psu, i + 1)
    else
      i
  }

  /** Result of the entry search: the entry energy at Mach 1 (or at the
      floor), the oil rate and the whole trace. */
  datatype TeeLast = TeeLast(teeFin: real, qoil: real, trace: EntryTrace)

  /** The entry energy read off a finished trace: interpolated at Mach 1
      when the flow went sonic, otherwise the last total energy. */
  function TeeFin(tr: EntryTrace): (f: real)
    requires |tr.samples| == |tr.machs| >= 1
    ensures Last(tr.machs) < 1.0 ==> f == Last(tr.samples).te
    ensures 1.0 <= tr.machs[0] && 1.0 <= Last(tr.machs) ==> f == tr.samples[0].te
  {
    if Last(tr.machs) >= 1.0 then Interp(1.0, tr.machs, Totals(tr.samples))
    else Last(tr.samples).te
  }

  /** The entry loop run from suction pressure psu at oil rate qoil: one
      sample and one Mach number per pass, starting at psu. */
  function EntrySearch(e: EntryInputs, qoil: real, psu: real): (tr: EntryTrace)
    ensures |tr.samples| == |tr.machs| >= 1 && tr.samples[0].p == psu
  {
    var n := Passes(e, qoil, psu, 0);
    var samples := Trace(EntryProfile(e, qoil), psu, -PDec, n);
    var machs := seq(n + 1, i requires 0 <= i <= n => Mach(e, qoil, samples[i].p));
    EntryTrace(samples, machs)
  }

  /** The entry loop keeps the entry invariant, stops only when the flow is
      sonic or the floor is reached, and every sample it stepped from was
      subsonic and above the floor. */
  lemma EntrySearchStops(e: EntryInputs, qoil: real, psu: real)
    ensures var tr := EntrySearch(e, qoil, psu);
            && Valid(e, qoil, tr)
            && !Continues(tr)
            && forall i :: 0 <= i < |tr.samples| - 1 ==>
                 tr.machs[i] <= 1.0 && tr.samples[i].p > PDec
  {
    var n := Passes(e, qoil, psu, 0);
    var tr := EntrySearch(e, qoil, psu);
    assert tr.samples == Trace(EntryProfile(e, qoil), psu, -PDec, n);
    TraceKeeps(EntryProfile(e, qoil), psu, -PDec, n);
    EntryTraceValid(e, qoil, tr);
    EntryGuards(e, qoil, psu, n, tr);
  }

  lemma EntryGuards(e: EntryInputs, qoil: real, psu: real, n: nat, tr: EntryTrace)
    requires Valid(e, qoil, tr) && |tr.samples| == n + 1 && tr.samples[0].p == psu
    requires !GuardAt(e, qoil, psu, n)
    requires forall j: nat :: j < n ==> GuardAt(e, qoil, psu, j)
    ensures !Continues(tr)
    ensures forall i :: 0 <= i < |tr.samples| - 1 ==>
              tr.machs[i] <= 1.0 && tr.samples[i].p > PDec
  {
    forall i | 0 <= i <= n
      ensures tr.samples[i].p == TrialPressure(psu, -PDec, i)
      ensures tr.machs[i] == Mach(e, qoil, TrialPressure(psu, -PDec, i))
    {
      assert SampledAt(e, qoil, tr.samples[i], tr.machs[i]);
    }
    forall i | 0 <= i < n
      ensures tr.machs[i] <= 1.0 && tr.samples[i].p > PDec
    {
      assert GuardAt(e, qoil, psu, i);
    }
  }

  /** The throat-entry energy search at suction pressure psu: the oil rate
      there, the entry trace starting at psu, and the entry energy read off
      that trace. */
  function TeeLastAt(e: EntryInputs, psu: real): (r: TeeLast)
    ensures r.qoil == e.ipr.oilFlow(psu)
    ensures |r.trace.samples| == |r.trace.machs| >= 1 && r.trace.samples[0].p == psu
  {
    var qoil := e.ipr.oilFlow(psu);
    var tr := EntrySearch(e, qoil, psu);
    TeeLast(TeeFin(tr), qoil, tr)
  }

  /** The trace of the entry search at psu starts at psu with no expansion
      energy, steps down by exactly 50 psi, keeps every appended pressure
      positive, takes fewer than psu/50 steps, and stops only when the flow
      is sonic or the floor is reached; if the flow stays subsonic the
      reported energy is the last sample's. */
  lemma TeeLastTrace(e: EntryInputs, psu: real)
    ensures var r := TeeLastAt(e, psu);
            && Valid(e, r.qoil, r.trace)
            && r.trace.samples[0].ee == 0.0
            && r.trace.samples[0].te == r.trace.samples[0].ke
            && !Continues(r.trace)
            && (forall i :: 0 <= i < |r.trace.samples| - 1 ==>
                  r.trace.machs[i] <= 1.0 && r.trace.samples[i].p > PDec)
            && (forall i :: 1 <= i < |r.trace.samples| ==> r.trace.samples[i].p > 0.0)
            && (|r.trace.samples| == 1 || ((|r.trace.samples| - 1) as real) * PDec < psu)
            && ((forall i :: 0 <= i < |r.trace.machs| ==> r.trace.machs[i] < 1.0) ==>
                  r.teeFin == Last(r.trace.samples).te)
  {
    var qoil := e.ipr.oilFlow(psu);
    EntrySearchStops(e, qoil, psu);
    EntryPressuresPositive(e, qoil, EntrySearch(e, qoil, psu));
  }

  /** Every pressure the loop appends comes from a predecessor above the
      floor, so it is positive, and the number of passes stays below psu/50. */
  lemma EntryPressuresPositive(e: EntryInputs, qoil: real, tr: EntryTrace)
    requires Valid(e, qoil, tr)
    requires forall i :: 0 <= i < |tr.samples| - 1 ==> tr.samples[i].p > PDec
    ensures forall i :: 1 <= i < |tr.samples| ==> tr.samples[i].p > 0.0
    ensures |tr.samples| == 1 || ((|tr.samples| - 1) as real) * PDec < tr.samples[0].p
  {
    var n := |tr.samples|;
    forall i | 1 <= i < n
      ensures tr.samples[i].p > 0.0
    {
      SteppedAdjacent(tr.samples, -PDec, i);
    }
    if n >= 2 {
      assert tr.samples[n - 2].p == tr.samples[0].p + ((n - 2) as real) * -PDec;
    }
  }

  lemma EntryTraceValid(e: EntryInputs, qoil: real, tr: EntryTrace)
    requires |tr.samples| == |tr.machs|
    requires Accumulated(tr.samples) && SteppedBy(tr.samples, -PDec)
    requires forall i :: 0 <= i < |tr.samples| ==> ConditionedAt(EntryProfile(e, qoil), tr.samples[i])
    requires forall i :: 0 <= i < |tr.machs| ==> tr.machs[i] == Mach(e, qoil, tr.samples[i].p)
    ensures Valid(e, qoil, tr)
  {
    forall i | 0 <= i < |tr.samples|
      ensures SampledAt(e, qoil, tr.samples[i], tr.machs[i])
    {
      assert ConditionedAt(EntryProfile(e, qoil), tr.samples[i]);
    }
  }

  /** When the flow turns sonic only at the last sample, the entry energy at
      Mach 1 is read on the final segment of the trace, between the last
      subsonic sample and the sonic one. */
  lemma TeeFinSonicSegment(tr: EntryTrace)
    requires |tr.samples| == |tr.machs| >= 2
    requires Last(tr.machs) >= 1.0
    requires forall i :: 0 <= i < |tr.machs| - 1 ==> tr.machs[i] < 1.0
    ensures var n := |tr.samples|;
            TeeFin(tr) == Lerp(1.0, tr.machs[n - 2], tr.machs[n - 1],
                               tr.samples[n - 2].te, tr.samples[n - 1].te)
  {
    InterpLastSegment(1.0, tr.machs, Totals(tr.samples));
  }

  /** Trial pressures spaced evenly by a non-zero step. */
  ghost predicate UniformlySpaced(ps: seq<real>)
  {
    && |ps| >= 2
    && ps[1] != ps[0]
    && Stepped(ps, ps[1] - ps[0])
  }

  /** A trace of two or more samples stepped by a non-zero d has evenly
      spaced pressures, d apart. */
  lemma SteppedUniform(t: seq<Sample>, d: real)
    requires SteppedBy(t, d) && |t| >= 2 && d != 0.0
    ensures UniformlySpaced(Pressures(t)) && t[1].p - t[0].p == d
  {
    assert t[1].p == t[0].p + 1.0 * d;
  }

  lemma QuotientSign(x: real, h: real)
    requires h != 0.0
    ensures x / h >= 0.0 <==> x * h >= 0.0
  {
    var q := x / h;
    assert q * h == x;
    assert x * h == q * (h * h);
    assert h * h > 0.0;
    if q < 0.0 {
      assert q * (h * h) < 0.0;
    }
    if q >= 0.0 {
      assert q * (h * h) >= 0.0;
    }
  }

  /** numpy's gradient of the total energy against pressure at sample i on
      an even spacing h: one-sided at the two ends, central inside. It is
      non-negative exactly when the energy difference it divides has the sign
      of the pressure step (or is zero). */
  function Gradient(tee: seq<real>, h: real, i: nat): (g: real)
    requires h != 0.0 && |tee| >= 2 && i < |tee|
    ensures var n := |tee|;
            var d := if i == 0 then tee[1] - tee[0]
                     else if i == n - 1 then tee[n - 1] - tee[n - 2]
                     else tee[i + 1] - tee[i - 1];
            g >= 0.0 <==> d * h >= 0.0
  {
    var n := |tee|;
    if i == 0 then
      QuotientSign(tee[1] - tee[0], h);
      (tee[1] - tee[0]) / h
    else if i == n - 1 then
      QuotientSign(tee[n - 1] - tee[n - 2], h);
      (tee[n - 1] - tee[n - 2]) / h
    else
      var d := tee[i + 1] - tee[i - 1];
      QuotientSign(d, 2.0 * h);
      assert d * (2.0 * h) == 2.0 * (d * h);
      d / (2.0 * h)
  }

  /** The gradient is exact on energies that are linear in the sample
      index: with tee[j] = tee[0] + j * s * h it reads s at every sample. */
  lemma GradientLinear(tee: seq<real>, h: real, s: real, i: nat)
    requires h != 0.0 && |tee| >= 2 && i < |tee|
    requires forall j :: 0 <= j < |tee| ==> tee[j] == tee[0] + (j as real) * (s * h)
    ensures Gradient(tee, h, i) == s
  {
    var n := |tee|;
    LinearIncrement(tee, s * h, 0);
    LinearIncrement(tee, s * h, n - 2);
    if 0 < i < n - 1 {
      LinearIncrement(tee, s * h, i - 1);
      LinearIncrement(tee, s * h, i);
    }
    GradientOfIncrements(tee, h, s, i);
  }

  /** The gradient at a sample whose differences are those of slope s. */
  lemma GradientOfIncrements(tee: seq<real>, h: real, s: real, i: nat)
    requires h != 0.0 && |tee| >= 2 && i < |tee|
    requires tee[1] - tee[0] == s * h && tee[|tee| - 1] - tee[|tee| - 2] == s * h
    requires 0 < i < |tee| - 1 ==> tee[i + 1] - tee[i] == s * h && tee[i] - tee[i - 1] == s * h
    ensures Gradient(tee, h, i) == s
  {
    if i == 0 || i == |tee| - 1 {
      DivOfProduct(s, h);
    } else {
      assert tee[i + 1] - tee[i - 1] == s * (2.0 * h);
      DivOfProduct(s, 2.0 * h);
    }
  }

  /** Neighbouring energies of a linear profile differ by its step. */
  lemma LinearIncrement(tee: seq<real>, c: real, j: nat)
    requires j + 1 < |tee|
    requires forall k :: 0 <= k < |tee| ==> tee[k] == tee[0] + (k as real) * c
    ensures tee[j + 1] - tee[j] == c
  {
    assert tee[j + 1] == tee[0] + ((j + 1) as real) * c;
    assert tee[j] == tee[0] + (j as real) * c;
    assert ((j + 1) as real) * c == (j as real) * c + c;
  }

  /** The mask of samples where the total energy does not fall as the
      pressure rises: the difference of the neighbouring energies has the
      sign of the pressure step (or is zero). */
  function TeePositiveSlope(pte: seq<real>, tee: seq<real>): (mask: seq<bool>)
    requires |pte| == |tee| && UniformlySpaced(pte)
    ensures |mask| == |pte|
    ensures var h, n := pte[1] - pte[0], |pte|;
            && (mask[0] <==> (tee[1] - tee[0]) * h >= 0.0)
            && (mask[n - 1] <==> (tee[n - 1] - tee[n - 2]) * h >= 0.0)
            && forall i :: 0 < i < n - 1 ==> (mask[i] <==> (tee[i + 1] - tee[i - 1]) * h >= 0.0)
  {
    var h, n := pte[1] - pte[0], |pte|;
    seq(n, i requires 0 <= i < n => Gradient(tee, h, i) >= 0.0)
  }

  /** Throat-entry pressure, density and velocity where the total energy
      crosses zero, interpolated over the samples kept by the slope mask, read
      from the highest pressure down. It fails exactly when numpy would raise:
      fewer than two samples, or a mask that keeps nothing. The pressure
      found lies within the searched pressure range. */
  function TeeZero(pte: seq<real>, rho: seq<real>, vte: seq<real>, tee: seq<real>)
    : (r: Result<(real, real, real)>)
    requires |pte| == |rho| == |vte| == |tee|
    requires |pte| >= 2 ==> UniformlySpaced(pte)
    ensures |pte| < 2 ==> r == Err(TooFewSamples)
    ensures |pte| >= 2 ==>
              (r.Ok? <==> exists i :: 0 <= i < |pte| && TeePositiveSlope(pte, tee)[i])
    ensures r.Err? ==> r.error == TooFewSamples || r.error == EmptyMask
    ensures r.Ok? && pte[1] < pte[0] ==> Last(pte) <= r.value.0 <= pte[0]
    ensures r.Ok? && pte[1] > pte[0] ==> pte[0] <= r.value.0 <= Last(pte)
  {
    if |pte| < 2 then Err(TooFewSamples)
    else
      var mask := TeePositiveSlope(pte, tee);
      CountPositive(mask);
      if Count(mask) == 0 then Err(EmptyMask)
      else
        var xp := Flipped(tee, mask);
        var p := Interp(0.0, xp, Flipped(pte, mask));
        ZeroInTrace(pte, mask, xp);
        Ok((p, Interp(0.0, xp, Flipped(rho, mask)), Interp(0.0, xp, Flipped(vte, mask))))
  }

  /** The entries the mask keeps, read from the last sample back to the
      first (numpy's `flip(xs[mask])`). */
  function Flipped<T>(xs: seq<T>, mask: seq<bool>): (r: seq<T>)
    requires |xs| == |mask|
    ensures |r| == Count(mask)
  {
    Reverse(Select(xs, mask))
  }

  /** Where the kept energies, read back to front, increase and bracket zero
      on their k-th segment, the lookup succeeds and each of the three
      results is the straight line through that segment's end samples,
      evaluated where the energy is zero. */
  lemma TeeZeroCrossing(pte: seq<real>, rho: seq<real>, vte: seq<real>, tee: seq<real>, k: nat)
    requires |pte| == |rho| == |vte| == |tee| >= 2 && UniformlySpaced(pte)
    requires var xp := Flipped(tee, TeePositiveSlope(pte, tee));
             StrictlyIncreasing(xp) && k + 1 < |xp| && xp[k] <= 0.0 <= xp[k + 1]
    ensures var mask := TeePositiveSlope(pte, tee);
            var xp := Flipped(tee, mask);
            var r := TeeZero(pte, rho, vte, tee);
            && r.Ok?
            && r.value.0 == Lerp(0.0, xp[k], xp[k + 1], Flipped(pte, mask)[k], Flipped(pte, mask)[k + 1])
            && r.value.1 == Lerp(0.0, xp[k], xp[k + 1], Flipped(rho, mask)[k], Flipped(rho, mask)[k + 1])
            && r.value.2 == Lerp(0.0, xp[k], xp[k + 1], Flipped(vte, mask)[k], Flipped(vte, mask)[k + 1])
  {
    var mask := TeePositiveSlope(pte, tee);
    var xp := Flipped(tee, mask);
    InterpOnSegment(0.0, xp, Flipped(pte, mask), k);
    InterpOnSegment(0.0, xp, Flipped(rho, mask), k);
    InterpOnSegment(0.0, xp, Flipped(vte, mask), k);
  }

  /** Where the kept energies do not bracket zero the lookup clamps: if the
      first kept energy (the highest pressure's) is already non-negative it
      reads that sample, and if every kept energy is negative it reads the
      last kept sample. */
  lemma TeeZeroClamped(pte: seq<real>, rho: seq<real>, vte: seq<real>, tee: seq<real>)
    requires |pte| == |rho| == |vte| == |tee| >= 2 && UniformlySpaced(pte)
    requires Count(TeePositiveSlope(pte, tee)) >= 1
    ensures var mask := TeePositiveSlope(pte, tee);
            var xp := Flipped(tee, mask);
            var r := TeeZero(pte, rho, vte, tee);
            && (0.0 <= xp[0] ==>
                  r == Ok((Flipped(pte, mask)[0], Flipped(rho, mask)[0], Flipped(vte, mask)[0])))
            && ((forall i :: 0 <= i < |xp| ==> xp[i] < 0.0) ==>
                  r == Ok((Last(Flipped(pte, mask)), Last(Flipped(rho, mask)), Last(Flipped(vte, mask)))))
  {
  }

  /** Interpolating over a masked, reversed selection of values stays
      within any bounds the values themselves keep. */
  lemma ZeroWithinRange(pte: seq<real>, mask: seq<bool>, xp: seq<real>, lo: real, hi: real)
    requires |mask| == |pte| && Count(mask) >= 1 && |xp| == Count(mask)
    requires forall k :: 0 <= k < |pte| ==> lo <= pte[k] <= hi
    ensures lo <= Interp(0.0, xp, Reverse(Select(pte, mask))) <= hi
  {
    var s := Select(pte, mask);
    var ps := Reverse(s);
    forall i | 0 <= i < |ps|
      ensures lo <= ps[i] <= hi
    {
      assert ps[i] == s[|s| - 1 - i];
      assert ps[i] in s;
    }
    InterpWithin(0.0, xp, ps, lo, hi);
  }

  lemma ZeroInTrace(pte: seq<real>, mask: seq<bool>, xp: seq<real>)
    requires UniformlySpaced(pte) && |mask| == |pte| && Count(mask) >= 1 && |xp| == Count(mask)
    ensures pte[1] < pte[0] ==> Last(pte) <= Interp(0.0, xp, Reverse(Select(pte, mask))) <= pte[0]
    ensures pte[1] > pte[0] ==> pte[0] <= Interp(0.0, xp, Reverse(Select(pte, mask))) <= Last(pte)
  {
    SteppedWithin(pte, pte[1] - pte[0]);
    if pte[1] < pte[0] {
      ZeroWithinRange(pte, mask, xp, Last(pte), pte[0]);
    } else {
      ZeroWithinRange(pte, mask, xp, pte[0], Last(pte));
    }
  }
}
