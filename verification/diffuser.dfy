/** The diffuser station: the upward stepped pressure search that records
    the diffuser energy trace until the total energy turns non-negative, and
    the discharge pressure read off that trace where the energy crosses
    zero. */
module Diffuser {
  import opened Numerics
  import opened Collaborators
  import opened Station
  import opened EnergyTrace

  /** Pressure increment between trial discharge pressures, psi. */
  const PInc: real := 100.0

  /** At most this many increments are made. */
  const DiffuserCap: nat := 15

  /** Inputs of the diffuser search: throat-mixture pressure (psig) and
      temperature (deg F), diffuser friction factor, throat and diffuser
      areas (ft2), oil rate (STBOPD), the mixture and the single-phase
      helpers. */
  datatype DiffuserInputs = DiffuserInputs(
    ptm: real, ttm: real, kdi: real, ath: real, adi: real, qoil: real,
    mix: Mixture, sp: SinglePhase)

  /** In-situ volumetric flow of the mixture conditioned at pressure p. */
  function Flow(c: DiffuserInputs, p: real): real
  {
    c.mix.volmFlow(p, c.ttm, c.qoil)
  }

  /** Throat-mixture velocity: the flow conditioned at the throat-mixture
      pressure through the throat. It is computed once, before the loop. */
  function ThroatVelocity(c: DiffuserInputs): real
  {
    c.sp.velocity(Flow(c, c.ptm), c.ath)
  }

  /** The diffuser station as a function of pressure: discharge velocity,
      mixture density and diffuser kinetic term against the fixed throat
      velocity. */
  function DiffuserProfile(c: DiffuserInputs): Profile
  {
    assert forall p :: c.mix.rhoMix(p, c.ttm) > 0.0;
    Conditioning(p => c.sp.velocity(Flow(c, p), c.adi), p => c.mix.rhoMix(p, c.ttm),
                 p => DiffuserKE(c.kdi, ThroatVelocity(c), c.sp.velocity(Flow(c, p), c.adi)))
  }

  /** Total energy at the i-th trial pressure. */
  function EnergyAt(c: DiffuserInputs, i: nat): real
  {
    SampleAt(DiffuserProfile(c), c.ptm, PInc, i).te
  }

  /** The number of increments the diffuser loop makes when it has already
      made i: it goes on while the total energy is negative, and stops at
      the fifteenth increment whatever the energy. */
  function DiffuserPasses(c: DiffuserInputs, i: nat): (n: nat)
    requires i <= DiffuserCap
    ensures i <= n <= DiffuserCap
    ensures EnergyAt(c, n) >= 0.0 || n == DiffuserCap
    ensures forall j: nat :: i <= j < n ==> EnergyAt(c, j) < 0.0
    decreases DiffuserCap - i
  {
    if i < DiffuserCap && EnergyAt(c, i) < 0.0 then DiffuserPasses(c, i + 1) else i
  }

  /** The throat velocity the diffuser used, the discharge pressure and the
      trace it was read from. */
  datatype DiffuserResult = DiffuserResult(vtm: real, pdi: real, trace: seq<Sample>)

  /** The diffuser discharge: step the pressure up from the throat-mixture
      pressure, then interpolate the pressure where the total energy is
      zero. */
  function DiffuserDischarge(c: DiffuserInputs): (r: DiffuserResult)
    ensures 1 <= |r.trace| <= DiffuserCap + 1 && r.trace[0].p == c.ptm
    ensures r.vtm == ThroatVelocity(c)
  {
    var n := DiffuserPasses(c, 0);
    var t := Trace(DiffuserProfile(c), c.ptm, PInc, n);
    DiffuserResult(ThroatVelocity(c), Interp(0.0, Totals(t), Pressures(t)), t)
  }

  /** The diffuser trace starts at the throat-mixture pressure with no
      expansion energy, rises by exactly 100 psi per increment, keeps the
      accumulation invariant, and charges every sample's kinetic term
      against the one throat velocity fixed before the loop. The loop went
      on exactly while the energy was negative and stopped at the first
      non-negative energy or after fifteen increments. The discharge pressure
      lies between the throat-mixture pressure and the last trial pressure. */
  lemma DiffuserTrace(c: DiffuserInputs)
    ensures var r := DiffuserDischarge(c);
            && Accumulated(r.trace) && SteppedBy(r.trace, PInc)
            && r.trace[0].ee == 0.0
            && (forall i :: 0 <= i < |r.trace| ==>
                  r.trace[i].ke == DiffuserKE(c.kdi, r.vtm, r.trace[i].v))
            && (Last(r.trace).te >= 0.0 || |r.trace| == DiffuserCap + 1)
            && (forall i :: 0 <= i < |r.trace| - 1 ==> r.trace[i].te < 0.0)
            && c.ptm <= r.pdi <= Last(r.trace).p
  {
    var n := DiffuserPasses(c, 0);
    var prof := DiffuserProfile(c);
    var t := Trace(prof, c.ptm, PInc, n);
    TraceKeeps(prof, c.ptm, PInc, n);
    assert forall i :: 0 <= i <= n ==> t[i] == SampleAt(prof, c.ptm, PInc, i);
    forall i | 0 <= i < |t|
      ensures t[i].ke == DiffuserKE(c.kdi, ThroatVelocity(c), t[i].v)
    {
      assert ConditionedAt(prof, t[i]);
    }
    forall i | 0 <= i < |t| - 1
      ensures t[i].te < 0.0
    {
      assert EnergyAt(c, i) < 0.0;
    }
    assert Last(t) == SampleAt(prof, c.ptm, PInc, n);
    assert Stepped(Pressures(t), PInc) && Last(Pressures(t)) == Last(t).p;
    SteppedWithin(Pressures(t), PInc);
    InterpWithin(0.0, Totals(t), Pressures(t), c.ptm, Last(t).p);
  }

  /** When the energy turns non-negative only at the last trial pressure,
      the discharge pressure is read on the last increment, between the
      last two trial pressures. */
  lemma DischargeOnLastIncrement(c: DiffuserInputs)
    ensures var r := DiffuserDischarge(c);
            var n := |r.trace|;
            n >= 2 && r.trace[n - 2].te < 0.0 <= r.trace[n - 1].te ==>
              r.trace[n - 2].p <= r.pdi <= r.trace[n - 1].p
              && r.pdi == Lerp(0.0, r.trace[n - 2].te, r.trace[n - 1].te,
                               r.trace[n - 2].p, r.trace[n - 1].p)
  {
    var n := DiffuserPasses(c, 0);
    var t := Trace(DiffuserProfile(c), c.ptm, PInc, n);
    assert DiffuserDischarge(c).trace == t;
    assert DiffuserDischarge(c).pdi == Interp(0.0, Totals(t), Pressures(t));
    if |t| >= 2 && t[|t| - 2].te < 0.0 <= Last(t).te {
      DiffuserStops(c);
      CrossingOnLastIncrement(t);
    }
  }

  /** The diffuser trace is stepped up by 100 psi and its energy is negative
      at every sample but the last. */
  lemma DiffuserStops(c: DiffuserInputs)
    ensures var t := Trace(DiffuserProfile(c), c.ptm, PInc, DiffuserPasses(c, 0));
            && SteppedBy(t, PInc)
            && (forall i :: 0 <= i < |t| - 1 ==> t[i].te < 0.0)
            && (Last(t).te >= 0.0 || |t| == DiffuserCap + 1)
  {
    var n := DiffuserPasses(c, 0);
    var prof := DiffuserProfile(c);
    var t := Trace(prof, c.ptm, PInc, n);
    TraceKeeps(prof, c.ptm, PInc, n);
    forall i | 0 <= i < |t| - 1
      ensures t[i].te < 0.0
    {
      assert t[i] == SampleAt(prof, c.ptm, PInc, i);
      assert EnergyAt(c, i) < 0.0;
    }
    assert Last(t) == SampleAt(prof, c.ptm, PInc, n);
  }

  /** On an upward trace whose energy is negative at every sample but the
      last, interpolating the zero of the energy reads the last increment. */
  lemma CrossingOnLastIncrement(t: seq<Sample>)
    requires |t| >= 2 && SteppedBy(t, PInc)
    requires forall i :: 0 <= i < |t| - 1 ==> t[i].te < 0.0
    requires Last(t).te >= 0.0
    ensures var n := |t|;
            && t[n - 2].p <= Interp(0.0, Totals(t), Pressures(t)) <= t[n - 1].p
            && Interp(0.0, Totals(t), Pressures(t))
               == Lerp(0.0, t[n - 2].te, t[n - 1].te, t[n - 2].p, t[n - 1].p)
  {
    var n := |t|;
    var xp, fp := Totals(t), Pressures(t);
    assert forall i :: 0 <= i < |xp| - 1 ==> xp[i] < 0.0;
    InterpLastSegment(0.0, xp, fp);
    SteppedAdjacent(t, PInc, n - 1);
    LerpBetween(0.0, t[n - 2].te, t[n - 1].te, t[n - 2].p, t[n - 1].p);
  }

  /** How the discharge pressure pdi reads off a search from ptm that made
      n increments, with energy lo at the last-but-one and hi at the last
      trial pressure: the throat-mixture pressure when the loop made no
      increment, the last trial pressure when the cap stopped the loop with
      the energy still negative, and otherwise the zero of the chord through
      the last increment, which lies on that increment. */
  predicate ReadsOff(ptm: real, n: nat, lo: real, hi: real, pdi: real)
  {
    var p0 := if n >= 1 then TrialPressure(ptm, PInc, n - 1) else ptm;
    var p1 := TrialPressure(ptm, PInc, n);
    && (n == 0 ==> pdi == ptm)
    && (hi < 0.0 ==> n == DiffuserCap && pdi == p1)
    && (n >= 1 && hi >= 0.0 ==> lo < 0.0 && p0 <= pdi <= p1 && pdi == Lerp(0.0, lo, hi, p0, p1))
  }

  /** On a trace stepped up by 100 psi from its first pressure, negative in
      energy before its last sample, that stops at a non-negative energy or
      at the cap, interpolating the zero of the energy reads off as above. */
  lemma TraceReadsOff(t: seq<Sample>)
    requires 1 <= |t| <= DiffuserCap + 1 && SteppedBy(t, PInc)
    requires forall i :: 0 <= i < |t| - 1 ==> t[i].te < 0.0
    requires Last(t).te >= 0.0 || |t| == DiffuserCap + 1
    ensures var n := |t| - 1;
            ReadsOff(t[0].p, n, if n >= 1 then t[n - 1].te else 0.0, t[n].te,
                     Interp(0.0, Totals(t), Pressures(t)))
  {
    var n := |t| - 1;
    var xp, fp := Totals(t), Pressures(t);
    assert t[n].p == TrialPressure(t[0].p, PInc, n);
    if n >= 1 {
      assert t[n - 1].p == TrialPressure(t[0].p, PInc, n - 1);
    }
    if n == 0 {
      assert |xp| == 1;
    } else if t[n].te < 0.0 {
      assert forall i :: 0 <= i < |xp| ==> xp[i] < 0.0;
    } else {
      CrossingOnLastIncrement(t);
    }
  }

  /** The energy at the last-but-one trial pressure of the diffuser loop,
      zero when the loop made no increment. */
  ghost function EnergyBefore(c: DiffuserInputs): real
  {
    var n := DiffuserPasses(c, 0);
    if n >= 1 then EnergyAt(c, n - 1) else 0.0
  }

  /** The discharge pressure reads off the energies at the trial pressures
      of the diffuser loop as above. */
  lemma DischargeReads(c: DiffuserInputs)
    ensures ReadsOff(c.ptm, DiffuserPasses(c, 0), EnergyBefore(c), EnergyAt(c, DiffuserPasses(c, 0)),
                     DiffuserDischarge(c).pdi)
  {
    var n := DiffuserPasses(c, 0);
    var prof := DiffuserProfile(c);
    var t := Trace(prof, c.ptm, PInc, n);
    var lo := if n >= 1 then t[n - 1].te else 0.0;
    assert ReadsOff(c.ptm, n, lo, t[n].te, DiffuserDischarge(c).pdi) by {
      assert DiffuserDischarge(c).pdi == Interp(0.0, Totals(t), Pressures(t));
      DiffuserStops(c);
      TraceReadsOff(t);
    }
    TraceEnergies(c);
  }

  /** The last two samples of the diffuser trace carry the energies at the
      last two trial pressures of the loop. */
  lemma TraceEnergies(c: DiffuserInputs)
    ensures var n := DiffuserPasses(c, 0);
            var t := Trace(DiffuserProfile(c), c.ptm, PInc, n);
            && t[n].te == EnergyAt(c, n)
            && EnergyBefore(c) == (if n >= 1 then t[n - 1].te else 0.0)
  {
    var n := DiffuserPasses(c, 0);
    var prof := DiffuserProfile(c);
    var t := Trace(prof, c.ptm, PInc, n);
    assert t[n] == SampleAt(prof, c.ptm, PInc, n);
    if n >= 1 {
      assert t[n - 1] == SampleAt(prof, c.ptm, PInc, n - 1);
    }
  }

  /** Two read-offs from the same throat-mixture pressure, the second
      stopping no later and, when both stop together, with energies at
      least as high: the second discharge pressure is no higher. */
  lemma ReadsOffOrder(ptm: real, n1: nat, lo1: real, hi1: real, pdi1: real,
                      ptm2: real, n2: nat, lo2: real, hi2: real, pdi2: real)
    requires ReadsOff(ptm, n1, lo1, hi1, pdi1) && ReadsOff(ptm2, n2, lo2, hi2, pdi2)
    requires ptm2 == ptm && n2 <= n1 && (n1 == n2 ==> lo1 <= lo2 && hi1 <= hi2)
    ensures pdi2 <= pdi1
  {
    var p := (i: nat) => TrialPressure(ptm, PInc, i);
    if n2 == 0 {
      if n1 >= 1 {
        assert p(0) <= p(n1 - 1);
      }
    } else if hi2 < 0.0 {
    } else if n1 > n2 {
      assert p(n2) <= p(n1 - 1);
    } else if hi1 >= 0.0 {
      ChordZeroOrder(lo1, hi1, lo2, hi2, p(n1 - 1), p(n1));
    }
  }

  /** More diffuser friction never raises the discharge pressure: the energy
      at every trial pressure is at least as high, so the loop stops no
      later and the chord through the last increment crosses zero no
      further up. */
  lemma DischargeFrictionMonotone(c1: DiffuserInputs, c2: DiffuserInputs)
    requires c2 == c1.(kdi := c2.kdi) && c1.kdi <= c2.kdi
    ensures DiffuserDischarge(c2).pdi <= DiffuserDischarge(c1).pdi
  {
    DischargeReads(c1);
    DischargeReads(c2);
    FrictionReadsOrder(c1, c2);
    ReadsOffOrder(c1.ptm, DiffuserPasses(c1, 0), EnergyBefore(c1), EnergyAt(c1, DiffuserPasses(c1, 0)),
                  DiffuserDischarge(c1).pdi,
                  c2.ptm, DiffuserPasses(c2, 0), EnergyBefore(c2), EnergyAt(c2, DiffuserPasses(c2, 0)),
                  DiffuserDischarge(c2).pdi);
  }

  /** With more friction the loop stops no later, and when it stops at the
      same increment the energies there are at least as high. */
  lemma FrictionReadsOrder(c1: DiffuserInputs, c2: DiffuserInputs)
    requires c2 == c1.(kdi := c2.kdi) && c1.kdi <= c2.kdi
    ensures c2.ptm == c1.ptm && DiffuserPasses(c2, 0) <= DiffuserPasses(c1, 0)
    ensures DiffuserPasses(c1, 0) == DiffuserPasses(c2, 0) ==>
              EnergyBefore(c1) <= EnergyBefore(c2)
              && EnergyAt(c1, DiffuserPasses(c1, 0)) <= EnergyAt(c2, DiffuserPasses(c2, 0))
  {
    var n1, n2 := DiffuserPasses(c1, 0), DiffuserPasses(c2, 0);
    assert n2 <= n1 by {
      FrictionStopsNoLater(c1, c2, 0);
    }
    if n1 == n2 {
      assert EnergyAt(c1, n1) <= EnergyAt(c2, n1) by {
        EnergyMonotone(c1, c2, n1);
      }
      if n1 >= 1 {
        assert EnergyAt(c1, n1 - 1) <= EnergyAt(c2, n1 - 1) by {
          EnergyMonotone(c1, c2, n1 - 1);
        }
      }
    }
  }

  /** More diffuser friction never lengthens the search: with a higher
      friction factor every trial pressure carries at least as much energy,
      so the energy turns non-negative no later. */
  lemma {:induction false} FrictionStopsNoLater(c1: DiffuserInputs, c2: DiffuserInputs, i: nat)
    requires c2 == c1.(kdi := c2.kdi) && c1.kdi <= c2.kdi && i <= DiffuserCap
    ensures DiffuserPasses(c2, i) <= DiffuserPasses(c1, i)
    decreases DiffuserCap - i
  {
    EnergyMonotone(c1, c2, i);
    if i < DiffuserCap && EnergyAt(c2, i) < 0.0 {
      FrictionStopsNoLater(c1, c2, i + 1);
    }
  }

  /** The total energy at each trial pressure does not decrease with the
      diffuser friction factor: only the kinetic term depends on it. */
  lemma EnergyMonotone(c1: DiffuserInputs, c2: DiffuserInputs, i: nat)
    requires c2 == c1.(kdi := c2.kdi) && c1.kdi <= c2.kdi
    ensures EnergyAt(c1, i) <= EnergyAt(c2, i)
  {
    var p := TrialPressure(c1.ptm, PInc, i);
    var a, b := DiffuserProfile(c1), DiffuserProfile(c2);
    assert forall q :: a.rho(q) == b.rho(q);
    ExpansionSameDensity(a, b, c1.ptm, i);
    assert ThroatVelocity(c1) == ThroatVelocity(c2);
    assert Flow(c1, p) == Flow(c2, p);
    DiffuserKEMonotone(c1.kdi, c2.kdi, ThroatVelocity(c1), c1.sp.velocity(Flow(c1, p), c1.adi));
    assert a.ke(p) <= b.ke(p);
  }

  /** Expansion energy depends on the densities only. */
  lemma {:induction false} ExpansionSameDensity(a: Profile, b: Profile, p0: real, i: nat)
    requires forall p :: a.rho(p) == b.rho(p)
    ensures ExpansionTo(a, p0, PInc, i) == ExpansionTo(b, p0, PInc, i)
  {
    if i > 0 {
      ExpansionSameDensity(a, b, p0, i - 1);
    }
  }
}
