/** The append-only energy trace of a stepped pressure search: one sample
    per trial pressure, carrying the kinetic term, the expansion energy
    accumulated along the path so far and their sum. */
module EnergyTrace {
  import opened Numerics
  import opened Station

  /** One trial pressure (psig) with the velocity (ft/s) and density
      (lbm/ft3) there, the kinetic term `ke`, the cumulative expansion energy
      `ee` and the total energy `te` (all ft2/s2). */
  datatype Sample = Sample(p: real, v: real, rho: real, ke: real, ee: real, te: real)

  function Pressures(t: seq<Sample>): (ps: seq<real>)
    ensures |ps| == |t| && forall i :: 0 <= i < |t| ==> ps[i] == t[i].p
  {
    seq(|t|, i requires 0 <= i < |t| => t[i].p)
  }

  function Densities(t: seq<Sample>): (rs: seq<real>)
    ensures |rs| == |t| && forall i :: 0 <= i < |t| ==> rs[i] == t[i].rho
  {
    seq(|t|, i requires 0 <= i < |t| => t[i].rho)
  }

  function Velocities(t: seq<Sample>): (vs: seq<real>)
    ensures |vs| == |t| && forall i :: 0 <= i < |t| ==> vs[i] == t[i].v
  {
    seq(|t|, i requires 0 <= i < |t| => t[i].v)
  }

  function Totals(t: seq<Sample>): (es: seq<real>)
    ensures |es| == |t| && forall i :: 0 <= i < |t| ==> es[i] == t[i].te
  {
    seq(|t|, i requires 0 <= i < |t| => t[i].te)
  }

  /** Sample i (i >= 1) adds to its predecessor's expansion energy exactly
      the trapezoid panel of the step between them. */
  ghost predicate Linked(t: seq<Sample>, i: int)
  {
    && 1 <= i < |t|
    && t[i - 1].rho > 0.0 && t[i].rho > 0.0
    && t[i].ee == t[i - 1].ee + IncrementalEE([t[i - 1].p, t[i].p], [t[i - 1].rho, t[i].rho])
  }

  /** The trace invariant: a reference sample with no expansion energy,
      every later sample linked to its predecessor, and the total energy of
      each sample the sum of its two terms. */
  ghost predicate Accumulated(t: seq<Sample>)
  {
    && |t| >= 1
    && PositiveAll(Densities(t))
    && t[0].ee == 0.0
    && (forall i :: 0 <= i < |t| ==> t[i].te == t[i].ke + t[i].ee)
    && (forall i :: 1 <= i < |t| ==> Linked(t, i))
  }

  /** Successive trial pressures differ by exactly `d`: the k-th pressure is
      the reference pressure moved by k steps. */
  ghost predicate SteppedBy(t: seq<Sample>, d: real)
  {
    forall i :: 0 <= i < |t| ==> t[i].p == t[0].p + (i as real) * d
  }

  /** How a station is conditioned at a trial pressure: the velocity, the
      mixture density and the kinetic term there. The density of a physical
      fluid is positive at every pressure. */
  datatype Conditioning = Conditioning(vel: real -> real, rho: real -> real, ke: real -> real)

  ghost predicate Dense(c: Conditioning)
  {
    forall p :: c.rho(p) > 0.0
  }

  type Profile = c: Conditioning | Dense(c) witness Conditioning(p => 0.0, p => 1.0, p => 0.0)

  /** The sample is the station conditioned at the sample's own pressure. */
  ghost predicate ConditionedAt(c: Profile, s: Sample)
  {
    s.v == c.vel(s.p) && s.rho == c.rho(s.p) && s.ke == c.ke(s.p)
  }

  /** The i-th trial pressure of a search that starts at p0 and moves by d
      each pass. */
  function TrialPressure(p0: real, d: real, i: nat): real
  {
    p0 + (i as real) * d
  }

  /** Expansion energy accumulated up to the i-th trial pressure: zero at
      the start, then one trapezoid panel per pass of the loop. */
  function ExpansionTo(c: Profile, p0: real, d: real, i: nat): real
  {
    if i == 0 then 0.0
    else
      var p, q := TrialPressure(p0, d, i - 1), TrialPressure(p0, d, i);
      ExpansionTo(c, p0, d, i - 1) + IncrementalEE([p, q], [c.rho(p), c.rho(q)])
  }

  /** The sample the loop records on its i-th pass (pass 0 is the set-up
      before the loop). */
  function SampleAt(c: Profile, p0: real, d: real, i: nat): Sample
  {
    var p := TrialPressure(p0, d, i);
    var ee := ExpansionTo(c, p0, d, i);
    Sample(p, c.vel(p), c.rho(p), c.ke(p), ee, c.ke(p) + ee)
  }

  /** The trace after n passes of a stepped search from p0 by d: one
      sample per pass, starting at p0. */
  function Trace(c: Profile, p0: real, d: real, n: nat): (t: seq<Sample>)
    ensures |t| == n + 1 && t[0].p == p0
  {
    seq(n + 1, i requires 0 <= i <= n => SampleAt(c, p0, d, i))
  }

  /** The trace a stepped search builds keeps the accumulation invariant,
      is stepped by exactly d, and every sample is the station conditioned
      at its own pressure. */
  lemma TraceKeeps(c: Profile, p0: real, d: real, n: nat)
    ensures var t := Trace(c, p0, d, n);
            && Accumulated(t) && SteppedBy(t, d)
            && forall i :: 0 <= i < |t| ==> ConditionedAt(c, t[i])
  {
    var t := Trace(c, p0, d, n);
    assert forall i :: 0 <= i <= n ==> t[i] == SampleAt(c, p0, d, i);
    forall i | 1 <= i < |t|
      ensures Linked(t, i)
    {
      assert t[i - 1] == SampleAt(c, p0, d, i - 1);
    }
  }

  /** One more pass appends exactly one sample and leaves the earlier ones
      untouched; the new sample's expansion energy is its predecessor's plus
      the trapezoid panel of the last two samples. */
  lemma TraceGrows(c: Profile, p0: real, d: real, n: nat)
    ensures Trace(c, p0, d, n + 1)[..n + 1] == Trace(c, p0, d, n)
    ensures var t, s := Trace(c, p0, d, n), Last(Trace(c, p0, d, n + 1));
            && s.p == Last(t).p + d
            && s.ee == Last(t).ee + IncrementalEE([Last(t).p, s.p], [Last(t).rho, s.rho])
            && s.te == s.ke + s.ee
  {
    var t, t' := Trace(c, p0, d, n), Trace(c, p0, d, n + 1);
    forall i | 0 <= i <= n
      ensures t'[i] == t[i]
    {
      assert t'[i] == SampleAt(c, p0, d, i);
    }
    assert t'[..n + 1] == t;
    var p, q := TrialPressure(p0, d, n), TrialPressure(p0, d, n + 1);
    assert q == p + d;
    assert Last(t) == SampleAt(c, p0, d, n);
    assert Last(t') == SampleAt(c, p0, d, n + 1);
  }

  /** A trace is determined by its start, its step and its conditioning:
      any trace with the same start that keeps the invariant is the one the
      search builds. */
  lemma {:induction false} TraceUnique(c: Profile, t: seq<Sample>, d: real)
    requires Accumulated(t) && SteppedBy(t, d)
    requires forall i :: 0 <= i < |t| ==> ConditionedAt(c, t[i])
    ensures t == Trace(c, t[0].p, d, |t| - 1)
  {
    var u := Trace(c, t[0].p, d, |t| - 1);
    TraceKeeps(c, t[0].p, d, |t| - 1);
    forall i | 0 <= i < |t|
      ensures t[i] == u[i]
    {
      SameSample(c, t, u, d, i);
    }
  }

  lemma {:induction false} SameSample(c: Profile, t: seq<Sample>, u: seq<Sample>, d: real, i: nat)
    requires Accumulated(t) && SteppedBy(t, d) && Accumulated(u) && SteppedBy(u, d)
    requires |t| == |u| && i < |t| && t[0].p == u[0].p
    requires forall k :: 0 <= k < |t| ==> ConditionedAt(c, t[k])
    requires forall k :: 0 <= k < |u| ==> ConditionedAt(c, u[k])
    ensures t[i] == u[i]
  {
    assert t[i].p == u[i].p;
    assert ConditionedAt(c, t[i]) && ConditionedAt(c, u[i]);
    if i > 0 {
      SameSample(c, t, u, d, i - 1);
      assert Linked(t, i) && Linked(u, i);
    }
  }

  /** On a trace stepped by `d`, each pressure is its predecessor's plus d. */
  lemma SteppedAdjacent(t: seq<Sample>, d: real, i: nat)
    requires SteppedBy(t, d) && 1 <= i < |t|
    ensures t[i].p == t[i - 1].p + d
  {
    assert t[i].p == t[0].p + (i as real) * d;
    assert t[i - 1].p == t[0].p + ((i - 1) as real) * d;
  }

  /** The expansion energy gained between samples j and k of the trace is
      the trapezoid rule over that stretch of the path: accumulating one
      panel per step is the same as integrating the whole stretch at once. */
  lemma {:induction false} ExpansionBetween(t: seq<Sample>, j: nat, k: nat)
    requires Accumulated(t) && j <= k < |t|
    ensures t[k].ee - t[j].ee == IncrementalEE(Pressures(t[j..k + 1]), Densities(t[j..k + 1]))
    decreases k - j
  {
    if k > j {
      ExpansionBetween(t, j, k - 1);
      var ps, rs := Pressures(t[j..k]), Densities(t[j..k]);
      assert Pressures(t[j..k + 1]) == ps + [t[k].p];
      assert Densities(t[j..k + 1]) == rs + [t[k].rho];
      assert Linked(t, k);
      IncrementalEESnoc(ps, rs, t[k].p, t[k].rho);
    }
  }

  /** Each sample's expansion energy is the trapezoid integral from the
      reference sample to it. */
  lemma CumulativeExpansion(t: seq<Sample>, k: nat)
    requires Accumulated(t) && k < |t|
    ensures t[k].ee == IncrementalEE(Pressures(t[..k + 1]), Densities(t[..k + 1]))
  {
    ExpansionBetween(t, 0, k);
    assert t[0..k + 1] == t[..k + 1];
  }

  /** Along a trace stepped down in pressure the expansion energy strictly
      falls, and along one stepped up it strictly rises. */
  lemma {:induction false} ExpansionFollowsStep(t: seq<Sample>, d: real, i: nat)
    requires Accumulated(t) && SteppedBy(t, d) && 1 <= i < |t|
    ensures d < 0.0 ==> t[i].ee < t[i - 1].ee
    ensures d > 0.0 ==> t[i].ee > t[i - 1].ee
  {
    assert Linked(t, i);
    SteppedAdjacent(t, d, i);
    IncrementalEEPair(t[i - 1].p, t[i].p, t[i - 1].rho, t[i].rho);
  }
}
