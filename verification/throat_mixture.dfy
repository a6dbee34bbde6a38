/** The throat mixing station: the momentum balance that turns a guess of
    the throat-mixture pressure into a new estimate, and the bounded
    fixed-point refinement of that estimate. */
module ThroatMixture {
  import opened Numerics
  import opened Collaborators
  import opened Station

  /** Successive estimates this close (psi) count as converged. */
  const PtmTol: real := 5.0

  /** At most this many refinements are made. */
  const ThroatCap: nat := 10

  /** Inputs of the throat balance: throat-entry pressure (psig) and
      temperature (deg F), throat friction factor, nozzle velocity, area and
      fluid density, throat-entry velocity, area and density, the mixture in
      the throat and the single-phase helpers. */
  datatype ThroatInputs = ThroatInputs(
    pte: real, tte: real, kth: real,
    vnz: real, anz: real, rhoNz: real,
    vte: real, ate: real, rhoTe: real,
    mix: Mixture, sp: SinglePhase)

  /** The throat area: nozzle plus throat entry. */
  function ThroatArea(c: ThroatInputs): real
  {
    c.anz + c.ate
  }

  /** Mass flow of the mixture: power fluid plus produced fluid. */
  function MixtureMassFlow(c: ThroatInputs): real
  {
    c.sp.massflow(c.rhoNz, c.vnz, c.anz) + c.sp.massflow(c.rhoTe, c.vte, c.ate)
  }

  /** Momentum carried into the throat by the nozzle and the entry. */
  function InletMomentum(c: ThroatInputs): real
  {
    c.sp.momentum(c.rhoNz, c.vnz, c.anz) + c.sp.momentum(c.rhoTe, c.vte, c.ate)
  }

  /** Momentum of the mixture leaving the throat when it is conditioned
      at p. */
  function MixingMomentum(c: ThroatInputs, p: real): real
  {
    var rhoTm := c.mix.rhoMix(p, c.tte);
    var vtm := c.sp.velocity(MixtureMassFlow(c) / rhoTm, ThroatArea(c));
    c.sp.momentum(rhoTm, vtm, ThroatArea(c))
  }

  /** Net momentum of the throat when the mixture is conditioned at p:
      outlet mixing momentum plus friction, less the inlet momentum. The
      friction term is half the friction factor times the mixing momentum. */
  function NetMomentum(c: ThroatInputs, p: real): real
  {
    (1.0 + FrictionWeight * c.kth) * MixingMomentum(c, p) - InletMomentum(c)
  }

  /** The throat-mixture pressure implied by conditioning the mixture at p:
      the throat-entry pressure less the pressure equivalent of the net
      momentum, where friction adds half the friction factor's share of the
      mixing momentum. The throat area and the mixture mass flow do not
      depend on p. */
  function Estimate(c: ThroatInputs, p: real): (ptm: real)
    ensures ptm == c.pte - c.sp.momToPsi(NetMomentum(c, p), ThroatArea(c))
  {
    var ath := ThroatArea(c);
    var rhoTm := c.mix.rhoMix(p, c.tte);
    var vtm := c.sp.velocity(MixtureMassFlow(c) / rhoTm, ath);
    var m := ThroatOutletMomentum(c.kth, vtm, ath, rhoTm, c.sp);
    var momTot := m.1 + m.0 - c.sp.momentum(c.rhoNz, c.vnz, c.anz) - c.sp.momentum(c.rhoTe, c.vte, c.ate);
    assert m.0 == MixingMomentum(c, p);
    assert momTot == NetMomentum(c, p);
    c.pte - c.sp.momToPsi(momTot, ath)
  }

  /** The estimates of a refinement and the number of refinements made. */
  datatype Iteration = Iteration(ps: seq<real>, steps: nat)

  /** Estimate i is g applied to the estimate before it. */
  predicate RefinedAt(g: real -> real, ps: seq<real>, i: int)
  {
    1 <= i < |ps| && ps[i] == g(ps[i - 1])
  }

  /** The iteration w continues the history ps of n refinements: it only
      extends the history, every new estimate is g of the one before, and
      the loop went on from refinement n exactly while the last two
      estimates were apart. */
  ghost predicate IteratesFrom(g: real -> real, ps: seq<real>, n: nat, w: Iteration)
  {
    && |ps| <= |w.ps| && w.ps[..|ps|] == ps
    && |w.ps| == w.steps + 2 && n <= w.steps <= ThroatCap
    && (forall i :: |ps| <= i < |w.ps| ==> RefinedAt(g, w.ps, i))
    && (forall j :: n <= j < w.steps ==> Apart(w.ps, j, PtmTol))
  }

  /** The refinement loop after n refinements with estimates ps: it stops
      once the last two estimates are within the tolerance or after the
      tenth refinement. */
  function Refine(g: real -> real, ps: seq<real>, n: nat): (w: Iteration)
    requires |ps| == n + 2 && n <= ThroatCap
    ensures IteratesFrom(g, ps, n, w)
    ensures Settled(w.ps, PtmTol) || w.steps == ThroatCap
    ensures Settled(ps, PtmTol) || n == ThroatCap ==> w == Iteration(ps, n)
    decreases ThroatCap - n
  {
    if Settled(ps, PtmTol) || n == ThroatCap then Iteration(ps, n)
    else
      var ps' := ps + [g(Last(ps))];
      assert RefinedAt(g, ps', n + 2);
      var w := Refine(g, ps', n + 1);
      RefineStep(g, ps, n, w);
      w
  }

  /** One refinement followed by an iteration from the extended history is
      an iteration from the original history. */
  lemma RefineStep(g: real -> real, ps: seq<real>, n: nat, w: Iteration)
    requires |ps| == n + 2 && !Settled(ps, PtmTol)
    requires IteratesFrom(g, ps + [g(Last(ps))], n + 1, w)
    ensures IteratesFrom(g, ps, n, w)
  {
    var ps' := ps + [g(Last(ps))];
    assert w.ps[..|ps|] == w.ps[..|ps'|][..|ps|];
    assert w.ps[n] == ps'[n] && w.ps[n + 1] == ps'[n + 1] && w.ps[n + 2] == ps'[n + 2] by {
      assert w.ps[..|ps'|][n] == ps'[n];
      assert w.ps[..|ps'|][n + 1] == ps'[n + 1];
      assert w.ps[..|ps'|][n + 2] == ps'[n + 2];
    }
    assert Apart(w.ps, n, PtmTol);
    assert RefinedAt(g, w.ps, n + 2);
  }

  /** An iteration started from p0 and its first estimate g(p0): every
      estimate after the first is g of the one before, and the loop went on
      exactly while the last two estimates were apart. */
  lemma IteratesFromStart(g: real -> real, p0: real, w: Iteration)
    requires IteratesFrom(g, [p0, g(p0)], 0, w)
    ensures w.ps[0] == p0 && w.ps[1] == g(p0)
    ensures forall i :: 1 <= i < |w.ps| ==> w.ps[i] == g(w.ps[i - 1])
    ensures forall j :: 0 <= j < w.steps ==> Apart(w.ps, j, PtmTol)
  {
    assert w.ps[0] == w.ps[..2][0] && w.ps[1] == w.ps[..2][1];
    forall i | 1 <= i < |w.ps|
      ensures w.ps[i] == g(w.ps[i - 1])
    {
      if i >= 2 {
        assert RefinedAt(g, w.ps, i);
      }
    }
  }

  /** The throat discharge: the first estimate is made at the throat-entry
      pressure and each refinement re-conditions the mixture at the last
      estimate; the throat-mixture pressure is the last estimate. */
  function ThroatDischarge(c: ThroatInputs): (w: Iteration)
    ensures |w.ps| == w.steps + 2 && w.steps <= ThroatCap && w.ps[0] == c.pte
    ensures forall i :: 1 <= i < |w.ps| ==> w.ps[i] == Estimate(c, w.ps[i - 1])
    ensures forall j :: 0 <= j < w.steps ==> Apart(w.ps, j, PtmTol)
    ensures Settled(w.ps, PtmTol) || w.steps == ThroatCap
  {
    var g := p => Estimate(c, p);
    var w := Refine(g, [c.pte, g(c.pte)], 0);
    IteratesFromStart(g, c.pte, w);
    w
  }

  /** A balance whose estimate does not depend on the guess settles after
      at most one refinement, on that estimate. */
  lemma ConstantEstimateSettles(g: real -> real, k: real, p0: real)
    requires forall p :: g(p) == k
    ensures var w := Refine(g, [p0, k], 0);
            w.steps <= 1 && Last(w.ps) == k
  {
    var ps := [p0, k];
    if !Settled(ps, PtmTol) {
      var ps' := ps + [g(k)];
      assert ps' == [p0, k, k];
      assert Settled(ps', PtmTol);
      assert Refine(g, ps, 0) == Refine(g, ps', 1);
    }
  }

  /** When the net momentum at the throat-entry pressure amounts to no
      pressure difference, the throat-mixture pressure is the throat-entry
      pressure and no refinement is made. */
  lemma BalancedThroat(c: ThroatInputs)
    requires c.sp.momToPsi(NetMomentum(c, c.pte), ThroatArea(c)) == 0.0
    ensures ThroatDischarge(c).steps == 0 && Last(ThroatDischarge(c).ps) == c.pte
  {
    var w := ThroatDischarge(c);
    assert Estimate(c, c.pte) == c.pte;
    assert w.ps[1] == Estimate(c, w.ps[0]);
  }
}
