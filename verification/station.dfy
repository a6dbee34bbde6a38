/** Closed-form station formulas of the jet pump: kinetic and expansion
    energy terms, the secant update, the throat momentum split, the throat
    watercut and the nozzle's Bernoulli relation. */
module Station {
  import opened Numerics
  import opened Collaborators

  /** Gravitational conversion constant, lbm ft / (lbf s2). */
  const Gc: real := 32.174
  /** Square inches per square foot: psi to lbf/ft2. */
  const PsfPerPsi: real := 144.0
  /** Share of the throat mixing momentum charged to throat friction. */
  const FrictionWeight: real := 0.5

  /** Kinetic energy at the throat entry, with the entry friction loss added
      (ft2/s2). Friction only adds to it, and it vanishes exactly for a fluid
      at rest or a loss factor of -1. */
  function EnteranceKE(ken: real, vte: real): (ke: real)
    ensures ken >= -1.0 ==> ke >= 0.0
    ensures ke == 0.0 <==> (vte == 0.0 || ken == -1.0)
  {
    MulSigns(1.0 + ken, vte * vte);
    MulSigns(vte, vte);
    MulSigns(-vte, -vte);
    (1.0 + ken) * (vte * vte) / 2.0
  }

  /** More entry friction never lowers the entry kinetic energy. */
  lemma EnteranceKEMonotone(ken1: real, ken2: real, vte: real)
    requires ken1 <= ken2
    ensures EnteranceKE(ken1, vte) <= EnteranceKE(ken2, vte)
  {
    MulSigns(ken2 - ken1, vte * vte);
  }

  /** One trapezoid panel of the expansion-energy integral of 1/rho over
      144 * 32.174 * p, between samples (p1, rho1) and (p2, rho2). With
      positive densities the panel has the sign of the pressure step. */
  function Panel(p1: real, p2: real, rho1: real, rho2: real): (ee: real)
    requires rho1 != 0.0 && rho2 != 0.0
    ensures rho1 > 0.0 && rho2 > 0.0 ==>
              (p2 < p1 ==> ee < 0.0) && (p2 > p1 ==> ee > 0.0) && (p2 == p1 ==> ee == 0.0)
  {
    var w := (1.0 / rho1 + 1.0 / rho2) / 2.0;
    MulSigns(PsfPerPsi * Gc * (p2 - p1), w);
    MulSigns(PsfPerPsi * Gc * (p1 - p2), w);
    (PsfPerPsi * Gc * p2 - PsfPerPsi * Gc * p1) * w
  }

  /** Every density of a path is positive. */
  predicate PositiveAll(rho: seq<real>)
  {
    forall i :: 0 <= i < |rho| ==> rho[i] > 0.0
  }

  /** A pressure path that steps strictly down (down == true) or strictly up
      at every sample. */
  predicate Monotone(prs: seq<real>, down: bool)
  {
    forall i :: 0 <= i < |prs| - 1 ==> (if down then prs[i + 1] < prs[i] else prs[i] < prs[i + 1])
  }

  /** Expansion energy gained over a pressure path (ft2/s2): the trapezoid
      rule applied to 1/rho against 144 * 32.174 * p, summed panel by panel.
      A path of fewer than two samples gains nothing. */
  function IncrementalEE(prs: seq<real>, rho: seq<real>): real
    requires |prs| == |rho|
    requires forall i :: 0 <= i < |rho| ==> rho[i] != 0.0
    decreases |prs|
  {
    if |prs| < 2 then 0.0
    else Panel(prs[0], prs[1], rho[0], rho[1]) + IncrementalEE(prs[1..], rho[1..])
  }

  /** With positive densities, a path of two or more samples that only falls
      in pressure loses expansion energy, and one that only rises gains it. */
  lemma {:induction false} IncrementalEESign(prs: seq<real>, rho: seq<real>, down: bool)
    requires |prs| == |rho| >= 2 && PositiveAll(rho) && Monotone(prs, down)
    ensures down ==> IncrementalEE(prs, rho) < 0.0
    ensures !down ==> IncrementalEE(prs, rho) > 0.0
    decreases |prs|
  {
    assert PositiveAll(rho[1..]) && rho[0] > 0.0 && rho[1] > 0.0;
    assert Monotone(prs[1..], down);
    assert down ==> prs[1] < prs[0];
    assert !down ==> prs[0] < prs[1];
    if |prs| > 2 {
      IncrementalEESign(prs[1..], rho[1..], down);
    }
  }

  /** On two samples the expansion energy is the closed-form trapezoid,
      negative when the pressure steps down and positive when it steps up. */
  lemma IncrementalEEPair(p1: real, p2: real, rho1: real, rho2: real)
    requires rho1 > 0.0 && rho2 > 0.0
    ensures IncrementalEE([p1, p2], [rho1, rho2])
            == PsfPerPsi * Gc * (p2 - p1) * (1.0 / rho1 + 1.0 / rho2) / 2.0
    ensures p2 < p1 ==> IncrementalEE([p1, p2], [rho1, rho2]) < 0.0
    ensures p2 > p1 ==> IncrementalEE([p1, p2], [rho1, rho2]) > 0.0
  {
    assert [p1, p2][1..] == [p2];
    assert [rho1, rho2][1..] == [rho2];
  }

  /** Extending a path by one sample adds exactly the panel of its last step. */
  lemma {:induction false} IncrementalEESnoc(prs: seq<real>, rho: seq<real>, p: real, r: real)
    requires |prs| == |rho| >= 1
    requires forall i :: 0 <= i < |rho| ==> rho[i] != 0.0
    requires r != 0.0
    ensures IncrementalEE(prs + [p], rho + [r])
            == IncrementalEE(prs, rho) + IncrementalEE([Last(prs), p], [Last(rho), r])
    decreases |prs|
  {
    assert [Last(prs), p][1..] == [p];
    assert [Last(rho), r][1..] == [r];
    if |prs| == 1 {
      assert (prs + [p])[1..] == [p];
      assert (rho + [r])[1..] == [r];
    } else {
      assert (prs + [p])[1..] == prs[1..] + [p];
      assert (rho + [r])[1..] == rho[1..] + [r];
      IncrementalEESnoc(prs[1..], rho[1..], p, r);
    }
  }

  /** Next suction pressure from the secant through (psu1, dete1) and
      (psu2, dete2): the point where that chord crosses zero. A guess whose
      objective is already zero is kept. */
  function PsuSecant(psu1: real, psu2: real, dete1: real, dete2: real): (psu3: real)
    requires dete1 != dete2
    ensures (dete1 - dete2) * (psu3 - psu2) == dete2 * (psu2 - psu1)
    ensures dete2 == 0.0 ==> psu3 == psu2
  {
    psu2 - dete2 * (psu1 - psu2) / (dete1 - dete2)
  }

  /** The secant step is exact on a linear objective m * (p - root). */
  lemma PsuSecantLinear(m: real, root: real, psu1: real, psu2: real)
    requires m != 0.0 && psu1 != psu2
    ensures m * (psu1 - root) != m * (psu2 - root)
    ensures PsuSecant(psu1, psu2, m * (psu1 - root), m * (psu2 - root)) == root
  {
    var d1, d2 := m * (psu1 - root), m * (psu2 - root);
    assert d1 - d2 == m * (psu1 - psu2);
    MulSigns(m, psu1 - psu2);
    var psu3 := PsuSecant(psu1, psu2, d1, d2);
    assert m * (psu1 - psu2) * (psu3 - psu2) == m * (psu1 - psu2) * (root - psu2);
    MulCancel(m * (psu1 - psu2), psu3 - psu2, root - psu2);
  }

  lemma MulCancel(a: real, x: real, y: real)
    requires a != 0.0 && a * x == a * y
    ensures x == y
  {
    MulSigns(a, x - y);
  }

  /** The secant's zero does not depend on which of the two guesses is
      called the newer one. */
  lemma PsuSecantSymmetric(psu1: real, psu2: real, dete1: real, dete2: real)
    requires dete1 != dete2
    ensures PsuSecant(psu1, psu2, dete1, dete2) == PsuSecant(psu2, psu1, dete2, dete1)
  {
    var x := PsuSecant(psu1, psu2, dete1, dete2);
    var y := PsuSecant(psu2, psu1, dete2, dete1);
    assert (dete1 - dete2) * (x - psu2) == dete2 * (psu2 - psu1);
    assert (dete2 - dete1) * (y - psu1) == dete1 * (psu1 - psu2);
    assert (dete1 - dete2) * (y - psu2)
        == (dete1 - dete2) * (y - psu1) + (dete1 - dete2) * (psu1 - psu2);
    MulCancel(dete1 - dete2, x - psu2, y - psu2);
  }

  /** Outlet momentum of the throat: the mixing momentum and the friction
      momentum charged against it. Friction scales the outlet momentum by
      (1 + kth/2), so with the friction weight 0.5 a non-negative loss factor
      never lowers it. */
  function ThroatOutletMomentum(kth: real, vtm: real, ath: real, rhoTm: real, sp: SinglePhase)
    : (m: (real, real))
    ensures m.0 == sp.momentum(rhoTm, vtm, ath)
    ensures m.0 + m.1 == (1.0 + FrictionWeight * kth) * m.0
    ensures kth >= 0.0 && m.0 >= 0.0 ==> m.0 <= m.0 + m.1
  {
    var momTm := sp.momentum(rhoTm, vtm, ath);
    MulSigns(kth, momTm);
    (momTm, FrictionWeight * kth * momTm)
  }

  /** Watercut in the throat after the power water (BWPD) joins the produced
      oil (STBOPD) at suction watercut wcSu. For a producing well with a
      physical suction watercut and non-negative power water, the throat is at
      least as wet as the suction, never all water, and exactly as wet as the
      suction when no power water is added. */
  function ThroatWC(qoil: real, wcSu: real, qwatNz: real): (wcTm: real)
    requires ThroatWCDefined(qoil, wcSu, qwatNz)
    ensures qoil > 0.0 && 0.0 <= wcSu < 1.0 && qwatNz >= 0.0 ==>
              wcSu <= wcTm < 1.0 && (wcTm == wcSu <==> qwatNz == 0.0)
  {
    var qwatSu := qoil * wcSu / (1.0 - wcSu);
    var qwatTot := qwatNz + qwatSu;
    assert qoil > 0.0 && 0.0 <= wcSu < 1.0 && qwatNz >= 0.0 ==>
             wcSu <= qwatTot / (qwatTot + qoil) < 1.0
             && (qwatTot / (qwatTot + qoil) == wcSu <==> qwatNz == 0.0) by {
      if qoil > 0.0 && 0.0 <= wcSu < 1.0 && qwatNz >= 0.0 {
        ThroatWCBounds(qoil, wcSu, qwatNz);
      }
    }
    qwatTot / (qwatTot + qoil)
  }

  /** Neither division of the throat watercut is by zero. */
  predicate ThroatWCDefined(qoil: real, wcSu: real, qwatNz: real)
  {
    wcSu != 1.0 && qwatNz + qoil * wcSu / (1.0 - wcSu) + qoil != 0.0
  }

  /** x / (x + q) grows with x for a positive q. */
  lemma WetFractionMonotone(x1: real, x2: real, q: real)
    requires 0.0 <= x1 && q > 0.0
    ensures x1 <= x2 ==> x1 / (x1 + q) <= x2 / (x2 + q)
    ensures x1 < x2 ==> x1 / (x1 + q) < x2 / (x2 + q)
    ensures x1 / (x1 + q) < 1.0
  {
    var a := x1 / (x1 + q);
    assert a * (x1 + q) == x1;
    PositiveFactor(1.0 - a, x1 + q);
    if x1 <= x2 {
      var b := x2 / (x2 + q);
      assert b * (x2 + q) == x2;
      var pq := (x1 + q) * (x2 + q);
      // (b - a) * (x1 + q) * (x2 + q) == x2 * (x1 + q) - x1 * (x2 + q) == (x2 - x1) * q
      assert (b - a) * pq == (x2 - x1) * q;
      MulSigns(x2 - x1, q);
      MulSigns(x1 + q, x2 + q);
      PositiveFactor(b - a, pq);
    }
  }

  lemma DivOfProduct(c: real, y: real)
    requires y != 0.0
    ensures (c * y) / y == c
  {
  }

  /** The sign of a product with a positive factor is the sign of the other. */
  lemma PositiveFactor(c: real, p: real)
    requires p > 0.0
    ensures c * p >= 0.0 ==> c >= 0.0
    ensures c * p > 0.0 ==> c > 0.0
  {
    if c < 0.0 {
      MulSigns(-c, p);
    }
    if c == 0.0 {
      assert c * p == 0.0;
    }
  }

  lemma ThroatWCBounds(qoil: real, wcSu: real, qwatNz: real)
    requires qoil > 0.0 && 0.0 <= wcSu < 1.0 && qwatNz >= 0.0
    ensures var qwatTot := qwatNz + qoil * wcSu / (1.0 - wcSu);
            qwatTot + qoil > 0.0
            && wcSu <= qwatTot / (qwatTot + qoil) < 1.0
            && (qwatTot / (qwatTot + qoil) == wcSu <==> qwatNz == 0.0)
  {
    var qwatSu := qoil * wcSu / (1.0 - wcSu);
    assert qwatSu * (1.0 - wcSu) == qoil * wcSu;
    MulSigns(qoil, wcSu);
    if qwatSu < 0.0 {
      MulSigns(-qwatSu, 1.0 - wcSu);
    }
    // the suction fluid alone is wet at exactly the suction watercut
    assert wcSu * (qwatSu + qoil) - qwatSu == wcSu * qoil - qwatSu * (1.0 - wcSu);
    assert wcSu * (qwatSu + qoil) == qwatSu;
    DivOfProduct(wcSu, qwatSu + qoil);
    WetFractionMonotone(qwatSu, qwatNz + qwatSu, qoil);
    WetFractionMonotone(qwatNz + qwatSu, qwatNz + qwatSu, qoil);
  }

  /** Throat watercut rises with the power water rate. */
  lemma ThroatWCMonotone(qoil: real, wcSu: real, qwatNz1: real, qwatNz2: real)
    requires qoil > 0.0 && 0.0 <= wcSu < 1.0 && 0.0 <= qwatNz1 <= qwatNz2
    ensures ThroatWCDefined(qoil, wcSu, qwatNz1) && ThroatWCDefined(qoil, wcSu, qwatNz2)
            && ThroatWC(qoil, wcSu, qwatNz1) <= ThroatWC(qoil, wcSu, qwatNz2)
  {
    ThroatWCBounds(qoil, wcSu, qwatNz1);
    ThroatWCBounds(qoil, wcSu, qwatNz2);
    var qwatSu := qoil * wcSu / (1.0 - wcSu);
    assert qwatSu >= 0.0 by {
      assert qwatSu * (1.0 - wcSu) == qoil * wcSu;
      MulSigns(qoil, wcSu);
      if qwatSu < 0.0 {
        MulSigns(-qwatSu, 1.0 - wcSu);
      }
    }
    WetFractionMonotone(qwatNz1 + qwatSu, qwatNz2 + qwatSu, qoil);
  }

  /** Kinetic energy recovered in the diffuser (ft2/s2): the discharge
      kinetic energy less the throat-mixture kinetic energy that survives the
      diffuser loss factor. With a loss factor of 1 or more nothing of the
      inlet energy survives and the term is non-negative; below 1 it is at
      most the discharge kinetic energy. */
  function DiffuserKE(kdi: real, vtm: real, vdi: real): (ke: real)
    ensures kdi >= 1.0 ==> ke >= 0.0
    ensures kdi <= 1.0 ==> ke <= vdi * vdi / 2.0
  {
    MulSigns(kdi - 1.0, vtm * vtm);
    MulSigns(1.0 - kdi, vtm * vtm);
    (vdi * vdi - (1.0 - kdi) * (vtm * vtm)) / 2.0
  }

  /** A larger diffuser loss factor never lowers the diffuser kinetic term,
      and strictly raises it while the throat mixture moves. */
  lemma DiffuserKEMonotone(kdi1: real, kdi2: real, vtm: real, vdi: real)
    requires kdi1 <= kdi2
    ensures DiffuserKE(kdi1, vtm, vdi) <= DiffuserKE(kdi2, vtm, vdi)
    ensures kdi1 < kdi2 && vtm != 0.0 ==> DiffuserKE(kdi1, vtm, vdi) < DiffuserKE(kdi2, vtm, vdi)
  {
    MulSigns(kdi2 - kdi1, vtm * vtm);
    MulSigns(vtm, vtm);
    MulSigns(-vtm, -vtm);
  }

  /** Bernoulli's relation across the nozzle: vnz is a non-negative
      velocity whose kinetic energy, derated by the nozzle loss factor,
      equals the pressure head pni - pte. */
  ghost predicate NozzleBernoulli(vnz: real, pni: real, pte: real, knz: real, rhoNz: real)
  {
    vnz >= 0.0 && vnz * vnz * rhoNz * (1.0 + knz) == 2.0 * Gc * PsfPerPsi * (pni - pte)
  }

  /** The nozzle velocity is determined by the relation: it exists only for
      a non-negative head, it is zero without head, and two velocities that
      both satisfy it are equal. */
  lemma NozzleVelocityUnique(v1: real, v2: real, pni: real, pte: real, knz: real, rhoNz: real)
    requires rhoNz > 0.0 && knz > -1.0
    requires NozzleBernoulli(v1, pni, pte, knz, rhoNz)
    requires NozzleBernoulli(v2, pni, pte, knz, rhoNz)
    ensures pni >= pte
    ensures pni == pte ==> v1 == 0.0
    ensures v1 == v2
  {
    var k := rhoNz * (1.0 + knz);
    MulSigns(rhoNz, 1.0 + knz);
    MulSigns(v1 * v1, k);
    assert v1 * v1 * rhoNz * (1.0 + knz) == (v1 * v1) * k;
    assert v2 * v2 * rhoNz * (1.0 + knz) == (v2 * v2) * k;
    MulCancel(k, v1 * v1, v2 * v2);
    MulSigns(v1 - v2, v1 + v2);
    assert (v1 - v2) * (v1 + v2) == 0.0;
    if pni == pte {
      assert (v1 * v1) * k == 0.0;
      MulSigns(v1, v1);
    }
  }
}
