/** Sequence helpers and the one-dimensional linear interpolation the
    solvers use to read a crossing point off a trace. */
module Numerics {

  function Abs(x: real): (r: real)
    ensures r >= 0.0 && (r == x || r == -x)
  {
    if x < 0.0 then -x else x
  }

  function Last<T>(s: seq<T>): T
    requires |s| > 0
  {
    s[|s| - 1]
  }

  /** Entries i and i + 1 of an iterate history are more than tol apart:
      the loop guard of a tolerance-bounded iteration still holds. */
  predicate Apart(xs: seq<real>, i: int, tol: real)
  {
    0 <= i && i + 1 < |xs| && Abs(xs[i] - xs[i + 1]) > tol
  }

  /** The last two iterates are within tol of each other. */
  predicate Settled(xs: seq<real>, tol: real)
    requires |xs| >= 2
  {
    Abs(xs[|xs| - 2] - Last(xs)) <= tol
  }

  ghost predicate StrictlyIncreasing(s: seq<real>)
  {
    forall i, j :: 0 <= i < j < |s| ==> s[i] < s[j]
  }

  /** The straight line through (x0, f0) and (x1, f1), evaluated at x. */
  function Lerp(x: real, x0: real, x1: real, f0: real, f1: real): real
    requires x0 != x1
  {
    f0 + (f1 - f0) * ((x - x0) / (x1 - x0))
  }

  /** Sign rules for a product. */
  lemma MulSigns(a: real, b: real)
    ensures a >= 0.0 && b >= 0.0 ==> a * b >= 0.0
    ensures a <= 0.0 && b >= 0.0 ==> a * b <= 0.0
    ensures a > 0.0 && b > 0.0 ==> a * b > 0.0
    ensures a * b == 0.0 <==> (a == 0.0 || b == 0.0)
  {
  }

  /** A fraction of a positive whole that lies between 0 and the whole. */
  lemma FractionInUnit(a: real, d: real)
    requires 0.0 <= a <= d && d > 0.0
    ensures 0.0 <= a / d <= 1.0
  {
    var t := a / d;
    assert t * d == a;
    if t < 0.0 {
      MulSigns(t, d);
    }
    if t > 1.0 {
      MulSigns(t - 1.0, d);
    }
  }

  /** The line passes through both of its end samples. */
  lemma LerpEnds(x0: real, x1: real, f0: real, f1: real)
    requires x0 != x1
    ensures Lerp(x0, x0, x1, f0, f1) == f0
    ensures Lerp(x1, x0, x1, f0, f1) == f1
  {
    var d := x1 - x0;
    assert d / d == 1.0;
  }

  /** On a segment, the line stays between its end values. */
  lemma LerpBetween(x: real, x0: real, x1: real, f0: real, f1: real)
    requires x0 <= x <= x1 && x0 < x1
    ensures f0 <= f1 ==> f0 <= Lerp(x, x0, x1, f0, f1) <= f1
    ensures f1 <= f0 ==> f1 <= Lerp(x, x0, x1, f0, f1) <= f0
  {
    var t := (x - x0) / (x1 - x0);
    FractionInUnit(x - x0, x1 - x0);
    MulSigns(f1 - f0, t);
    MulSigns(f1 - f0, 1.0 - t);
    MulSigns(f0 - f1, t);
    MulSigns(f0 - f1, 1.0 - t);
  }

  /** Points that advance from the first by exactly d each. */
  ghost predicate Stepped(ps: seq<real>, d: real)
  {
    forall i :: 0 <= i < |ps| ==> ps[i] == ps[0] + (i as real) * d
  }

  /** Points stepped by d lie between the first and the last: at or above
      the first for a rising step, at or below it for a falling one. */
  lemma SteppedWithin(ps: seq<real>, d: real)
    requires |ps| >= 1 && Stepped(ps, d)
    ensures d >= 0.0 ==> forall k :: 0 <= k < |ps| ==> ps[0] <= ps[k] <= Last(ps)
    ensures d <= 0.0 ==> forall k :: 0 <= k < |ps| ==> Last(ps) <= ps[k] <= ps[0]
  {
    var n := |ps|;
    assert Last(ps) == ps[0] + ((n - 1) as real) * d;
    forall k | 0 <= k < n
      ensures d >= 0.0 ==> ps[0] <= ps[k] <= Last(ps)
      ensures d <= 0.0 ==> Last(ps) <= ps[k] <= ps[0]
    {
      assert ps[k] == ps[0] + (k as real) * d;
      var dk := ((n - 1 - k) as real) * d;
      assert Last(ps) - ps[k] == dk;
      MulSigns(k as real, d);
      MulSigns((n - 1 - k) as real, d);
      MulSigns(-(k as real), d);
      MulSigns(-((n - 1 - k) as real), d);
    }
  }

  /** Comparing two quotients with positive denominators by cross
      multiplication. */
  lemma QuotientOrder(p1: real, q1: real, p2: real, q2: real)
    requires q1 > 0.0 && q2 > 0.0 && p2 * q1 <= p1 * q2
    ensures p2 / q2 <= p1 / q1
  {
    var r1, r2 := p1 / q1, p2 / q2;
    assert r1 * q1 == p1 && r2 * q2 == p2;
    assert (r2 - r1) * (q1 * q2) == p2 * q1 - p1 * q2;
    MulSigns(q1, q2);
    if r2 > r1 {
      MulSigns(r2 - r1, q1 * q2);
    }
  }

  /** The zero of the chord from (x0, a) to (x1, b), with a < 0 <= b, moves
      left when the end values rise: a1 <= a2 and b1 <= b2 put the second
      chord's zero at or before the first's. */
  lemma ChordZeroOrder(a1: real, b1: real, a2: real, b2: real, x0: real, x1: real)
    requires a1 <= a2 < 0.0 <= b1 <= b2 && x0 < x1
    ensures Lerp(0.0, a2, b2, x0, x1) <= Lerp(0.0, a1, b1, x0, x1)
  {
    var t1, t2 := (0.0 - a1) / (b1 - a1), (0.0 - a2) / (b2 - a2);
    assert t2 <= t1 by {
      CrossOrder(a1, b1, a2, b2);
      QuotientOrder(0.0 - a1, b1 - a1, 0.0 - a2, b2 - a2);
    }
    var w := x1 - x0;
    assert w * (t1 - t2) == w * t1 - w * t2;
    MulSigns(w, t1 - t2);
  }

  /** The cross-multiplied form of the chord-zero comparison: with
      a1 <= a2 < 0 <= b1 <= b2, (-a2) * (b1 - a1) <= (-a1) * (b2 - a2). */
  lemma CrossOrder(a1: real, b1: real, a2: real, b2: real)
    requires a1 <= a2 < 0.0 <= b1 <= b2
    ensures (0.0 - a2) * (b1 - a1) <= (0.0 - a1) * (b2 - a2)
  {
    var u1, u2 := 0.0 - a1, 0.0 - a2;
    assert u2 * (b1 - a1) == u2 * b1 + u2 * u1;
    assert u1 * (b2 - a2) == u1 * b2 + u1 * u2;
    MulSigns(u1 - u2, b1);
    assert (u1 - u2) * b1 == u1 * b1 - u2 * b1;
    MulSigns(u1, b2 - b1);
    assert u1 * (b2 - b1) == u1 * b2 - u1 * b1;
  }

  /** Linear interpolation of `fp` over the sample points `xp` at `x`.
      A point at or left of xp[0] reads fp[0], a point right of the last
      sample reads the last fp, and otherwise the first segment with
      xp[i] < x <= xp[i+1] is interpolated. On strictly increasing sample
      points this is numpy's `interp` (InterpOnSegment); on other inputs,
      where numpy's result is unspecified, it is this left-to-right scan. */
  function Interp(x: real, xp: seq<real>, fp: seq<real>): (r: real)
    requires |xp| == |fp| >= 1
    ensures x <= xp[0] ==> r == fp[0]
    ensures (forall i :: 0 <= i < |xp| ==> xp[i] < x) ==> r == Last(fp)
    decreases |xp|
  {
    if x <= xp[0] || |xp| == 1 then fp[0]
    else if x <= xp[1] then Lerp(x, xp[0], xp[1], fp[0], fp[1])
    else Interp(x, xp[1..], fp[1..])
  }

  /** On strictly increasing sample points, interpolation at a point of the
      k-th segment is the straight line through that segment's end samples;
      in particular it reproduces every sample exactly. */
  lemma {:induction false} InterpOnSegment(x: real, xp: seq<real>, fp: seq<real>, k: nat)
    requires |xp| == |fp| && k + 1 < |xp|
    requires StrictlyIncreasing(xp)
    requires xp[k] <= x <= xp[k + 1]
    ensures Interp(x, xp, fp) == Lerp(x, xp[k], xp[k + 1], fp[k], fp[k + 1])
    decreases k
  {
    if k == 0 {
      if x <= xp[0] {
        assert x == xp[0];
        LerpEnds(xp[0], xp[1], fp[0], fp[1]);
      }
    } else {
      assert xp[0] < xp[k] <= x;
      if x <= xp[1] {
        assert xp[1] <= xp[k];
        assert k == 1 && x == xp[1];
        LerpEnds(xp[0], xp[1], fp[0], fp[1]);
        LerpEnds(xp[1], xp[2], fp[1], fp[2]);
      } else {
        assert xp[1..][k - 1] == xp[k] && xp[1..][k] == xp[k + 1];
        assert fp[1..][k - 1] == fp[k] && fp[1..][k] == fp[k + 1];
        InterpOnSegment(x, xp[1..], fp[1..], k - 1);
      }
    }
  }

  /** Interpolation reproduces each sample of strictly increasing points. */
  lemma InterpAtSample(xp: seq<real>, fp: seq<real>, k: nat)
    requires |xp| == |fp| && k < |xp|
    requires StrictlyIncreasing(xp)
    ensures Interp(xp[k], xp, fp) == fp[k]
  {
    if k + 1 < |xp| {
      InterpOnSegment(xp[k], xp, fp, k);
    } else if k > 0 {
      InterpOnSegment(xp[k], xp, fp, k - 1);
      assert xp[k - 1] < xp[k];
      LerpEnds(xp[k - 1], xp[k], fp[k - 1], fp[k]);
    }
  }

  /** When every sample point but the last lies strictly left of `x` and the
      last one does not, the scan interpolates on the final segment. */
  lemma {:induction false} InterpLastSegment(x: real, xp: seq<real>, fp: seq<real>)
    requires |xp| == |fp| >= 2
    requires forall i :: 0 <= i < |xp| - 1 ==> xp[i] < x
    requires x <= Last(xp)
    ensures Interp(x, xp, fp) == Lerp(x, xp[|xp| - 2], Last(xp), fp[|fp| - 2], Last(fp))
    decreases |xp|
  {
    if |xp| > 2 {
      assert xp[1] < x;
      InterpLastSegment(x, xp[1..], fp[1..]);
    }
  }

  /** Interpolation never leaves the range of the interpolated values. */
  lemma {:induction false} InterpWithin(x: real, xp: seq<real>, fp: seq<real>, lo: real, hi: real)
    requires |xp| == |fp| >= 1
    requires forall i :: 0 <= i < |fp| ==> lo <= fp[i] <= hi
    ensures lo <= Interp(x, xp, fp) <= hi
    decreases |xp|
  {
    if x <= xp[0] || |xp| == 1 {
    } else if x <= xp[1] {
      LerpBetween(x, xp[0], xp[1], fp[0], fp[1]);
    } else {
      InterpWithin(x, xp[1..], fp[1..], lo, hi);
    }
  }

  /** Number of `true` entries of a mask. */
  function Count(mask: seq<bool>): nat
  {
    if |mask| == 0 then 0 else (if mask[0] then 1 else 0) + Count(mask[1..])
  }

  /** The entries of `xs` whose mask entry is `true`, in order (numpy's
      boolean indexing `xs[mask]`). */
  function Select<T>(xs: seq<T>, mask: seq<bool>): (r: seq<T>)
    requires |xs| == |mask|
    ensures |r| == Count(mask)
    ensures forall y :: y in r ==> y in xs
  {
    if |xs| == 0 then []
    else (if mask[0] then [xs[0]] else []) + Select(xs[1..], mask[1..])
  }

  /** Every entry of a non-empty mask count is witnessed by a kept entry. */
  lemma {:induction false} CountPositive(mask: seq<bool>)
    ensures Count(mask) > 0 <==> exists i :: 0 <= i < |mask| && mask[i]
  {
    if |mask| > 0 {
      CountPositive(mask[1..]);
      if exists i :: 0 <= i < |mask| && mask[i] {
        var i :| 0 <= i < |mask| && mask[i];
        if i > 0 {
          assert mask[1..][i - 1];
        }
      }
      if exists i :: 0 <= i < |mask[1..]| && mask[1..][i] {
        var i :| 0 <= i < |mask[1..]| && mask[1..][i];
        assert mask[i + 1];
      }
    }
  }

  /** The sequence read back to front (numpy's `flip`). */
  function Reverse<T>(s: seq<T>): (r: seq<T>)
    ensures |r| == |s|
    ensures forall i :: 0 <= i < |s| ==> r[i] == s[|s| - 1 - i]
  {
    seq(|s|, i requires 0 <= i < |s| => s[|s| - 1 - i])
  }
}
