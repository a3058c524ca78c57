/** The gradients of abs_scalar_backward are derivatives in the sense of analysis: the value of
    the graph, as a function of a change h made at one node, has the computed tangent as its slope
    at h = 0, by the epsilon-delta definition. */
module ScalarCalculus {
  import opened Common
  import opened Scalar
  import opened ScalarBackward

  function Abs(x: real): real { if x < 0.0 then -x else x }

  function Min(x: real, y: real): real { if x < y then x else y }

  // ---------------------------------------------------------------- slopes at zero

  /** x is at most e times the size of h. */
  ghost predicate Within(x: real, e: real, h: real) {
    Abs(x) <= Times(e, Abs(h))
  }

  /** Near 0, f is its tangent line with slope d up to e times the distance. */
  ghost predicate CloseWithin(f: real -> real, d: real, e: real, r: real) {
    forall h :: -r <= h <= r ==> Within(f(h) - f(0.0) - Times(d, h), e, h)
  }

  ghost predicate CloseSomewhere(f: real -> real, d: real, e: real) {
    exists r :: r > 0.0 && CloseWithin(f, d, e, r)
  }

  /** f is differentiable at 0 with derivative d. */
  ghost predicate HasSlope(f: real -> real, d: real) {
    forall e :: e > 0.0 ==> CloseSomewhere(f, d, e)
  }

  lemma Radius(f: real -> real, d: real, e: real) returns (r: real)
    requires HasSlope(f, d) && e > 0.0
    ensures r > 0.0 && CloseWithin(f, d, e, r)
  {
    assert CloseSomewhere(f, d, e);
    r :| r > 0.0 && CloseWithin(f, d, e, r);
  }

  /** The same for the changes h from below alone. */
  ghost predicate CloseBelow(f: real -> real, d: real, e: real, r: real) {
    forall h :: -r <= h <= 0.0 ==> Within(f(h) - f(0.0) - Times(d, h), e, h)
  }

  ghost predicate CloseSomewhereBelow(f: real -> real, d: real, e: real) {
    exists r :: r > 0.0 && CloseBelow(f, d, e, r)
  }

  /** d is the left derivative of f at 0. */
  ghost predicate HasLeftSlope(f: real -> real, d: real) {
    forall e :: e > 0.0 ==> CloseSomewhereBelow(f, d, e)
  }

  lemma RadiusBelow(f: real -> real, d: real, e: real) returns (r: real)
    requires HasLeftSlope(f, d) && e > 0.0
    ensures r > 0.0 && CloseBelow(f, d, e, r)
  {
    assert CloseSomewhereBelow(f, d, e);
    r :| r > 0.0 && CloseBelow(f, d, e, r);
  }

  lemma SlopeFromBelow(f: real -> real, d: real)
    requires HasSlope(f, d)
    ensures HasLeftSlope(f, d)
  {
    forall e | e > 0.0 ensures CloseSomewhereBelow(f, d, e) {
      var r := Radius(f, d, e);
      assert CloseBelow(f, d, e, r);
    }
  }

  lemma TwoTangents(x: real, a: real, b: real, e: real, h: real)
    requires Within(x - Times(a, h), e, h) && Within(x - Times(b, h), e, h) && h < 0.0
    ensures Abs(a - b) <= e + e
  {
    AbsTimes(a - b, h);
    TimesSum(e, e, Abs(h));
    if Abs(a - b) > e + e {
      assert Times(Abs(a - b) - (e + e), Abs(h)) > 0.0;
      TimesSum(Abs(a - b) - (e + e), e + e, Abs(h));
      assert false;
    }
  }

  /** There is at most one left derivative. */
  lemma LeftSlopeUnique(f: real -> real, a: real, b: real)
    requires HasLeftSlope(f, a) && HasLeftSlope(f, b)
    ensures a == b
  {
    if a != b {
      var e := Abs(a - b) / 4.0;
      var ra := RadiusBelow(f, a, e);
      var rb := RadiusBelow(f, b, e);
      var h := -Min(ra, rb);
      TwoTangents(f(h) - f(0.0), a, b, e, h);
      assert false;
    }
  }

  lemma TimesMonotone(a: real, b: real, c: real)
    requires a <= b && 0.0 <= c
    ensures Times(a, c) <= Times(b, c)
  {}

  lemma AbsTimes(a: real, b: real)
    ensures Abs(Times(a, b)) == Times(Abs(a), Abs(b))
  {}

  lemma TimesSum(a: real, b: real, c: real)
    ensures Times(a + b, c) == Times(a, c) + Times(b, c)
  {}

  lemma Triangle(x: real, t: real, p: real, q: real)
    requires Abs(x - t) <= p && Abs(t) <= q
    ensures Abs(x) <= p + q
  {}

  /** A function with a slope moves by at most (|d| + 1) |h| near 0. */
  lemma Moves(f: real -> real, d: real, r: real, h: real)
    requires CloseWithin(f, d, 1.0, r) && -r <= h <= r
    ensures Within(f(h) - f(0.0), Abs(d) + 1.0, h)
  {}

  lemma ConstantSlope(f: real -> real)
    requires forall h :: f(h) == f(0.0)
    ensures HasSlope(f, 0.0)
  {
    forall e | e > 0.0 ensures CloseSomewhere(f, 0.0, e) {
      assert CloseWithin(f, 0.0, e, 1.0);
    }
  }

  lemma LinearSlope(f: real -> real, c: real, d: real, r: real)
    requires r > 0.0 && forall h :: -r <= h <= r ==> f(h) == c + Times(d, h)
    ensures HasSlope(f, d)
  {
    forall e | e > 0.0 ensures CloseSomewhere(f, d, e) {
      assert Times(d, 0.0) == 0.0;
      assert CloseWithin(f, d, e, r);
    }
  }

  lemma SumAt(f: real, g: real, a: real, b: real, e: real, h: real)
    requires Within(f - Times(a, h), e, h) && Within(g - Times(b, h), e, h)
    ensures Within(f + g - Times(a + b, h), e + e, h)
  {}

  lemma SumSlope(f: real -> real, a: real, g: real -> real, b: real, s: real -> real)
    requires HasSlope(f, a) && HasSlope(g, b)
    requires forall h :: s(h) == f(h) + g(h)
    ensures HasSlope(s, a + b)
  {
    var d := a + b;
    forall e | e > 0.0 ensures CloseSomewhere(s, d, e) {
      var rf := Radius(f, a, e / 2.0);
      var rg := Radius(g, b, e / 2.0);
      var r := Min(rf, rg);
      forall h | -r <= h <= r ensures Within(s(h) - s(0.0) - Times(d, h), e, h) {
        SumAt(f(h) - f(0.0), g(h) - g(0.0), a, b, e / 2.0, h);
      }
      assert CloseWithin(s, d, e, r);
    }
  }

  /** If |q| <= k |h| and |c| k <= e then |c q| <= e |h|. */
  lemma ScaledBound(c: real, q: real, k: real, e: real, h: real)
    requires Within(q, k, h) && Times(Abs(c), k) <= e
    ensures Within(Times(c, q), e, h)
  {
    AbsTimes(c, q);
    assert Times(Abs(c), Abs(q)) == Times(Abs(q), Abs(c));
    TimesMonotone(Abs(q), Times(k, Abs(h)), Abs(c));
    assert Times(Times(k, Abs(h)), Abs(c)) == Times(Times(Abs(c), k), Abs(h));
    TimesMonotone(Times(Abs(c), k), e, Abs(h));
  }

  /** A positive number that keeps c times itself within e. */
  lemma Small(c: real, e: real) returns (k: real)
    requires c >= 0.0 && e > 0.0
    ensures k > 0.0 && Times(c, k) <= e
  {
    k := e / (c + 1.0);
    assert Times(c + 1.0, k) == e;
    assert Times(c + 1.0, k) == Times(c, k) + k;
  }

  /** The product rule at one h: df, dg are the changes of f and g, and f0, g0 their values at 0. */
  lemma ProductExpansion(f0: real, df: real, g0: real, dg: real, a: real, b: real, h: real)
    ensures Times(f0 + df, g0 + dg) - Times(f0, g0) - Times(Times(f0, b) + Times(g0, a), h)
            == Times(f0, dg - Times(b, h)) + Times(g0, df - Times(a, h)) + Times(df, dg)
  {
    assert (f0 + df) * (g0 + dg) == f0 * g0 + f0 * dg + df * g0 + df * dg;
    assert f0 * (dg - b * h) == f0 * dg - (f0 * b) * h;
    assert g0 * (df - a * h) == g0 * df - (g0 * a) * h;
    assert (f0 * b + g0 * a) * h == (f0 * b) * h + (g0 * a) * h;
  }

  lemma ProductAt(f0: real, f1: real, g0: real, g1: real, a: real, b: real, h: real,
                  ef: real, eg: real, A: real, B: real, r: real, e: real)
    requires Within(f1 - f0 - Times(a, h), ef, h) && Times(Abs(g0), ef) <= e
    requires Within(g1 - g0 - Times(b, h), eg, h) && Times(Abs(f0), eg) <= e
    requires 0.0 <= A && 0.0 <= B && Within(f1 - f0, A, h) && Within(g1 - g0, B, h)
    requires Abs(h) <= r && Times(Times(A, B), r) <= e
    ensures Within(Times(f1, g1) - Times(f0, g0) - Times(Times(f0, b) + Times(g0, a), h), e + e + e, h)
  {
    var df, dg := f1 - f0, g1 - g0;
    ProductExpansion(f0, df, g0, dg, a, b, h);
    ScaledBound(f0, dg - Times(b, h), eg, e, h);
    ScaledBound(g0, df - Times(a, h), ef, e, h);
    CrossBound(df, dg, A, B, r, e, h);
    TimesSum(e, e, Abs(h));
    TimesSum(e + e, e, Abs(h));
  }

  lemma ProductNearAt(f: real -> real, a: real, g: real -> real, b: real, h: real, ef: real, eg: real,
                      rf: real, rg: real, rf1: real, rg1: real, r3: real, e: real)
    requires CloseWithin(f, a, ef, rf) && CloseWithin(g, b, eg, rg) && -rf <= h <= rf && -rg <= h <= rg
    requires CloseWithin(f, a, 1.0, rf1) && CloseWithin(g, b, 1.0, rg1) && -rf1 <= h <= rf1 && -rg1 <= h <= rg1
    requires Times(Abs(g(0.0)), ef) <= e && Times(Abs(f(0.0)), eg) <= e
    requires Abs(h) <= r3 && Times(Times(Abs(a) + 1.0, Abs(b) + 1.0), r3) <= e
    ensures Within(Times(f(h), g(h)) - Times(f(0.0), g(0.0)) - Times(Times(f(0.0), b) + Times(g(0.0), a), h),
                   e + e + e, h)
  {
    Moves(f, a, rf1, h);
    Moves(g, b, rg1, h);
    ProductAt(f(0.0), f(h), g(0.0), g(h), a, b, h, ef, eg, Abs(a) + 1.0, Abs(b) + 1.0, r3, e);
  }

  lemma ProductNear(f: real -> real, a: real, g: real -> real, b: real, s: real -> real, d: real, e: real)
    returns (r: real)
    requires HasSlope(f, a) && HasSlope(g, b) && e > 0.0
    requires forall h :: s(h) == Times(f(h), g(h))
    requires d == Times(f(0.0), b) + Times(g(0.0), a)
    ensures r > 0.0 && CloseWithin(s, d, e + e + e, r)
  {
    var f0, g0, A, B := f(0.0), g(0.0), Abs(a) + 1.0, Abs(b) + 1.0;
    var ef := Small(Abs(g0), e);
    var eg := Small(Abs(f0), e);
    var r3 := PairSmall(A, B, e);
    var rf := Radius(f, a, ef);
    var rg := Radius(g, b, eg);
    var rf1 := Radius(f, a, 1.0);
    var rg1 := Radius(g, b, 1.0);
    r := Min(Min(Min(rf, rg), Min(rf1, rg1)), r3);
    forall h | -r <= h <= r ensures Within(s(h) - s(0.0) - Times(d, h), e + e + e, h) {
      assert -rf <= h <= rf && -rg <= h <= rg && -rf1 <= h <= rf1 && -rg1 <= h <= rg1 && Abs(h) <= r3;
      ProductNearAt(f, a, g, b, h, ef, eg, rf, rg, rf1, rg1, r3, e);
    }
  }

  lemma ProductSlope(f: real -> real, a: real, g: real -> real, b: real, s: real -> real)
    requires HasSlope(f, a) && HasSlope(g, b)
    requires forall h :: s(h) == Times(f(h), g(h))
    ensures HasSlope(s, Times(f(0.0), b) + Times(g(0.0), a))
  {
    var d := Times(f(0.0), b) + Times(g(0.0), a);
    forall e | e > 0.0 ensures CloseSomewhere(s, d, e) {
      var r := ProductNear(f, a, g, b, s, d, e / 3.0);
      assert e / 3.0 + e / 3.0 + e / 3.0 == e;
    }
  }

  lemma PairSmall(A: real, B: real, e: real) returns (k: real)
    requires A >= 0.0 && B >= 0.0 && e > 0.0
    ensures k > 0.0 && Times(Times(A, B), k) <= e
  {
    assert Times(A, B) >= 0.0;
    k := Small(Times(A, B), e);
  }

  lemma CrossBound(df: real, dg: real, A: real, B: real, r: real, e: real, h: real)
    requires 0.0 <= A && 0.0 <= B && Within(df, A, h) && Within(dg, B, h)
    requires Abs(h) <= r && Times(Times(A, B), r) <= e
    ensures Within(Times(df, dg), e, h)
  {
    var k := Abs(h);
    assert Times(Abs(df), B) <= Times(Times(A, B), k) by {
      TimesMonotone(Abs(df), Times(A, k), B);
      assert Times(Times(A, k), B) == Times(Times(A, B), k);
    }
    assert Times(Times(A, B), k) <= Times(Times(A, B), r) by {
      assert Times(A, B) >= 0.0;
      TimesMonotone(k, r, Times(A, B));
      assert Times(k, Times(A, B)) == Times(Times(A, B), k);
      assert Times(r, Times(A, B)) == Times(Times(A, B), r);
    }
    ScaledBound(df, dg, B, e, h);
  }

  lemma ChainAt(k: real, dG: real, a: real, d: real, h: real, A: real, ef: real, eg: real, e: real)
    requires Within(k - Times(a, h), ef, h) && Times(Abs(d), ef) <= e
    requires Within(dG - Times(d, k), eg, k) && eg > 0.0
    requires Within(k, A, h) && Times(Abs(eg), A) <= e
    ensures Within(dG - Times(Times(d, a), h), e + e, h)
  {
    ScaledBound(eg, k, A, e, h);
    AbsTimes(eg, k);
    ScaledBound(d, k - Times(a, h), ef, e, h);
    TimesMinus(d, k, a, h);
    Triangle(dG - Times(Times(d, a), h), Times(d, k - Times(a, h)), Times(e, Abs(h)), Times(e, Abs(h)));
    TimesSum(e, e, Abs(h));
  }

  lemma TimesMinus(d: real, k: real, a: real, h: real)
    ensures Times(d, k - Times(a, h)) == Times(d, k) - Times(Times(d, a), h)
  {}

  lemma WithinScaled(k: real, A: real, h: real, r: real, bound: real)
    requires 0.0 <= A && Within(k, A, h) && Abs(h) <= r && Times(A, r) <= bound
    ensures Abs(k) <= bound
  {}

  lemma ChainNearAt(f: real -> real, a: real, G: real -> real, d: real, h: real,
                    ef: real, eg: real, rf: real, rf1: real, rg: real, ra: real, e: real)
    requires CloseWithin(f, a, ef, rf) && CloseWithin(f, a, 1.0, rf1) && CloseWithin(G, d, eg, rg)
    requires -rf <= h <= rf && -rf1 <= h <= rf1 && Abs(h) <= ra && Times(Abs(a) + 1.0, ra) <= rg
    requires eg > 0.0 && Times(Abs(eg), Abs(a) + 1.0) <= e && Times(Abs(d), ef) <= e
    ensures Within(G(f(h) - f(0.0)) - G(0.0) - Times(Times(d, a), h), e + e, h)
  {
    var k := f(h) - f(0.0);
    Moves(f, a, rf1, h);
    WithinScaled(k, Abs(a) + 1.0, h, ra, rg);
    ChainAt(k, G(k) - G(0.0), a, d, h, Abs(a) + 1.0, ef, eg, e);
  }

  lemma ChainNear(f: real -> real, a: real, G: real -> real, d: real, s: real -> real, da: real, e: real)
    returns (r: real)
    requires HasSlope(f, a) && HasSlope(G, d) && e > 0.0
    requires forall h :: s(h) == G(f(h) - f(0.0))
    requires da == Times(d, a)
    ensures r > 0.0 && CloseWithin(s, da, e + e, r)
  {
    var A := Abs(a) + 1.0;
    var eg := Small(A, e);
    assert Times(Abs(eg), A) == Times(A, eg);
    var ef := Small(Abs(d), e);
    var rg := Radius(G, d, eg);
    var rf := Radius(f, a, ef);
    var rf1 := Radius(f, a, 1.0);
    var ra := Small(A, rg);
    r := Min(Min(rf, rf1), ra);
    forall h | -r <= h <= r ensures Within(s(h) - s(0.0) - Times(da, h), e + e, h) {
      assert -rf <= h <= rf && -rf1 <= h <= rf1 && Abs(h) <= ra;
      ChainNearAt(f, a, G, d, h, ef, eg, rf, rf1, rg, ra, e);
      assert f(0.0) - f(0.0) == 0.0;
    }
  }

  /** The chain rule: f inside, and G the outer function as seen from f(0). */
  lemma ChainSlope(f: real -> real, a: real, G: real -> real, d: real, s: real -> real)
    requires HasSlope(f, a) && HasSlope(G, d)
    requires forall h :: s(h) == G(f(h) - f(0.0))
    ensures HasSlope(s, Times(d, a))
  {
    var da := Times(d, a);
    forall e | e > 0.0 ensures CloseSomewhere(s, da, e) {
      var r := ChainNear(f, a, G, d, s, da, e / 2.0);
      assert e / 2.0 + e / 2.0 == e;
    }
  }

  // ---------------------------------------------------------------- ReLU and the sigmoid

  lemma KinkAt(right: real, left: real, mid: real, d: real, r: real)
    requires r > 0.0 && right == r && left == 0.0 && mid == 0.0
    ensures Abs(right - mid - Times(d, r)) > Times(0.25, Abs(r))
            || Abs(left - mid - Times(d, -r)) > Times(0.25, Abs(-r))
  {}

  /** At its kink ReLU has no derivative at all. */
  lemma ReluKink(G: real -> real, d: real)
    requires forall k :: G(k) == Max0(k)
    ensures !HasSlope(G, d)
  {
    if HasSlope(G, d) {
      var r := Radius(G, d, 0.25);
      KinkAt(G(r), G(-r), G(0.0), d, r);
      assert false;
    }
  }

  /** ReLU has the slope the library uses exactly away from its kink. */
  lemma ReluSlope(G: real -> real, u: real)
    requires forall k :: G(k) == Max0(u + k)
    ensures HasSlope(G, if u > 0.0 then 1.0 else 0.0) <==> u != 0.0
  {
    if u > 0.0 {
      LinearSlope(G, u, 1.0, u);
    } else if u < 0.0 {
      LinearSlope(G, 0.0, 0.0, -u);
    } else if HasSlope(G, 0.0) {
      ReluKink(G, 0.0);
      assert false;
    }
  }

  /** At every input, the kink among them, the slope the library uses is the left derivative. */
  lemma ReluLeftSlope(G: real -> real, u: real)
    requires forall k :: G(k) == Max0(u + k)
    ensures HasLeftSlope(G, if u > 0.0 then 1.0 else 0.0)
  {
    ReluSlope(G, u);
    if u == 0.0 {
      forall e | e > 0.0 ensures CloseSomewhereBelow(G, 0.0, e) {
        assert CloseBelow(G, 0.0, e, 1.0);
      }
    } else {
      SlopeFromBelow(G, if u > 0.0 then 1.0 else 0.0);
    }
  }

  function Shift(f: real -> real, x: real): real -> real {
    k => f(x + k)
  }

  /** What the proofs need of the exponential: it is positive and its own derivative. */
  ghost predicate IsExponential(exp: real -> real) {
    && (forall x :: exp(x) > 0.0)
    && (forall x :: HasSlope(Shift(exp, x), exp(x)))
  }

  function Recip(x: real): real { if x == 0.0 then 0.0 else 1.0 / x }

  /** k -> 1 / (c + k) has slope -1 / c^2 at 0, for c >= 1. */
  lemma ReciprocalSlope(G: real -> real, c: real)
    requires c >= 1.0
    requires forall k :: G(k) == Recip(c + k)
    ensures HasSlope(G, -Times(Recip(c), Recip(c)))
  {
    var d := -Times(Recip(c), Recip(c));
    forall e | e > 0.0 ensures CloseSomewhere(G, d, e) {
      var r := Min(0.5, e / 2.0);
      forall k | -r <= k <= r ensures Within(G(k) - G(0.0) - Times(d, k), e, k) {
        assert c + 0.0 == c;
        ReciprocalBound(c, k, e);
      }
      assert CloseWithin(G, d, e, r);
    }
  }

  lemma RecipRange(c: real, low: real, high: real)
    requires 0.0 < low <= c && low * high == 1.0 && 0.0 < high
    ensures Times(Recip(c), c) == 1.0 && 0.0 < Recip(c) <= high
  {
    var p := Recip(c);
    assert p * c == 1.0;
    TimesMonotone(low, c, p);
    assert p * low <= 1.0;
    TimesMonotone(p * low, 1.0, high);
    assert (p * low) * high == p * (low * high);
  }

  lemma SmallProduct(p: real, q: real, w: real)
    requires 0.0 < p <= 1.0 && 0.0 < q <= 2.0 && w == Times(Times(p, p), q)
    ensures 0.0 <= w <= 2.0
  {
    TimesMonotone(p, 1.0, p);
    assert 0.0 <= p * p <= 1.0;
    TimesMonotone(p * p, 1.0, q);
  }

  lemma SquareTerm(w: real, k: real, e: real)
    requires 0.0 <= w <= 2.0 && Abs(k) <= e / 2.0
    ensures Within(Times(k, Times(w, k)), e, k)
  {
    AbsTimes(w, k);
    TimesMonotone(w, 2.0, Abs(k));
    assert Times(Abs(k), 2.0) <= e;
    ScaledBound(k, Times(w, k), 2.0, e, k);
  }

  lemma ReciprocalBound(c: real, k: real, e: real)
    requires c >= 1.0 && Abs(k) <= 0.5 && Abs(k) <= e / 2.0
    ensures Within(Recip(c + k) - Recip(c) - Times(-Times(Recip(c), Recip(c)), k), e, k)
  {
    var p, q := Recip(c), Recip(c + k);
    RecipRange(c, 1.0, 1.0);
    RecipRange(c + k, 0.5, 2.0);
    ReciprocalExpansion(p, q, c, k);
    var w := Times(Times(p, p), q);
    SmallProduct(p, q, w);
    SquareTerm(w, k, e);
  }

  lemma ReciprocalExpansion(p: real, q: real, c: real, k: real)
    requires Times(p, c) == 1.0 && Times(q, c + k) == 1.0
    ensures q - p - Times(-Times(p, p), k) == Times(k, Times(Times(Times(p, p), q), k))
  {
    assert q - p == -(p * q * k) by {
      assert q == q * (p * c) && p == p * (q * (c + k));
      assert p * (q * (c + k)) == q * (p * c) + p * q * k;
    }
    assert p * (q * (c + k)) == p;
    assert p * p * k - p * q * k == p * k * (p - q);
    assert p - q == p * q * k;
    assert p * k * (p * q * k) == k * (p * p * q * k);
  }

  /** k -> e^(-u - k) has slope -e^-u at 0. */
  lemma ExpNegSlope(exp: real -> real, E: real -> real, u: real)
    requires IsExponential(exp)
    requires forall k :: E(k) == exp(-u - k)
    ensures HasSlope(E, Times(exp(-u), -1.0))
  {
    var neg := (k: real) => -k;
    LinearSlope(neg, 0.0, -1.0, 1.0);
    forall k ensures E(k) == Shift(exp, -u)(neg(k) - neg(0.0)) {
      assert -u - k == -u + (neg(k) - neg(0.0));
    }
    ChainSlope(neg, -1.0, Shift(exp, -u), exp(-u), E);
  }

  /** Where exp turns a sign into a reciprocal, the logistic function lies strictly between 0 and 1
      and its graph is symmetric about the point (0, 1/2). */
  lemma LogisticSymmetric(exp: real -> real, x: real)
    requires exp(x) > 0.0 && exp(-x) > 0.0 && Times(exp(x), exp(-x)) == 1.0
    ensures 0.0 < Logistic(exp, x) < 1.0
    ensures Logistic(exp, -x) == 1.0 - Logistic(exp, x)
    ensures x == 0.0 ==> Logistic(exp, x) == 0.5
  {
    assert -(-x) == x;
    ReciprocalPair(exp(-x), exp(x));
  }

  lemma ReciprocalPair(a: real, b: real)
    requires a > 0.0 && b > 0.0 && Times(b, a) == 1.0
    ensures 0.0 < 1.0 / (1.0 + a) < 1.0 && 1.0 / (1.0 + b) == 1.0 - 1.0 / (1.0 + a)
  {
    var p, q := 1.0 / (1.0 + a), 1.0 / (1.0 + b);
    var s, t := 1.0 + a, 1.0 + b;
    assert Times(p, s) == 1.0 && Times(q, t) == 1.0;
    assert s * t == 1.0 + a + b + b * a && Times(b, a) == b * a;
    assert Times(s, t) == s + t;
    PairSum(p, q, s, t);
  }

  lemma PairSum(p: real, q: real, s: real, t: real)
    requires Times(p, s) == 1.0 && Times(q, t) == 1.0 && Times(s, t) == s + t
    ensures p + q == 1.0
  {
    assert Times(Times(p, q), Times(s, t)) == Times(Times(p, s), Times(q, t));
    assert Times(Times(p, q), s + t) == Times(Times(p, s), q) + Times(Times(q, t), p);
  }

  function Mirrored(exp: real -> real, u: real): real -> real {
    k => exp(-u - k)
  }

  /** The logistic function, seen from u, has slope L (1 - L) at 0, where L is its value at u. */
  lemma LogisticSlope(exp: real -> real, G: real -> real, u: real)
    requires IsExponential(exp)
    requires forall k :: G(k) == Logistic(exp, u + k)
    ensures HasSlope(G, Times(G(0.0), 1.0 - G(0.0)))
  {
    LogisticWith(exp, G, Mirrored(exp, u), Shift(Recip, 1.0 + exp(-u)), u);
  }

  lemma LogisticWith(exp: real -> real, G: real -> real, E: real -> real, R: real -> real, u: real)
    requires IsExponential(exp)
    requires forall k :: G(k) == Logistic(exp, u + k)
    requires forall k :: E(k) == exp(-u - k)
    requires forall k :: R(k) == Recip(1.0 + exp(-u) + k)
    ensures HasSlope(G, Times(G(0.0), 1.0 - G(0.0)))
  {
    ExpNegSlope(exp, E, u);
    ReciprocalSlope(R, 1.0 + exp(-u));
    LogisticDecomposed(exp, G, E, R, u);
    LogisticChain(E, exp(-u), R, G, Recip(1.0 + exp(-u)));
  }

  lemma LogisticDecomposed(exp: real -> real, G: real -> real, E: real -> real, R: real -> real, u: real)
    requires forall x :: exp(x) > 0.0
    requires forall k :: G(k) == Logistic(exp, u + k)
    requires forall k :: E(k) == exp(-u - k)
    requires forall k :: R(k) == Recip(1.0 + exp(-u) + k)
    ensures forall k :: G(k) == R(E(k) - E(0.0))
    ensures G(0.0) == Recip(1.0 + exp(-u))
  {}

  lemma LogisticChain(E: real -> real, w: real, R: real -> real, G: real -> real, p: real)
    requires HasSlope(E, Times(w, -1.0)) && HasSlope(R, -Times(p, p))
    requires forall k :: G(k) == R(E(k) - E(0.0))
    requires w > 0.0 && p == Recip(1.0 + w)
    ensures HasSlope(G, Times(p, 1.0 - p))
  {
    ChainSlope(E, Times(w, -1.0), R, -Times(p, p), G);
    LogisticValue(w, p);
  }

  lemma LogisticValue(w: real, p: real)
    requires w > 0.0 && p == Recip(1.0 + w)
    ensures Times(-Times(p, p), Times(w, -1.0)) == Times(p, 1.0 - p)
  {}

  // ---------------------------------------------------------------- the graph

  /** Every sigmoid node below v holds the logistic value of its operand. */
  ghost predicate SigmoidsComputed(exp: real -> real, v: Node?)
    requires ValidGraph(v) && forall t :: exp(t) > 0.0
  {
    forall n :: n in Reach(v) && n.op == Sigmoid && n.p0 != null ==> n.val == Logistic(exp, n.p0.val)
  }

  /** No ReLU between v and x has its operand at the kink. */
  ghost predicate OffKinks(v: Node?, x: Node) {
    forall n :: n in Reach(v) && n.op == Relu && n != x && n.p0 != null && x in n.p0.Repr ==> n.p0.val != 0.0
  }

  /** The value the graph would compute at v if the value of x were changed by h. */
  ghost function Perturbed(exp: real -> real, v: Node?, x: Node, h: real): real
    requires ValidGraph(v) && forall t :: exp(t) > 0.0
    decreases Reach(v)
  {
    if v == null then 0.0
    else if v == x then v.val + h
    else
      Parents(v);
      match v.op
      case Leaf => v.val
      case Add => Perturbed(exp, v.p0, x, h) + Perturbed(exp, v.p1, x, h)
      case Mul => Times(Perturbed(exp, v.p0, x, h), Perturbed(exp, v.p1, x, h))
      case Relu => Max0(Perturbed(exp, v.p0, x, h))
      case Sigmoid => Logistic(exp, Perturbed(exp, v.p0, x, h))
  }

  ghost function Response(exp: real -> real, v: Node?, x: Node): real -> real
    requires ValidGraph(v) && forall t :: exp(t) > 0.0
  {
    h => Perturbed(exp, v, x, h)
  }

  /** The unperturbed graph computes the stored value. */
  lemma {:induction false} PerturbedZero(exp: real -> real, v: Node, x: Node)
    requires v.Valid() && (forall t :: exp(t) > 0.0) && SigmoidsComputed(exp, v)
    ensures Perturbed(exp, v, x, 0.0) == v.val
    decreases v.Repr
  {
    Parents(v);
    if v == x {
    } else {
      if v.p0 != null { PerturbedZero(exp, v.p0, x); }
      if v.p1 != null { PerturbedZero(exp, v.p1, x); }
    }
  }

  /** A change outside the graph has no effect on it. */
  lemma {:induction false} PerturbedOutside(exp: real -> real, v: Node?, x: Node, h: real, k: real)
    requires ValidGraph(v) && (forall t :: exp(t) > 0.0) && x !in Reach(v)
    ensures Perturbed(exp, v, x, h) == Perturbed(exp, v, x, k)
    decreases Reach(v)
  {
    if v == null {
    } else {
      Parents(v);
      PerturbedOutside(exp, v.p0, x, h, k);
      PerturbedOutside(exp, v.p1, x, h, k);
    }
  }

  /** One operation: from the slopes of the operands to the slope of the result. */
  lemma OperationSlope(exp: real -> real, v: Node, x: Node)
    requires v.Valid() && v != x && x in v.Repr && IsExponential(exp) && SigmoidsComputed(exp, v) && OffKinks(v, x)
    requires v.WellFormed() && ValidGraph(v.p0) && ValidGraph(v.p1)
    requires HasSlope(Response(exp, v.p0, x), Tangent(v.p0, x))
    requires HasSlope(Response(exp, v.p1, x), Tangent(v.p1, x))
    ensures HasSlope(Response(exp, v, x), Combine(Slope0(v), Tangent(v.p0, x), Slope1(v), Tangent(v.p1, x)))
  {
    var F, f, g := Response(exp, v, x), Response(exp, v.p0, x), Response(exp, v.p1, x);
    var a, b := Tangent(v.p0, x), Tangent(v.p1, x);
    assert v.op != Leaf;
    PerturbedZero(exp, v.p0, x);
    if v.op == Add {
      AddSlope(f, a, g, b, F);
    } else if v.op == Mul {
      PerturbedZero(exp, v.p1, x);
      MulSlope(f, a, g, b, F, v.p0.val, v.p1.val);
    } else if v.op == Relu {
      assert Slope0(v) == if v.p0.val > 0.0 then 1.0 else 0.0;
      ReluStep(f, a, F, v.p0.val, b);
    } else {
      assert Slope0(v) == Times(v.val, 1.0 - v.val);
      SigmoidStep(exp, f, a, F, v.p0.val, b, v.val);
    }
  }

  lemma AddSlope(f: real -> real, a: real, g: real -> real, b: real, s: real -> real)
    requires HasSlope(f, a) && HasSlope(g, b) && forall h :: s(h) == f(h) + g(h)
    ensures HasSlope(s, Combine(1.0, a, 1.0, b))
  {
    SumSlope(f, a, g, b, s);
    assert Times(1.0, a) == a && Times(1.0, b) == b;
  }

  lemma MulSlope(f: real -> real, a: real, g: real -> real, b: real, s: real -> real, f0: real, g0: real)
    requires HasSlope(f, a) && HasSlope(g, b) && forall h :: s(h) == Times(f(h), g(h))
    requires f(0.0) == f0 && g(0.0) == g0
    ensures HasSlope(s, Combine(g0, a, f0, b))
  {
    ProductSlope(f, a, g, b, s);
  }

  lemma ReluStep(f: real -> real, a: real, s: real -> real, u: real, b: real)
    requires HasSlope(f, a) && f(0.0) == u && u != 0.0 && b == 0.0
    requires forall h :: s(h) == Max0(f(h))
    ensures HasSlope(s, Combine(if u > 0.0 then 1.0 else 0.0, a, 0.0, b))
  {
    var G := (k: real) => Max0(u + k);
    ReluSlope(G, u);
    forall h ensures s(h) == G(f(h) - u) {
      assert u + (f(h) - u) == f(h);
    }
    UnarySlope(f, a, G, if u > 0.0 then 1.0 else 0.0, s, u, b);
  }

  lemma SigmoidStep(exp: real -> real, f: real -> real, a: real, s: real -> real, u: real, b: real, val: real)
    requires IsExponential(exp) && HasSlope(f, a) && f(0.0) == u && b == 0.0
    requires forall h :: s(h) == Logistic(exp, f(h))
    requires val == Logistic(exp, u)
    ensures HasSlope(s, Combine(Times(val, 1.0 - val), a, 0.0, b))
  {
    SigmoidWith(exp, f, a, s, u, b, val, k => Logistic(exp, u + k));
  }

  lemma SigmoidWith(exp: real -> real, f: real -> real, a: real, s: real -> real, u: real, b: real, val: real,
                    G: real -> real)
    requires IsExponential(exp) && HasSlope(f, a) && f(0.0) == u && b == 0.0
    requires forall h :: s(h) == Logistic(exp, f(h))
    requires forall k :: G(k) == Logistic(exp, u + k)
    requires val == Logistic(exp, u)
    ensures HasSlope(s, Combine(Times(val, 1.0 - val), a, 0.0, b))
  {
    assert u + 0.0 == u;
    LogisticSlope(exp, G, u);
    forall h ensures s(h) == G(f(h) - u) {
      assert u + (f(h) - u) == f(h);
    }
    UnarySlope(f, a, G, Times(val, 1.0 - val), s, u, b);
  }

  /** The chain rule in the form of a one-operand node. */
  lemma UnarySlope(f: real -> real, a: real, G: real -> real, d: real, s: real -> real, u: real, b: real)
    requires HasSlope(f, a) && HasSlope(G, d) && f(0.0) == u && b == 0.0
    requires forall h :: s(h) == G(f(h) - u)
    ensures HasSlope(s, Combine(d, a, 0.0, b))
  {
    ChainSlope(f, a, G, d, s);
    assert Times(0.0, b) == 0.0;
  }

  /** The tangent, and hence the gradient Backward leaves at x, is the derivative of v's value with
      respect to the value of x. */
  lemma {:induction false} TangentIsDerivative(exp: real -> real, v: Node?, x: Node)
    requires ValidGraph(v) && IsExponential(exp) && SigmoidsComputed(exp, v) && OffKinks(v, x)
    ensures HasSlope(Response(exp, v, x), Tangent(v, x))
    decreases Reach(v)
  {
    var F := Response(exp, v, x);
    if x !in Reach(v) {
      forall h ensures F(h) == F(0.0) { PerturbedOutside(exp, v, x, h, 0.0); }
      TangentOutside(v, x);
      ConstantSlope(F);
    } else if v == x {
      LinearSlope(F, v.val, 1.0, 1.0);
    } else {
      Parents(v);
      TangentIsDerivative(exp, v.p0, x);
      TangentIsDerivative(exp, v.p1, x);
      OperationSlope(exp, v, x);
      TangentStep(v, x);
    }
  }

  // ---------------------------------------------------------------- one node, at every input

  /** What an operation computes from its operands; the second is ignored by ReLU and sigmoid. */
  ghost function Operate(exp: real -> real, op: Op, a: real, b: real): real
    requires forall t :: exp(t) > 0.0
  {
    match op
    case Leaf => 0.0
    case Add => a + b
    case Mul => Times(a, b)
    case Relu => if a <= 0.0 then 0.0 else a
    case Sigmoid => Logistic(exp, a)
  }

  ghost function InFirst(exp: real -> real, op: Op, a: real, b: real): real -> real
    requires forall t :: exp(t) > 0.0
  {
    h => Operate(exp, op, a + h, b)
  }

  ghost function InSecond(exp: real -> real, op: Op, a: real, b: real): real -> real
    requires forall t :: exp(t) > 0.0
  {
    h => Operate(exp, op, a, b + h)
  }

  ghost function ValueOf(v: Node?): real { if v == null then 0.0 else v.val }

  /** At every value of the operands, the kink of ReLU among them, the local slopes the sweep
      multiplies along the paths are the left derivatives of the node's operation. */
  lemma LocalSlopesExactly(exp: real -> real, v: Node, d: real)
    requires v.Valid() && v.WellFormed() && IsExponential(exp) && SigmoidsComputed(exp, v)
    ensures HasLeftSlope(InFirst(exp, v.op, ValueOf(v.p0), ValueOf(v.p1)), d) <==> d == Slope0(v)
    ensures HasLeftSlope(InSecond(exp, v.op, ValueOf(v.p0), ValueOf(v.p1)), d) <==> d == Slope1(v)
  {
    var a, b := ValueOf(v.p0), ValueOf(v.p1);
    FirstSlope(exp, v, InFirst(exp, v.op, a, b));
    SecondSlope(exp, v, InSecond(exp, v.op, a, b));
    if HasLeftSlope(InFirst(exp, v.op, a, b), d) {
      LeftSlopeUnique(InFirst(exp, v.op, a, b), d, Slope0(v));
    }
    if HasLeftSlope(InSecond(exp, v.op, a, b), d) {
      LeftSlopeUnique(InSecond(exp, v.op, a, b), d, Slope1(v));
    }
  }

  lemma FirstSlope(exp: real -> real, v: Node, F: real -> real)
    requires v.WellFormed() && IsExponential(exp)
    requires v.op == Sigmoid ==> v.val == Logistic(exp, v.p0.val)
    requires FirstIs(exp, v.op, ValueOf(v.p0), ValueOf(v.p1), F)
    ensures HasLeftSlope(F, Slope0(v))
  {
    match v.op {
      case Leaf => FirstOfLeaf(exp, 0.0, 0.0, F);
      case Add => FirstOfSum(exp, v.p0.val, v.p1.val, F);
      case Mul => FirstOfProduct(exp, v.p0.val, v.p1.val, F);
      case Relu => FirstOfRelu(exp, v.p0.val, F);
      case Sigmoid => FirstOfSigmoid(exp, v.p0.val, v.val, F);
    }
  }

  ghost predicate FirstIs(exp: real -> real, op: Op, a: real, b: real, F: real -> real)
    requires forall t :: exp(t) > 0.0
  {
    forall h :: F(h) == Operate(exp, op, a + h, b)
  }

  lemma FirstOfLeaf(exp: real -> real, a: real, b: real, F: real -> real)
    requires (forall t :: exp(t) > 0.0) && FirstIs(exp, Leaf, a, b, F)
    ensures HasLeftSlope(F, 0.0)
  {
    ConstantSlope(F);
    SlopeFromBelow(F, 0.0);
  }

  lemma FirstOfSum(exp: real -> real, a: real, b: real, F: real -> real)
    requires (forall t :: exp(t) > 0.0) && FirstIs(exp, Add, a, b, F)
    ensures HasLeftSlope(F, 1.0)
  {
    LineFromBelow(F, a + b, 1.0);
  }

  lemma FirstOfProduct(exp: real -> real, a: real, b: real, F: real -> real)
    requires (forall t :: exp(t) > 0.0) && FirstIs(exp, Mul, a, b, F)
    ensures HasLeftSlope(F, b)
  {
    forall h ensures F(h) == Times(a, b) + Times(b, h) { TimesSum(a, h, b); }
    LineFromBelow(F, Times(a, b), b);
  }

  lemma FirstOfRelu(exp: real -> real, a: real, F: real -> real)
    requires (forall t :: exp(t) > 0.0) && FirstIs(exp, Relu, a, 0.0, F)
    ensures HasLeftSlope(F, if a > 0.0 then 1.0 else 0.0)
  {
    ReluLeftSlope(F, a);
  }

  lemma FirstOfSigmoid(exp: real -> real, a: real, val: real, F: real -> real)
    requires IsExponential(exp) && val == Logistic(exp, a) && FirstIs(exp, Sigmoid, a, 0.0, F)
    ensures HasLeftSlope(F, Times(val, 1.0 - val))
  {
    LogisticSlope(exp, F, a);
    assert a + 0.0 == a && F(0.0) == val;
    SlopeFromBelow(F, Times(val, 1.0 - val));
  }

  lemma SecondSlope(exp: real -> real, v: Node, F: real -> real)
    requires v.WellFormed() && forall t :: exp(t) > 0.0
    requires forall h :: F(h) == Operate(exp, v.op, ValueOf(v.p0), ValueOf(v.p1) + h)
    ensures HasLeftSlope(F, Slope1(v))
  {
    var a, b := ValueOf(v.p0), ValueOf(v.p1);
    match v.op {
      case Add => LineFromBelow(F, a + b, 1.0);
      case Mul =>
        forall h ensures F(h) == Times(a, b) + Times(a, h) { TimesAdd(a, b, h); }
        LineFromBelow(F, Times(a, b), a);
      case _ => ConstantSlope(F); SlopeFromBelow(F, 0.0);
    }
  }

  lemma LineFromBelow(f: real -> real, c: real, d: real)
    requires forall h :: f(h) == c + Times(d, h)
    ensures HasLeftSlope(f, d)
  {
    LinearSlope(f, c, d, 1.0);
    SlopeFromBelow(f, d);
  }
}
