/** The Q31 Clarke and Park transforms of arm_math.h and their inverses. */
module Transforms {
  import opened Arithmetic
  import opened FixedPoint
  import Simd

  /** How far a value lies outside the Q31 range. */
  function Excess(v: int): int { v - SatQ31(v) }

  // ----- Clarke -----

  // 1/sqrt(3) and 2/sqrt(3) scaled by 2^30, sqrt(3)/2 scaled by 2^31
  const INV_SQRT3 := 0x24F3_4E8B
  const TWO_INV_SQRT3 := 0x49E6_9D16
  const HALF_SQRT3 := 0x6ED9_EBA1

  /** The products of arm_clarke_q31 before their casts to 32 bits. */
  function ClarkeProductA(ia: int): int { ia * INV_SQRT3 / 0x4000_0000 }
  function ClarkeProductB(ib: int): int { ib * TWO_INV_SQRT3 / 0x4000_0000 }

  /** arm_clarke_q31: (Ialpha, Ibeta). */
  function Clarke(ia: int, ib: int): (r: (int, int))
    requires IsQ31(ia) && IsQ31(ib)
    ensures IsQ31(r.0) && IsQ31(r.1)
  {
    (ia, QAdd(ToQ31(ClarkeProductA(ia)), ToQ31(ClarkeProductB(ib))))
  }

  /** The constants are the roots they stand for, rounded down: 3 * INV_SQRT3^2 is
      2^60 and 4 * HALF_SQRT3^2 is 3 * 2^62 to within the last bit. */
  lemma ClarkeConstants()
    ensures 3 * INV_SQRT3 * INV_SQRT3 <= 0x1000_0000_0000_0000 < 3 * (INV_SQRT3 + 1) * (INV_SQRT3 + 1)
    ensures TWO_INV_SQRT3 == 2 * INV_SQRT3
    ensures 4 * HALF_SQRT3 * HALF_SQRT3 <= 3 * 0x4000_0000_0000_0000 < 4 * (HALF_SQRT3 + 1) * (HALF_SQRT3 + 1)
  {
  }

  /** Ibeta is less than two LSBs below (Ia + 2*Ib) / sqrt(3) when nothing wraps or
      clips. */
  lemma ClarkeForward(ia: int, ib: int)
    requires IsQ31(ia) && IsQ31(ib)
    requires IsQ31(ib * TWO_INV_SQRT3 / 0x4000_0000)
    requires IsQ31(ia * INV_SQRT3 / 0x4000_0000 + ib * TWO_INV_SQRT3 / 0x4000_0000)
    ensures Clarke(ia, ib).0 == ia
    ensures -2 * 0x4000_0000 < 0x4000_0000 * Clarke(ia, ib).1 - (ia + 2 * ib) * INV_SQRT3 <= 0
  {
    ToQ31Fits(ClarkeProductA(ia));
    ToQ31Fits(ClarkeProductB(ib));
  }

  /** For all inputs: the first product never wraps, the second may, and the sum
      saturates. */
  lemma ClarkeValue(ia: int, ib: int)
    requires IsQ31(ia) && IsQ31(ib)
    ensures Clarke(ia, ib) == (ia, SatQ31(ia * INV_SQRT3 / 0x4000_0000 + ToQ31(2 * ib * INV_SQRT3 / 0x4000_0000)))
  {
    ToQ31Fits(ClarkeProductA(ia));
  }

  /** arm_inv_clarke_q31: (Ia, Ib). */
  function InvClarke(ialpha: int, ibeta: int): (r: (int, int))
    requires IsQ31(ialpha) && IsQ31(ibeta)
    ensures IsQ31(r.0) && IsQ31(r.1)
  {
    (ialpha, QSub(ToQ31(ibeta * HALF_SQRT3 / 0x8000_0000), ToQ31(ialpha * 0x4000_0000 / 0x8000_0000)))
  }

  function ClarkeExcess(ia: int, ib: int): int
  {
    Excess(ClarkeProductA(ia) + ClarkeProductB(ib))
  }

  /** When the second product fits 32 bits and the sum does not saturate, the
      round trip returns Ia exactly and Ib between 3 LSBs below and 1 above.
      (The first product always fits.) */
  lemma ClarkeRoundTrip(ia: int, ib: int)
    requires IsQ31(ia) && IsQ31(ib)
    requires IsQ31(ClarkeProductB(ib)) && ClarkeExcess(ia, ib) == 0
    ensures var f := Clarke(ia, ib);
            var b := InvClarke(f.0, f.1);
            b.0 == ia && -3 <= b.1 - ib <= 1
  {
    var p, q := ClarkeProductA(ia), ClarkeProductB(ib);
    ToQ31Fits(p);
    ToQ31Fits(q);
    InvClarkeOf(ia, ib, p + q);
  }

  /** The inverse: neither product wraps, and the difference saturates. */
  lemma InvClarkeValue(ialpha: int, ibeta: int)
    requires IsQ31(ialpha) && IsQ31(ibeta)
    ensures InvClarke(ialpha, ibeta) == (ialpha, SatQ31(ibeta * HALF_SQRT3 / 0x8000_0000 - ialpha / 2))
  {
    ToQ31Fits(ibeta * HALF_SQRT3 / 0x8000_0000);
    assert ialpha * 0x4000_0000 / 0x8000_0000 == ialpha / 2;
    ToQ31Fits(ialpha / 2);
  }

  /** The inverse applied to any beta, measured against the beta that would
      have been exact. */
  lemma InvClarkeOf(ia: int, ib: int, beta: int)
    requires IsQ31(ia) && IsQ31(ib) && IsQ31(beta)
    ensures var v := beta * HALF_SQRT3 / 0x8000_0000 - ia / 2;
            && InvClarke(ia, beta) == (ia, SatQ31(v))
            && (ClarkeProductA(ia) + ClarkeProductB(ib) == beta && IsQ31(ClarkeProductB(ib)) ==> -3 <= v - ib <= 1)
  {
    InvClarkeValue(ia, beta);
  }

  // the images of the two Q31 bounds under the inverse's product
  const TOP := 0x7FFF_FFFF * HALF_SQRT3 / 0x8000_0000
  const BOTTOM := -0x8000_0000 * HALF_SQRT3 / 0x8000_0000

  /** How far the inverse gets back from a clipped sum. */
  predicate ClipRecovers(ia: int, ib: int)
  {
    && (ClarkeExcess(ia, ib) > 0 ==> ib + ia / 2 <= TOP + 4)
    && (ClarkeExcess(ia, ib) < 0 ==> ib + ia / 2 >= BOTTOM - 4)
  }

  lemma ClarkeFittingProduct(ia: int, ib: int)
    requires IsQ31(ia) && IsQ31(ib) && IsQ31(ClarkeProductB(ib))
    ensures var f := Clarke(ia, ib);
            -4 <= InvClarke(f.0, f.1).1 - ib <= 4 <==> ClipRecovers(ia, ib)
  {
    var p, q := ClarkeProductA(ia), ClarkeProductB(ib);
    ToQ31Fits(p);
    ToQ31Fits(q);
    InvClarkeOf(ia, ib, SatQ31(p + q));
  }

  /** In particular a sum clipped by more than 8 LSBs loses more than 4. */
  lemma ClarkeClipLoses(ia: int, ib: int)
    requires IsQ31(ia) && IsQ31(ib)
    requires IsQ31(ClarkeProductB(ib)) && !(-8 <= ClarkeExcess(ia, ib) <= 8)
    ensures var f := Clarke(ia, ib);
            var d := InvClarke(f.0, f.1).1 - ib;
            d > 4 || d < -4
  {
    ClarkeFittingProduct(ia, ib);
  }

  /** For all inputs: Ib comes back within 4 LSBs exactly when the second product
      fits and the clip, if the add clips, leaves the difference in reach. */
  lemma ClarkeRoundTripIff(ia: int, ib: int)
    requires IsQ31(ia) && IsQ31(ib)
    ensures var f := Clarke(ia, ib);
            -4 <= InvClarke(f.0, f.1).1 - ib <= 4 <==> IsQ31(ClarkeProductB(ib)) && ClipRecovers(ia, ib)
  {
    if IsQ31(ClarkeProductB(ib)) {
      ClarkeFittingProduct(ia, ib);
    } else {
      ClarkeWrapLoses(ia, ib);
    }
  }

  /** A second product that does not fit wraps, and the error is enormous. */
  lemma ClarkeWrapLoses(ia: int, ib: int)
    requires IsQ31(ia) && IsQ31(ib) && !IsQ31(ClarkeProductB(ib))
    ensures var f := Clarke(ia, ib);
            var d := InvClarke(f.0, f.1).1 - ib;
            d > 0x2000_0000 || d < -0x2000_0000
  {
    var p, q := ClarkeProductA(ia), ClarkeProductB(ib);
    ToQ31Fits(p);
    var w := ToQ31(q);
    assert q > 0x7FFF_FFFF ==> w == q - 0x1_0000_0000;
    assert q < -0x8000_0000 ==> w == q + 0x1_0000_0000;
    var beta := SatQ31(p + w);
    assert Clarke(ia, ib) == (ia, beta);
    InvClarkeOf(ia, ib, beta);
  }

  // ----- Park -----

  function Shifted(x: int, y: int): int { x * y / 0x8000_0000 }

  /** arm_park_q31: (Id, Iq). */
  function Park(ialpha: int, ibeta: int, sinVal: int, cosVal: int): (r: (int, int))
    requires IsQ31(ialpha) && IsQ31(ibeta) && IsQ31(sinVal) && IsQ31(cosVal)
    ensures IsQ31(r.0) && IsQ31(r.1)
  {
    var product1 := ToQ31(Shifted(ialpha, cosVal));
    var product2 := ToQ31(Shifted(ibeta, sinVal));
    var product3 := ToQ31(Shifted(ialpha, sinVal));
    var product4 := ToQ31(Shifted(ibeta, cosVal));
    (QAdd(product1, product2), QSub(product4, product3))
  }

  /** arm_inv_park_q31: (Ialpha, Ibeta). */
  function InvPark(id: int, iq: int, sinVal: int, cosVal: int): (r: (int, int))
    requires IsQ31(id) && IsQ31(iq) && IsQ31(sinVal) && IsQ31(cosVal)
    ensures IsQ31(r.0) && IsQ31(r.1)
  {
    var product1 := ToQ31(Shifted(id, cosVal));
    var product2 := ToQ31(Shifted(iq, sinVal));
    var product3 := ToQ31(Shifted(id, sinVal));
    var product4 := ToQ31(Shifted(iq, cosVal));
    (QSub(product1, product2), QAdd(product4, product3))
  }

  ghost predicate AngleWords(sinVal: int, cosVal: int)
  {
    IsQ31(sinVal) && IsQ31(cosVal) && cosVal * cosVal + sinVal * sinVal <= 0x4000_0000_0000_0000
  }

  /** The sums of arm_park_q31 with neither wrap nor saturation. */
  function SumD(a: int, b: int, s: int, c: int): int { Shifted(a, c) + Shifted(b, s) }
  function SumQ(a: int, b: int, s: int, c: int): int { Shifted(b, c) - Shifted(a, s) }

  /** The sums of arm_inv_park_q31 likewise. */
  function SumAlpha(d: int, q: int, s: int, c: int): int { Shifted(d, c) - Shifted(q, s) }
  function SumBeta(d: int, q: int, s: int, c: int): int { Shifted(q, c) + Shifted(d, s) }

  /** v is less than k LSBs from a value scaled by 2^62. */
  predicate Within(v: int, scaled: int, k: int)
  {
    -k * 0x4000_0000_0000_0000 < 0x4000_0000_0000_0000 * v - scaled < k * 0x4000_0000_0000_0000
  }

  function ThereAndBack(a: int, b: int, s: int, c: int): (int, int)
    requires IsQ31(a) && IsQ31(b) && IsQ31(s) && IsQ31(c)
  {
    var f := Park(a, b, s, c);
    InvPark(f.0, f.1, s, c)
  }

  /** Forward and back gives the input scaled by sin^2 + cos^2, to less than ka
      LSBs on alpha and less than kb on beta. */
  predicate ReturnsWithin(a: int, b: int, s: int, c: int, ka: int, kb: int)
    requires IsQ31(a) && IsQ31(b) && IsQ31(s) && IsQ31(c)
  {
    BothWithin(ThereAndBack(a, b, s, c), a, b, c * c + s * s, ka, kb)
  }

  predicate BothWithin(r: (int, int), a: int, b: int, n: int, ka: int, kb: int)
  {
    Within(r.0, a * n, ka) && Within(r.1, b * n, kb)
  }

  predicate ParkReturns(a: int, b: int, s: int, c: int)
    requires IsQ31(a) && IsQ31(b) && IsQ31(s) && IsQ31(c)
  {
    ReturnsWithin(a, b, s, c, 4, 5)
  }

  // ----- Park away from the axes, where no product wraps -----

  /** The product of two words, not both -1, shifted back. */
  lemma ShiftedFits(x: int, y: int)
    requires IsQ31(x) && IsQ31(y) && (x == -0x8000_0000 ==> y != -0x8000_0000)
    ensures ToQ31(Shifted(x, y)) == Shifted(x, y)
  {
    if x == -0x8000_0000 {
      MulBound(x, y, 0x8000_0000, 0x7FFF_FFFF);
    } else {
      MulBound(x, y, 0x7FFF_FFFF, 0x8000_0000);
    }
    ToQ31Fits(Shifted(x, y));
  }

  lemma ShiftedFloor(x: int, y: int)
    ensures x * y - 0x8000_0000 < 0x8000_0000 * Shifted(x, y) <= x * y
  {
  }

  predicate OffAxis(s: int, c: int) { IsQ31(s) && IsQ31(c) && s != -0x8000_0000 && c != -0x8000_0000 }

  lemma ParkOffAxis(a: int, b: int, s: int, c: int)
    requires IsQ31(a) && IsQ31(b) && OffAxis(s, c)
    ensures Park(a, b, s, c) == (SatQ31(SumD(a, b, s, c)), SatQ31(SumQ(a, b, s, c)))
  {
    ShiftedFits(a, c);
    ShiftedFits(b, s);
    ShiftedFits(a, s);
    ShiftedFits(b, c);
  }

  lemma InvParkOffAxis(d: int, q: int, s: int, c: int)
    requires IsQ31(d) && IsQ31(q) && OffAxis(s, c)
    ensures InvPark(d, q, s, c) == (SatQ31(SumAlpha(d, q, s, c)), SatQ31(SumBeta(d, q, s, c)))
  {
    ShiftedFits(d, c);
    ShiftedFits(q, s);
    ShiftedFits(d, s);
    ShiftedFits(q, c);
  }

  /** The floors leave d up to two LSBs below, and q less than one LSB from, the
      exact coordinates. */
  lemma ForwardRounding(a: int, b: int, s: int, c: int)
    ensures -2 * 0x7FFF_FFFF <= 0x8000_0000 * SumD(a, b, s, c) - (a * c + b * s) <= 0
    ensures -0x7FFF_FFFF <= 0x8000_0000 * SumQ(a, b, s, c) - (b * c - a * s) <= 0x7FFF_FFFF
  {
    ShiftedFloor(a, c);
    ShiftedFloor(b, s);
    ShiftedFloor(a, s);
    ShiftedFloor(b, c);
    SumsOfShifts(a * c, b * s, Shifted(a, c), Shifted(b, s));
    SumsOfShifts(b * c, a * s, Shifted(b, c), Shifted(a, s));
  }

  lemma SumsOfShifts(p: int, q: int, x: int, y: int)
    requires p - 0x8000_0000 < 0x8000_0000 * x <= p && q - 0x8000_0000 < 0x8000_0000 * y <= q
    ensures -2 * 0x7FFF_FFFF <= 0x8000_0000 * (x + y) - (p + q) <= 0
    ensures -0x7FFF_FFFF <= 0x8000_0000 * (x - y) - (p - q) <= 0x7FFF_FFFF
  {
  }

  lemma BackRotation(a: int, b: int, s: int, c: int, d: int, q: int, e1: int, e2: int)
    requires 0x8000_0000 * d == a * c + b * s + e1 && 0x8000_0000 * q == b * c - a * s + e2
    ensures 0x8000_0000 * (d * c - q * s) == a * (c * c + s * s) + e1 * c - e2 * s
    ensures 0x8000_0000 * (q * c + d * s) == b * (c * c + s * s) + e2 * c + e1 * s
  {
    Expand(d, a * c, b * s, e1, c);
    Expand(d, a * c, b * s, e1, s);
    Expand(q, b * c, -(a * s), e2, c);
    Expand(q, b * c, -(a * s), e2, s);
    Monomials(a, b, s, c);
  }

  lemma Expand(d: int, p: int, q: int, e: int, k: int)
    requires 0x8000_0000 * d == p + q + e
    ensures 0x8000_0000 * (d * k) == p * k + q * k + e * k
  {
    assert (p + q + e) * k == p * k + q * k + e * k;
    assert 0x8000_0000 * (d * k) == 0x8000_0000 * d * k;
  }

  lemma Monomials(a: int, b: int, s: int, c: int)
    ensures a * c * c - -(a * s) * s == a * (c * c + s * s)
    ensures b * s * c - b * c * s == 0
    ensures b * c * c + b * s * s == b * (c * c + s * s)
    ensures -(a * s) * c + a * c * s == 0
  {
    assert a * (c * c + s * s) == a * (c * c) + a * (s * s);
    assert b * (c * c + s * s) == b * (c * c) + b * (s * s);
  }

  /** The two sums of the inverse, for coordinates that are ed and eq LSBs short of
      the rotated ones: what is missing is rotated back too. */
  lemma InverseSums(a: int, b: int, s: int, c: int, d: int, q: int, ed: int, eq: int)
    requires IsQ31(s) && IsQ31(c)
    requires -2 * 0x7FFF_FFFF <= 0x8000_0000 * (d + ed) - (a * c + b * s) <= 0
    requires -0x7FFF_FFFF <= 0x8000_0000 * (q + eq) - (b * c - a * s) <= 0x7FFF_FFFF
    ensures var n := c * c + s * s;
            && Within(SumAlpha(d, q, s, c), a * n - 0x8000_0000 * (ed * c - eq * s), 4)
            && Within(SumBeta(d, q, s, c), b * n - 0x8000_0000 * (eq * c + ed * s), 5)
  {
    var e1, e2 := 0x8000_0000 * (d + ed) - (a * c + b * s), 0x8000_0000 * (q + eq) - (b * c - a * s);
    BackRotation(a, b, s, c, d + ed, q + eq, e1, e2);
    MulBound(e1, c, 2 * 0x7FFF_FFFF, 0x8000_0000);
    MulBound(e2, s, 0x7FFF_FFFF, 0x8000_0000);
    MulBound(e1, s, 2 * 0x7FFF_FFFF, 0x8000_0000);
    MulBound(e2, c, 0x7FFF_FFFF, 0x8000_0000);
    Distribute(d, ed, c);
    Distribute(d, ed, s);
    Distribute(q, eq, c);
    Distribute(q, eq, s);
    ShiftedFloor(d, c);
    ShiftedFloor(q, s);
    ShiftedFloor(d, s);
    ShiftedFloor(q, c);
    SumsOfShifts(d * c, q * s, Shifted(d, c), Shifted(q, s));
    SumsOfShifts(q * c, d * s, Shifted(q, c), Shifted(d, s));
  }

  /** The inverse of what the forward transform returns. */
  lemma BackOffAxis(a: int, b: int, s: int, c: int)
    requires IsQ31(a) && IsQ31(b) && OffAxis(s, c)
    ensures var d, q, ed, eq := SatQ31(SumD(a, b, s, c)), SatQ31(SumQ(a, b, s, c)),
                                Excess(SumD(a, b, s, c)), Excess(SumQ(a, b, s, c));
            var n := c * c + s * s;
            && ThereAndBack(a, b, s, c) == (SatQ31(SumAlpha(d, q, s, c)), SatQ31(SumBeta(d, q, s, c)))
            && Within(SumAlpha(d, q, s, c), a * n - 0x8000_0000 * (ed * c - eq * s), 4)
            && Within(SumBeta(d, q, s, c), b * n - 0x8000_0000 * (eq * c + ed * s), 5)
  {
    var d, q := SumD(a, b, s, c), SumQ(a, b, s, c);
    ParkOffAxis(a, b, s, c);
    InvParkOffAxis(SatQ31(d), SatQ31(q), s, c);
    ForwardRounding(a, b, s, c);
    InverseSums(a, b, s, c, SatQ31(d), SatQ31(q), Excess(d), Excess(q));
  }

  /** The value aimed at is in range, so saturating can only come nearer to it. */
  lemma SaturationHelps(v: int, a: int, n: int, k: int)
    requires IsQ31(a) && 0 <= n <= 0x4000_0000_0000_0000 && k > 0 && Within(v, a * n, k)
    ensures Within(SatQ31(v), a * n, k)
  {
    ScaledBound(a, n);
  }

  lemma ScaledBound(a: int, n: int)
    requires IsQ31(a) && 0 <= n <= 0x4000_0000_0000_0000
    ensures -0x8000_0000 * 0x4000_0000_0000_0000 <= a * n <= 0x7FFF_FFFF * 0x4000_0000_0000_0000
  {
    MulLe(n, a, 0x7FFF_FFFF);
    MulLe(n, -0x8000_0000, a);
  }

  /** Every LSB clipped off a forward sum costs at most one more in the result. */
  lemma ParkClipCosts(a: int, b: int, s: int, c: int)
    requires IsQ31(a) && IsQ31(b) && OffAxis(s, c) && AngleWords(s, c)
    ensures var e := Abs(Excess(SumD(a, b, s, c))) + Abs(Excess(SumQ(a, b, s, c)));
            ReturnsWithin(a, b, s, c, 4 + e, 5 + e)
  {
    var d, q := SumD(a, b, s, c), SumQ(a, b, s, c);
    BackOffAxis(a, b, s, c);
    ClipCosts(SumAlpha(SatQ31(d), SatQ31(q), s, c), SumBeta(SatQ31(d), SatQ31(q), s, c), a, b, s, c, Excess(d), Excess(q));
  }

  lemma ClipCosts(v: int, w: int, a: int, b: int, s: int, c: int, ed: int, eq: int)
    requires IsQ31(a) && IsQ31(b) && AngleWords(s, c)
    requires Within(v, a * (c * c + s * s) - 0x8000_0000 * (ed * c - eq * s), 4)
    requires Within(w, b * (c * c + s * s) - 0x8000_0000 * (eq * c + ed * s), 5)
    ensures var e := Abs(ed) + Abs(eq);
            BothWithin((SatQ31(v), SatQ31(w)), a, b, c * c + s * s, 4 + e, 5 + e)
  {
    SquareNonNegative(c);
    SquareNonNegative(s);
    NegProducts(eq, eq, s);
    Displaced(v, a, c * c + s * s, ed, c, eq, -s, 4);
    Displaced(w, b, c * c + s * s, ed, s, eq, c, 5);
  }

  lemma Displaced(v: int, a: int, n: int, ed: int, x: int, eq: int, y: int, k: int)
    requires IsQ31(a) && 0 <= n <= 0x4000_0000_0000_0000 && k > 0
    requires -0x8000_0000 <= x <= 0x8000_0000 && -0x8000_0000 <= y <= 0x8000_0000
    requires Within(v, a * n - 0x8000_0000 * (ed * x + eq * y), k)
    ensures Within(SatQ31(v), a * n, k + Abs(ed) + Abs(eq))
  {
    MulBound(ed, x, Abs(ed), 0x8000_0000);
    MulBound(eq, y, Abs(eq), 0x8000_0000);
    SaturationHelps(v, a, n, k + Abs(ed) + Abs(eq));
  }

  // ----- Park on the axes -----

  lemma AxisShifts(x: int)
    ensures Shifted(x, -0x8000_0000) == -x && Shifted(x, 0) == 0
  {
  }

  /** At angle -1 on one axis the other word is zero. */
  lemma OnAxis(s: int, c: int)
    requires AngleWords(s, c) && !OffAxis(s, c)
    ensures (s == -0x8000_0000 && c == 0) || (s == 0 && c == -0x8000_0000)
  {
    if s == -0x8000_0000 {
      RootLe(c, 0);
    } else {
      RootLe(s, 0);
    }
  }

  lemma RootLe(x: int, r: int)
    requires r >= 0 && x * x <= r * r
    ensures -r <= x <= r
  {
    if x > r {
      MulLt(x, r, x);
      MulLe(r, r, x);
      assert false;
    } else if x < -r {
      MulLt(-x, r, -x);
      MulLe(r, r, -x);
      assert false;
    }
  }

  /** There the sums are the components up to sign, and a component of -2^31 is
      negated into itself. */
  lemma ParkOnAxis(a: int, b: int, s: int, c: int)
    requires IsQ31(a) && IsQ31(b) && AngleWords(s, c) && !OffAxis(s, c)
    ensures (SumD(a, b, s, c), SumQ(a, b, s, c)) == if s == 0 then (-a, -b) else (-b, a)
    ensures Park(a, b, s, c) == if s == 0 then (ToQ31(-a), ToQ31(-b)) else (ToQ31(-b), SatQ31(-ToQ31(-a)))
  {
    OnAxis(s, c);
    AxisShifts(a);
    AxisShifts(b);
    ToQ31Fits(0);
  }

  lemma InvParkOnAxis(d: int, q: int, s: int, c: int)
    requires IsQ31(d) && IsQ31(q) && AngleWords(s, c) && !OffAxis(s, c)
    ensures InvPark(d, q, s, c) == if s == 0 then (ToQ31(-d), ToQ31(-q)) else (SatQ31(-ToQ31(-q)), ToQ31(-d))
  {
    OnAxis(s, c);
    AxisShifts(d);
    AxisShifts(q);
    ToQ31Fits(0);
  }

  /** Negated in 32 bits twice a word is itself; with the second negation
      saturated, -2^31 becomes 2^31 - 1. */
  lemma NegatedTwice(x: int)
    requires IsQ31(x)
    ensures ToQ31(-x) == -x <==> x != -0x8000_0000
    ensures ToQ31(-ToQ31(-x)) == x
    ensures SatQ31(-ToQ31(-x)) == if x == -0x8000_0000 then 0x7FFF_FFFF else x
  {
    ToQ31Fits(-x);
    ToQ31Fits(x);
    if x == -0x8000_0000 {
      assert ToQ31(0x8000_0000) == x;
    }
  }

  lemma BackOnAxis(a: int, b: int, s: int, c: int)
    requires IsQ31(a) && IsQ31(b) && AngleWords(s, c) && !OffAxis(s, c)
    ensures ThereAndBack(a, b, s, c) == if a == s == -0x8000_0000 then (0x7FFF_FFFF, b) else (a, b)
  {
    var f := Park(a, b, s, c);
    ParkOnAxis(a, b, s, c);
    BackFrom(f.0, f.1, a, b, s, c);
  }

  lemma BackFrom(d: int, q: int, a: int, b: int, s: int, c: int)
    requires IsQ31(a) && IsQ31(b) && IsQ31(d) && IsQ31(q) && AngleWords(s, c) && !OffAxis(s, c)
    requires d == if s == 0 then ToQ31(-a) else ToQ31(-b)
    requires q == if s == 0 then ToQ31(-b) else SatQ31(-ToQ31(-a))
    ensures InvPark(d, q, s, c) == if a == s == -0x8000_0000 then (0x7FFF_FFFF, b) else (a, b)
  {
    OnAxis(s, c);
    InvParkOnAxis(d, q, s, c);
    NegatedBack(d, q, a, b, s);
  }

  lemma NegatedBack(d: int, q: int, a: int, b: int, s: int)
    requires IsQ31(a) && IsQ31(b) && (s == 0 || s == -0x8000_0000)
    requires d == if s == 0 then ToQ31(-a) else ToQ31(-b)
    requires q == if s == 0 then ToQ31(-b) else SatQ31(-ToQ31(-a))
    ensures (if s == 0 then (ToQ31(-d), ToQ31(-q)) else (SatQ31(-ToQ31(-q)), ToQ31(-d)))
            == if a == s == -0x8000_0000 then (0x7FFF_FFFF, b) else (a, b)
  {
    if s == 0 {
      NegatedTwice(a);
      NegatedTwice(b);
    } else {
      NegatedTwice(b);
      SaturatedTwice(a);
    }
  }

  lemma SaturatedTwice(x: int)
    requires IsQ31(x)
    ensures SatQ31(-ToQ31(-SatQ31(-ToQ31(-x)))) == if x == -0x8000_0000 then 0x7FFF_FFFF else x
  {
    NegatedTwice(x);
    NegatedTwice(SatQ31(-ToQ31(-x)));
  }

  /** The round trip on an axis is exact, or misses alpha by 2^32 - 1. */
  lemma ParkAxisIff(a: int, b: int, s: int, c: int)
    requires IsQ31(a) && IsQ31(b) && AngleWords(s, c) && !OffAxis(s, c)
    ensures ParkReturns(a, b, s, c) <==> !(a == s == -0x8000_0000)
    ensures ThereAndBack(a, b, s, c) == if a == s == -0x8000_0000 then (0x7FFF_FFFF, b) else (a, b)
  {
    BackOnAxis(a, b, s, c);
    AxisSquares(s, c);
    ExactlyBack(ThereAndBack(a, b, s, c), a, b, c * c + s * s);
  }

  lemma AxisSquares(s: int, c: int)
    requires AngleWords(s, c) && !OffAxis(s, c)
    ensures c * c + s * s == 0x4000_0000_0000_0000
  {
    OnAxis(s, c);
  }

  lemma ExactlyBack(r: (int, int), a: int, b: int, n: int)
    requires n == 0x4000_0000_0000_0000 && r.1 == b
    requires r.0 == a || (a == -0x8000_0000 && r.0 == 0x7FFF_FFFF)
    ensures BothWithin(r, a, b, n, 4, 5) <==> r.0 == a
  {
  }

  // ----- Park for all inputs -----

  /** The sums fit their words, and the one product pair whose wrap they hide is
      not met. */
  predicate SumsFit(a: int, b: int, s: int, c: int)
  {
    IsQ31(SumD(a, b, s, c)) && IsQ31(SumQ(a, b, s, c)) && !(a == s == -0x8000_0000)
  }

  /** The forward transform returns the two floored sums exactly when they fit. */
  lemma ParkExactIff(a: int, b: int, s: int, c: int)
    requires IsQ31(a) && IsQ31(b) && AngleWords(s, c)
    ensures Park(a, b, s, c) == (SumD(a, b, s, c), SumQ(a, b, s, c)) <==> SumsFit(a, b, s, c)
  {
    if OffAxis(s, c) {
      ParkOffAxis(a, b, s, c);
      SaturatesIff(Park(a, b, s, c), SumD(a, b, s, c), SumQ(a, b, s, c));
    } else {
      ParkOnAxis(a, b, s, c);
      OnAxis(s, c);
      NegatedIff(Park(a, b, s, c), SumD(a, b, s, c), SumQ(a, b, s, c), a, b, s);
    }
  }

  lemma SaturatesIff(r: (int, int), d: int, q: int)
    requires r == (SatQ31(d), SatQ31(q))
    ensures r == (d, q) <==> IsQ31(d) && IsQ31(q)
  {
  }

  lemma NegatedIff(r: (int, int), d: int, q: int, a: int, b: int, s: int)
    requires IsQ31(a) && IsQ31(b) && (s == 0 || s == -0x8000_0000)
    requires (d, q) == if s == 0 then (-a, -b) else (-b, a)
    requires r == if s == 0 then (ToQ31(-a), ToQ31(-b)) else (ToQ31(-b), SatQ31(-ToQ31(-a)))
    ensures r == (d, q) <==> IsQ31(d) && IsQ31(q) && !(a == s == -0x8000_0000)
  {
    NegatedTwice(a);
    NegatedTwice(b);
  }

  predicate ClippedBy(a: int, b: int, s: int, c: int, e: nat)
  {
    Abs(Excess(SumD(a, b, s, c))) >= e || Abs(Excess(SumQ(a, b, s, c))) >= e
  }

  /** Forward and back, for all inputs: the bounds are met when the forward sums
      fit, and not met when one is clipped by 20 LSBs or more or the product of -1
      and -1 reaches q.  For a smaller clip see ParkClipCosts. */
  lemma ParkRoundTrip(a: int, b: int, s: int, c: int)
    requires IsQ31(a) && IsQ31(b) && AngleWords(s, c)
    ensures SumsFit(a, b, s, c) ==> ParkReturns(a, b, s, c)
    ensures ClippedBy(a, b, s, c, 20) || a == s == -0x8000_0000 ==> !ParkReturns(a, b, s, c)
  {
    if OffAxis(s, c) {
      if SumsFit(a, b, s, c) {
        UnclippedReturns(a, b, s, c);
      }
      if ClippedBy(a, b, s, c, 20) {
        ParkClipLoses(a, b, s, c);
      }
    } else {
      AxisExcess(a, b, s, c);
      ParkAxisIff(a, b, s, c);
    }
  }

  lemma UnclippedReturns(a: int, b: int, s: int, c: int)
    requires IsQ31(a) && IsQ31(b) && OffAxis(s, c) && AngleWords(s, c)
    requires Excess(SumD(a, b, s, c)) == 0 && Excess(SumQ(a, b, s, c)) == 0
    ensures ParkReturns(a, b, s, c)
  {
    ParkClipCosts(a, b, s, c);
  }

  lemma AxisExcess(a: int, b: int, s: int, c: int)
    requires IsQ31(a) && IsQ31(b) && AngleWords(s, c) && !OffAxis(s, c)
    ensures !ClippedBy(a, b, s, c, 20)
  {
    ParkOnAxis(a, b, s, c);
  }

  // ----- why a clip loses -----

  /** The rotated coordinates together are no longer than the input. */
  lemma Rotated(a: int, b: int, s: int, c: int)
    requires AngleWords(s, c)
    ensures var u, w := a * c + b * s, b * c - a * s;
            u * u + w * w <= (a * a + b * b) * 0x4000_0000_0000_0000
  {
    var u, w := a * c + b * s, b * c - a * s;
    Simd.TwoSquares(a, b, c, -s);
    assert a * c - b * (-s) == u && a * (-s) + b * c == w by { NegProducts(a, b, s); }
    assert (-s) * (-s) == s * s;
    SquareNonNegative(a);
    SquareNonNegative(b);
    MulLe(a * a + b * b, c * c + s * s, 0x4000_0000_0000_0000);
  }

  lemma NegProducts(a: int, b: int, s: int)
    ensures b * (-s) == -(b * s) && a * (-s) == -(a * s)
  {
  }

  /** One coordinate far out keeps the other well inside. */
  lemma OtherInside(u: int, w: int)
    requires u * u + w * w <= 0x8000_0000_0000_0000 * 0x4000_0000_0000_0000
    requires u >= 0x8000_0000 * 0x8000_0012 || u <= -0x8000_0000 * 0x8000_0012
    ensures -0x8000_0000 * 0x7FFF_FFEF <= w <= 0x8000_0000 * 0x7FFF_FFEF
  {
    assert u * u >= (0x8000_0000 * 0x8000_0012) * (0x8000_0000 * 0x8000_0012) by {
      if u >= 0 {
        SquareAtLeast(u, 0x8000_0000 * 0x8000_0012);
      } else {
        SquareAtLeast(-u, 0x8000_0000 * 0x8000_0012);
      }
    }
    RootLe(w, 0x8000_0000 * 0x7FFF_FFEF);
  }

  lemma SquareAtLeast(x: int, r: int)
    requires 0 <= r <= x
    ensures x * x >= r * r
  {
    MulLe(x, r, x);
    MulLe(r, r, x);
  }

  /** The component x has the sign that the factor y and the clip e give, and what
      the clip takes away along y is large. */
  predicate PulledBack(x: int, y: int, e: int)
  {
    (e * y >= 10 * 0x8000_0000 && x >= 0) || (e * y <= -10 * 0x8000_0000 && x <= 0)
  }

  predicate Unit(x: int) { -0x8000_0000 <= x <= 0x8000_0000 }

  /** Two products that add up beyond full scale agree in sign, and the larger of
      the two factors is more than a half. */
  lemma OneFactorPulls(x: int, y: int, z: int, v: int, e: int)
    requires Unit(x) && Unit(y) && Unit(z) && Unit(v) && e >= 20
    requires x * y + z * v >= 0x8000_0000 * (0x7FFF_FFFE + e)
    ensures PulledBack(x, y, e) || PulledBack(z, v, e)
  {
    ProductSign(x, y);
    ProductSign(z, v);
    assert Abs(y) + Abs(v) >= 0x7FFF_FFFE + e;
    if Abs(y) >= Abs(v) {
      Pull(y, e);
    } else {
      Pull(v, e);
    }
  }

  lemma ProductSign(x: int, y: int)
    requires Unit(x) && Unit(y)
    ensures x * y <= 0x8000_0000 * Abs(y) <= 0x8000_0000 * 0x8000_0000
    ensures x * y > 0 ==> (x > 0 && y > 0) || (x < 0 && y < 0)
  {
    if y >= 0 {
      MulLe(y, x, 0x8000_0000);
      if x <= 0 { MulLe(y, x, 0); }
    } else {
      MulLe(-y, -x, 0x8000_0000);
      if x >= 0 { MulLe(-y, -x, 0); }
    }
  }

  lemma Pull(y: int, e: int)
    requires e >= 20 && 2 * Abs(y) >= 0x8000_0000 + 18
    ensures y > 0 ==> e * y >= 10 * 0x8000_0000
    ensures y < 0 ==> e * y <= -10 * 0x8000_0000
  {
    if y > 0 {
      MulLe(y, 20, e);
    } else {
      MulLe(-y, 20, e);
    }
  }

  /** The same on the negative side. */
  lemma OneFactorPullsEither(x: int, y: int, z: int, v: int, e: int)
    requires Unit(x) && Unit(y) && Unit(z) && Unit(v)
    requires e >= 20 ==> x * y + z * v >= 0x8000_0000 * (0x7FFF_FFFE + e)
    requires e <= -20 ==> x * y + z * v <= -0x8000_0000 * (0x7FFF_FFFE - e)
    requires e >= 20 || e <= -20
    ensures PulledBack(x, y, e) || PulledBack(z, v, e)
  {
    if e >= 20 {
      OneFactorPulls(x, y, z, v, e);
    } else {
      assert (-x) * y == -(x * y) && (-z) * v == -(z * v);
      OneFactorPulls(-x, y, -z, v, -e);
      assert (-e) * y == -(e * y) && (-e) * v == -(e * v);
    }
  }

  /** A coordinate that the clip pulls towards zero and past it, saturated or not,
      is not within k of its target. */
  lemma Lost(v: int, a: int, n: int, y: int, e: int, k: int)
    requires n >= 0 && 0 < k <= 5 && PulledBack(a, y, e)
    requires Within(v, a * n - 0x8000_0000 * (e * y), k)
    ensures !Within(SatQ31(v), a * n, k)
  {
    if a >= 0 {
      MulLe(n, 0, a);
    }
    if a <= 0 {
      MulLe(n, a, 0);
    }
    LostValue(v, a * n, e * y, k);
  }

  lemma LostValue(v: int, t: int, m: int, k: int)
    requires 0 < k <= 5 && Within(v, t - 0x8000_0000 * m, k)
    requires (m >= 10 * 0x8000_0000 && t >= 0) || (m <= -10 * 0x8000_0000 && t <= 0)
    ensures !Within(SatQ31(v), t, k)
  {
  }

  /** The sums against the exact coordinates, far out. */
  lemma FarOut(sum: int, exact: int)
    requires -2 * 0x7FFF_FFFF <= 0x8000_0000 * sum - exact <= 0x7FFF_FFFF
    ensures var e := Excess(sum);
            && (e >= 20 ==> exact >= 0x8000_0000 * (0x7FFF_FFFE + e))
            && (e <= -20 ==> exact <= -0x8000_0000 * (0x7FFF_FFFE - e))
            && (-0x8000_0000 * 0x7FFF_FFEF <= exact <= 0x8000_0000 * 0x7FFF_FFEF ==> e == 0)
  {
  }

  lemma ParkClipLoses(a: int, b: int, s: int, c: int)
    requires IsQ31(a) && IsQ31(b) && OffAxis(s, c) && AngleWords(s, c)
    requires ClippedBy(a, b, s, c, 20)
    ensures !ParkReturns(a, b, s, c)
  {
    BackOffAxis(a, b, s, c);
    OneClip(a, b, s, c);
    SquareNonNegative(c);
    SquareNonNegative(s);
    if Abs(Excess(SumD(a, b, s, c))) >= 20 {
      DClipLoses(a, b, s, c);
    } else {
      QClipLoses(a, b, s, c);
    }
  }

  /** When one sum is clipped that far, the other is not clipped. */
  lemma OneClip(a: int, b: int, s: int, c: int)
    requires IsQ31(a) && IsQ31(b) && AngleWords(s, c)
    ensures Abs(Excess(SumD(a, b, s, c))) >= 20 ==> Excess(SumQ(a, b, s, c)) == 0
    ensures Abs(Excess(SumQ(a, b, s, c))) >= 20 ==> Excess(SumD(a, b, s, c)) == 0
  {
    var u, w := a * c + b * s, b * c - a * s;
    ForwardRounding(a, b, s, c);
    FarOut(SumD(a, b, s, c), u);
    FarOut(SumQ(a, b, s, c), w);
    Rotated(a, b, s, c);
    MulBound(a, a, 0x8000_0000, 0x8000_0000);
    MulBound(b, b, 0x8000_0000, 0x8000_0000);
    if Abs(Excess(SumD(a, b, s, c))) >= 20 {
      OtherInside(u, w);
    }
    if Abs(Excess(SumQ(a, b, s, c))) >= 20 {
      OtherInside(w, u);
    }
  }

  lemma DClipLoses(a: int, b: int, s: int, c: int)
    requires IsQ31(a) && IsQ31(b) && OffAxis(s, c) && AngleWords(s, c)
    requires Abs(Excess(SumD(a, b, s, c))) >= 20 && Excess(SumQ(a, b, s, c)) == 0
    ensures !ParkReturns(a, b, s, c)
  {
    var d, q, e := SatQ31(SumD(a, b, s, c)), SatQ31(SumQ(a, b, s, c)), Excess(SumD(a, b, s, c));
    BackOffAxis(a, b, s, c);
    ForwardRounding(a, b, s, c);
    FarOut(SumD(a, b, s, c), a * c + b * s);
    OneFactorPullsEither(a, c, b, s, e);
    SquareNonNegative(c);
    SquareNonNegative(s);
    LostToD(SumAlpha(d, q, s, c), SumBeta(d, q, s, c), a, b, c * c + s * s, s, c, e, 0);
  }

  lemma LostToD(v: int, w: int, a: int, b: int, n: int, s: int, c: int, e: int, eq: int)
    requires n >= 0 && eq == 0 && (PulledBack(a, c, e) || PulledBack(b, s, e))
    requires Within(v, a * n - 0x8000_0000 * (e * c - eq * s), 4)
    requires Within(w, b * n - 0x8000_0000 * (eq * c + e * s), 5)
    ensures !BothWithin((SatQ31(v), SatQ31(w)), a, b, n, 4, 5)
  {
    if PulledBack(a, c, e) {
      Lost(v, a, n, c, e, 4);
    } else {
      Lost(w, b, n, s, e, 5);
    }
  }

  lemma QClipLoses(a: int, b: int, s: int, c: int)
    requires IsQ31(a) && IsQ31(b) && OffAxis(s, c) && AngleWords(s, c)
    requires Abs(Excess(SumQ(a, b, s, c))) >= 20 && Excess(SumD(a, b, s, c)) == 0
    ensures !ParkReturns(a, b, s, c)
  {
    var d, q, e := SatQ31(SumD(a, b, s, c)), SatQ31(SumQ(a, b, s, c)), Excess(SumQ(a, b, s, c));
    BackOffAxis(a, b, s, c);
    ForwardRounding(a, b, s, c);
    FarOut(SumQ(a, b, s, c), b * c - a * s);
    NegProducts(a, e, s);
    OneFactorPullsEither(b, c, a, -s, e);
    SquareNonNegative(c);
    SquareNonNegative(s);
    LostToQ(SumAlpha(d, q, s, c), SumBeta(d, q, s, c), a, b, c * c + s * s, s, c, 0, e);
  }

  lemma LostToQ(v: int, w: int, a: int, b: int, n: int, s: int, c: int, ed: int, e: int)
    requires n >= 0 && ed == 0 && (PulledBack(b, c, e) || PulledBack(a, -s, e))
    requires Within(v, a * n - 0x8000_0000 * (ed * c - e * s), 4)
    requires Within(w, b * n - 0x8000_0000 * (e * c + ed * s), 5)
    ensures !BothWithin((SatQ31(v), SatQ31(w)), a, b, n, 4, 5)
  {
    if PulledBack(b, c, e) {
      Lost(w, b, n, c, e, 5);
    } else {
      NegProducts(e, e, s);
      Lost(v, a, n, -s, e, 4);
    }
  }

  // ----- vectors that always return -----

  // the largest whole length for which the sums fit at every angle
  const RADIUS := 0x7FFF_FFFF

  ghost predicate InDisc(ialpha: int, ibeta: int)
  {
    ialpha * ialpha + ibeta * ibeta <= RADIUS * RADIUS
  }

  /** For a vector in the disc both exact coordinates stay within the radius. */
  lemma RotationBound(a: int, b: int, s: int, c: int)
    requires InDisc(a, b) && AngleWords(s, c)
    ensures -(RADIUS * 0x8000_0000) <= a * c + b * s <= RADIUS * 0x8000_0000
    ensures -(RADIUS * 0x8000_0000) <= b * c - a * s <= RADIUS * 0x8000_0000
  {
    var u, w := a * c + b * s, b * c - a * s;
    Rotated(a, b, s, c);
    SquareNonNegative(u);
    SquareNonNegative(w);
    RootLe(u, RADIUS * 0x8000_0000);
    RootLe(w, RADIUS * 0x8000_0000);
  }

  lemma DiscFits(a: int, b: int, s: int, c: int)
    requires InDisc(a, b) && AngleWords(s, c)
    ensures IsQ31(a) && IsQ31(b) && SumsFit(a, b, s, c)
  {
    SquareNonNegative(a);
    SquareNonNegative(b);
    RootLe(a, RADIUS);
    RootLe(b, RADIUS);
    RotationBound(a, b, s, c);
    ForwardRounding(a, b, s, c);
  }

  /** In the disc nothing wraps or saturates; d is up to two LSBs below, and q less
      than one LSB from, the exact coordinates, and the round trip keeps its bounds. */
  lemma ParkInDisc(a: int, b: int, s: int, c: int)
    requires IsQ31(a) && IsQ31(b) && InDisc(a, b) && AngleWords(s, c)
    ensures var r := Park(a, b, s, c);
            && -2 * 0x7FFF_FFFF <= 0x8000_0000 * r.0 - (a * c + b * s) <= 0
            && -0x7FFF_FFFF <= 0x8000_0000 * r.1 - (b * c - a * s) <= 0x7FFF_FFFF
    ensures ParkReturns(a, b, s, c)
  {
    DiscFits(a, b, s, c);
    ForwardRounding(a, b, s, c);
    ParkExactIff(a, b, s, c);
    ParkRoundTrip(a, b, s, c);
  }

  /** At length 2^31 the product of -1 and -1 turns up at one angle: q comes out as
      0x7FFFFFFF for -2^31, and so does alpha. */
  lemma LongerVectorWraps(a: int, b: int, s: int, c: int)
    requires a == s == -0x8000_0000 && b == c == 0
    ensures a * a + b * b == (RADIUS + 1) * (RADIUS + 1) && AngleWords(s, c)
    ensures Park(a, b, s, c) == (0, 0x7FFF_FFFF) && ThereAndBack(a, b, s, c) == (0x7FFF_FFFF, 0)
  {
    ParkOnAxis(a, b, s, c);
    NegatedTwice(a);
    NegatedTwice(b);
    BackOnAxis(a, b, s, c);
  }

  /** The square box |Ialpha|, |Ibeta| <= 2^30 lies inside the disc. */
  lemma BoxInDisc(a: int, b: int)
    requires -0x4000_0000 <= a <= 0x4000_0000 && -0x4000_0000 <= b <= 0x4000_0000
    ensures InDisc(a, b)
  {
    MulBound(a, a, 0x4000_0000, 0x4000_0000);
    MulBound(b, b, 0x4000_0000, 0x4000_0000);
  }
}
