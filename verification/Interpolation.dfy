/** arm_linear_interp_q31, _q15 and _q7.

    The input is in 12.20 format: the upper twelve bits select a cell of the
    table, the lower twenty are the position inside it. */
module Interpolation {
  import opened Arithmetic
  import opened FixedPoint

  function Cell(x: int): int { x / 0x10_0000 }
  function Fraction(x: int): int { x % 0x10_0000 }

  predicate TableQ31(t: seq<int>) { 1 <= |t| <= 0x8000_0000 && forall k :: 0 <= k < |t| ==> IsQ31(t[k]) }
  predicate TableQ15(t: seq<int>) { 1 <= |t| <= 0x8000_0000 && forall k :: 0 <= k < |t| ==> IsQ15(t[k]) }
  predicate TableQ7(t: seq<int>) { 1 <= |t| <= 0x8000_0000 && forall k :: 0 <= k < |t| ==> IsQ7(t[k]) }
  predicate Nondecreasing(t: seq<int>) { forall i, j :: 0 <= i <= j < |t| ==> t[i] <= t[j] }

  /** Strictly inside the table, where two neighbours are read. */
  predicate Interior(t: seq<int>, x: int) { 0 <= Cell(x) < |t| - 1 }

  /** The 32-bit weighting of two neighbours, rounded twice, then doubled. */
  function BlendQ31(y0: int, y1: int, fract: int): int
  {
    DoubledSum(y0 * (0x7FFF_FFFF - fract), y1 * fract)
  }

  function DoubledSum(p: int, q: int): int
  {
    var y := ToQ31(p / 0x1_0000_0000);
    var y := ToQ31(y + ToQ31(q / 0x1_0000_0000));
    ToQ31(y * 2)
  }

  /** The 64-bit weighting, rounded once. */
  function BlendQ15(y0: int, y1: int, fract: int): int
  {
    var y := y0 * (0xF_FFFF - fract);
    var y := y + y1 * fract;
    ToQ15(y / 0x10_0000)
  }

  /** The same in 32 bits. */
  function BlendQ7(y0: int, y1: int, fract: int): int
  {
    SumQ7(y0 * (0xF_FFFF - fract), y1 * fract)
  }

  function SumQ7(p: int, q: int): int
  {
    var y := ToQ31(p);
    var y := ToQ31(y + q);
    ToQ7(y / 0x10_0000)
  }

  function InterpQ31(t: seq<int>, x: int): int
    requires TableQ31(t) && IsQ31(x)
  {
    var index := Cell(x);
    if index >= |t| - 1 then t[|t| - 1]
    else if index < 0 then t[0]
    else BlendQ31(t[index], t[index + 1], Fraction(x) * 0x800)
  }

  function InterpQ15(t: seq<int>, x: int): int
    requires TableQ15(t) && IsQ31(x)
  {
    var index := Cell(x);
    if index >= |t| - 1 then t[|t| - 1]
    else if index < 0 then t[0]
    else
      BlendQ15(t[index], t[index + 1], Fraction(x))
  }

  /** The Q7 routine tests the sign first, masks the index, and accumulates in
      32 bits. */
  function InterpQ7(t: seq<int>, x: int): int
    requires TableQ7(t) && IsQ31(x)
  {
    if x < 0 then t[0] else
      var index := Cell(x) % 0x1000;
      if index >= |t| - 1 then t[|t| - 1]
      else
        BlendQ7(t[index], t[index + 1], Fraction(x))
  }

  // ----- what the routines approximate -----

  /** The polygon through the entries, times 2^20, at p = 2^20 * i + f. */
  function Line(t: seq<int>, p: int): int
    requires 0 <= p <= 0x10_0000 * (|t| - 1)
  {
    var i, f := p / 0x10_0000, p % 0x10_0000;
    if f == 0 then 0x10_0000 * t[i] else t[i] * (0x10_0000 - f) + t[i + 1] * f
  }

  /** The point of the polygon nearest to an input. */
  function Clamped(t: seq<int>, x: int): (p: int)
    requires |t| >= 1
    ensures 0 <= p <= 0x10_0000 * (|t| - 1)
  {
    Saturate(0, 0x10_0000 * (|t| - 1), x)
  }

  lemma LineAtEntry(t: seq<int>, i: nat)
    requires i < |t|
    ensures Line(t, 0x10_0000 * i) == 0x10_0000 * t[i]
  {
  }

  lemma LineInside(t: seq<int>, x: int)
    requires 0 <= x < 0x10_0000 * (|t| - 1)
    ensures Clamped(t, x) == x
    ensures var i, f := x / 0x10_0000, x % 0x10_0000;
            Line(t, x) == t[i] * (0x10_0000 - f) + t[i + 1] * f
  {
  }

  // ----- the exact weighted sum -----

  /** What the routines round: the two neighbours with weights w - f and f. */
  function Weighted(t: seq<int>, i: nat, w: int, f: int): int
    requires i + 1 < |t|
  {
    t[i] * (w - f) + t[i + 1] * f
  }

  /** Inside one cell and from cell to cell the exact sum never decreases. */
  lemma WeightedMonotone(t: seq<int>, w: int, i: nat, f: int, j: nat, g: int)
    requires Nondecreasing(t) && i + 1 < |t| && j + 1 < |t|
    requires 0 <= f <= w && 0 <= g <= w && (i < j || (i == j && f <= g))
    ensures Weighted(t, i, w, f) <= Weighted(t, j, w, g)
  {
    if i == j {
      MulLe(g - f, t[i], t[i + 1]);
      SameCell(t[i], t[i + 1], w, f, g);
    } else {
      WeightedBetween(t[i], t[i + 1], w, f, t[i], t[i + 1]);
      WeightedBetween(t[j], t[j + 1], w, g, t[j], t[j + 1]);
      MulLe(w, t[i + 1], t[j]);
    }
  }

  lemma SameCell(y0: int, y1: int, w: int, f: int, g: int)
    ensures y0 * (w - g) + y1 * g - (y0 * (w - f) + y1 * f) == (g - f) * y1 - (g - f) * y0
  {
  }

  lemma CellOrder(x1: int, x2: int)
    requires x1 <= x2
    ensures Cell(x1) < Cell(x2) || (Cell(x1) == Cell(x2) && Fraction(x1) <= Fraction(x2))
  {
  }

  // ----- Q31 -----

  /** Half of the blend: the two products, each floored. */
  function FlooredSum(y0: int, y1: int, fract: int): int
  {
    Halves(y0 * (0x7FFF_FFFF - fract), y1 * fract)
  }

  function Halves(p: int, q: int): int { p / 0x1_0000_0000 + q / 0x1_0000_0000 }

  /** The rounding of one blend: an even result, no wrap, and less than 4 LSBs
      under the exact sum.  An odd fraction could overflow the final doubling. */
  lemma BlendQ31Rounds(y0: int, y1: int, fract: int)
    requires IsQ31(y0) && IsQ31(y1) && 0 <= fract <= 0x7FFF_FFFF && fract % 2 == 0
    ensures BlendQ31(y0, y1, fract) == 2 * FlooredSum(y0, y1, fract)
    ensures var r := BlendQ31(y0, y1, fract);
            && r % 2 == 0
            && 0 <= y0 * (0x7FFF_FFFF - fract) + y1 * fract - 0x8000_0000 * r < 0x2_0000_0000
  {
    BlendProducts(y0, y1, fract);
    RoundedSum(y0 * (0x7FFF_FFFF - fract), y1 * fract, fract);
  }

  lemma BlendProducts(y0: int, y1: int, f: int)
    requires IsQ31(y0) && IsQ31(y1) && 0 <= f <= 0x7FFF_FFFF
    ensures -0x8000_0000 * (0x7FFF_FFFF - f) <= y0 * (0x7FFF_FFFF - f) <= 0x7FFF_FFFF * (0x7FFF_FFFF - f)
    ensures -0x8000_0000 * f <= y1 * f <= 0x7FFF_FFFF * f
  {
    MulLe(f, y1, 0x7FFF_FFFF);
    MulLe(f, -0x8000_0000, y1);
    MulLe(0x7FFF_FFFF - f, y0, 0x7FFF_FFFF);
    MulLe(0x7FFF_FFFF - f, -0x8000_0000, y0);
  }

  /** No cast on the way from the two products to the doubled sum loses a bit. */
  lemma RoundedSum(p: int, q: int, f: int)
    requires 0 <= f <= 0x7FFF_FFFF && f % 2 == 0
    requires -0x8000_0000 * (0x7FFF_FFFF - f) <= p <= 0x7FFF_FFFF * (0x7FFF_FFFF - f)
    requires -0x8000_0000 * f <= q <= 0x7FFF_FFFF * f
    ensures DoubledSum(p, q) == 2 * Halves(p, q) && DoubledSum(p, q) % 2 == 0
    ensures 0 <= p + q - 0x8000_0000 * DoubledSum(p, q) < 0x2_0000_0000
  {
    HalvesFit(p, q, f);
    DoubledSumFits(p, q);
  }

  lemma HalvesFit(p: int, q: int, f: int)
    requires 0 <= f <= 0x7FFF_FFFF && f % 2 == 0
    requires -0x8000_0000 * (0x7FFF_FFFF - f) <= p <= 0x7FFF_FFFF * (0x7FFF_FFFF - f)
    requires -0x8000_0000 * f <= q <= 0x7FFF_FFFF * f
    ensures IsQ31(p / 0x1_0000_0000) && IsQ31(q / 0x1_0000_0000) && IsQ31(Halves(p, q) * 2)
  {
    HalfFits(p, 0x7FFF_FFFF - f);
    HalfFits(q, f);
    assert (0x7FFF_FFFF - f) / 2 + f / 2 == 0x3FFF_FFFF;
  }

  /** A product with a weight below 2^31, halved, lies between the weight's halves. */
  lemma HalfFits(p: int, w: int)
    requires 0 <= w <= 0x7FFF_FFFF && -0x8000_0000 * w <= p <= 0x7FFF_FFFF * w
    ensures -(w / 2) - 1 <= p / 0x1_0000_0000 <= w / 2
    ensures w % 2 == 0 ==> -(w / 2) <= p / 0x1_0000_0000
  {
  }

  lemma DoubledSumFits(p: int, q: int)
    requires IsQ31(p / 0x1_0000_0000) && IsQ31(q / 0x1_0000_0000) && IsQ31(Halves(p, q) * 2)
    ensures DoubledSum(p, q) == 2 * Halves(p, q)
  {
    ToQ31Fits(p / 0x1_0000_0000);
    ToQ31Fits(q / 0x1_0000_0000);
    ToQ31Fits(Halves(p, q));
    ToQ31Fits(Halves(p, q) * 2);
  }

  lemma InteriorQ31(t: seq<int>, x: int)
    requires TableQ31(t) && IsQ31(x) && Interior(t, x)
    ensures var r := InterpQ31(t, x);
            && r % 2 == 0
            && 0 <= Weighted(t, Cell(x), 0x7FFF_FFFF, Fraction(x) * 0x800) - 0x8000_0000 * r < 0x2_0000_0000
  {
    BlendQ31Rounds(t[Cell(x)], t[Cell(x) + 1], Fraction(x) * 0x800);
  }

  lemma InteriorFloors(t: seq<int>, x: int)
    requires TableQ31(t) && IsQ31(x) && Interior(t, x)
    ensures InterpQ31(t, x) == 2 * FlooredSum(t[Cell(x)], t[Cell(x) + 1], Fraction(x) * 0x800)
  {
    BlendQ31Rounds(t[Cell(x)], t[Cell(x) + 1], Fraction(x) * 0x800);
  }

  /** For every table, in whatever order, and every input: the result is less than
      5 LSBs below the polygon and at most 1 above, and exact beyond its ends. */
  lemma AccuracyQ31(t: seq<int>, x: int)
    requires TableQ31(t) && IsQ31(x)
    ensures -5 * 0x10_0000 < 0x10_0000 * InterpQ31(t, x) - Line(t, Clamped(t, x)) <= 0x10_0000
    ensures x < 0 ==> InterpQ31(t, x) == t[0]
    ensures x >= 0x10_0000 * (|t| - 1) ==> InterpQ31(t, x) == t[|t| - 1]
  {
    if 0 <= x < 0x10_0000 * (|t| - 1) {
      LineInside(t, x);
      CellAccuracyQ31(t, x);
    } else {
      LineAtEntry(t, 0);
      LineAtEntry(t, |t| - 1);
    }
  }

  lemma CellAccuracyQ31(t: seq<int>, x: int)
    requires TableQ31(t) && IsQ31(x) && Interior(t, x)
    ensures var f := Fraction(x);
            var ideal := t[Cell(x)] * (0x10_0000 - f) + t[Cell(x) + 1] * f;
            -5 * 0x10_0000 < 0x10_0000 * InterpQ31(t, x) - ideal <= 0x10_0000
  {
    InteriorQ31(t, x);
    var f, y0, y1 := Fraction(x), t[Cell(x)], t[Cell(x) + 1];
    assert y0 * (0x7FFF_FFFF - f * 0x800) + y1 * (f * 0x800) == 0x800 * (y0 * (0x10_0000 - f) + y1 * f) - y0 by {
      Rescale(y0, y1, f);
    }
  }

  lemma Rescale(y0: int, y1: int, f: int)
    ensures y0 * (0x7FFF_FFFF - f * 0x800) + y1 * (f * 0x800) == 0x800 * (y0 * (0x10_0000 - f) + y1 * f) - y0
  {
  }

  /** The result never passes the larger neighbour and never falls more than 4
      below the smaller. */
  lemma RangeQ31(t: seq<int>, x: int, lo: int, hi: int)
    requires TableQ31(t) && IsQ31(x) && Interior(t, x)
    requires lo == (if t[Cell(x)] <= t[Cell(x) + 1] then t[Cell(x)] else t[Cell(x) + 1])
    requires hi == (if t[Cell(x)] <= t[Cell(x) + 1] then t[Cell(x) + 1] else t[Cell(x)])
    ensures lo - 4 <= InterpQ31(t, x) <= hi
  {
    InteriorQ31(t, x);
    RangeOfBlend(t[Cell(x)], t[Cell(x) + 1], Fraction(x) * 0x800, InterpQ31(t, x), lo, hi);
  }

  lemma RangeOfBlend(y0: int, y1: int, f: int, r: int, lo: int, hi: int)
    requires IsQ31(lo) && IsQ31(hi) && 0 <= f <= 0x7FFF_FFFF && r % 2 == 0
    requires (y0 == lo && y1 == hi) || (y0 == hi && y1 == lo)
    requires lo <= hi
    requires 0 <= y0 * (0x7FFF_FFFF - f) + y1 * f - 0x8000_0000 * r < 0x2_0000_0000
    ensures lo - 4 <= r <= hi
  {
    WeightedBetween(y0, y1, 0x7FFF_FFFF, f, lo, hi);
    WithinNeighbours(y0 * (0x7FFF_FFFF - f) + y1 * f, r, lo, hi);
  }

  lemma WithinNeighbours(e: int, r: int, lo: int, hi: int)
    requires IsQ31(lo) && IsQ31(hi) && 0x7FFF_FFFF * lo <= e <= 0x7FFF_FFFF * hi
    requires 0 <= e - 0x8000_0000 * r < 0x2_0000_0000 && r % 2 == 0
    ensures lo - 4 <= r <= hi
  {
  }

  /** For a nondecreasing table of any length the result is monotone up to 2 LSBs
      from zero upwards, and up to 4 from the clamped negative inputs. */
  lemma MonotoneQ31(t: seq<int>, x1: int, x2: int)
    requires TableQ31(t) && Nondecreasing(t) && IsQ31(x1) && IsQ31(x2) && x1 <= x2
    ensures InterpQ31(t, x1) <= InterpQ31(t, x2) + (if x1 >= 0 then 2 else 4)
  {
    if Interior(t, x1) {
      if Interior(t, x2) {
        InteriorMonotoneQ31(t, x1, x2);
      } else {
        IntoUpperClamp(t, x1);
      }
    } else if Interior(t, x2) {
      OutOfLowerClamp(t, x2);
    }
  }

  lemma InteriorMonotoneQ31(t: seq<int>, x1: int, x2: int)
    requires TableQ31(t) && Nondecreasing(t) && IsQ31(x1) && IsQ31(x2) && x1 <= x2
    requires Interior(t, x1) && Interior(t, x2)
    ensures InterpQ31(t, x1) <= InterpQ31(t, x2) + 2
  {
    InteriorQ31(t, x1);
    InteriorQ31(t, x2);
    CellOrder(x1, x2);
    var f, g := Fraction(x1) * 0x800, Fraction(x2) * 0x800;
    WeightedMonotone(t, 0x7FFF_FFFF, Cell(x1), f, Cell(x2), g);
    EvenOrder(Weighted(t, Cell(x1), 0x7FFF_FFFF, f), InterpQ31(t, x1),
              Weighted(t, Cell(x2), 0x7FFF_FFFF, g), InterpQ31(t, x2));
  }

  lemma EvenOrder(e1: int, r1: int, e2: int, r2: int)
    requires e1 <= e2 && 0x8000_0000 * r1 <= e1 && e2 - 0x8000_0000 * r2 < 0x2_0000_0000
    requires r1 % 2 == 0 && r2 % 2 == 0
    ensures r1 <= r2 + 2
  {
  }

  lemma IntoUpperClamp(t: seq<int>, x: int)
    requires TableQ31(t) && Nondecreasing(t) && IsQ31(x) && Interior(t, x)
    ensures InterpQ31(t, x) <= t[|t| - 1]
  {
    RangeQ31(t, x, t[Cell(x)], t[Cell(x) + 1]);
  }

  lemma OutOfLowerClamp(t: seq<int>, x: int)
    requires TableQ31(t) && Nondecreasing(t) && IsQ31(x) && Interior(t, x)
    ensures t[0] <= InterpQ31(t, x) + 4
  {
    RangeQ31(t, x, t[Cell(x)], t[Cell(x) + 1]);
  }

  /** Both slacks are reached, already by constant tables: 2 inside a cell, */
  lemma SlackTwoReachedQ31(t: seq<int>)
    requires t == [-1, -1]
    ensures InterpQ31(t, 0) == -2 && InterpQ31(t, 1) == -4
  {
    FlooredMinusOnes();
    ConstantPair(t, -1, -2, -4);
  }

  /** and 4 across the lower clamp. */
  lemma SlackFourReachedQ31(t: seq<int>)
    requires t == [0x7FFF_FFFE, 0x7FFF_FFFE]
    ensures InterpQ31(t, -1) == 0x7FFF_FFFE && InterpQ31(t, 1) == 0x7FFF_FFFA
  {
    FlooredNearTop();
    ConstantPair(t, 0x7FFF_FFFE, 0x7FFF_FFFC, 0x7FFF_FFFA);
  }

  lemma FlooredMinusOnes()
    ensures FlooredSum(-1, -1, 0) == -1 && FlooredSum(-1, -1, 0x800) == -2
  {
  }

  lemma FlooredNearTop()
    ensures FlooredSum(0x7FFF_FFFE, 0x7FFF_FFFE, 0) == 0x3FFF_FFFE
    ensures FlooredSum(0x7FFF_FFFE, 0x7FFF_FFFE, 0x800) == 0x3FFF_FFFD
  {
  }

  lemma ConstantPair(t: seq<int>, y: int, r0: int, r1: int)
    requires t == [y, y] && IsQ31(y) && r0 == 2 * FlooredSum(y, y, 0) && r1 == 2 * FlooredSum(y, y, 0x800)
    ensures InterpQ31(t, -1) == y && InterpQ31(t, 0) == r0 && InterpQ31(t, 1) == r1
  {
    assert Cell(-1) == -1 && Cell(0) == 0 && Cell(1) == 0;
    assert Fraction(0) == 0 && Fraction(1) == 1;
    InteriorFloors(t, 0);
    InteriorFloors(t, 1);
  }

  /** From one input to the next inside a cell, 2048 times the first neighbour
      leaves the first product and 2048 times the second joins the second.  The
      floored sum drops when both neighbours lie in one block of 2^21 values, the
      first product borrows and the second does not carry. */
  predicate StepsDown(y0: int, y1: int, f: int)
  {
    && y0 / 0x20_0000 == y1 / 0x20_0000
    && y0 * (0x7FFF_FFFF - f * 0x800) % 0x1_0000_0000 < y0 % 0x20_0000 * 0x800
    && y1 * (f * 0x800) % 0x1_0000_0000 + y1 % 0x20_0000 * 0x800 < 0x1_0000_0000
  }

  lemma BorrowAndCarry(p: int, q: int, y0: int, y1: int)
    requires y0 <= y1
    ensures Halves(p - 0x800 * y0, q + 0x800 * y1) < Halves(p, q)
            <==> && y0 / 0x20_0000 == y1 / 0x20_0000
                 && p % 0x1_0000_0000 < y0 % 0x20_0000 * 0x800
                 && q % 0x1_0000_0000 + y1 % 0x20_0000 * 0x800 < 0x1_0000_0000
  {
    Borrow(p, y0);
    Carry(q, y1);
  }

  lemma Borrow(p: int, y: int)
    ensures (p - 0x800 * y) / 0x1_0000_0000
              == p / 0x1_0000_0000 - y / 0x20_0000 - (if p % 0x1_0000_0000 < y % 0x20_0000 * 0x800 then 1 else 0)
  {
  }

  lemma Carry(q: int, y: int)
    ensures (q + 0x800 * y) / 0x1_0000_0000
              == q / 0x1_0000_0000 + y / 0x20_0000
                 + (if q % 0x1_0000_0000 + y % 0x20_0000 * 0x800 < 0x1_0000_0000 then 0 else 1)
  {
  }

  lemma StepInCell(y0: int, y1: int, f: int)
    requires y0 <= y1 && 0 <= f < 0xF_FFFF
    ensures FlooredSum(y0, y1, (f + 1) * 0x800) < FlooredSum(y0, y1, f * 0x800) <==> StepsDown(y0, y1, f)
  {
    BorrowAndCarry(y0 * (0x7FFF_FFFF - f * 0x800), y1 * (f * 0x800), y0, y1);
    NextProducts(y0, y1, f);
  }

  lemma NextProducts(y0: int, y1: int, f: int)
    ensures y0 * (0x7FFF_FFFF - (f + 1) * 0x800) == y0 * (0x7FFF_FFFF - f * 0x800) - 0x800 * y0
    ensures y1 * ((f + 1) * 0x800) == y1 * (f * 0x800) + 0x800 * y1
  {
  }

  /** A cell that reaches a multiple of 2^21 never steps down. */
  lemma AnchoredCell(y0: int, y1: int, f: int)
    requires y0 % 0x20_0000 == 0 || y0 / 0x20_0000 < y1 / 0x20_0000
    ensures !StepsDown(y0, y1, f)
  {
  }

  /** From the last input of a cell to the first of the next. */
  lemma Seam(y0: int, y1: int, y2: int)
    requires y0 <= y1
    ensures FlooredSum(y0, y1, 0xF_FFFF * 0x800) <= FlooredSum(y1, y2, 0)
  {
  }

  /** Out of the lower clamp: at input zero the first entry is halved, scaled by
      1 - 2^-31, floored and doubled. */
  lemma FirstEntry(y0: int, y1: int)
    requires IsQ31(y0)
    ensures y0 <= 2 * FlooredSum(y0, y1, 0) <==> y0 <= 0 && y0 % 2 == 0
  {
  }

  /** Step f of cell i; a Q31 input reaches 2048 cells. */
  predicate CellStepsDown(t: seq<int>, i: int, f: int)
  {
    0 <= i < |t| - 1 && i < 0x800 && 0 <= f < 0xF_FFFF && StepsDown(t[i], t[i + 1], f)
  }

  ghost predicate MonotoneOnQ31(t: seq<int>)
    requires TableQ31(t)
  {
    forall x1, x2 :: IsQ31(x1) && IsQ31(x2) && x1 <= x2 ==> InterpQ31(t, x1) <= InterpQ31(t, x2)
  }

  ghost predicate SteadyQ31(t: seq<int>)
    requires TableQ31(t)
  {
    t[0] <= 0 && t[0] % 2 == 0 && forall i, f :: !CellStepsDown(t, i, f)
  }

  /** A nondecreasing table is interpolated monotonically exactly when it has one
      entry, or its first entry is even and not positive and no step of a cell
      borrows in the one product without carrying in the other. */
  lemma MonotoneQ31Iff(t: seq<int>)
    requires TableQ31(t) && Nondecreasing(t)
    ensures MonotoneOnQ31(t) <==> |t| == 1 || SteadyQ31(t)
  {
    if |t| == 1 || SteadyQ31(t) {
      forall x1, x2 | IsQ31(x1) && IsQ31(x2) && x1 <= x2
        ensures InterpQ31(t, x1) <= InterpQ31(t, x2)
      {
        ClimbQ31(t, x1, x2);
      }
    } else {
      UnsteadyQ31(t);
    }
  }

  lemma {:induction false} ClimbQ31(t: seq<int>, x1: int, x2: int)
    requires TableQ31(t) && Nondecreasing(t) && IsQ31(x1) && IsQ31(x2) && x1 <= x2
    requires |t| == 1 || SteadyQ31(t)
    ensures InterpQ31(t, x1) <= InterpQ31(t, x2)
    decreases x2 - x1
  {
    if x1 < x2 {
      ClimbQ31(t, x1, x2 - 1);
      NextInputQ31(t, x2 - 1);
    }
  }

  lemma NextInputQ31(t: seq<int>, x: int)
    requires TableQ31(t) && Nondecreasing(t) && IsQ31(x) && IsQ31(x + 1)
    requires |t| == 1 || SteadyQ31(t)
    ensures InterpQ31(t, x) <= InterpQ31(t, x + 1)
  {
    NextPosition(x);
    if Interior(t, x) {
      InteriorFloors(t, x);
      if !Interior(t, x + 1) {
        IntoUpperClamp(t, x);
      } else {
        InteriorFloors(t, x + 1);
        WithinOrAcross(t, x);
      }
    } else if Interior(t, x + 1) {
      InteriorFloors(t, x + 1);
      FirstEntry(t[0], t[1]);
    }
  }

  lemma NextPosition(x: int)
    ensures if Fraction(x) == 0xF_FFFF then Cell(x + 1) == Cell(x) + 1 && Fraction(x + 1) == 0
            else Cell(x + 1) == Cell(x) && Fraction(x + 1) == Fraction(x) + 1
  {
  }

  lemma WithinOrAcross(t: seq<int>, x: int)
    requires TableQ31(t) && Nondecreasing(t) && IsQ31(x) && Interior(t, x) && Interior(t, x + 1) && SteadyQ31(t)
    ensures FlooredSum(t[Cell(x)], t[Cell(x) + 1], Fraction(x) * 0x800)
              <= FlooredSum(t[Cell(x + 1)], t[Cell(x + 1) + 1], Fraction(x + 1) * 0x800)
  {
    NextPosition(x);
    var i, f := Cell(x), Fraction(x);
    if f == 0xF_FFFF {
      Seam(t[i], t[i + 1], t[i + 2]);
    } else {
      assert !CellStepsDown(t, i, f);
      StepInCell(t[i], t[i + 1], f);
    }
  }

  /** The two ways to fail, each with the inputs that show it. */
  lemma UnsteadyQ31(t: seq<int>)
    requires TableQ31(t) && Nondecreasing(t) && |t| > 1 && !SteadyQ31(t)
    ensures !MonotoneOnQ31(t)
  {
    if t[0] > 0 || t[0] % 2 == 1 {
      InteriorFloors(t, 0);
      FirstEntry(t[0], t[1]);
      assert InterpQ31(t, -1) == t[0] > InterpQ31(t, 0);
    } else {
      var i, f :| CellStepsDown(t, i, f);
      var x := 0x10_0000 * i + f;
      assert Cell(x) == i && Fraction(x) == f;
      NextPosition(x);
      InteriorFloors(t, x);
      InteriorFloors(t, x + 1);
      StepInCell(t[i], t[i + 1], f);
      assert InterpQ31(t, x) > InterpQ31(t, x + 1);
    }
  }

  /** So a table whose every cell reaches a multiple of 2^21, as one that climbs
      by 2^21 an entry does, needs only the right first entry. */
  lemma AnchoredMonotoneQ31Iff(t: seq<int>)
    requires TableQ31(t) && Nondecreasing(t) && |t| > 1
    requires forall i :: 0 <= i < |t| - 1 ==> t[i] % 0x20_0000 == 0 || t[i] / 0x20_0000 < t[i + 1] / 0x20_0000
    ensures MonotoneOnQ31(t) <==> t[0] <= 0 && t[0] % 2 == 0
  {
    MonotoneQ31Iff(t);
    forall i, f
      ensures !CellStepsDown(t, i, f)
    {
      if 0 <= i < |t| - 1 {
        AnchoredCell(t[i], t[i + 1], f);
      }
    }
  }

  // ----- Q15 and Q7 -----

  lemma InteriorQ15(t: seq<int>, x: int)
    requires TableQ15(t) && IsQ31(x) && Interior(t, x)
    ensures InterpQ15(t, x) == Weighted(t, Cell(x), 0xF_FFFF, Fraction(x)) / 0x10_0000
  {
    BlendQ15Exact(t[Cell(x)], t[Cell(x) + 1], Fraction(x));
  }

  lemma BlendQ15Exact(y0: int, y1: int, f: int)
    requires IsQ15(y0) && IsQ15(y1) && 0 <= f <= 0xF_FFFF
    ensures BlendQ15(y0, y1, f) == (y0 * (0xF_FFFF - f) + y1 * f) / 0x10_0000
  {
    WeightedBetween(y0, y1, 0xF_FFFF, f, -0x8000, 0x7FFF);
    ToQ15Fits((y0 * (0xF_FFFF - f) + y1 * f) / 0x10_0000);
  }

  /** A floor of weights that sum to 2^20 - 1: never above the larger neighbour,
      at most 1 below the smaller. */
  lemma RangeQ15(t: seq<int>, x: int, lo: int, hi: int)
    requires TableQ15(t) && IsQ31(x) && Interior(t, x) && IsQ15(lo) && IsQ15(hi)
    requires lo <= t[Cell(x)] <= hi && lo <= t[Cell(x) + 1] <= hi
    ensures lo - 1 <= InterpQ15(t, x) <= hi
  {
    InteriorQ15(t, x);
    WeightedBetween(t[Cell(x)], t[Cell(x) + 1], 0xF_FFFF, Fraction(x), lo, hi);
  }

  /** The same for Q15: less than 33/32 LSB below the polygon and at most 1/32
      above. */
  lemma AccuracyQ15(t: seq<int>, x: int)
    requires TableQ15(t) && IsQ31(x)
    ensures -0x10_8000 < 0x10_0000 * InterpQ15(t, x) - Line(t, Clamped(t, x)) <= 0x8000
    ensures x < 0 ==> InterpQ15(t, x) == t[0]
    ensures x >= 0x10_0000 * (|t| - 1) ==> InterpQ15(t, x) == t[|t| - 1]
  {
    if 0 <= x < 0x10_0000 * (|t| - 1) {
      LineInside(t, x);
      CellAccuracyQ15(t, x);
    } else {
      LineAtEntry(t, 0);
      LineAtEntry(t, |t| - 1);
    }
  }

  lemma CellAccuracyQ15(t: seq<int>, x: int)
    requires TableQ15(t) && IsQ31(x) && Interior(t, x)
    ensures var f := Fraction(x);
            var ideal := t[Cell(x)] * (0x10_0000 - f) + t[Cell(x) + 1] * f;
            -0x10_8000 < 0x10_0000 * InterpQ15(t, x) - ideal <= 0x8000
  {
    InteriorQ15(t, x);
    var f, y0 := Fraction(x), t[Cell(x)];
    assert y0 * (0xF_FFFF - f) == y0 * (0x10_0000 - f) - y0;
  }

  lemma MonotoneFromZeroQ15(t: seq<int>, x1: int, x2: int)
    requires TableQ15(t) && Nondecreasing(t) && IsQ31(x1) && IsQ31(x2) && 0 <= x1 <= x2
    ensures InterpQ15(t, x1) <= InterpQ15(t, x2)
  {
    CellOrder(x1, x2);
    var i := Cell(x1);
    if Interior(t, x1) && Interior(t, x2) {
      InteriorQ15(t, x1);
      InteriorQ15(t, x2);
      WeightedMonotone(t, 0xF_FFFF, i, Fraction(x1), Cell(x2), Fraction(x2));
    } else if Interior(t, x1) {
      RangeQ15(t, x1, t[i], t[i + 1]);
    }
  }

  lemma MonotoneSlackQ15(t: seq<int>, x1: int, x2: int)
    requires TableQ15(t) && Nondecreasing(t) && IsQ31(x1) && IsQ31(x2) && x1 <= x2
    ensures InterpQ15(t, x1) <= InterpQ15(t, x2) + (if t[0] <= 0 || x1 >= 0 then 0 else 1)
  {
    if x1 >= 0 {
      MonotoneFromZeroQ15(t, x1, x2);
    } else if Interior(t, x2) {
      var j := Cell(x2);
      InteriorQ15(t, x2);
      WeightedBetween(t[j], t[j + 1], 0xF_FFFF, Fraction(x2), t[j], t[j + 1]);
    }
  }

  ghost predicate MonotoneOn(t: seq<int>)
    requires TableQ15(t)
  {
    forall x1, x2 :: IsQ31(x1) && IsQ31(x2) && x1 <= x2 ==> InterpQ15(t, x1) <= InterpQ15(t, x2)
  }

  /** A nondecreasing table is interpolated monotonically exactly when it has one
      entry or its first entry is not positive: below zero the first entry comes
      back whole, at zero it is scaled by 1 - 2^-20. */
  lemma MonotoneQ15Iff(t: seq<int>)
    requires TableQ15(t) && Nondecreasing(t)
    ensures MonotoneOn(t) <==> |t| == 1 || t[0] <= 0
  {
    if |t| == 1 || t[0] <= 0 {
      forall x1, x2 | IsQ31(x1) && IsQ31(x2) && x1 <= x2
        ensures InterpQ15(t, x1) <= InterpQ15(t, x2)
      {
        MonotoneSlackQ15(t, x1, x2);
      }
    } else {
      InteriorQ15(t, 0);
      assert InterpQ15(t, 0) == t[0] - 1;
      assert InterpQ15(t, -1) == t[0];
      assert !MonotoneOn(t);
    }
  }

  /** On a table of Q7 values the Q7 routine computes what the Q15 one does, so
      every result above holds for it. */
  lemma InterpQ7IsQ15(t: seq<int>, x: int)
    requires TableQ7(t) && IsQ31(x)
    ensures TableQ15(t) && InterpQ7(t, x) == InterpQ15(t, x)
  {
    if Interior(t, x) {
      InteriorQ7(t, x);
      InteriorQ15(t, x);
    }
  }

  lemma InteriorQ7(t: seq<int>, x: int)
    requires TableQ7(t) && IsQ31(x) && Interior(t, x)
    ensures InterpQ7(t, x) == Weighted(t, Cell(x), 0xF_FFFF, Fraction(x)) / 0x10_0000
  {
    assert Cell(x) % 0x1000 == Cell(x);
    BlendQ7Exact(t[Cell(x)], t[Cell(x) + 1], Fraction(x));
  }

  lemma BlendQ7Exact(y0: int, y1: int, f: int)
    requires IsQ7(y0) && IsQ7(y1) && 0 <= f <= 0xF_FFFF
    ensures BlendQ7(y0, y1, f) == (y0 * (0xF_FFFF - f) + y1 * f) / 0x10_0000
  {
    WeightedBetween(y0, y1, 0xF_FFFF, f, -0x80, 0x7F);
    MulBound(y0, 0xF_FFFF - f, 0x80, 0xF_FFFF);
    MulBound(y1, f, 0x80, 0xF_FFFF);
    NarrowQ7(y0 * (0xF_FFFF - f), y1 * f);
  }

  lemma NarrowQ7(p: int, q: int)
    requires -0x7FF_FF80 <= p <= 0x7FF_FF80 && -0x7FF_FF80 <= q <= 0x7FF_FF80
    requires -0x80 * 0xF_FFFF <= p + q <= 0x7F * 0xF_FFFF
    ensures SumQ7(p, q) == (p + q) / 0x10_0000
  {
    ToQ31Fits(p);
    ToQ31Fits(p + q);
  }
}
