/** arm_bilinear_interp_q15 and _q7.

    The table holds numRows rows of numCols values, element (x, y) at
    x + y * numCols; X and Y are in 12.20 format. */
module Bilinear {
  import opened Arithmetic
  import opened FixedPoint
  import opened Interpolation

  datatype Grid = Grid(numRows: int, numCols: int, data: seq<int>)

  predicate GridQ15(g: Grid)
  {
    && 1 <= g.numRows <= 0xFFFF && 1 <= g.numCols <= 0xFFFF && |g.data| == g.numRows * g.numCols
    && forall k :: 0 <= k < |g.data| ==> IsQ15(g.data[k])
  }

  predicate GridQ7(g: Grid)
  {
    GridQ15(g) && forall k :: 0 <= k < |g.data| ==> IsQ7(g.data[k])
  }

  /** The test both routines make: X is held against the rows and Y against the
      columns. */
  predicate Accepted(g: Grid, rI: int, cI: int)
  {
    0 <= rI <= g.numRows - 1 && 0 <= cI <= g.numCols - 1
  }

  function Offset(g: Grid, rI: int, cI: int): int { rI + g.numCols * cI }

  /** The highest of the four indices read is below the table size.  At an
      accepted edge this may fail, or hold with neighbours from another row. */
  predicate ReadsInTable(g: Grid, rI: int, cI: int)
  {
    Offset(g, rI, cI + 1) + 1 < |g.data|
  }

  lemma ReadsOrdered(g: Grid, rI: int, cI: int)
    requires GridQ15(g) && Accepted(g, rI, cI)
    ensures 0 <= Offset(g, rI, cI) < Offset(g, rI, cI + 1)
  {
    MulLe(g.numCols, 0, cI);
    assert g.numCols * (cI + 1) == g.numCols * cI + g.numCols;
  }

  /** The four corners of the cell are table elements. */
  predicate ProperCell(g: Grid, rI: int, cI: int): (r: bool)
    requires GridQ15(g)
    ensures r ==> 0 <= Offset(g, rI, cI) && Offset(g, rI, cI) + 1 < Offset(g, rI, cI + 1)
    ensures r ==> ReadsInTable(g, rI, cI)
  {
    CornerOffsets(g, rI, cI);
    0 <= rI < g.numCols - 1 && 0 <= cI < g.numRows - 1
  }

  lemma CornerOffsets(g: Grid, rI: int, cI: int)
    requires GridQ15(g)
    ensures 0 <= rI < g.numCols - 1 && 0 <= cI < g.numRows - 1 ==>
              && 0 <= Offset(g, rI, cI) && Offset(g, rI, cI) + 1 < Offset(g, rI, cI + 1)
              && ReadsInTable(g, rI, cI)
  {
    var n := g.numCols;
    if 0 <= cI < g.numRows - 1 {
      MulLe(n, cI + 2, g.numRows);
      MulLe(n, 0, cI);
    }
    assert n * (cI + 1) == n * cI + n && n * (cI + 2) == n * cI + 2 * n;
  }

  /** The acceptance test is that of a square table: it lets every proper cell that
      an input selects through exactly when there is none or neither side is short
      of the other by more than one.  A Q31 input reaches 2048 cells a side. */
  lemma AcceptedCoversTableIff(g: Grid)
    requires GridQ15(g)
    ensures (forall x, y :: IsQ31(x) && IsQ31(y) && ProperCell(g, Cell(x), Cell(y)) ==> Accepted(g, Cell(x), Cell(y)))
            <==> || g.numRows == 1 || g.numCols == 1
                 || (Least(g.numCols - 2, 0x7FF) <= g.numRows - 1 && Least(g.numRows - 2, 0x7FF) <= g.numCols - 1)
  {
    if g.numRows > 1 && g.numCols > 1 {
      var x, y := InputFor(Least(g.numCols - 2, 0x7FF)), InputFor(Least(g.numRows - 2, 0x7FF));
      assert ProperCell(g, Cell(x), Cell(y));
    }
  }

  function Least(a: int, b: int): int { if a <= b then a else b }

  /** The first input in a cell, and the last cell. */
  function InputFor(i: int): (x: int)
    requires 0 <= i <= 0x7FF
    ensures IsQ31(x) && Cell(x) == i
  {
    0x10_0000 * i
  }

  /** The test keeps the four reads of every input in the table exactly when it
      does so for the last row and column that it admits; for tables of up to 2048
      a side that is when the rows and the squared columns together are fewer than
      the entries. */
  lemma AcceptedReadsInTableIff(g: Grid)
    requires GridQ15(g)
    ensures ReadsKept(g) <==> ReadsInTable(g, Least(g.numRows - 1, 0x7FF), Least(g.numCols - 1, 0x7FF))
    ensures g.numRows <= 0x800 && g.numCols <= 0x800 ==>
              (ReadsKept(g) <==> g.numRows + g.numCols * g.numCols < g.numRows * g.numCols)
  {
    var r, c := Least(g.numRows - 1, 0x7FF), Least(g.numCols - 1, 0x7FF);
    if ReadsInTable(g, r, c) {
      forall x, y | IsQ31(x) && IsQ31(y) && Accepted(g, Cell(x), Cell(y))
        ensures ReadsInTable(g, Cell(x), Cell(y))
      {
        MulLe(g.numCols, Cell(y) + 1, c + 1);
      }
    } else {
      var x, y := InputFor(r), InputFor(c);
      assert Accepted(g, Cell(x), Cell(y)) && !ReadsInTable(g, Cell(x), Cell(y));
    }
  }

  ghost predicate ReadsKept(g: Grid)
  {
    forall x, y :: IsQ31(x) && IsQ31(y) && Accepted(g, Cell(x), Cell(y)) ==> ReadsInTable(g, Cell(x), Cell(y))
  }

  /** A failing input: the lower right cell of a table of two by two. */
  lemma CornerReadsOutside(g: Grid)
    requires g == Grid(2, 2, [0, 0, 0, 0])
    ensures GridQ15(g) && Accepted(g, Cell(0x10_0000), Cell(0x10_0000))
    ensures !ReadsInTable(g, Cell(0x10_0000), Cell(0x10_0000))
  {
  }

  /** A failing input: in a table of two rows and four columns the third cell of
      the first row is turned away, and 0 is returned for values that are all 1. */
  lemma ProperCellRejected(g: Grid)
    requires g == Grid(2, 4, [1, 1, 1, 1, 1, 1, 1, 1])
    ensures GridQ15(g) && ProperCell(g, Cell(0x20_0000), Cell(0)) && !Accepted(g, Cell(0x20_0000), Cell(0))
    ensures BilinearQ15(g, 0x20_0000, 0) == 0
  {
  }

  // ----- the routines -----

  function BlendQ15(x1: int, x2: int, y1: int, y2: int, xf: int, yf: int): int
  {
    ToQ15(AccumulatorQ15(x1, x2, y1, y2, xf, yf) / 0x10_0000_0000)
  }

  function AccumulatorQ15(x1: int, x2: int, y1: int, y2: int, xf: int, yf: int): int
  {
    var acc := TermQ15(x1, 0xF_FFFF - xf, 0xF_FFFF - yf);
    var acc := acc + TermQ15(x2, 0xF_FFFF - yf, xf);
    var acc := acc + TermQ15(y1, 0xF_FFFF - xf, yf);
    var acc := acc + TermQ15(y2, xf, yf);
    acc
  }

  /** One corner: the first product is narrowed to 32 bits. */
  function TermQ15(a: int, w1: int, w2: int): int
  {
    ToQ31(a * w1 / 16) * w2
  }

  function BlendQ7(x1: int, x2: int, y1: int, y2: int, xf: int, yf: int): int
  {
    var acc := ToQ31(x1 * (0xF_FFFF - xf)) * (0xF_FFFF - yf);
    var acc := acc + ToQ31(x2 * (0xF_FFFF - yf)) * xf;
    var acc := acc + ToQ31(y1 * (0xF_FFFF - xf)) * yf;
    var acc := acc + ToQ31(y2 * yf) * xf;
    ToQ7(acc / 0x100_0000_0000)
  }

  /** The caller must keep accepted points where the four reads are in the table. */
  function BilinearQ15(g: Grid, x: int, y: int): int
    requires GridQ15(g) && IsQ31(x) && IsQ31(y)
    requires Accepted(g, Cell(x), Cell(y)) ==> ReadsInTable(g, Cell(x), Cell(y))
  {
    var rI, cI := Cell(x), Cell(y);
    if !Accepted(g, rI, cI) then 0 else
      ReadsOrdered(g, rI, cI);
      BlendQ15(g.data[Offset(g, rI, cI)], g.data[Offset(g, rI, cI) + 1],
               g.data[Offset(g, rI, cI + 1)], g.data[Offset(g, rI, cI + 1) + 1],
               Fraction(x), Fraction(y))
  }

  function BilinearQ7(g: Grid, x: int, y: int): int
    requires GridQ7(g) && IsQ31(x) && IsQ31(y)
    requires Accepted(g, Cell(x), Cell(y)) ==> ReadsInTable(g, Cell(x), Cell(y))
  {
    var rI, cI := Cell(x), Cell(y);
    if !Accepted(g, rI, cI) then 0 else
      ReadsOrdered(g, rI, cI);
      BlendQ7(g.data[Offset(g, rI, cI)], g.data[Offset(g, rI, cI) + 1],
              g.data[Offset(g, rI, cI + 1)], g.data[Offset(g, rI, cI + 1) + 1],
              Fraction(x), Fraction(y))
  }

  // ----- the formula -----

  /** The bilinear form with x weights (u, xf) and y weights (v, yf). */
  function Form(x1: int, x2: int, y1: int, y2: int, u: int, xf: int, v: int, yf: int): int
  {
    x1 * u * v + x2 * xf * v + y1 * u * yf + y2 * xf * yf
  }

  /** An input that the test admits and whose four reads stay in the table, element
      (i, j) being at i + j * numCols. */
  predicate InTable(g: Grid, x: int, y: int)
  {
    && 0 <= x < 0x10_0000 * g.numRows && 0 <= y < 0x10_0000 * g.numCols
    && x / 0x10_0000 + 1 + (y / 0x10_0000 + 1) * g.numCols < |g.data|
  }

  /** As every admitted input in a cell of the documented layout is. */
  lemma CellInTable(g: Grid, x: int, y: int)
    requires GridQ15(g) && 0 <= x < 0x10_0000 * (g.numCols - 1) && 0 <= y < 0x10_0000 * (g.numRows - 1)
    requires x < 0x10_0000 * g.numRows && y < 0x10_0000 * g.numCols
    ensures InTable(g, x, y)
  {
    MulLe(g.numCols, y / 0x10_0000 + 2, g.numRows);
    Distribute(y / 0x10_0000 + 1, 1, g.numCols);
  }

  /** The element i columns and j rows on from the one at or before the input. */
  function Corner(g: Grid, x: int, y: int, i: int, j: int): int
    requires GridQ15(g) && InTable(g, x, y) && 0 <= i <= 1 && 0 <= j <= 1
  {
    CornerInTable(g, x, y, i, j);
    g.data[x / 0x10_0000 + i + (y / 0x10_0000 + j) * g.numCols]
  }

  lemma CornerInTable(g: Grid, x: int, y: int, i: int, j: int)
    requires GridQ15(g) && InTable(g, x, y) && 0 <= i <= 1 && 0 <= j <= 1
    ensures 0 <= x / 0x10_0000 + i + (y / 0x10_0000 + j) * g.numCols < |g.data|
  {
    IndexBetween(x / 0x10_0000, y / 0x10_0000, g.numCols, i, j);
  }

  lemma IndexBetween(a: int, b: int, n: int, i: int, j: int)
    requires 0 <= a && 0 <= b && 1 <= n && 0 <= i <= 1 && 0 <= j <= 1
    ensures 0 <= a + i + (b + j) * n <= a + 1 + (b + 1) * n
  {
    MulLe(n, 0, b + j);
    MulLe(n, b + j, b + 1);
  }

  /** The four corners of the cell of an input: along its row, then the next row. */
  function FourCorners(g: Grid, x: int, y: int): (int, int, int, int)
    requires GridQ15(g) && InTable(g, x, y)
  {
    (Corner(g, x, y, 0, 0), Corner(g, x, y, 1, 0), Corner(g, x, y, 0, 1), Corner(g, x, y, 1, 1))
  }

  /** The documented value at an input, times 2^40. */
  function Ideal(g: Grid, x: int, y: int): int
    requires GridQ15(g) && InTable(g, x, y)
  {
    FormAt(FourCorners(g, x, y), x % 0x10_0000, y % 0x10_0000)
  }

  function FormAt(c: (int, int, int, int), xf: int, yf: int): int
  {
    Form(c.0, c.1, c.2, c.3, 0x10_0000 - xf, xf, 0x10_0000 - yf, yf)
  }

  /** All four corners lie in lo..hi. */
  predicate CellWithin(g: Grid, x: int, y: int, lo: int, hi: int)
    requires GridQ15(g) && InTable(g, x, y)
  {
    var c := FourCorners(g, x, y);
    Corners(c.0, c.1, c.2, c.3, lo, hi)
  }

  /** Such an input passes the test, and its reads stay in the table. */
  lemma InTableAccepted(g: Grid, x: int, y: int)
    requires GridQ15(g) && InTable(g, x, y)
    ensures Accepted(g, Cell(x), Cell(y)) && ReadsInTable(g, Cell(x), Cell(y))
  {
  }

  /** What the routines read for it. */
  lemma ReadsCorners(g: Grid, x: int, y: int)
    requires GridQ15(g) && InTable(g, x, y)
    requires Accepted(g, Cell(x), Cell(y)) && ReadsInTable(g, Cell(x), Cell(y))
    ensures var i, j := Offset(g, Cell(x), Cell(y)), Offset(g, Cell(x), Cell(y) + 1);
            && 0 <= i < j < |g.data| - 1
            && FourCorners(g, x, y) == (g.data[i], g.data[i + 1], g.data[j], g.data[j + 1])
  {
    ReadsOrdered(g, Cell(x), Cell(y));
    OffsetIs(g, Cell(x), Cell(y));
  }

  lemma OffsetIs(g: Grid, a: int, b: int)
    ensures Offset(g, a, b) == a + 0 + (b + 0) * g.numCols
    ensures Offset(g, a, b) + 1 == a + 1 + (b + 0) * g.numCols
    ensures Offset(g, a, b + 1) == a + 0 + (b + 1) * g.numCols
    ensures Offset(g, a, b + 1) + 1 == a + 1 + (b + 1) * g.numCols
  {
  }

  /** Beyond the rows in X or the columns in Y, and below zero, both routines
      return 0. */
  lemma OutsideIsZero(g: Grid, x: int, y: int)
    requires GridQ15(g) && IsQ31(x) && IsQ31(y)
    requires x < 0 || x >= 0x10_0000 * g.numRows || y < 0 || y >= 0x10_0000 * g.numCols
    ensures !Accepted(g, Cell(x), Cell(y)) && BilinearQ15(g, x, y) == 0
    ensures GridQ7(g) ==> BilinearQ7(g, x, y) == 0
  {
  }

  predicate Corners(x1: int, x2: int, y1: int, y2: int, lo: int, hi: int)
  {
    lo <= x1 <= hi && lo <= x2 <= hi && lo <= y1 <= hi && lo <= y2 <= hi
  }

  /** Weights that sum to w in each direction keep the form between the corners. */
  lemma FormBetween(x1: int, x2: int, y1: int, y2: int, w: int, xf: int, yf: int, lo: int, hi: int)
    requires Corners(x1, x2, y1, y2, lo, hi) && 0 <= xf <= w && 0 <= yf <= w
    ensures w * (w * lo) <= Form(x1, x2, y1, y2, w - xf, xf, w - yf, yf) <= w * (w * hi)
  {
    var top, bottom := x1 * (w - xf) + x2 * xf, y1 * (w - xf) + y2 * xf;
    WeightedBetween(x1, x2, w, xf, lo, hi);
    WeightedBetween(y1, y2, w, xf, lo, hi);
    WeightedBetween(top, bottom, w, yf, w * lo, w * hi);
    Distribute(x1 * (w - xf), x2 * xf, w - yf);
    Distribute(y1 * (w - xf), y2 * xf, yf);
  }

  /** Replacing the weights 2^20 by 2^20 - 1 moves the form by little. */
  lemma FormShrinks(x1: int, x2: int, y1: int, y2: int, xf: int, yf: int)
    requires Corners(x1, x2, y1, y2, -0x8000, 0x8000) && 0 <= xf <= 0xF_FFFF && 0 <= yf <= 0xF_FFFF
    ensures var d := Form(x1, x2, y1, y2, 0x10_0000 - xf, xf, 0x10_0000 - yf, yf)
                     - Form(x1, x2, y1, y2, 0xF_FFFF - xf, xf, 0xF_FFFF - yf, yf);
            -0x10_0000_0000 <= d <= 0x10_0000_0000
  {
    var u, v := 0xF_FFFF - xf, 0xF_FFFF - yf;
    assert x1 * (u + 1) * (v + 1) == x1 * u * v + x1 * (u + v + 1) by { PlusOne(x1, u, v); }
    assert x2 * xf * (v + 1) == x2 * xf * v + x2 * xf;
    assert y1 * (u + 1) * yf == y1 * u * yf + y1 * yf by { PlusOneLeft(y1, u, yf); }
    MulBound(x1, u + v + 1, 0x8000, u + v + 1);
    MulBound(x2, xf, 0x8000, xf);
    MulBound(y1, yf, 0x8000, yf);
  }

  lemma PlusOne(x: int, u: int, v: int)
    ensures x * (u + 1) * (v + 1) == x * u * v + x * (u + v + 1)
  {
    assert x * (u + 1) == x * u + x;
    assert (x * u + x) * (v + 1) == x * u * v + x * u + x * v + x;
    assert x * (u + v + 1) == x * u + x * v + x;
  }

  lemma PlusOneLeft(y: int, u: int, f: int)
    ensures y * (u + 1) * f == y * u * f + y * f
  {
    assert y * (u + 1) == y * u + y;
    assert (y * u + y) * f == y * u * f + y * f;
  }

  // ----- Q15 -----

  lemma TermRoundsQ15(a: int, w1: int, w2: int)
    requires IsQ15(a) && 0 <= w1 <= 0xF_FFFF && 0 <= w2 <= 0xF_FFFF
    ensures a * w1 * w2 - 15 * w2 <= 16 * TermQ15(a, w1, w2) <= a * w1 * w2
  {
    NarrowedFits(a, w1);
    ToQ31Fits(a * w1 / 16);
    FlooredTerm(a * w1, w2);
  }

  lemma NarrowedFits(a: int, w: int)
    requires IsQ15(a) && 0 <= w <= 0xF_FFFF
    ensures IsQ31(a * w / 16)
  {
    MulBound(a, w, 0x8000, 0xF_FFFF);
  }

  lemma FlooredTerm(p: int, w: int)
    requires w >= 0
    ensures p * w - 15 * w <= 16 * (p / 16 * w) <= p * w
  {
    var o := p / 16;
    MulLe(w, 16 * o, p);
    MulLe(w, p - 15, 16 * o);
    assert w * (16 * o) == 16 * (o * w) && w * (p - 15) == p * w - 15 * w;
  }

  /** The four terms together against the form. */
  lemma AccumulatorRounds(x1: int, x2: int, y1: int, y2: int, xf: int, yf: int)
    requires Corners(x1, x2, y1, y2, -0x8000, 0x7FFF) && 0 <= xf <= 0xF_FFFF && 0 <= yf <= 0xF_FFFF
    ensures var e := Form(x1, x2, y1, y2, 0xF_FFFF - xf, xf, 0xF_FFFF - yf, yf);
            e - 45 * 0xF_FFFF <= 16 * AccumulatorQ15(x1, x2, y1, y2, xf, yf) <= e
  {
    var u, v := 0xF_FFFF - xf, 0xF_FFFF - yf;
    TermRoundsQ15(x1, u, v);
    TermRoundsQ15(x2, v, xf);
    TermRoundsQ15(y1, u, yf);
    TermRoundsQ15(y2, xf, yf);
    Commute(x2, v, xf);
    SumOfTerms(TermQ15(x1, u, v), TermQ15(x2, v, xf), TermQ15(y1, u, yf), TermQ15(y2, xf, yf),
               x1 * u * v, x2 * xf * v, y1 * u * yf, y2 * xf * yf, xf, yf);
  }

  lemma SumOfTerms(t1: int, t2: int, t3: int, t4: int, p1: int, p2: int, p3: int, p4: int, xf: int, yf: int)
    requires 0 <= xf <= 0xF_FFFF && 0 <= yf <= 0xF_FFFF
    requires p1 - 15 * (0xF_FFFF - yf) <= 16 * t1 <= p1 && p2 - 15 * xf <= 16 * t2 <= p2
    requires p3 - 15 * yf <= 16 * t3 <= p3 && p4 - 15 * yf <= 16 * t4 <= p4
    ensures p1 + p2 + p3 + p4 - 45 * 0xF_FFFF <= 16 * (t1 + t2 + t3 + t4) <= p1 + p2 + p3 + p4
  {
  }

  /** The rounding of the Q15 blend against the form it approximates, and the
      range of the result; the final cast keeps every bit. */
  lemma BlendQ15Rounds(x1: int, x2: int, y1: int, y2: int, xf: int, yf: int, lo: int, hi: int)
    requires Corners(x1, x2, y1, y2, lo, hi) && IsQ15(lo) && IsQ15(hi)
    requires 0 <= xf <= 0xF_FFFF && 0 <= yf <= 0xF_FFFF
    ensures IsQ31(x1 * (0xF_FFFF - xf) / 16) && IsQ31(x2 * (0xF_FFFF - yf) / 16)
    ensures IsQ31(y1 * (0xF_FFFF - xf) / 16) && IsQ31(y2 * xf / 16)
    ensures var r := BlendQ15(x1, x2, y1, y2, xf, yf);
            && lo - 1 <= r <= hi
            && -0x400_0000 < Form(x1, x2, y1, y2, 0xF_FFFF - xf, xf, 0xF_FFFF - yf, yf)
                             - 0x100_0000_0000 * r < 0x100_0400_0000
  {
    NarrowedFits(x1, 0xF_FFFF - xf);
    NarrowedFits(x2, 0xF_FFFF - yf);
    NarrowedFits(y1, 0xF_FFFF - xf);
    NarrowedFits(y2, xf);
    AccumulatorRounds(x1, x2, y1, y2, xf, yf);
    FormBetween(x1, x2, y1, y2, 0xF_FFFF, xf, yf, lo, hi);
    FinalQ15(Form(x1, x2, y1, y2, 0xF_FFFF - xf, xf, 0xF_FFFF - yf, yf),
             AccumulatorQ15(x1, x2, y1, y2, xf, yf), lo, hi);
  }

  lemma Commute(a: int, b: int, c: int)
    ensures a * b * c == a * c * b
  {
  }

  lemma FinalQ15(e: int, acc: int, lo: int, hi: int)
    requires IsQ15(lo) && IsQ15(hi) && lo <= hi
    requires 0xF_FFFF * (0xF_FFFF * lo) <= e <= 0xF_FFFF * (0xF_FFFF * hi)
    requires e - 45 * 0xF_FFFF <= 16 * acc <= e
    ensures var r := ToQ15(acc / 0x10_0000_0000);
            lo - 1 <= r <= hi && -0x400_0000 < e - 0x100_0000_0000 * r < 0x100_0400_0000
  {
    var r := acc / 0x10_0000_0000;
    ToQ15Fits(r);
  }

  lemma BlendQ15Ideal(x1: int, x2: int, y1: int, y2: int, xf: int, yf: int, lo: int, hi: int)
    requires Corners(x1, x2, y1, y2, lo, hi) && IsQ15(lo) && IsQ15(hi)
    requires 0 <= xf <= 0xF_FFFF && 0 <= yf <= 0xF_FFFF
    ensures var r := BlendQ15(x1, x2, y1, y2, xf, yf);
            && lo - 1 <= r <= hi
            && -0x120_0000_0000 < 0x100_0000_0000 * r
                                  - Form(x1, x2, y1, y2, 0x10_0000 - xf, xf, 0x10_0000 - yf, yf) < 0x14_0000_0000
  {
    BlendQ15Rounds(x1, x2, y1, y2, xf, yf, lo, hi);
    FormShrinks(x1, x2, y1, y2, xf, yf);
  }

  lemma NearFormQ15(c: (int, int, int, int), xf: int, yf: int, lo: int, hi: int, r: int, e: int)
    requires Corners(c.0, c.1, c.2, c.3, lo, hi) && IsQ15(lo) && IsQ15(hi)
    requires 0 <= xf <= 0xF_FFFF && 0 <= yf <= 0xF_FFFF
    requires r == BlendQ15(c.0, c.1, c.2, c.3, xf, yf) && e == FormAt(c, xf, yf)
    ensures lo - 1 <= r <= hi && -0x120_0000_0000 < 0x100_0000_0000 * r - e < 0x14_0000_0000
  {
    BlendQ15Ideal(c.0, c.1, c.2, c.3, xf, yf, lo, hi);
  }

  lemma BlendsCornersQ15(g: Grid, x: int, y: int)
    requires GridQ15(g) && IsQ31(x) && IsQ31(y) && InTable(g, x, y)
    ensures Accepted(g, Cell(x), Cell(y)) && ReadsInTable(g, Cell(x), Cell(y))
    ensures var c := FourCorners(g, x, y);
            BilinearQ15(g, x, y) == BlendQ15(c.0, c.1, c.2, c.3, x % 0x10_0000, y % 0x10_0000)
  {
    InTableAccepted(g, x, y);
    ReadsCorners(g, x, y);
  }

  /** Inside the table the Q15 result lies between the smallest corner less 1 and
      the largest corner, and less than 18/16 LSB below and 5/64 above the
      documented formula. */
  lemma BilinearQ15Result(g: Grid, x: int, y: int, lo: int, hi: int)
    requires GridQ15(g) && IsQ31(x) && IsQ31(y) && InTable(g, x, y)
    requires IsQ15(lo) && IsQ15(hi) && CellWithin(g, x, y, lo, hi)
    ensures Accepted(g, Cell(x), Cell(y)) && ReadsInTable(g, Cell(x), Cell(y))
    ensures lo - 1 <= BilinearQ15(g, x, y) <= hi
    ensures -0x120_0000_0000 < 0x100_0000_0000 * BilinearQ15(g, x, y) - Ideal(g, x, y) < 0x14_0000_0000
  {
    BlendsCornersQ15(g, x, y);
    NearFormQ15(FourCorners(g, x, y), x % 0x10_0000, y % 0x10_0000, lo, hi, BilinearQ15(g, x, y), Ideal(g, x, y));
  }

  // ----- Q7 -----

  lemma TermQ7(a: int, w1: int, w2: int)
    requires IsQ7(a) && 0 <= w1 <= 0xF_FFFF
    ensures ToQ31(a * w1) * w2 == a * w1 * w2
  {
    MulBound(a, w1, 0x80, 0xF_FFFF);
    ToQ31Fits(a * w1);
  }

  /** The Q7 blend is the floor of the form, with no other rounding. */
  lemma BlendQ7Rounds(x1: int, x2: int, y1: int, y2: int, xf: int, yf: int, lo: int, hi: int)
    requires Corners(x1, x2, y1, y2, lo, hi) && IsQ7(lo) && IsQ7(hi)
    requires 0 <= xf <= 0xF_FFFF && 0 <= yf <= 0xF_FFFF
    ensures var r := BlendQ7(x1, x2, y1, y2, xf, yf);
            && lo - 1 <= r <= hi
            && r == Form(x1, x2, y1, y2, 0xF_FFFF - xf, xf, 0xF_FFFF - yf, yf) / 0x100_0000_0000
  {
    var u, v := 0xF_FFFF - xf, 0xF_FFFF - yf;
    TermQ7(x1, u, v);
    TermQ7(x2, v, xf);
    TermQ7(y1, u, yf);
    TermQ7(y2, yf, xf);
    Commute(x2, v, xf);
    Commute(y2, yf, xf);
    FormBetween(x1, x2, y1, y2, 0xF_FFFF, xf, yf, lo, hi);
    FinalQ7(Form(x1, x2, y1, y2, u, xf, v, yf), lo, hi);
  }

  lemma FinalQ7(e: int, lo: int, hi: int)
    requires IsQ7(lo) && IsQ7(hi) && lo <= hi
    requires 0xF_FFFF * (0xF_FFFF * lo) <= e <= 0xF_FFFF * (0xF_FFFF * hi)
    ensures var r := e / 0x100_0000_0000; ToQ7(r) == r && lo - 1 <= r <= hi
  {
  }

  lemma BlendQ7Ideal(x1: int, x2: int, y1: int, y2: int, xf: int, yf: int, lo: int, hi: int)
    requires Corners(x1, x2, y1, y2, lo, hi) && IsQ7(lo) && IsQ7(hi)
    requires 0 <= xf <= 0xF_FFFF && 0 <= yf <= 0xF_FFFF
    ensures var r := BlendQ7(x1, x2, y1, y2, xf, yf);
            && lo - 1 <= r <= hi
            && -0x110_0000_0000 < 0x100_0000_0000 * r
                                  - Form(x1, x2, y1, y2, 0x10_0000 - xf, xf, 0x10_0000 - yf, yf) <= 0x10_0000_0000
  {
    BlendQ7Rounds(x1, x2, y1, y2, xf, yf, lo, hi);
    FormShrinks(x1, x2, y1, y2, xf, yf);
  }

  lemma NearFormQ7(c: (int, int, int, int), xf: int, yf: int, lo: int, hi: int, r: int, e: int)
    requires Corners(c.0, c.1, c.2, c.3, lo, hi) && IsQ7(lo) && IsQ7(hi)
    requires 0 <= xf <= 0xF_FFFF && 0 <= yf <= 0xF_FFFF
    requires r == BlendQ7(c.0, c.1, c.2, c.3, xf, yf) && e == FormAt(c, xf, yf)
    ensures lo - 1 <= r <= hi && -0x110_0000_0000 < 0x100_0000_0000 * r - e <= 0x10_0000_0000
  {
    BlendQ7Ideal(c.0, c.1, c.2, c.3, xf, yf, lo, hi);
  }

  lemma BlendsCornersQ7(g: Grid, x: int, y: int)
    requires GridQ7(g) && IsQ31(x) && IsQ31(y) && InTable(g, x, y)
    ensures Accepted(g, Cell(x), Cell(y)) && ReadsInTable(g, Cell(x), Cell(y))
    ensures var c := FourCorners(g, x, y);
            BilinearQ7(g, x, y) == BlendQ7(c.0, c.1, c.2, c.3, x % 0x10_0000, y % 0x10_0000)
  {
    InTableAccepted(g, x, y);
    ReadsCorners(g, x, y);
  }

  /** The same for Q7: less than 17/16 LSB below the formula, at most 1/16 above. */
  lemma BilinearQ7Result(g: Grid, x: int, y: int, lo: int, hi: int)
    requires GridQ7(g) && IsQ31(x) && IsQ31(y) && InTable(g, x, y)
    requires IsQ7(lo) && IsQ7(hi) && CellWithin(g, x, y, lo, hi)
    ensures Accepted(g, Cell(x), Cell(y)) && ReadsInTable(g, Cell(x), Cell(y))
    ensures lo - 1 <= BilinearQ7(g, x, y) <= hi
    ensures -0x110_0000_0000 < 0x100_0000_0000 * BilinearQ7(g, x, y) - Ideal(g, x, y) <= 0x10_0000_0000
  {
    BlendsCornersQ7(g, x, y);
    NearFormQ7(FourCorners(g, x, y), x % 0x10_0000, y % 0x10_0000, lo, hi, BilinearQ7(g, x, y), Ideal(g, x, y));
  }
}
