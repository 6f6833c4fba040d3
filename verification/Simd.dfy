/** The 32x64 multiply and the dual 16-bit multiplies of arm_math.h.

    A packed operand is a 32-bit word; `(q31_t)x << 16 >> 16` is its low half
    and `(q31_t)x >> 16` its high half, both sign-extended. */
module Simd {
  import opened Arithmetic
  import opened FixedPoint

  function LowHalf(w: int): (r: int)
    requires IsU32(w)
    ensures IsQ15(r)
  {
    ToQ15(w)
  }

  function HighHalf(w: int): (r: int)
    requires IsU32(w)
    ensures IsQ15(r)
  {
    ToQ15(w / 0x1_0000)
  }

  function Pack(low: int, high: int): (w: int)
    requires IsQ15(low) && IsQ15(high)
    ensures IsU32(w) && LowHalf(w) == low && HighHalf(w) == high
  {
    HalvesOfSum(high % 0x1_0000, low % 0x1_0000);
    FromRemainder(low);
    FromRemainder(high);
    high % 0x1_0000 * 0x1_0000 + low % 0x1_0000
  }

  lemma HalvesOfSum(h: int, l: int)
    requires 0 <= h < 0x1_0000 && 0 <= l < 0x1_0000
    ensures (h * 0x1_0000 + l) / 0x1_0000 == h && ToQ15(h * 0x1_0000 + l) == ToQ15(l)
  {
  }

  lemma FromRemainder(v: int)
    requires IsQ15(v)
    ensures ToQ15(v % 0x1_0000) == v
  {
  }

  /** A 16-bit argument cast to uint32_t carries copies of its sign above. */
  lemma WidenedHalves(v: int)
    requires IsQ15(v)
    ensures LowHalf(ToU32(v)) == v
    ensures HighHalf(ToU32(v)) == if v < 0 then -1 else 0
  {
    if v < 0 {
      assert ToU32(v) == v + 0x1_0000_0000 && ToU32(v) / 0x1_0000 == 0xFFFF;
    } else {
      assert ToU32(v) == v && v / 0x1_0000 == 0;
    }
  }

  // ----- mult32x64 -----

  function Mult32x64(x: int, y: int): int
    requires IsQ63(x) && IsQ31(y)
  {
    x % 0x1_0000_0000 * y / 0x1_0000_0000 + x / 0x1_0000_0000 * y
  }

  /** The two partial products and their sum fit 64 bits, and the result is the
      96-bit product shifted right by 32. */
  lemma Mult32x64Exact(x: int, y: int)
    requires IsQ63(x) && IsQ31(y)
    ensures IsQ63(x % 0x1_0000_0000 * y) && IsQ63(x / 0x1_0000_0000 * y)
    ensures IsQ63(Mult32x64(x, y))
    ensures Mult32x64(x, y) == x * y / 0x1_0000_0000
  {
    var h, l := x / 0x1_0000_0000, x % 0x1_0000_0000;
    var p, q := l * y, h * y;
    MulBound(l, y, 0xFFFF_FFFF, 0x8000_0000);
    MulBound(h, y, 0x8000_0000, 0x8000_0000);
    assert x * y == 0x1_0000_0000 * q + p by { Split(h, l, y); }
    if y >= 0 {
      MulLe(y, h, 0x7FFF_FFFF);
    } else {
      MulLe(-y, -0x8000_0000, h);
      assert -y * h == -q;
    }
  }

  lemma Split(h: int, l: int, y: int)
    ensures (0x1_0000_0000 * h + l) * y == 0x1_0000_0000 * (h * y) + l * y
  {
  }

  // ----- dual multiplies -----

  function Smuad(x: int, y: int): int
    requires IsU32(x) && IsU32(y)
  {
    ToU32(LowHalf(x) * LowHalf(y) + HighHalf(x) * HighHalf(y))
  }

  function Smusd(x: int, y: int): int
    requires IsU32(x) && IsU32(y)
  {
    ToU32(LowHalf(x) * LowHalf(y) - HighHalf(x) * HighHalf(y))
  }

  function Smuadx(x: int, y: int): int
    requires IsU32(x) && IsU32(y)
  {
    ToU32(LowHalf(x) * HighHalf(y) + HighHalf(x) * LowHalf(y))
  }

  /** The SMLALD instruction, which builds with the DSP extension use, accumulates
      both products in 64 bits. */
  function Smlald(x: int, y: int, sum: int): int
    requires IsU32(x) && IsU32(y)
  {
    ToQ63(LowHalf(x) * LowHalf(y) + HighHalf(x) * HighHalf(y) + sum)
  }

  /** Its emulation adds the two products in 32 bits before it widens them. */
  function SmlaldEmulated(x: int, y: int, sum: int): int
    requires IsU32(x) && IsU32(y)
  {
    ToQ63(ToQ31(LowHalf(x) * LowHalf(y) + HighHalf(x) * HighHalf(y)) + sum)
  }

  /** All four halves of two operands are -32768. */
  predicate AllLowest(x: int, y: int)
    requires IsU32(x) && IsU32(y)
  {
    LowHalf(x) == -0x8000 && HighHalf(x) == -0x8000 && LowHalf(y) == -0x8000 && HighHalf(y) == -0x8000
  }

  function SquaredNorm(w: int): int
    requires IsU32(w)
  {
    LowHalf(w) * LowHalf(w) + HighHalf(w) * HighHalf(w)
  }

  lemma MulQ15(x: int, y: int)
    requires IsQ15(x) && IsQ15(y)
    ensures -0x3FFF_8000 <= x * y <= 0x4000_0000
    ensures x * y == 0x4000_0000 <==> x == -0x8000 && y == -0x8000
  {
    if x == -0x8000 {
    } else {
      MulBound(x, y, 0x7FFF, 0x8000);
    }
  }

  /** Read as complex numbers low + i*high, SMUSD always is the exact real part
      of the product, and SMUADX the exact imaginary part except when all four
      halves are -32768. */
  lemma ComplexProduct(x: int, y: int)
    requires IsU32(x) && IsU32(y)
    ensures ToQ31(Smusd(x, y)) == LowHalf(x) * LowHalf(y) - HighHalf(x) * HighHalf(y)
    ensures ToQ31(Smuadx(x, y)) == LowHalf(x) * HighHalf(y) + HighHalf(x) * LowHalf(y) <==> !AllLowest(x, y)
  {
    RealPart(x, y);
    ImaginaryPart(x, y);
  }

  lemma RealPart(x: int, y: int)
    requires IsU32(x) && IsU32(y)
    ensures ToQ31(Smusd(x, y)) == LowHalf(x) * LowHalf(y) - HighHalf(x) * HighHalf(y)
  {
    DifferenceFits(LowHalf(x), HighHalf(x), LowHalf(y), HighHalf(y));
  }

  lemma ImaginaryPart(x: int, y: int)
    requires IsU32(x) && IsU32(y)
    ensures ToQ31(Smuadx(x, y)) == LowHalf(x) * HighHalf(y) + HighHalf(x) * LowHalf(y) <==> !AllLowest(x, y)
  {
    SumFitsIff(LowHalf(x), HighHalf(x), HighHalf(y), LowHalf(y));
  }

  lemma DifferenceFits(a: int, b: int, c: int, d: int)
    requires IsQ15(a) && IsQ15(b) && IsQ15(c) && IsQ15(d)
    ensures ToQ31(ToU32(a * c - b * d)) == a * c - b * d
  {
    MulQ15(a, c);
    MulQ15(b, d);
    CastBack(a * c - b * d);
  }

  lemma SumFitsIff(a: int, b: int, c: int, d: int)
    requires IsQ15(a) && IsQ15(b) && IsQ15(c) && IsQ15(d)
    ensures var v := a * c + b * d;
            && -0x8000_0000 <= v <= 0x8000_0000
            && (ToQ31(ToU32(v)) == v <==> !(a == -0x8000 && b == -0x8000 && c == -0x8000 && d == -0x8000))
            && (ToQ31(v) == v <==> !(a == -0x8000 && b == -0x8000 && c == -0x8000 && d == -0x8000))
  {
    MulQ15(a, c);
    MulQ15(b, d);
    CastBack(a * c + b * d);
  }

  /** SMUAD is the exact sum of the two products with the same exception. */
  lemma SmuadExactIff(x: int, y: int)
    requires IsU32(x) && IsU32(y)
    ensures ToQ31(Smuad(x, y)) == LowHalf(x) * LowHalf(y) + HighHalf(x) * HighHalf(y) <==> !AllLowest(x, y)
  {
    SumFitsIff(LowHalf(x), HighHalf(x), LowHalf(y), HighHalf(y));
  }

  /** The emulated SMLALD returns what the instruction does except when all four
      halves are -32768. */
  lemma SmlaldEmulatedIff(x: int, y: int, sum: int)
    requires IsU32(x) && IsU32(y)
    ensures SmlaldEmulated(x, y, sum) == Smlald(x, y, sum) <==> !AllLowest(x, y)
  {
    WidenedProducts(LowHalf(x), HighHalf(x), LowHalf(y), HighHalf(y), sum);
  }

  lemma WidenedProducts(a: int, b: int, c: int, d: int, sum: int)
    requires IsQ15(a) && IsQ15(b) && IsQ15(c) && IsQ15(d)
    ensures ToQ63(ToQ31(a * c + b * d) + sum) == ToQ63(a * c + b * d + sum)
            <==> !(a == -0x8000 && b == -0x8000 && c == -0x8000 && d == -0x8000)
  {
    SumFitsIff(a, b, c, d);
    WidenedSum(a * c + b * d, sum);
  }

  lemma WidenedSum(v: int, sum: int)
    requires -0x8000_0000 <= v <= 0x8000_0000
    ensures ToQ63(ToQ31(v) + sum) == ToQ63(v + sum) <==> ToQ31(v) == v
  {
    ToQ31Fits(v);
    if v == 0x8000_0000 {
      var i := ToQ63Congruent(v + sum);
      var j := ToQ63Congruent(sum - v);
    }
  }

  lemma CastBack(v: int)
    ensures ToQ31(ToU32(v)) == ToQ31(v)
    ensures ToQ31(v) == v <==> IsQ31(v)
  {
    ToQ31Unique(v, -(v / 0x1_0000_0000));
    ToQ31Fits(v);
  }

  /** The squared modulus is multiplicative on the packed results. */
  lemma ComplexModulus(x: int, y: int)
    requires IsU32(x) && IsU32(y)
    requires !AllLowest(x, y)
    ensures var re, im := ToQ31(Smusd(x, y)), ToQ31(Smuadx(x, y));
            re * re + im * im == SquaredNorm(x) * SquaredNorm(y)
  {
    ComplexProduct(x, y);
    ModulusOf(ToQ31(Smusd(x, y)), ToQ31(Smuadx(x, y)), SquaredNorm(x), SquaredNorm(y),
              LowHalf(x), HighHalf(x), LowHalf(y), HighHalf(y));
  }

  lemma ModulusOf(re: int, im: int, m: int, n: int, a: int, b: int, c: int, d: int)
    requires re == a * c - b * d && im == a * d + b * c && m == a * a + b * b && n == c * c + d * d
    ensures re * re + im * im == m * n
  {
    TwoSquares(a, b, c, d);
  }

  lemma TwoSquares(a: int, b: int, c: int, d: int)
    ensures (a * c - b * d) * (a * c - b * d) + (a * d + b * c) * (a * d + b * c) == (a * a + b * b) * (c * c + d * d)
  {
    var p, q, r, s := a * c, b * d, a * d, b * c;
    assert p * q == r * s by { Cross(a, b, c, d); }
    assert (p - q) * (p - q) == p * p - 2 * (p * q) + q * q;
    assert (r + s) * (r + s) == r * r + 2 * (r * s) + s * s;
    SquareOfProduct(a, c);
    SquareOfProduct(b, d);
    SquareOfProduct(a, d);
    SquareOfProduct(b, c);
  }

  lemma Cross(a: int, b: int, c: int, d: int)
    ensures a * c * (b * d) == a * d * (b * c)
  {
  }

  lemma SquareOfProduct(a: int, b: int)
    ensures a * b * (a * b) == a * a * (b * b)
  {
  }
}
