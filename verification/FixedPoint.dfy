/** Fixed-point words as bounded integers, with the narrowing casts and the
    saturating clips of arm_math.h.

    A signed right shift `x >> n` is the floor of x / 2^n; Dafny's `/` by a
    positive literal is that floor.  A narrowing cast keeps the low bits. */
module FixedPoint {
  import opened Arithmetic

  predicate IsQ63(x: int) { -0x8000_0000_0000_0000 <= x < 0x8000_0000_0000_0000 }
  predicate IsQ31(x: int) { -0x8000_0000 <= x < 0x8000_0000 }
  predicate IsQ15(x: int) { -0x8000 <= x < 0x8000 }
  predicate IsQ7(x: int) { -0x80 <= x < 0x80 }
  predicate IsU32(x: int) { 0 <= x < 0x1_0000_0000 }

  /** The casts (q31_t), (q15_t), (q7_t), (q63_t) and (uint32_t). */
  function ToQ31(x: int): (r: int)
    ensures IsQ31(r)
  {
    (x + 0x8000_0000) % 0x1_0000_0000 - 0x8000_0000
  }

  function ToQ15(x: int): (r: int)
    ensures IsQ15(r)
  {
    (x + 0x8000) % 0x1_0000 - 0x8000
  }

  function ToQ7(x: int): (r: int)
    ensures IsQ7(r)
  {
    (x + 0x80) % 0x100 - 0x80
  }

  function ToQ63(x: int): (r: int)
    ensures IsQ63(r)
  {
    (x + 0x8000_0000_0000_0000) % 0x1_0000_0000_0000_0000 - 0x8000_0000_0000_0000
  }

  function ToU32(x: int): (r: int)
    ensures IsU32(r)
  {
    x % 0x1_0000_0000
  }

  /** The value of x nearest to it in lo..hi. */
  function Saturate(lo: int, hi: int, x: int): int
  {
    if x > hi then hi else if x < lo then lo else x
  }

  function SatQ31(x: int): int { Saturate(-0x8000_0000, 0x7FFF_FFFF, x) }
  function SatQ15(x: int): int { Saturate(-0x8000, 0x7FFF, x) }

  /** clip_q63_to_q31: the upper half is compared with the sign of the lower
      half; `0x7FFFFFFF ^ (x >> 63)` is the maximum or the minimum by sign. */
  function ClipQ63ToQ31(x: int): int
    requires IsQ63(x)
  {
    if ToQ31(x / 0x1_0000_0000) != ToQ31(x) / 0x8000_0000
    then if x < 0 then -0x8000_0000 else 0x7FFF_FFFF
    else ToQ31(x)
  }

  function ClipQ63ToQ15(x: int): int
    requires IsQ63(x)
  {
    if ToQ31(x / 0x1_0000_0000) != ToQ31(x) / 0x8000_0000
    then if x < 0 then -0x8000 else 0x7FFF
    else ToQ15(x / 0x8000)
  }

  function ClipQ31ToQ15(x: int): int
    requires IsQ31(x)
  {
    if x / 0x1_0000 != x / 0x8000
    then if x < 0 then -0x8000 else 0x7FFF
    else ToQ15(x)
  }

  lemma ToQ31Fits(x: int)
    ensures IsQ31(x) <==> ToQ31(x) == x
  {
  }

  lemma ToQ15Fits(x: int)
    ensures IsQ15(x) <==> ToQ15(x) == x
  {
  }

  lemma ToQ15Unique(x: int, k: int)
    ensures ToQ15(x + 0x1_0000 * k) == ToQ15(x)
  {
  }

  /** Casting keeps the value modulo 2^32. */
  lemma ToQ31Congruent(x: int) returns (k: int)
    ensures ToQ31(x) == x + 0x1_0000_0000 * k
  {
    k := -((x + 0x8000_0000) / 0x1_0000_0000);
  }

  lemma ToQ31Unique(x: int, k: int)
    ensures ToQ31(x + 0x1_0000_0000 * k) == ToQ31(x)
  {
    var j := ToQ31Congruent(x);
    var i := ToQ31Congruent(x + 0x1_0000_0000 * k);
  }

  lemma ToQ63Congruent(x: int) returns (k: int)
    ensures ToQ63(x) == x + 0x1_0000_0000_0000_0000 * k
  {
    k := -((x + 0x8000_0000_0000_0000) / 0x1_0000_0000_0000_0000);
  }

  /** The wide clip is saturation on every 64-bit value. */
  lemma ClipQ63ToQ31Saturates(x: int)
    requires IsQ63(x)
    ensures ClipQ63ToQ31(x) == SatQ31(x)
  {
    var h := x / 0x1_0000_0000;
    ToQ31Fits(h);
    var k := ToQ31Congruent(x);
  }

  lemma ClipQ31ToQ15Saturates(x: int)
    requires IsQ31(x)
    ensures ClipQ31ToQ15(x) == SatQ15(x)
  {
    ToQ15Fits(x);
  }

  /** clip_q63_to_q15 compares at bit 31 but drops only 15 bits, so 17 bits of
      the shifted value meet a 16-bit cast: it is the saturated shift exactly
      outside the two bands -2^31..-2^30-1 and 2^30..2^31-1. */
  lemma ClipQ63ToQ15SaturatesIff(x: int)
    requires IsQ63(x)
    ensures ClipQ63ToQ15(x) == SatQ15(x / 0x8000) <==> (!IsQ31(x) || -0x4000_0000 <= x < 0x4000_0000)
  {
    var h := x / 0x1_0000_0000;
    ToQ31Fits(h);
    var k := ToQ31Congruent(x);
    var v := x / 0x8000;
    ToQ15Fits(v);
  }

  /** A failing input at the edge of the upper band. */
  lemma ClipQ63ToQ15Wraps()
    ensures ClipQ63ToQ15(0x4000_0000) == -0x8000 && SatQ15(0x4000_0000 / 0x8000) == 0x7FFF
  {
  }

  /** __QADD and __QSUB: saturating 32-bit sum and difference. */
  function QAdd(x: int, y: int): (r: int)
    requires IsQ31(x) && IsQ31(y)
    ensures IsQ31(r)
  {
    SatQ31(x + y)
  }

  function QSub(x: int, y: int): (r: int)
    requires IsQ31(x) && IsQ31(y)
    ensures IsQ31(r)
  {
    SatQ31(x - y)
  }

  /** The emulations clip a 64-bit sum, which is the same. */
  lemma EmulatedSaturates(x: int, y: int)
    requires IsQ31(x) && IsQ31(y)
    ensures ClipQ63ToQ31(x + y) == QAdd(x, y) && ClipQ63ToQ31(x - y) == QSub(x, y)
  {
    ClipQ63ToQ31Saturates(x + y);
    ClipQ63ToQ31Saturates(x - y);
  }

  /** Two 32-bit factors give a 64-bit product. */
  lemma MulQ31(x: int, y: int)
    requires IsQ31(x) && IsQ31(y)
    ensures IsQ63(x * y) && -0x4000_0000_0000_0000 <= x * y <= 0x4000_0000_0000_0000
  {
    MulBound(x, y, 0x8000_0000, 0x8000_0000);
  }
}
