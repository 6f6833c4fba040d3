/** arm_recip_q31 and arm_recip_q15: two Newton-Raphson steps from a 64-entry
    seed table.

    With one = 2^31 (or 2^15) and a the normalised input, the routine looks for
    the `out` with a * out = one^2 / 2.  The seed table is an extern array; its
    accuracy is a hypothesis here, and `MidpointTable*` shows a table that meets
    it. */
module Reciprocal {
  import opened Arithmetic
  import opened FixedPoint
  import opened BitLoops
  import opened Words

  // one^2 / 2 for the two formats
  const TARGET_Q31 := 0x2000_0000_0000_0000
  const TARGET_Q15 := 0x2000_0000

  // ----- the routines -----

  /** The six bits below the sign and the leading one of the normalised input. */
  function SeedIndexQ31(a: int): nat { a / 0x100_0000 % 64 }
  function SeedIndexQ15(a: int): nat { a / 0x100 % 64 }

  /** The unsigned tempVal of one pass, from the product z = in * out. */
  function TempQ31(z: int): (r: int)
    ensures IsU32(r)
  {
    ToU32(0x7FFF_FFFF - ToU32(z / 0x8000_0000))
  }

  function TempQ15(z: int): (r: int)
    ensures IsU32(r)
  {
    ToU32(0x7FFF - ToU32(z / 0x8000))
  }

  /** One pass of the Q31 loop: the product is 64 bits wide and the result is
      clipped. */
  function StepQ31(a: int, out: int): (r: int)
    requires IsQ31(a) && IsQ31(out)
    ensures IsQ31(r)
  {
    ClippedRange(out, TempQ31(a * out));
    ClipQ63ToQ31(out * TempQ31(a * out) / 0x4000_0000)
  }

  lemma ClippedRange(out: int, tempVal: int)
    requires IsQ31(out) && IsU32(tempVal)
    ensures IsQ63(out * tempVal) && IsQ63(out * tempVal / 0x4000_0000)
    ensures ClipQ63ToQ31(out * tempVal / 0x4000_0000) == SatQ31(out * tempVal / 0x4000_0000)
  {
    MulBound(out, tempVal, 0x8000_0000, 0xFFFF_FFFF);
    ClipQ63ToQ31Saturates(out * tempVal / 0x4000_0000);
  }

  /** One pass of the Q15 loop: the product is taken in unsigned 32 bits, and the
      result is cast without a clip. */
  function StepQ15(a: int, out: int): (r: int)
    requires IsQ15(a) && IsQ15(out)
    ensures IsQ15(r)
  {
    NarrowQ15(ToU32(out) * TempQ15(a * out))
  }

  function NarrowQ15(p: int): (r: int)
    ensures IsQ15(r)
  {
    ToQ15(ToU32(p) / 0x4000)
  }

  function NewtonQ31(a: int, seed: int, steps: nat): (r: int)
    requires IsQ31(a) && IsQ31(seed)
    ensures IsQ31(r)
  {
    if steps == 0 then seed else StepQ31(a, NewtonQ31(a, seed, steps - 1))
  }

  function NewtonQ15(a: int, seed: int, steps: nat): (r: int)
    requires IsQ15(a) && IsQ15(seed)
    ensures IsQ15(r)
  {
    if steps == 0 then seed else StepQ15(a, NewtonQ15(a, seed, steps - 1))
  }

  predicate TableQ31(t: seq<int>) { |t| == 64 && forall k :: 0 <= k < 64 ==> IsQ31(t[k]) }
  predicate TableQ15(t: seq<int>) { |t| == 64 && forall k :: 0 <= k < 64 ==> IsQ15(t[k]) }

  /** Every seed is within one part in 128 of the reciprocal of every normalised
      input that selects it. */
  ghost predicate AccurateQ31(t: seq<int>)
    requires TableQ31(t)
  {
    forall a :: 0x4000_0000 <= a < 0x8000_0000 ==> NearQ31(a, t[SeedIndexQ31(a)])
  }

  predicate NearQ31(a: int, seed: int)
  {
    TARGET_Q31 - 0x40_0000_0000_0000 <= a * seed <= TARGET_Q31 + 0x40_0000_0000_0000
  }

  ghost predicate AccurateQ15(t: seq<int>)
    requires TableQ15(t)
  {
    forall a :: 0x4000 <= a < 0x8000 ==> NearQ15(a, t[SeedIndexQ15(a)])
  }

  predicate NearQ15(a: int, seed: int)
  {
    TARGET_Q15 - 0x40_0000 <= a * seed <= TARGET_Q15 + 0x40_0000
  }

  /** A positive word shifted left until it fills the format. */
  function FullQ31(x: nat): (a: int)
    requires 0 < x < 0x8000_0000
    ensures 0x4000_0000 <= a < 0x8000_0000
  {
    NormaliseQ31(x);
    x * Pow2(LeadingZeros(x) - 1)
  }

  function FullQ15(x: nat): (a: int)
    requires 0 < x < 0x8000
    ensures 0x4000 <= a < 0x8000
  {
    NormaliseQ15(x);
    x * Pow2(LeadingZeros(x) - 17)
  }

  /** The input shifted left until its magnitude fills the word. */
  function NormalQ31(x: int): (a: int)
    requires -0x8000_0000 < x < 0x8000_0000
    ensures x > 0 ==> 0x4000_0000 <= a < 0x8000_0000
    ensures x < 0 ==> -0x8000_0000 < a <= -0x4000_0000
    ensures x == 0 ==> a == 0
  {
    if x > 0 then FullQ31(x) else if x < 0 then -FullQ31(-x) else 0
  }

  function NormalQ15(x: int): (a: int)
    requires -0x8000 < x < 0x8000
    ensures x > 0 ==> 0x4000 <= a < 0x8000
    ensures x < 0 ==> -0x8000 < a <= -0x4000
    ensures x == 0 ==> a == 0
  {
    if x > 0 then FullQ15(x) else if x < 0 then -FullQ15(-x) else 0
  }

  /** The shift `in << signBits` of the two routines. */
  lemma ShiftedQ31(x: int)
    requires -0x8000_0000 < x < 0x8000_0000
    ensures 1 <= LeadingZeros(Abs(x))
    ensures x * Pow2(LeadingZeros(Abs(x)) - 1) == NormalQ31(x)
  {
    if x != 0 {
      NormaliseQ31(Abs(x));
      ShiftOfSign(x, Pow2(LeadingZeros(Abs(x)) - 1));
    }
  }

  lemma ShiftedQ15(x: int)
    requires -0x8000 < x < 0x8000
    ensures 17 <= LeadingZeros(Abs(x))
    ensures x * Pow2(LeadingZeros(Abs(x)) - 17) == NormalQ15(x)
  {
    if x != 0 {
      NormaliseQ15(Abs(x));
      ShiftOfSign(x, Pow2(LeadingZeros(Abs(x)) - 17));
    }
  }

  lemma ShiftOfSign(x: int, k: int)
    ensures x * k == if x < 0 then -(Abs(x) * k) else Abs(x) * k
  {
  }

  lemma NegMul(x: int, k: int)
    ensures x * k == -((-x) * k)
  {
  }

  /** The loop bodies. */
  method PassQ31(a: int, out: int) returns (next: int)
    requires IsQ31(a) && IsQ31(out)
    ensures next == StepQ31(a, out)
  {
    var tempVal := ToU32(a * out / 0x8000_0000);
    tempVal := ToU32(0x7FFF_FFFF - tempVal);
    ClippedRange(out, tempVal);
    next := ClipQ63ToQ31(out * tempVal / 0x4000_0000);
  }

  method PassQ15(a: int, out: int) returns (next: int)
    requires IsQ15(a) && IsQ15(out)
    ensures next == StepQ15(a, out)
  {
    var tempVal := ToU32(a * out / 0x8000);
    tempVal := ToU32(0x7FFF - tempVal);
    next := NarrowQ15(ToU32(out) * tempVal);
  }

  /** arm_recip_q31.  -2^31 has no negation and is not accepted.  On a positive
      input the result undershoots the reciprocal by less than 3.01 * 2^32 parts
      of 2^61; on any other input it is the largest Q31 value. */
  method RecipQ31(x: int, table: seq<int>) returns (dst: int, shift: int)
    requires -0x8000_0000 < x < 0x8000_0000 && TableQ31(table)
    ensures shift == LeadingZeros(Abs(x)) >= 1
    ensures dst == NewtonQ31(NormalQ31(x), table[SeedIndexQ31(NormalQ31(x))], 2)
    ensures x * Pow2(shift - 1) == NormalQ31(x)
    ensures x > 0 && AccurateQ31(table) ==>
              0 < TARGET_Q31 - NormalQ31(x) * dst < 0x3_0020_0000
    ensures x <= 0 && AccurateQ31(table) ==> dst == 0x7FFF_FFFF
  {
    ShiftedQ31(x);
    var signBits;
    if x > 0 {
      var c := CountLeadingZeros(x);
      signBits := c - 1;
    } else {
      var c := CountLeadingZeros(-x);
      signBits := c - 1;
    }
    var a := x * Pow2(signBits);
    var index := a / 0x100_0000 % 64;
    var out := table[index];
    var i := 0;
    while i < 2
      invariant 0 <= i <= 2
      invariant out == NewtonQ31(a, table[index], i)
    {
      out := PassQ31(a, out);
      i := i + 1;
    }
    dst := out;
    shift := signBits + 1;
    RecipQ31Claim(x, table);
  }

  /** arm_recip_q15. */
  method RecipQ15(x: int, table: seq<int>) returns (dst: int, shift: int)
    requires -0x8000 < x < 0x8000 && TableQ15(table)
    ensures shift == LeadingZeros(Abs(x)) - 16 >= 1
    ensures dst == NewtonQ15(NormalQ15(x), table[SeedIndexQ15(NormalQ15(x))], 2)
    ensures x * Pow2(shift - 1) == NormalQ15(x)
    ensures x > 0 && AccurateQ15(table) ==>
              0 < TARGET_Q15 - NormalQ15(x) * dst < 0x1_0020
  {
    ShiftedQ15(x);
    var signBits;
    if x > 0 {
      var c := CountLeadingZeros(x);
      signBits := c - 17;
    } else {
      var c := CountLeadingZeros(-x);
      signBits := c - 17;
    }
    var a := x * Pow2(signBits);
    var index := a / 0x100 % 64;
    var out := table[index];
    var i := 0;
    while i < 2
      invariant 0 <= i <= 2
      invariant out == NewtonQ15(a, table[index], i)
    {
      out := PassQ15(a, out);
      i := i + 1;
    }
    dst := out;
    shift := signBits + 1;
    RecipQ15Claim(x, table);
  }

  // ----- one pass on any operands -----

  /** The value of a pass without wraps and clips. */
  function UncastQ31(a: int, x: int): int
  {
    x * (0x7FFF_FFFF - a * x / 0x8000_0000) / 0x4000_0000
  }

  function UncastQ15(a: int, x: int): int
  {
    x * (0x7FFF - a * x / 0x8000) / 0x4000
  }

  /** A Q31 pass is the saturated value for all operands but two of -2^31, for which
      the unsigned difference wraps. */
  lemma StepQ31Iff(a: int, x: int)
    requires IsQ31(a) && IsQ31(x)
    ensures StepQ31(a, x) == SatQ31(UncastQ31(a, x)) <==> !(a == x == -0x8000_0000)
  {
    var z := a * x;
    MulQ31(a, x);
    ClippedRange(x, TempQ31(z));
    if z == 0x4000_0000_0000_0000 {
      FullProduct(a, x);
      WrappedTemp(z);
    } else {
      UnwrappedTemp(z);
    }
  }

  lemma FullProduct(a: int, x: int)
    requires IsQ31(a) && IsQ31(x) && a * x == 0x4000_0000_0000_0000
    ensures a == x == -0x8000_0000
  {
    if a != -0x8000_0000 {
      MulBound(a, x, 0x7FFF_FFFF, 0x8000_0000);
    } else if x != -0x8000_0000 {
      MulBound(a, x, 0x8000_0000, 0x7FFF_FFFF);
    }
  }

  lemma WrappedTemp(z: int)
    requires z == 0x4000_0000_0000_0000
    ensures TempQ31(z) == 0xFFFF_FFFF && 0x7FFF_FFFF - z / 0x8000_0000 == -1
  {
  }

  lemma UnwrappedTemp(z: int)
    requires -0x4000_0000_0000_0000 <= z < 0x4000_0000_0000_0000
    ensures TempQ31(z) == 0x7FFF_FFFF - z / 0x8000_0000
  {
    var d := z / 0x8000_0000;
    assert ToU32(d) == if d < 0 then d + 0x1_0000_0000 else d;
  }

  /** A Q15 pass is the low 16 bits of that value for all operands: the unsigned
      product of two wrapped factors loses nothing more. */
  lemma StepQ15Wraps(a: int, x: int)
    requires IsQ15(a) && IsQ15(x)
    ensures StepQ15(a, x) == ToQ15(UncastQ15(a, x))
  {
    var z := a * x;
    var d := z / 0x8000;
    var t := 0x7FFF - d;
    var k := WrapTemp(z);
    var l := WrapWord(x);
    WrappedProduct(x, t, l, k);
    NarrowWraps(x * t, x * k + l * t + 0x1_0000_0000 * (l * k));
  }

  lemma WrapWord(x: int) returns (l: int)
    ensures ToU32(x) == x + 0x1_0000_0000 * l
  {
    l := -(x / 0x1_0000_0000);
  }

  lemma WrapTemp(z: int) returns (k: int)
    ensures TempQ15(z) == 0x7FFF - z / 0x8000 + 0x1_0000_0000 * k
  {
    var i := WrapWord(z / 0x8000);
    var j := WrapWord(0x7FFF - ToU32(z / 0x8000));
    k := j - i;
  }

  lemma WrappedProduct(x: int, t: int, l: int, k: int)
    ensures (x + 0x1_0000_0000 * l) * (t + 0x1_0000_0000 * k)
            == x * t + 0x1_0000_0000 * (x * k + l * t + 0x1_0000_0000 * (l * k))
  {
    Distribute(x, 0x1_0000_0000 * l, t + 0x1_0000_0000 * k);
    assert x * (t + 0x1_0000_0000 * k) == x * t + 0x1_0000_0000 * (x * k);
    assert l * (t + 0x1_0000_0000 * k) == l * t + 0x1_0000_0000 * (l * k);
  }

  lemma NarrowWraps(p: int, m: int)
    ensures NarrowQ15(p + 0x1_0000_0000 * m) == ToQ15(p / 0x4000)
  {
    var l := WrapWord(p + 0x1_0000_0000 * m);
    assert (p + 0x1_0000_0000 * m + 0x1_0000_0000 * l) / 0x4000 == p / 0x4000 + 0x4_0000 * (m + l);
    ToQ15Unique(p / 0x4000, 4 * (m + l));
  }

  // ----- one step, in any format -----

  /** With z = a * x the step computes z * (one^2 - z) / m up to two roundings,
      m being one^2 / 2.  By the inequality of the means that product never
      passes m, whatever the seed; the distance left is the square of the old
      one over m, plus the rounding. */
  lemma NewtonStep(one: int, half: int, m: int, a: int, x: int, t: int, temp: int, y: int)
    requires half > 0 && one == 2 * half && m == one * half
    requires 0 <= a && 0 <= x
    requires one * t <= a * x < one * t + one && temp == one - 1 - t && temp >= 0
    requires half * y <= x * temp < half * y + half
    ensures a * y < m
    ensures m * (m - a * y) <= (m - a * x) * (m - a * x) + one * (a * x) + a * m
  {
    var z := a * x;
    var st := one * temp;
    assert z >= 0 by { MulLe(a, 0, x); }
    assert 2 * m - one - z <= st < 2 * m - z by { Complement(one, half, m, t, temp); }
    StepScaled(one, half, m, a, x, temp, y);
    var w := a * y;
    assert z * st - a * m <= m * w <= z * st;
    MulLe(z, 2 * m - one - z, st);
    MeanIdentity(m, one, z);
    DistributeSub(m, m, w);
    assert m > 0 by { MulLt(one, 0, half); }
    if z == 0 {
      ZeroProduct(a, x, temp, half, y);
    } else {
      MulLt(z, st, 2 * m - z);
      SquareNonNegative(m - z);
      CancelLt(m, w, m);
    }
  }

  lemma Complement(one: int, half: int, m: int, t: int, temp: int)
    requires one == 2 * half && m == one * half && temp == one - 1 - t
    ensures one * temp == 2 * m - one - one * t
  {
    DistributeSub(one, one - 1, t);
    DistributeSub(one, one, 1);
    assert one * one == 2 * (one * half);
  }

  lemma DistributeSub(k: int, a: int, b: int)
    ensures k * (a - b) == k * a - k * b
  {
  }

  lemma MeanIdentity(m: int, one: int, z: int)
    ensures z * (2 * m - z) == m * m - (m - z) * (m - z)
    ensures z * (2 * m - one - z) == z * (2 * m - z) - one * z
  {
  }

  /** The rounding of the last shift, scaled up. */
  lemma StepScaled(one: int, half: int, m: int, a: int, x: int, temp: int, y: int)
    requires half > 0 && one == 2 * half && m == one * half && 0 <= a
    requires half * y <= x * temp < half * y + half
    ensures a * x * (one * temp) - a * m <= m * (a * y) <= a * x * (one * temp)
  {
    var u, v := x * temp, half * y;
    var k := one * a;
    assert k >= 0 by { MulLe(one, 0, a); }
    MulLe(k, v, u);
    MulLe(k, u, v + half);
    assert k * (v + half) == k * v + k * half;
    Regroup(one, a, x, temp);
    Regroup(one, a, half, y);
    assert k * half == a * (one * half) by { Swap(one, a, half); }
    assert a * half * (one * y) == (one * half) * (a * y) by { Swap4(a, half, one, y); }
  }

  lemma Regroup(p: int, a: int, x: int, y: int)
    ensures (p * a) * (x * y) == a * x * (p * y)
  {
  }

  lemma Swap(p: int, a: int, h: int)
    ensures (p * a) * h == a * (p * h)
  {
  }

  lemma Swap4(a: int, h: int, p: int, y: int)
    ensures a * h * (p * y) == (p * h) * (a * y)
  {
  }

  lemma ZeroProduct(a: int, x: int, temp: int, half: int, y: int)
    requires 0 <= a && a * x == 0 && half > 0 && half * y <= x * temp
    ensures a * y <= 0
  {
    if a != 0 {
      assert x == 0;
      CancelLt(half, y, 1);
      MulLe(a, y, 0);
    }
  }

  lemma SquareBound(x: int, b: int)
    requires -b <= x <= b
    ensures x * x <= b * b
  {
    MulBound(x, x, b, b);
  }

  // ----- Q31 -----

  /** For a normalised positive input and any non-negative estimate, the step
      stays below the target; so the clip in the loop changes nothing. */
  lemma StepQ31Undershoots(a: int, x: int)
    requires 0x4000_0000 <= a < 0x8000_0000 && 0 <= x < 0x8000_0000
    ensures 0 <= StepQ31(a, x)
    ensures a * StepQ31(a, x) < TARGET_Q31
    ensures StepQ31(a, x) == x * (0x7FFF_FFFF - a * x / 0x8000_0000) / 0x4000_0000
    ensures TARGET_Q31 * (TARGET_Q31 - a * StepQ31(a, x))
              <= (TARGET_Q31 - a * x) * (TARGET_Q31 - a * x) + 0x8000_0000 * (a * x) + a * TARGET_Q31
  {
    var z := a * x;
    ProductBetween(a, x, 0x7FFF_FFFF);
    var t := z / 0x8000_0000;
    var temp := 0x7FFF_FFFF - t;
    var p := x * temp;
    var y := p / 0x4000_0000;
    NewtonStep(0x8000_0000, 0x4000_0000, TARGET_Q31, a, x, t, temp, y);
    assert 0 <= p by { MulLe(x, 0, temp); }
    QuarterQ31(a, y);
    UnclippedQ31(a, x, z, temp, y);
  }

  /** The step when neither the unsigned subtraction nor the clip acts. */
  lemma UnclippedQ31(a: int, x: int, z: int, temp: int, y: int)
    requires IsQ31(a) && IsQ31(x) && z == a * x && 0 <= z < 0x4000_0000_0000_0000
    requires temp == 0x7FFF_FFFF - z / 0x8000_0000 && y == x * temp / 0x4000_0000 && IsQ31(y)
    ensures StepQ31(a, x) == y
  {
    SmallTemp(z);
    ClippedRange(x, temp);
  }

  lemma SmallTemp(z: int)
    requires 0 <= z < 0x4000_0000_0000_0000
    ensures TempQ31(z) == 0x7FFF_FFFF - z / 0x8000_0000
  {
  }

  lemma ProductBetween(a: int, x: int, b: int)
    requires 0 <= a <= b && 0 <= x <= b
    ensures 0 <= a * x <= b * b
  {
    MulLe(a, 0, x);
    MulLe(a, x, b);
    MulLe(b, a, b);
  }

  lemma QuarterQ31(a: int, y: int)
    requires 0x4000_0000 <= a && 0 <= y && a * y < TARGET_Q31
    ensures y < 0x8000_0000
  {
    MulLe(y, 0x4000_0000, a);
  }

  /** Two steps from a seed good to one part in 128. */
  lemma TwoStepsQ31(a: int, seed: int)
    requires 0x4000_0000 <= a < 0x8000_0000 && 0 <= seed < 0x8000_0000 && NearQ31(a, seed)
    ensures 0 < TARGET_Q31 - a * NewtonQ31(a, seed, 2) < 0x3_0020_0000
  {
    var x1 := StepQ31(a, seed);
    StepQ31Undershoots(a, seed);
    SquareBound(TARGET_Q31 - a * seed, 0x40_0000_0000_0000);
    var e1 := TARGET_Q31 - a * x1;
    assert 0 < e1 <= 0x8002_0000_0000;
    StepQ31Undershoots(a, x1);
    SquareBound(e1, 0x8002_0000_0000);
    assert NewtonQ31(a, seed, 1) == x1;
    assert NewtonQ31(a, seed, 2) == StepQ31(a, x1);
  }

  /** For any other input the unsigned subtraction makes tempVal at least 2^31-1,
      and every step overshoots into the clip. */
  lemma StepQ31Saturates(a: int, x: int)
    requires -0x8000_0000 < a <= 0 && 0x4000_0000 <= x < 0x8000_0000
    ensures StepQ31(a, x) == 0x7FFF_FFFF
  {
    NegMul(a, x);
    ProductBetween(-a, x, 0x7FFF_FFFF);
    var tempVal := TempQ31(a * x);
    LargeTemp(a * x);
    ClippedRange(x, tempVal);
    OverTop(x, tempVal);
  }

  lemma LargeTemp(z: int)
    requires -0x4000_0000_0000_0000 < z <= 0
    ensures 0x7FFF_FFFF <= TempQ31(z)
  {
    var d := z / 0x8000_0000;
    assert ToU32(d) == if d < 0 then d + 0x1_0000_0000 else 0;
  }

  lemma OverTop(x: int, tempVal: int)
    requires 0x4000_0000 <= x && 0x7FFF_FFFF <= tempVal
    ensures SatQ31(x * tempVal / 0x4000_0000) == 0x7FFF_FFFF
  {
    MulLe(tempVal, 0x4000_0000, x);
  }

  /** An accurate table lies in the upper half of the positive range. */
  lemma AccurateSeedQ31(t: seq<int>, k: int)
    requires TableQ31(t) && AccurateQ31(t) && 0 <= k < 64
    ensures 0x4000_0000 <= t[k] < 0x8000_0000
  {
    var a := (64 + k) * 0x100_0000;
    assert SeedIndexQ31(a) == k;
    assert NearQ31(a, t[k]);
    if t[k] < 0x4000_0000 {
      MulLe(a, t[k], 0x3FFF_FFFF);
      assert false;
    }
  }

  /** arm_recip_q31 inverts its input exactly when the input is positive. */
  lemma RecipQ31Result(x: int, t: seq<int>)
    requires -0x8000_0000 < x < 0x8000_0000 && TableQ31(t) && AccurateQ31(t)
    ensures var r := NewtonQ31(NormalQ31(x), t[SeedIndexQ31(NormalQ31(x))], 2);
            && (x > 0 <==> 0 < TARGET_Q31 - NormalQ31(x) * r < 0x3_0020_0000)
            && (x <= 0 ==> r == 0x7FFF_FFFF)
  {
    var a := NormalQ31(x);
    var k := SeedIndexQ31(a);
    AccurateSeedQ31(t, k);
    if x > 0 {
      TwoStepsQ31(a, t[k]);
    } else {
      StepQ31Saturates(a, t[k]);
      assert NewtonQ31(a, t[k], 1) == 0x7FFF_FFFF;
      StepQ31Saturates(a, 0x7FFF_FFFF);
      MulLe(0x7FFF_FFFF, a, 0);
    }
  }

  lemma RecipQ31Claim(x: int, t: seq<int>)
    requires -0x8000_0000 < x < 0x8000_0000 && TableQ31(t)
    ensures var r := NewtonQ31(NormalQ31(x), t[SeedIndexQ31(NormalQ31(x))], 2);
            AccurateQ31(t) ==> if x > 0 then 0 < TARGET_Q31 - NormalQ31(x) * r < 0x3_0020_0000 else r == 0x7FFF_FFFF
  {
    if AccurateQ31(t) {
      RecipQ31Result(x, t);
    }
  }

  /** The seed at the middle of each cell is accurate, so the hypothesis on the
      table can be met. */
  lemma MidpointTableQ31(t: seq<int>)
    requires |t| == 64 && forall k :: 0 <= k < 64 ==> t[k] == 0x40_0000_0000 / (129 + 2 * k)
    ensures TableQ31(t) && AccurateQ31(t)
  {
    forall k | 0 <= k < 64
      ensures IsQ31(t[k]) && 0 < t[k] <= 0x7F01_FC07
    {
      Quotient(0x40_0000_0000, 129 + 2 * k, t[k]);
    }
    forall a | 0x4000_0000 <= a < 0x8000_0000
      ensures NearQ31(a, t[SeedIndexQ31(a)])
    {
      var k := SeedIndexQ31(a);
      assert k == a / 0x100_0000 - 64;
      var d := 129 + 2 * k;
      Quotient(0x40_0000_0000, d, t[k]);
      var off := a - d * 0x80_0000;
      MulBound(off, t[k], 0x80_0000, 0x7F01_FC07);
      assert a * t[k] == d * t[k] * 0x80_0000 + off * t[k];
    }
  }

  lemma Quotient(n: int, d: int, q: int)
    requires 129 <= d && n >= 0 && q == n / d
    ensures n - d < d * q <= n
    ensures 0 <= q <= n / 129
  {
    assert n == d * q + n % d;
    if q < 0 {
      MulLe(d, q, -1);
      assert false;
    }
    MulLe(q, 129, d);
  }

  // ----- Q15 -----

  /** Here nothing clips, yet no cast in the loop loses a bit: the unsigned
      product fits 32 bits and its shifted value fits 16. */
  lemma StepQ15Undershoots(a: int, x: int)
    requires 0x4000 <= a < 0x8000 && 0 <= x < 0x8000
    ensures 0 <= StepQ15(a, x)
    ensures a * StepQ15(a, x) < TARGET_Q15
    ensures StepQ15(a, x) == x * (0x7FFF - a * x / 0x8000) / 0x4000
    ensures TARGET_Q15 * (TARGET_Q15 - a * StepQ15(a, x))
              <= (TARGET_Q15 - a * x) * (TARGET_Q15 - a * x) + 0x8000 * (a * x) + a * TARGET_Q15
  {
    var z := a * x;
    ProductBetween(a, x, 0x7FFF);
    var t := z / 0x8000;
    var temp := 0x7FFF - t;
    ProductBetween(x, temp, 0x7FFF);
    var p := x * temp;
    var y := p / 0x4000;
    NewtonStep(0x8000, 0x4000, TARGET_Q15, a, x, t, temp, y);
    QuarterQ15(a, y);
    UnwrappedQ15(a, x, z, temp, p);
  }

  lemma QuarterQ15(a: int, y: int)
    requires 0x4000 <= a && 0 <= y && a * y < TARGET_Q15
    ensures y < 0x8000
  {
    MulLe(y, 0x4000, a);
  }

  /** The step when no cast drops a bit. */
  lemma UnwrappedQ15(a: int, x: int, z: int, temp: int, p: int)
    requires IsQ15(a) && 0 <= x < 0x8000 && z == a * x && 0 <= z < 0x4000_0000
    requires temp == 0x7FFF - z / 0x8000 && p == x * temp && 0 <= p / 0x4000 < 0x8000
    ensures StepQ15(a, x) == p / 0x4000
  {
    SmallTempQ15(z);
    SmallWord(x);
    NarrowSmall(p);
  }

  lemma SmallTempQ15(z: int)
    requires 0 <= z < 0x4000_0000
    ensures TempQ15(z) == 0x7FFF - z / 0x8000
  {
  }

  lemma SmallWord(x: int)
    requires 0 <= x < 0x8000
    ensures ToU32(x) == x
  {
  }

  lemma NarrowSmall(p: int)
    requires 0 <= p / 0x4000 < 0x8000
    ensures NarrowQ15(p) == p / 0x4000
  {
  }

  lemma TwoStepsQ15(a: int, seed: int)
    requires 0x4000 <= a < 0x8000 && 0 <= seed < 0x8000 && NearQ15(a, seed)
    ensures 0 < TARGET_Q15 - a * NewtonQ15(a, seed, 2) < 0x1_0020
  {
    var x1 := StepQ15(a, seed);
    StepQ15Undershoots(a, seed);
    SquareBound(TARGET_Q15 - a * seed, 0x40_0000);
    var e1 := TARGET_Q15 - a * x1;
    assert 0 < e1 <= 0x1_8100;
    StepQ15Undershoots(a, x1);
    SquareBound(e1, 0x1_8100);
    assert NewtonQ15(a, seed, 1) == x1;
    assert NewtonQ15(a, seed, 2) == StepQ15(a, x1);
  }

  lemma RecipQ15Result(x: int, t: seq<int>)
    requires 0 < x < 0x8000 && TableQ15(t) && AccurateQ15(t)
    ensures 0 < TARGET_Q15 - NormalQ15(x) * NewtonQ15(NormalQ15(x), t[SeedIndexQ15(NormalQ15(x))], 2) < 0x1_0020
  {
    var a := NormalQ15(x);
    var k := SeedIndexQ15(a);
    assert NearQ15(a, t[k]);
    AccurateSeedQ15(t, k);
    TwoStepsQ15(a, t[k]);
  }

  /** An accurate table lies in the upper half of the positive range, its first
      entry near the top of it. */
  lemma AccurateSeedQ15(t: seq<int>, k: int)
    requires TableQ15(t) && AccurateQ15(t) && 0 <= k < 64
    ensures 0x4000 <= t[k] < 0x8000 && (k == 0 ==> 0x7F00 <= t[k])
  {
    var a := (64 + k) * 0x100;
    assert SeedIndexQ15(a) == k;
    assert NearQ15(a, t[k]);
    if t[k] < 0x4000 {
      MulLe(a, t[k], 0x3FFF);
      assert false;
    }
  }

  /** For an input that is not positive the pass overshoots the word. */
  lemma OvershootsQ15(a: int, x: int)
    requires a <= -0x4000 || (a == 0 && 0x7F00 <= x)
    requires 0x4000 <= x
    ensures UncastQ15(a, x) >= 0x8000
  {
    var z := a * x;
    if a <= -0x4000 {
      MulLe(x, a, -0x4000);
    }
    var temp := 0x7FFF - z / 0x8000;
    MulLe(temp, if a == 0 then 0x7F00 else 0x4000, x);
  }

  /** The first pass keeps every bit of its value exactly when the input is
      positive; otherwise the cast wraps. */
  lemma FirstPassQ15Iff(x: int, t: seq<int>)
    requires -0x8000 < x < 0x8000 && TableQ15(t) && AccurateQ15(t)
    ensures var a := NormalQ15(x);
            var seed := t[SeedIndexQ15(a)];
            StepQ15(a, seed) == UncastQ15(a, seed) <==> x > 0
  {
    var a := NormalQ15(x);
    AccurateSeedQ15(t, SeedIndexQ15(a));
    if x > 0 {
      StepQ15Undershoots(a, t[SeedIndexQ15(a)]);
    } else {
      OvershootsQ15(a, t[SeedIndexQ15(a)]);
    }
  }

  lemma RecipQ15Claim(x: int, t: seq<int>)
    requires -0x8000 < x < 0x8000 && TableQ15(t)
    ensures var r := NewtonQ15(NormalQ15(x), t[SeedIndexQ15(NormalQ15(x))], 2);
            x > 0 && AccurateQ15(t) ==> 0 < TARGET_Q15 - NormalQ15(x) * r < 0x1_0020
  {
    if x > 0 && AccurateQ15(t) {
      RecipQ15Result(x, t);
    }
  }

  lemma MidpointTableQ15(t: seq<int>)
    requires |t| == 64 && forall k :: 0 <= k < 64 ==> t[k] == 0x40_0000 / (129 + 2 * k)
    ensures TableQ15(t) && AccurateQ15(t)
  {
    forall k | 0 <= k < 64
      ensures IsQ15(t[k]) && 0 <= t[k] <= 32513
    {
      Quotient(0x40_0000, 129 + 2 * k, t[k]);
    }
    forall a | 0x4000 <= a < 0x8000
      ensures NearQ15(a, t[SeedIndexQ15(a)])
    {
      var k := SeedIndexQ15(a);
      assert k == a / 0x100 - 64;
      var d := 129 + 2 * k;
      Quotient(0x40_0000, d, t[k]);
      var off := a - d * 0x80;
      MulBound(off, t[k], 0x80, 32513);
      assert a * t[k] == d * t[k] * 0x80 + off * t[k];
    }
  }
}
