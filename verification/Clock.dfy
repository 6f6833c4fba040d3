/** The PLL clock set-up of system_n32g43x.c and the two routines that read it
    back: SystemCoreClockUpdate, and RCC_GetClocksFreqValue of n32g43x_rcc.c.

    Registers are bit-vectors with the masks of n32g43x.h; frequencies are
    integers in hertz. */
module Clock {
  import opened Arithmetic
  import opened FixedPoint
  import opened Words

  datatype Source = Hsi | Hse

  datatype Plan = Plan(srcDiv: int, div2: bool, mul: int)
  datatype Choice = Accept(plan: Plan) | Reject

  // ----- the preprocessor's choice of factors -----

  predicate Multiple(f: int, unit: int)
    requires unit > 0
  {
    f % unit == 0 && 2 <= f / unit <= 32
  }

  /** SYSCLK_FREQ from an oscillator: halved, whole, or halved with the extra
      divider, the first that fits. */
  function Select(f: int, osc: int): Choice
    requires osc >= 4
  {
    if f < 32_000_000 then Reject
    else if Multiple(f, osc / 2) then Accept(Plan(2, false, f / (osc / 2)))
    else if Multiple(f, osc) then Accept(Plan(1, false, f / osc))
    else if Multiple(f, osc / 4) then Accept(Plan(2, true, f / (osc / 4)))
    else Reject
  }

  /** A plan that makes f out of the oscillator. */
  predicate Plans(p: Plan, f: int, osc: int)
  {
    && 2 <= p.mul <= 32 && (p.srcDiv == 1 || p.srcDiv == 2) && (p.div2 ==> p.srcDiv == 2)
    && f == (if p.div2 then osc / 4 else if p.srcDiv == 2 then osc / 2 else osc) * p.mul
  }

  lemma SelectExact(f: int, osc: int)
    requires osc >= 4 && Select(f, osc).Accept?
    ensures var p := Select(f, osc).plan;
            Plans(p, f, osc)
  {
    QuotientRemainder(f, osc / 2);
    QuotientRemainder(f, osc);
    QuotientRemainder(f, osc / 4);
  }

  /** f is a multiplier of the PLL times a unit. */
  predicate Reaches(f: int, unit: int, mul: int) { 2 <= mul <= 32 && f == unit * mul }

  lemma MultipleIff(f: int, unit: int)
    requires unit > 0
    ensures Multiple(f, unit) <==> exists mul :: Reaches(f, unit, mul)
  {
    if Multiple(f, unit) {
      QuotientRemainder(f, unit);
      assert Reaches(f, unit, f / unit);
    }
    if mul :| Reaches(f, unit, mul) {
      QuotientIs(f, unit, mul, 0);
    }
  }

  /** Every frequency of 32 MHz or more that a multiplier makes out of half, all or a
      quarter of the oscillator is accepted, and by the first of the three. */
  lemma SelectIff(f: int, osc: int)
    requires osc >= 4
    ensures Select(f, osc).Accept? <==>
              f >= 32_000_000 && exists mul :: Reaches(f, osc / 2, mul) || Reaches(f, osc, mul) || Reaches(f, osc / 4, mul)
    ensures Select(f, osc).Accept? ==>
              var p := Select(f, osc).plan;
              && (p.srcDiv == 2 && !p.div2 <==> exists mul :: Reaches(f, osc / 2, mul))
              && (p.div2 ==> forall mul :: !Reaches(f, osc, mul))
  {
    MultipleIff(f, osc / 2);
    MultipleIff(f, osc);
    MultipleIff(f, osc / 4);
  }

  // ----- registers -----

  datatype Regs = Regs(cfg: bv32, pllhsipre: bv32, flashAc: bv32)

  const PLLMULFCT: bv32 := 0x083C_0000
  const PLLMULFCT_4: bv32 := 0x0800_0000
  const PLLSRC: bv32 := 0x0001_0000
  const PLLHSEPRES: bv32 := 0x0002_0000
  const SCLKSW: bv32 := 0x3
  const SCLKSTS: bv32 := 0xC
  const AHBPRES: bv32 := 0xF0
  const APB1PRES: bv32 := 0x700
  const APB2PRES: bv32 := 0x3800
  const PLLHSIPRE: bv32 := 0x1
  const PLLSRCDIV: bv32 := 0x2
  const LATENCY: bv32 := 0x3
  const PRFTBFEN: bv32 := 0x10
  const ICAHEN: bv32 := 0x80
  const LVMF: bv32 := 0x100
  const LVMEN: bv32 := 0x200

  // casts between words and integers, kept apart from the bit operations
  function ToWord(k: int): bv32
    requires 0 <= k < 0x1_0000_0000
  {
    k as bv32
  }

  function ToInt(w: bv32): int { w as int }

  /** The multiplier field is split: four bits at 18, the fifth at 27. */
  function EncodeMul(mul: int): bv32
    requires 2 <= mul <= 32
  {
    if mul <= 16 then LowCode(ToWord(mul - 2)) else HighCode(ToWord(mul - 17))
  }

  function LowCode(m: bv32): bv32 { m << 18 }
  function HighCode(m: bv32): bv32 { (m << 18) | PLLMULFCT_4 }

  function DecodeMul(cfg: bv32): int
  {
    if cfg & PLLMULFCT & PLLMULFCT_4 == 0 then ToInt(MulField(cfg)) + 2 else ToInt(MulField(cfg) - 496) + 1
  }

  function MulField(cfg: bv32): bv32 { (cfg & PLLMULFCT) >> 18 }

  lemma SmallWord(k: int)
    requires 0 <= k <= 15
    ensures ToInt(ToWord(k)) == k && ToWord(k) <= 15
  {
  }

  lemma LowField(m: bv32)
    requires m <= 15
    ensures LowCode(m) & !PLLMULFCT == 0 && LowCode(m) & PLLMULFCT & PLLMULFCT_4 == 0
    ensures LowCode(m) & PLLMULFCT_4 == 0
    ensures MulField(LowCode(m)) == m
  {
  }

  lemma HighField(m: bv32)
    requires m <= 15
    ensures HighCode(m) & !PLLMULFCT == 0 && HighCode(m) & PLLMULFCT & PLLMULFCT_4 != 0
    ensures HighCode(m) & PLLMULFCT_4 != 0
    ensures MulField(HighCode(m)) - 496 == m + 16
  {
  }

  lemma AddSixteen(m: bv32)
    requires m <= 15
    ensures ToInt(m + 16) == ToInt(m) + 16
  {
  }

  lemma LowHalfRoundTrip(mul: int)
    requires 2 <= mul <= 16
    ensures EncodeMul(mul) & !PLLMULFCT == 0 && EncodeMul(mul) & PLLMULFCT_4 == 0 && DecodeMul(EncodeMul(mul)) == mul
  {
    SmallWord(mul - 2);
    LowField(ToWord(mul - 2));
  }

  lemma HighHalfRoundTrip(mul: int)
    requires 17 <= mul <= 32
    ensures EncodeMul(mul) & !PLLMULFCT == 0 && EncodeMul(mul) & PLLMULFCT_4 != 0 && DecodeMul(EncodeMul(mul)) == mul
  {
    SmallWord(mul - 17);
    HighField(ToWord(mul - 17));
    AddSixteen(ToWord(mul - 17));
  }

  /** Both halves of the range decode to the multiplier that was encoded, from bits
      18 to 21 and 27 alone, the last set for the upper half. */
  lemma MulRoundTrip(mul: int)
    requires 2 <= mul <= 32
    ensures EncodeMul(mul) & !0x083C_0000 == 0 && DecodeMul(EncodeMul(mul)) == mul
    ensures EncodeMul(mul) & 0x0800_0000 != 0 <==> mul > 16
  {
    if mul <= 16 {
      LowHalfRoundTrip(mul);
    } else {
      HighHalfRoundTrip(mul);
    }
  }

  // ----- set-up -----

  /** What SystemInit leaves in the clock registers and the flash control before it
      calls SetSysClock. */
  function Init(r: Regs): Regs
  {
    Regs(r.cfg & 0xF8FF_C000 & 0x0700_FFFF, 0, FlashInit(r.flashAc))
  }

  /** Instruction cache on, prefetch off, and low voltage mode off if it was active. */
  function FlashInit(ac: bv32): bv32
  {
    var enabled := PrefetchOff(CacheOn(ac));
    if LowVoltage(enabled) then LowVoltageOff(enabled) else enabled
  }

  function CacheOn(ac: bv32): bv32 { ac | ICAHEN }
  function PrefetchOff(ac: bv32): bv32 { ac & !PRFTBFEN }
  function LowVoltageOff(ac: bv32): bv32 { ac & !LVMEN }
  predicate LowVoltage(ac: bv32) { ac & LVMF != 0 }

  /** The prescaler bits for the two peripheral buses. */
  function Apb2Bits(f: int): bv32 { if f > 54_000_000 then 0x2000 else 0 }
  function Apb1Bits(f: int): bv32 { if f > 54_000_000 then 0x500 else if f > 27_000_000 then 0x400 else 0 }

  function WaitStates(f: int): bv32
    requires 0 < f && IsU32(f)
  {
    ToWord((f - 1) / 32_000_000)
  }

  /** The bits SetSysClock ors into CFG for the source, and the PLLHSIPRE word. */
  function SourceBits(source: Source, p: Plan): bv32
  {
    if source == Hsi then 0 else if p.srcDiv == 1 then PLLSRC else PLLSRC | PLLHSEPRES
  }

  function PreBits(source: Source, p: Plan): bv32
  {
    (if source == Hsi && p.srcDiv != 1 then PLLHSIPRE else 0) | (if p.div2 then PLLSRCDIV else 0)
  }

  function WithLatency(ac: bv32, w: bv32): bv32 { (ac & !LATENCY) | w }

  /** Flash latency and bus prescalers. */
  function Prescaled(r: Regs, f: int): Regs
    requires 0 < f && IsU32(f)
  {
    Regs(r.cfg | Apb2Bits(f) | Apb1Bits(f), r.pllhsipre, WithLatency(r.flashAc, WaitStates(f)))
  }

  /** The PLL fields cleared and programmed, and the switch; the status field
      follows the switch in hardware. */
  function Programmed(r: Regs, source: bv32, pre: bv32, mul: bv32): Regs
  {
    Regs(ProgramCfg(r.cfg, source, mul), (r.pllhsipre & !(PLLHSIPRE | PLLSRCDIV)) | pre, r.flashAc)
  }

  function ProgramCfg(c: bv32, source: bv32, mul: bv32): bv32
  {
    var cfg := (c & !(PLLSRC | PLLHSEPRES | PLLMULFCT)) | source | mul;
    (((cfg & !SCLKSW) | 0x3) & !SCLKSTS) | 0xC
  }

  /** The registers after SetSysClock has switched to the PLL. */
  function SetClock(r: Regs, source: Source, p: Plan, f: int): Regs
    requires 2 <= p.mul <= 32 && 0 < f && IsU32(f)
  {
    Programmed(Prescaled(r, f), SourceBits(source, p), PreBits(source, p), EncodeMul(p.mul))
  }

  // ----- reading the clock back -----

  const AHB_SHIFTS := [0, 0, 0, 0, 0, 0, 0, 0, 1, 2, 3, 4, 6, 7, 8, 9]
  const APB_SHIFTS := [0, 0, 0, 0, 1, 2, 3, 4, 1, 2, 3, 4, 6, 7, 8, 9]

  /** x >> table[field], the field being four bits wide. */
  function ShiftedBy(x: int, table: seq<int>, field: bv32): int
    requires |table| == 16 && (forall k :: 0 <= k < 16 ==> 0 <= table[k] < 10) && field <= 15
  {
    x / Pow2(table[FieldIndex(field)])
  }

  function FieldIndex(field: bv32): (k: int)
    requires field <= 15
    ensures 0 <= k < 16
  {
    ToInt(field)
  }

  /** The PLL frequency in 32 bits, given the flag that halves the input clock. */
  function PllClock(osc: int, halved: bool, mul: int, div2: bool): int
  {
    var clock := (if halved then osc / 2 else osc) * mul % 0x1_0000_0000;
    if div2 then clock / 2 else clock
  }

  /** SystemCoreClockUpdate's value of the PLL: for the internal oscillator the
      flag it tests is PLLSRCDIV, not PLLHSIPRE. */
  function UpdatedPll(r: Regs, hsi: int, hse: int): int
  {
    if r.cfg & PLLSRC == 0
    then PllClock(hsi, r.pllhsipre & PLLSRCDIV != 0, DecodeMul(r.cfg), r.pllhsipre & PLLSRCDIV == 0x2)
    else PllClock(hse, r.cfg & PLLHSEPRES != 0, DecodeMul(r.cfg), r.pllhsipre & PLLSRCDIV == 0x2)
  }

  /** RCC_GetClocksFreqValue's value of the PLL. */
  function DriverPll(r: Regs, hsi: int, hse: int): int
  {
    if r.cfg & PLLSRC == 0
    then PllClock(hsi, r.pllhsipre & PLLHSIPRE != 0, DecodeMul(r.cfg), r.pllhsipre & PLLSRCDIV != 0)
    else PllClock(hse, r.cfg & PLLHSEPRES != 0, DecodeMul(r.cfg), r.pllhsipre & PLLSRCDIV != 0)
  }

  function SystemClock(r: Regs, pll: int, msi: int, hsi: int, hse: int): int
  {
    var tmp := r.cfg & SCLKSTS;
    if tmp == 0x4 then hsi else if tmp == 0x8 then hse else if tmp == 0xC then pll else msi
  }

  lemma FieldWidths(cfg: bv32)
    ensures (cfg & AHBPRES) >> 4 <= 15 && (cfg & APB1PRES) >> 8 <= 15 && (cfg & APB2PRES) >> 11 <= 15
  {
  }

  function CoreClock(r: Regs, msi: int, hsi: int, hse: int): int
  {
    FieldWidths(r.cfg);
    ShiftedBy(SystemClock(r, UpdatedPll(r, hsi, hse), msi, hsi, hse), AHB_SHIFTS, (r.cfg & AHBPRES) >> 4)
  }

  datatype Frequencies = Frequencies(sysclk: int, hclk: int, pclk1: int, pclk2: int)

  function DriverFrequencies(r: Regs, msi: int, hsi: int, hse: int): Frequencies
  {
    FieldWidths(r.cfg);
    var sysclk := SystemClock(r, DriverPll(r, hsi, hse), msi, hsi, hse);
    var hclk := ShiftedBy(sysclk, APB_SHIFTS, (r.cfg & AHBPRES) >> 4);
    Frequencies(sysclk, hclk, ShiftedBy(hclk, APB_SHIFTS, (r.cfg & APB1PRES) >> 8),
                ShiftedBy(hclk, APB_SHIFTS, (r.cfg & APB2PRES) >> 11))
  }

  /** The multiplier by its five bits. */
  lemma MulByFields(cfg: bv32)
    ensures DecodeMul(cfg) == ToInt((cfg >> 18) & 0xF) + (if cfg & 0x0800_0000 == 0 then 2 else 17)
  {
    var m := (cfg >> 18) & 0xF;
    FieldBits(cfg);
    assert m <= 15;
    AddSixteen(m);
  }

  lemma FieldBits(cfg: bv32)
    ensures cfg & PLLMULFCT & PLLMULFCT_4 == cfg & 0x0800_0000 && (cfg >> 18) & 0xF <= 15
    ensures MulField(cfg) == if cfg & 0x0800_0000 == 0 then (cfg >> 18) & 0xF else ((cfg >> 18) & 0xF) + 512
    ensures ((cfg >> 18) & 0xF) + 512 - 496 == ((cfg >> 18) & 0xF) + 16
  {
  }

  /** The PLL output in 32 bits: an oscillator, halved or not, times the multiplier,
      halved or not. */
  function PllOutput(input: int, mul: int, halved: bool): int
  {
    if halved then input * mul % 0x1_0000_0000 / 2 else input * mul % 0x1_0000_0000
  }

  /** What the two routines take for the PLL output, by the bits they test: the one
      halves the internal oscillator by bit 1 of PLLHSIPRE, the other by bit 0. */
  lemma PllByFields(r: Regs, hsi: int, hse: int)
    ensures var mul := ToInt((r.cfg >> 18) & 0xF) + (if r.cfg & 0x0800_0000 == 0 then 2 else 17);
            var external := if r.cfg & 0x2_0000 == 0 then hse else hse / 2;
            && UpdatedPll(r, hsi, hse)
               == PllOutput(if r.cfg & 0x1_0000 != 0 then external else if r.pllhsipre & 2 == 0 then hsi else hsi / 2,
                            mul, r.pllhsipre & 2 != 0)
            && DriverPll(r, hsi, hse)
               == PllOutput(if r.cfg & 0x1_0000 != 0 then external else if r.pllhsipre & 1 == 0 then hsi else hsi / 2,
                            mul, r.pllhsipre & 2 != 0)
  {
    MulByFields(r.cfg);
    OneBit(r.pllhsipre);
  }

  lemma OneBit(w: bv32)
    ensures w & 2 == 2 <==> w & 2 != 0
  {
  }

  /** x divided as the four bits of a prescaler field say. */
  function Divided(x: int, divisors: seq<int>, field: bv32): int
    requires field <= 15 && |divisors| == 16 && forall k :: 0 <= k < 16 ==> divisors[k] > 0
  {
    x / divisors[FieldIndex(field)]
  }

  lemma SmallPowers()
    ensures Pow2(0) == 1 && Pow2(1) == 2 && Pow2(2) == 4 && Pow2(3) == 8 && Pow2(4) == 16
    ensures Pow2(6) == 64 && Pow2(7) == 128 && Pow2(8) == 256 && Pow2(9) == 512
  {
  }

  lemma AhbDivides(x: int, field: bv32)
    requires field <= 15
    ensures ShiftedBy(x, AHB_SHIFTS, field)
            == Divided(x, [1, 1, 1, 1, 1, 1, 1, 1, 2, 4, 8, 16, 64, 128, 256, 512], field)
  {
    SmallPowers();
  }

  lemma ApbDivides(x: int, field: bv32)
    requires field <= 15
    ensures ShiftedBy(x, APB_SHIFTS, field)
            == Divided(x, [1, 1, 1, 1, 2, 4, 8, 16, 2, 4, 8, 16, 64, 128, 256, 512], field)
  {
    SmallPowers();
  }

  /** SystemCoreClockUpdate, by the two status bits and the divisor of the core. */
  lemma CoreClockByStatus(r: Regs, msi: int, hsi: int, hse: int)
    ensures (r.cfg & 0xF0) >> 4 <= 15
    ensures var status := r.cfg & 0xC;
            var source := if status == 0 then msi else if status == 4 then hsi else if status == 8 then hse
                          else UpdatedPll(r, hsi, hse);
            CoreClock(r, msi, hsi, hse)
            == Divided(source, [1, 1, 1, 1, 1, 1, 1, 1, 2, 4, 8, 16, 64, 128, 256, 512], (r.cfg & 0xF0) >> 4)
  {
    FieldWidths(r.cfg);
    StatusBits(r.cfg);
    AhbDivides(SystemClock(r, UpdatedPll(r, hsi, hse), msi, hsi, hse), (r.cfg & 0xF0) >> 4);
  }

  /** RCC_GetClocksFreqValue likewise; its table also divides for the reserved values
      4 to 7 of the core field. */
  lemma DriverByStatus(r: Regs, msi: int, hsi: int, hse: int)
    ensures (r.cfg & 0xF0) >> 4 <= 15 && (r.cfg & 0x700) >> 8 <= 15 && (r.cfg & 0x3800) >> 11 <= 15
    ensures var status := r.cfg & 0xC;
            var d := DriverFrequencies(r, msi, hsi, hse);
            var divisors := [1, 1, 1, 1, 2, 4, 8, 16, 2, 4, 8, 16, 64, 128, 256, 512];
            && d.sysclk == (if status == 0 then msi else if status == 4 then hsi else if status == 8 then hse
                            else DriverPll(r, hsi, hse))
            && d.hclk == Divided(d.sysclk, divisors, (r.cfg & 0xF0) >> 4)
            && d.pclk1 == Divided(d.hclk, divisors, (r.cfg & 0x700) >> 8)
            && d.pclk2 == Divided(d.hclk, divisors, (r.cfg & 0x3800) >> 11)
  {
    FieldWidths(r.cfg);
    StatusBits(r.cfg);
    var d := DriverFrequencies(r, msi, hsi, hse);
    ApbDivides(d.sysclk, (r.cfg & 0xF0) >> 4);
    ApbDivides(d.hclk, (r.cfg & 0x700) >> 8);
    ApbDivides(d.hclk, (r.cfg & 0x3800) >> 11);
  }

  lemma StatusBits(cfg: bv32)
    ensures cfg & 0xC == 0 || cfg & 0xC == 4 || cfg & 0xC == 8 || cfg & 0xC == 0xC
  {
  }

  // ----- the fields after set-up -----

  /** Every field of CFG as it stands after SetSysClock. */
  lemma CfgFields(c: bv32, a: bv32, b: bv32, s: bv32, e: bv32)
    requires a & !APB2PRES == 0 && b & !APB1PRES == 0 && s & !(PLLSRC | PLLHSEPRES) == 0 && e & !PLLMULFCT == 0
    ensures var cfg := ProgramCfg((c & 0xF8FF_C000 & 0x0700_FFFF) | a | b, s, e);
            && cfg & SCLKSTS == 0xC && cfg & AHBPRES == 0
            && cfg & APB2PRES == a && cfg & APB1PRES == b
            && cfg & PLLSRC == s & PLLSRC && cfg & PLLHSEPRES == s & PLLHSEPRES
            && cfg & PLLMULFCT == e & PLLMULFCT
            && cfg == (c & 0xC000) | a | b | s | e | 0xF
  {
  }

  lemma FieldShapes(f: int, source: Source, p: Plan)
    ensures Apb2Bits(f) & !APB2PRES == 0 && Apb1Bits(f) & !APB1PRES == 0
    ensures SourceBits(source, p) & !(PLLSRC | PLLHSEPRES) == 0
  {
  }

  lemma SameMul(c: bv32, d: bv32)
    requires c & PLLMULFCT == d & PLLMULFCT
    ensures DecodeMul(c) == DecodeMul(d)
  {
  }

  /** SystemInit then SetSysClock, on any registers. */
  function Configured(r: Regs, source: Source, f: int, osc: int): Regs
    requires osc >= 4 && IsU32(f) && Select(f, osc).Accept?
  {
    SelectExact(f, osc);
    SetClock(Init(r), source, Select(f, osc).plan, f)
  }

  lemma ConfiguredCfg(r: Regs, source: Source, f: int, osc: int)
    requires osc >= 4 && IsU32(f) && Select(f, osc).Accept?
    ensures var cfg, p := Configured(r, source, f, osc).cfg, Select(f, osc).plan;
            && cfg & SCLKSTS == 0xC && cfg & AHBPRES == 0
            && cfg & APB2PRES == Apb2Bits(f) && cfg & APB1PRES == Apb1Bits(f)
            && cfg & PLLSRC == SourceBits(source, p) & PLLSRC
            && cfg & PLLHSEPRES == SourceBits(source, p) & PLLHSEPRES
            && DecodeMul(cfg) == p.mul
  {
    SelectExact(f, osc);
    var p := Select(f, osc).plan;
    MulRoundTrip(p.mul);
    FieldShapes(f, source, p);
    CfgFields(r.cfg, Apb2Bits(f), Apb1Bits(f), SourceBits(source, p), EncodeMul(p.mul));
    SameMul(Configured(r, source, f, osc).cfg, EncodeMul(p.mul));
  }

  lemma ConfiguredPre(r: Regs, source: Source, f: int, osc: int)
    requires osc >= 4 && IsU32(f) && Select(f, osc).Accept?
    ensures var pre, p := Configured(r, source, f, osc).pllhsipre, Select(f, osc).plan;
            && (pre & PLLHSIPRE != 0 <==> source == Hsi && p.srcDiv != 1)
            && (pre & PLLSRCDIV != 0 <==> p.div2) && (pre & PLLSRCDIV == 0x2 <==> p.div2)
  {
    SelectExact(f, osc);
  }

  /** What the two flags read back as. */
  lemma SourceFlags(source: Source, p: Plan)
    ensures SourceBits(source, p) & PLLSRC == 0 <==> source == Hsi
    ensures SourceBits(source, p) & PLLHSEPRES != 0 <==> source == Hse && p.srcDiv != 1
  {
  }

  // ----- round trips -----

  /** The halved oscillator times the multiplier, halved again, against a quarter
      times the multiplier. */
  lemma QuarterTimes(osc: int, mul: int)
    requires osc >= 4 && 2 <= mul <= 32
    ensures osc / 2 * mul == 2 * (osc / 4 * mul) + (if osc % 4 < 2 then 0 else mul)
    ensures osc / 2 * mul / 2 == osc / 4 * mul <==> osc % 4 < 2
  {
    var b := if osc % 4 < 2 then 0 else 1;
    assert osc / 2 == 2 * (osc / 4) + b;
    assert osc / 2 * mul == 2 * (osc / 4 * mul) + b * mul;
  }

  lemma WholeTimes(osc: int, mul: int)
    requires osc >= 4 && 2 <= mul <= 32
    ensures osc * mul == 2 * (osc / 2 * mul) + osc % 2 * mul
    ensures 0 <= osc % 2 * mul <= 32 && osc / 2 * mul > 0
  {
    assert osc == 2 * (osc / 2) + osc % 2;
    assert osc / 2 >= 2;
  }

  lemma PllOfProduct(osc: int, halved: bool, mul: int, div2: bool, x: int)
    requires x == (if halved then osc / 2 else osc) * mul && IsU32(x)
    ensures PllClock(osc, halved, mul, div2) == if div2 then x / 2 else x
  {
  }

  /** The PLL value decoded with the right halving flag. */
  lemma PlanValue(p: Plan, f: int, osc: int)
    requires osc >= 4 && f < 0x7FFF_0000 && Plans(p, f, osc)
    ensures PllClock(osc, p.srcDiv != 1, p.mul, p.div2) == f <==> (p.div2 ==> osc % 4 < 2)
  {
    var half, whole := osc / 2 * p.mul, osc * p.mul;
    QuarterTimes(osc, p.mul);
    WholeTimes(osc, p.mul);
    PllOfProduct(osc, p.srcDiv != 1, p.mul, p.div2, if p.srcDiv == 1 then whole else half);
  }

  /** The PLL value decoded with the divider flag in place of the halving flag. */
  lemma SwappedFlagValue(p: Plan, f: int, osc: int)
    requires osc >= 4 && f < 0x7FFF_0000 && Plans(p, f, osc)
    ensures PllClock(osc, p.div2, p.mul, p.div2) == f <==> p.srcDiv == 1 || (p.div2 && osc % 4 < 2)
    ensures p.srcDiv == 2 && !p.div2 && osc % 2 == 0 ==> PllClock(osc, p.div2, p.mul, p.div2) == 2 * f
  {
    var half, whole := osc / 2 * p.mul, osc * p.mul;
    QuarterTimes(osc, p.mul);
    WholeTimes(osc, p.mul);
    PllOfProduct(osc, p.div2, p.mul, p.div2, if p.div2 then half else whole);
  }

  lemma NoShift(x: int, table: seq<int>)
    requires |table| == 16 && (forall k :: 0 <= k < 16 ==> 0 <= table[k] < 10) && table[0] == 0
    ensures ShiftedBy(x, table, 0) == x
  {
  }

  /** The oscillator frequencies of a build, by source. */
  predicate Oscillator(source: Source, osc: int, hsi: int, hse: int)
  {
    osc == if source == Hsi then hsi else hse
  }

  /** SystemCoreClockUpdate returns SYSCLK_FREQ for the external oscillator unless
      a quarter of it had to be rounded; for the internal one it does so only when
      the plan leaves the oscillator whole, or halves it and uses the divider. */
  lemma UpdateRoundTripIff(r: Regs, source: Source, f: int, osc: int, msi: int, hsi: int, hse: int)
    requires osc >= 4 && f < 0x7FFF_0000 && Select(f, osc).Accept? && Oscillator(source, osc, hsi, hse)
    ensures var p := Select(f, osc).plan;
            CoreClock(Configured(r, source, f, osc), msi, hsi, hse) == f
            <==> (p.div2 ==> osc % 4 < 2) && (source == Hsi ==> p.srcDiv == 1 || p.div2)
  {
    var p := Select(f, osc).plan;
    var c := Configured(r, source, f, osc);
    ConfiguredCfg(r, source, f, osc);
    ConfiguredPre(r, source, f, osc);
    SourceFlags(source, p);
    SelectExact(f, osc);
    PlanValue(p, f, osc);
    SwappedFlagValue(p, f, osc);
    NoShift(UpdatedPll(c, hsi, hse), AHB_SHIFTS);
  }

  /** The peripheral driver tests the right flag: it returns SYSCLK_FREQ for both
      oscillators, unless a quarter of one had to be rounded. */
  lemma DriverRoundTripIff(r: Regs, source: Source, f: int, osc: int, msi: int, hsi: int, hse: int)
    requires osc >= 4 && f < 0x7FFF_0000 && Select(f, osc).Accept? && Oscillator(source, osc, hsi, hse)
    ensures var p, d := Select(f, osc).plan, DriverFrequencies(Configured(r, source, f, osc), msi, hsi, hse);
            && d.sysclk == d.hclk
            && (d.hclk == f <==> (p.div2 ==> osc % 4 < 2))
  {
    var p := Select(f, osc).plan;
    var c := Configured(r, source, f, osc);
    ConfiguredCfg(r, source, f, osc);
    ConfiguredPre(r, source, f, osc);
    SourceFlags(source, p);
    SelectExact(f, osc);
    PlanValue(p, f, osc);
    NoShift(DriverPll(c, hsi, hse), APB_SHIFTS);
  }

  /** The shipped configuration, 96 MHz from the 16 MHz internal oscillator, is
      read back as 192 MHz by the one and as 96 MHz by the other. */
  lemma ShippedConfiguration(r: Regs, msi: int, hse: int)
    ensures Select(96_000_000, 16_000_000) == Accept(Plan(2, false, 12))
    ensures CoreClock(Configured(r, Hsi, 96_000_000, 16_000_000), msi, 16_000_000, hse) == 192_000_000
    ensures DriverFrequencies(Configured(r, Hsi, 96_000_000, 16_000_000), msi, 16_000_000, hse).hclk == 96_000_000
  {
    var f, osc := 96_000_000, 16_000_000;
    var c := Configured(r, Hsi, f, osc);
    ConfiguredCfg(r, Hsi, f, osc);
    ConfiguredPre(r, Hsi, f, osc);
    var p := Select(f, osc).plan;
    SourceFlags(Hsi, p);
    SwappedFlagValue(p, f, osc);
    NoShift(UpdatedPll(c, osc, hse), AHB_SHIFTS);
    DriverRoundTripIff(r, Hsi, f, osc, msi, osc, hse);
  }

  lemma PrescalerFields(f: int)
    ensures Apb2Bits(f) >> 11 == (if f > 54_000_000 then 4 else 0)
    ensures Apb1Bits(f) >> 8 == (if f > 54_000_000 then 5 else if f > 27_000_000 then 4 else 0)
  {
  }

  lemma ApbShift(x: int, field: bv32)
    requires field == 0 || field == 4 || field == 5
    ensures ShiftedBy(x, APB_SHIFTS, field) == if field == 0 then x else if field == 4 then x / 2 else x / 4
  {
    SmallPowers();
  }

  /** Each bus is divided by 1, 2 or 4 as its limit of 27 or 54 MHz asks up to
      108 MHz, and that is as far as the limits are kept (one hertz is lost in
      halving). */
  lemma LimitsKept(r: Regs, source: Source, f: int, osc: int, msi: int, hsi: int, hse: int)
    requires osc >= 4 && f < 0x7FFF_0000 && Select(f, osc).Accept? && Oscillator(source, osc, hsi, hse)
    requires Select(f, osc).plan.div2 ==> osc % 4 < 2
    ensures var d := DriverFrequencies(Configured(r, source, f, osc), msi, hsi, hse);
            && d.hclk == f
            && (d.pclk1 <= 27_000_000 && d.pclk2 <= 54_000_000 <==> f <= 108_000_001)
            && (d.pclk1 == f <==> f <= 27_000_000) && (d.pclk1 == f / 4 <==> f > 2 * 27_000_000)
            && (d.pclk1 == f / 2 <==> 27_000_000 < f <= 2 * 27_000_000)
            && (d.pclk2 == f <==> f <= 54_000_000) && (d.pclk2 == f / 2 <==> f > 54_000_000)
  {
    DriverRoundTripIff(r, source, f, osc, msi, hsi, hse);
    ConfiguredCfg(r, source, f, osc);
    PrescalerFields(f);
    ApbShift(f, Apb1Bits(f) >> 8);
    ApbShift(f, Apb2Bits(f) >> 11);
  }

  /** Cache on (bit 7), prefetch off (bit 4), low voltage mode off (bit 9) if it was
      active (bit 8), the latency w, and every other bit as before. */
  lemma FlashFields(a: bv32, w: bv32)
    requires w <= 3
    ensures WithLatency(FlashInit(a), w) == (a & !(if a & 0x100 != 0 then 0x213 else 0x13)) | 0x80 | w
  {
  }

  lemma ConfiguredFlash(r: Regs, source: Source, f: int, osc: int)
    requires osc >= 4 && IsU32(f) && Select(f, osc).Accept?
    ensures Configured(r, source, f, osc).flashAc == WithLatency(FlashInit(r.flashAc), WaitStates(f))
  {
  }

  /** The flash control after set-up has the fewest wait states that cover the
      frequency, as long as they fit their two bits: up to 128 MHz and no further. */
  lemma FlashLatency(r: Regs, source: Source, f: int, osc: int)
    requires osc >= 4 && IsU32(f) && Select(f, osc).Accept?
    ensures var ac := Configured(r, source, f, osc).flashAc;
            && (32_000_000 * ToInt(ac & 3) < f <= 32_000_000 * (ToInt(ac & 3) + 1) <==> f <= 128_000_000)
            && (f <= 128_000_000 ==>
                  ac & !3 == (r.flashAc & !(if r.flashAc & 0x100 != 0 then 0x213 else 0x13)) | 0x80)
  {
    ConfiguredFlash(r, source, f, osc);
    if f <= 128_000_000 {
      FewestWaitStates(f);
      LatencyBits(r.flashAc, WaitStates(f));
    } else {
      AtMostThree(Configured(r, source, f, osc).flashAc);
    }
  }

  lemma AtMostThree(ac: bv32)
    ensures ac & 3 <= 3
    ensures ToInt(ac & 3) <= 3
  {
  }

  lemma LatencyBits(a: bv32, w: bv32)
    requires w <= 3
    ensures WithLatency(FlashInit(a), w) & 3 == w
    ensures WithLatency(FlashInit(a), w) & !3 == (a & !(if a & 0x100 != 0 then 0x213 else 0x13)) | 0x80
  {
    FlashFields(a, w);
  }

  lemma FewestWaitStates(f: int)
    requires 0 < f <= 128_000_000
    ensures WaitStates(f) <= 3
    ensures 32_000_000 * ToInt(WaitStates(f)) < f <= 32_000_000 * (ToInt(WaitStates(f)) + 1)
  {
    var k := (f - 1) / 32_000_000;
    SmallWord(k);
    SmallLatency(k);
  }

  lemma SmallLatency(k: int)
    requires 0 <= k <= 3
    ensures ToWord(k) <= 3
  {
  }

  // ----- the routines -----

  const MSI_TABLE := [100_000, 200_000, 400_000, 800_000, 1_000_000, 2_000_000, 4_000_000]

  class Rcc {
    var regs: Regs
    var msiRange: nat
    var systemCoreClock: int

    /** SystemInit with a PLL source: reset the clock fields, then set the clock. */
    method SystemInit(source: Source, f: int, osc: int, started: bool)
      requires osc >= 4 && IsU32(f) && Select(f, osc).Accept?
      modifies this
      ensures msiRange == old(msiRange)
      ensures started ==> regs == Configured(old(regs), source, f, osc) && systemCoreClock == old(systemCoreClock)
      ensures !started ==> regs == Init(old(regs)) && systemCoreClock == 4_000_000
    {
      ResetClock();
      ResetFlash();
      SelectExact(f, osc);
      SetSysClock(source, f, Select(f, osc).plan, started);
    }

    method ResetClock()
      modifies this`regs
      ensures regs == Regs(old(regs).cfg & 0xF8FF_C000 & 0x0700_FFFF, 0, old(regs).flashAc)
    {
      regs := regs.(cfg := regs.cfg & 0xF8FF_C000);
      regs := regs.(cfg := regs.cfg & 0x0700_FFFF);
      regs := regs.(pllhsipre := 0);
    }

    method ResetFlash()
      modifies this`regs
      ensures regs == old(regs).(flashAc := FlashInit(old(regs).flashAc))
    {
      regs := regs.(flashAc := CacheOn(regs.flashAc));
      regs := regs.(flashAc := PrefetchOff(regs.flashAc));
      if LowVoltage(regs.flashAc) {
        regs := regs.(flashAc := LowVoltageOff(regs.flashAc));
      }
    }

    /** SetSysClock for a PLL source.  When the oscillator does not start, the
        registers stay and the clock is taken to be the fastest MSI range. */
    method SetSysClock(source: Source, f: int, plan: Plan, started: bool)
      requires 2 <= plan.mul <= 32 && 0 < f && IsU32(f)
      modifies this
      ensures msiRange == old(msiRange)
      ensures started ==> regs == SetClock(old(regs), source, plan, f) && systemCoreClock == old(systemCoreClock)
      ensures !started ==> regs == old(regs) && systemCoreClock == 4_000_000
    {
      if !started {
        systemCoreClock := 4_000_000;
        return;
      }
      Prescale(f);
      ProgramPll(SourceBits(source, plan), PreBits(source, plan), EncodeMul(plan.mul));
    }

    method Prescale(f: int)
      requires 0 < f && IsU32(f)
      modifies this`regs
      ensures regs == Prescaled(old(regs), f)
    {
      regs := regs.(flashAc := regs.flashAc & !LATENCY);
      regs := regs.(flashAc := regs.flashAc | WaitStates(f));
      regs := regs.(cfg := regs.cfg | Apb2Bits(f));
      regs := regs.(cfg := regs.cfg | Apb1Bits(f));
    }

    /** Clear the PLL fields, program them, and switch over. */
    method ProgramPll(sourceBits: bv32, preBits: bv32, mulBits: bv32)
      modifies this`regs
      ensures regs == Programmed(old(regs), sourceBits, preBits, mulBits)
    {
      regs := regs.(cfg := regs.cfg & !(PLLSRC | PLLHSEPRES | PLLMULFCT));
      regs := regs.(pllhsipre := regs.pllhsipre & !(PLLHSIPRE | PLLSRCDIV));
      var rccCfg := regs.cfg | sourceBits;
      var rccPllhsipre := regs.pllhsipre | preBits;
      rccCfg := rccCfg | mulBits;
      regs := regs.(cfg := rccCfg);
      regs := regs.(pllhsipre := rccPllhsipre);
      regs := regs.(cfg := regs.cfg & !SCLKSW);
      regs := regs.(cfg := regs.cfg | 0x3);
      // the hardware reports the new source
      regs := regs.(cfg := (regs.cfg & !SCLKSTS) | 0xC);
    }

    method UpdateFromPll(hsi: int, hse: int)
      modifies this`systemCoreClock
      ensures systemCoreClock == UpdatedPll(regs, hsi, hse)
    {
      var mul := DecodeMul(regs.cfg);
      if regs.cfg & PLLSRC == 0 {
        systemCoreClock := (if regs.pllhsipre & PLLSRCDIV != 0 then hsi / 2 else hsi) * mul % 0x1_0000_0000;
      } else {
        systemCoreClock := (if regs.cfg & PLLHSEPRES != 0 then hse / 2 else hse) * mul % 0x1_0000_0000;
      }
      if regs.pllhsipre & PLLSRCDIV == 0x2 {
        systemCoreClock := systemCoreClock / 2;
      }
    }

    method SystemCoreClockUpdate(hsi: int, hse: int)
      requires msiRange < 7
      modifies this`systemCoreClock
      ensures systemCoreClock
              == CoreClock(regs, [100_000, 200_000, 400_000, 800_000, 1_000_000, 2_000_000, 4_000_000][msiRange], hsi, hse)
    {
      var tmp := regs.cfg & SCLKSTS;
      if tmp == 0x4 {
        systemCoreClock := hsi;
      } else if tmp == 0x8 {
        systemCoreClock := hse;
      } else if tmp == 0xC {
        UpdateFromPll(hsi, hse);
      } else {
        systemCoreClock := MSI_TABLE[msiRange];
      }
      assert systemCoreClock == SystemClock(regs, UpdatedPll(regs, hsi, hse), MSI_TABLE[msiRange], hsi, hse);
      FieldWidths(regs.cfg);
      systemCoreClock := ShiftedBy(systemCoreClock, AHB_SHIFTS, (regs.cfg & AHBPRES) >> 4);
    }
  }
}
