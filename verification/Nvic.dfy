/** The nested vectored interrupt controller accessors of core_cm4.h.

    An interrupt number is an integer, negative for a processor exception.
    Write-one-to-set and write-one-to-clear semantics follow section B3.4 of the
    ARMv7-M Architecture Reference Manual. */
module Nvic {
  import opened Arithmetic
  import opened Words

  // the 240 external interrupts the register arrays have room for
  predicate IsIrq(irq: int) { irq < 240 }

  // ----- set and clear registers -----

  /** The eight words behind ISER and ICER, or behind ISPR and ICPR. */
  type Bits = w: seq<nat> | |w| == 8 witness [0, 0, 0, 0, 0, 0, 0, 0]

  function WriteOneToSet(regs: Bits, k: nat, w: nat): Bits
    requires k < 8
  {
    regs[k := Or(regs[k], w)]
  }

  function WriteOneToClear(regs: Bits, k: nat, w: nat): Bits
    requires k < 8
  {
    regs[k := AndNot(regs[k], w)]
  }

  /** The bit of an external interrupt: bit irq & 31 of word irq >> 5. */
  predicate BitOf(regs: Bits, irq: nat)
    requires IsIrq(irq)
  {
    Bit(regs[irq / 32], irq % 32)
  }

  /** Writing the mask of i changes bit i and no other, in any word. */
  lemma WriteMask(regs: Bits, i: nat, j: nat)
    requires IsIrq(i) && IsIrq(j)
    ensures BitOf(WriteOneToSet(regs, i / 32, Pow2(i % 32)), j) <==> i == j || BitOf(regs, j)
    ensures BitOf(WriteOneToClear(regs, i / 32, Pow2(i % 32)), j) <==> i != j && BitOf(regs, j)
  {
    if i / 32 == j / 32 {
      BitOfPow2(i % 32, j % 32);
      BitOfOr(regs[j / 32], Pow2(i % 32), j % 32);
      BitOfAndNot(regs[j / 32], Pow2(i % 32), j % 32);
    }
  }

  // ----- enable and pending -----

  datatype Bank = Bank(enabled: Bits, pending: Bits)

  datatype Op = Enable(irq: int) | Disable(irq: int) | SetPending(irq: int) | ClearPending(irq: int)

  /** One accessor call; a negative number is ignored. */
  function Apply(b: Bank, op: Op): Bank
    requires IsIrq(op.irq)
  {
    if op.irq < 0 then b
    else match op
      case Enable(i) => b.(enabled := WriteOneToSet(b.enabled, i / 32, Pow2(i % 32)))
      case Disable(i) => b.(enabled := WriteOneToClear(b.enabled, i / 32, Pow2(i % 32)))
      case SetPending(i) => b.(pending := WriteOneToSet(b.pending, i / 32, Pow2(i % 32)))
      case ClearPending(i) => b.(pending := WriteOneToClear(b.pending, i / 32, Pow2(i % 32)))
  }

  predicate IsRun(ops: seq<Op>) { forall k :: 0 <= k < |ops| ==> IsIrq(ops[k].irq) }

  function ApplyAll(b: Bank, ops: seq<Op>): Bank
    requires IsRun(ops)
  {
    if ops == [] then b else Apply(ApplyAll(b, ops[..|ops| - 1]), ops[|ops| - 1])
  }

  /** What the last Enable or Disable of i in a run asked for. */
  function LastEnable(ops: seq<Op>, i: nat, initially: bool): bool
  {
    if ops == [] then initially
    else match ops[|ops| - 1]
      case Enable(j) => if j == i then true else LastEnable(ops[..|ops| - 1], i, initially)
      case Disable(j) => if j == i then false else LastEnable(ops[..|ops| - 1], i, initially)
      case _ => LastEnable(ops[..|ops| - 1], i, initially)
  }

  function LastPending(ops: seq<Op>, i: nat, initially: bool): bool
  {
    if ops == [] then initially
    else match ops[|ops| - 1]
      case SetPending(j) => if j == i then true else LastPending(ops[..|ops| - 1], i, initially)
      case ClearPending(j) => if j == i then false else LastPending(ops[..|ops| - 1], i, initially)
      case _ => LastPending(ops[..|ops| - 1], i, initially)
  }

  /** After any run of calls on any interrupts, what is read for i is what the
      last call for i asked for: no call for another interrupt disturbs it, and
      enabling never touches pending or the other way round. */
  lemma {:induction false} ReadsLastCall(b: Bank, ops: seq<Op>, i: nat)
    requires IsRun(ops) && IsIrq(i)
    ensures BitOf(ApplyAll(b, ops).enabled, i) == LastEnable(ops, i, BitOf(b.enabled, i))
    ensures BitOf(ApplyAll(b, ops).pending, i) == LastPending(ops, i, BitOf(b.pending, i))
    decreases |ops|
  {
    if ops != [] {
      var before, op := ApplyAll(b, ops[..|ops| - 1]), ops[|ops| - 1];
      ReadsLastCall(b, ops[..|ops| - 1], i);
      if op.irq >= 0 {
        WriteMask(before.enabled, op.irq, i);
        WriteMask(before.pending, op.irq, i);
      }
    }
  }

  // ----- priority fields -----

  // __NVIC_PRIO_BITS of a device
  predicate PrioBits(n: nat) { 1 <= n <= 8 }

  /** The two field widths; only the three low bits of the group are used. */
  function PreemptBits(n: nat, group: nat): nat
  {
    if 7 - group % 8 > n then n else 7 - group % 8
  }

  function SubBits(n: nat, group: nat): nat
  {
    if group % 8 + n < 7 then 0 else group % 8 - 7 + n
  }

  lemma WidthsSplit(n: nat, group: nat)
    requires PrioBits(n)
    ensures PreemptBits(n, group) + SubBits(n, group) == n && PreemptBits(n, group) <= 7
  {
  }

  /** The expressions of NVIC_EncodePriority and NVIC_DecodePriority for fields of
      p and s bits. */
  function JoinFields(p: nat, s: nat, preempt: nat, sub: nat): nat
  {
    Or(And(preempt, Pow2(p) - 1) * Pow2(s), And(sub, Pow2(s) - 1))
  }

  function SplitFields(p: nat, s: nat, priority: nat): (nat, nat)
  {
    (And(Drop(priority, s), Pow2(p) - 1), And(priority, Pow2(s) - 1))
  }

  function Encode(n: nat, group: nat, preempt: nat, sub: nat): nat
  {
    JoinFields(PreemptBits(n, group), SubBits(n, group), preempt, sub)
  }

  function Decode(n: nat, group: nat, priority: nat): (nat, nat)
  {
    SplitFields(PreemptBits(n, group), SubBits(n, group), priority)
  }

  /** The joined value as a number: one field above the other, each modulo its
      width. */
  lemma JoinValue(p: nat, s: nat, preempt: nat, sub: nat)
    ensures JoinFields(p, s, preempt, sub) == Low(preempt, p) * Pow2(s) + Low(sub, s) < Pow2(p + s)
  {
    AndMask(preempt, p);
    AndMask(sub, s);
    LowBound(preempt, p);
    LowBound(sub, s);
    OrDisjoint(Low(preempt, p), Low(sub, s), s);
    JoinedBound(Low(preempt, p), p, Low(sub, s), s);
  }

  lemma JoinedBound(a: nat, p: nat, b: nat, s: nat)
    requires a < Pow2(p) && b < Pow2(s)
    ensures a * Pow2(s) + b < Pow2(p + s)
  {
    Pow2Add(p, s);
    MulLe(Pow2(s), a + 1, Pow2(p));
  }

  lemma SplitValue(p: nat, s: nat, v: nat)
    ensures SplitFields(p, s, v) == (Low(Drop(v, s), p), Low(v, s))
  {
    AndMask(Drop(v, s), p);
    AndMask(v, s);
  }

  lemma SplitOfJoin(p: nat, s: nat, preempt: nat, sub: nat)
    ensures SplitFields(p, s, JoinFields(p, s, preempt, sub)) == (Low(preempt, p), Low(sub, s))
  {
    var a, b := Low(preempt, p), Low(sub, s);
    LowBound(preempt, p);
    LowBound(sub, s);
    LowOfSmall(a, p);
    JoinValue(p, s, preempt, sub);
    SplitOfSum(p, s, a, b, JoinFields(p, s, preempt, sub));
  }

  lemma SplitOfSum(p: nat, s: nat, a: nat, b: nat, v: nat)
    requires v == a * Pow2(s) + b && a == Low(a, p) && b < Pow2(s)
    ensures SplitFields(p, s, v) == (a, b)
  {
    SplitValue(p, s, v);
    TakeApart(a, b, s);
  }

  lemma JoinOfSplit(p: nat, s: nat, v: nat)
    requires v < Pow2(p + s)
    ensures var d := SplitFields(p, s, v); JoinFields(p, s, d.0, d.1) == v
  {
    var a, b := Drop(v, s), Low(v, s);
    DropBound(v, s, p);
    LowOfSmall(a, p);
    LowBound(v, s);
    LowOfSmall(b, s);
    SplitValue(p, s, v);
    JoinValue(p, s, a, b);
    PutTogether(v, s);
  }

  /** Encode stays below 2^n. */
  lemma EncodeBound(n: nat, group: nat, preempt: nat, sub: nat)
    requires PrioBits(n)
    ensures Encode(n, group, preempt, sub) < Pow2(n)
  {
    WidthsSplit(n, group);
    JoinBound(PreemptBits(n, group), SubBits(n, group), n, preempt, sub);
  }

  lemma JoinBound(p: nat, s: nat, n: nat, preempt: nat, sub: nat)
    requires p + s == n
    ensures JoinFields(p, s, preempt, sub) < Pow2(n)
  {
    JoinValue(p, s, preempt, sub);
  }

  /** Decode after Encode reduces each field modulo its width. */
  lemma DecodeEncode(n: nat, group: nat, preempt: nat, sub: nat)
    ensures Decode(n, group, Encode(n, group, preempt, sub))
            == (Low(preempt, PreemptBits(n, group)), Low(sub, SubBits(n, group)))
  {
    SplitOfJoin(PreemptBits(n, group), SubBits(n, group), preempt, sub);
  }

  /** Encode after Decode is the identity on the priorities of n bits. */
  lemma EncodeDecode(n: nat, group: nat, v: nat)
    requires PrioBits(n) && v < Pow2(n)
    ensures var d := Decode(n, group, v); Encode(n, group, d.0, d.1) == v
  {
    WidthsSplit(n, group);
    JoinOfSplit(PreemptBits(n, group), SubBits(n, group), v);
  }

  /** Where the register byte is split: its bits above bit `group` are the
      preemption priority, those down to the unimplemented ones the subpriority.
      When all implemented bits are above, there is no subpriority. */
  lemma DecodeSplitsByte(n: nat, group: nat, v: nat)
    requires PrioBits(n) && v < Pow2(n)
    ensures var byte, point := v * Pow2(8 - n), Pow2(group % 8 + 1);
            && (group % 8 + n >= 7 ==>
                  Decode(n, group, v) == (byte / point, byte % point / Pow2(8 - n)))
            && (group % 8 + n < 7 ==> Decode(n, group, v) == (v, 0))
  {
    var p, s := PreemptBits(n, group), SubBits(n, group);
    SplitValue(p, s, v);
    DropBound(v, s, p);
    LowOfSmall(Drop(v, s), p);
    if group % 8 + n >= 7 {
      DropIsQuotient(v, s);
      LowIsRemainder(v, s);
      Pow2Add(8 - n, s);
      assert 8 - n + s == group % 8 + 1;
      ScaledDivision(v, Pow2(s), Pow2(8 - n));
    }
  }

  lemma ScaledDivision(v: nat, d: nat, k: nat)
    requires d > 0 && k > 0
    ensures k * d > 0 && v * k / (k * d) == v / d && v * k % (k * d) / k == v % d
  {
    var q, r := v / d, v % d;
    QuotientRemainder(v, d);
    MulLt(k, 0, d);
    MulLt(k, r, d);
    MulLe(k, 0, r);
    Distribute(d * q, r, k);
    assert d * q * k == k * d * q;
    QuotientIs(v * k, k * d, q, r * k);
    QuotientIs(r * k, k, r, 0);
  }

  /** Encoded priorities compare first by preemption, then by subpriority. */
  lemma EncodeOrder(n: nat, group: nat, p: nat, x: nat, q: nat, y: nat)
    requires PrioBits(n)
    requires p < Pow2(PreemptBits(n, group)) && q < Pow2(PreemptBits(n, group))
    requires x < Pow2(SubBits(n, group)) && y < Pow2(SubBits(n, group))
    ensures Encode(n, group, p, x) < Encode(n, group, q, y) <==> p < q || (p == q && x < y)
  {
    JoinValue(PreemptBits(n, group), SubBits(n, group), p, x);
    JoinValue(PreemptBits(n, group), SubBits(n, group), q, y);
    LowOfSmall(p, PreemptBits(n, group));
    LowOfSmall(q, PreemptBits(n, group));
    LowOfSmall(x, SubBits(n, group));
    LowOfSmall(y, SubBits(n, group));
    Lexicographic(Pow2(SubBits(n, group)), p, x, q, y);
  }

  lemma Lexicographic(s: nat, p: nat, x: nat, q: nat, y: nat)
    requires x < s && y < s
    ensures p * s + x < q * s + y <==> p < q || (p == q && x < y)
  {
    if p < q {
      MulLe(s, p + 1, q);
    } else if q < p {
      MulLe(s, q + 1, p);
    }
  }

  // ----- priority registers -----

  /** IP for the external interrupts, SHP for the handlers -12 .. -1. */
  datatype Priorities = Priorities(ip: seq<nat>, shp: seq<nat>)

  predicate Sized(p: Priorities) { |p.ip| == 240 && |p.shp| == 12 }

  predicate HasPriority(irq: int) { -12 <= irq < 240 }

  /** (irq & 0xF) - 4 on the two's-complement word of a negative number. */
  function HandlerIndex(irq: int): (k: nat)
    requires -12 <= irq < 0
    ensures k < 12
  {
    irq % 16 - 4
  }

  /** (uint8_t)((priority << (8 - n)) & 0xFF), the shift in 32 bits. */
  function ByteOf(n: nat, priority: nat): nat
    requires PrioBits(n)
  {
    And(priority * Pow2(8 - n) % 0x1_0000_0000, 0xFF)
  }

  function StoreByte(p: Priorities, irq: int, b: nat): (r: Priorities)
    requires HasPriority(irq) && Sized(p)
    ensures Sized(r)
  {
    if irq >= 0 then p.(ip := p.ip[irq := b]) else p.(shp := p.shp[HandlerIndex(irq) := b])
  }

  function LoadByte(p: Priorities, irq: int): nat
    requires HasPriority(irq) && Sized(p)
  {
    if irq >= 0 then p.ip[irq] else p.shp[HandlerIndex(irq)]
  }

  lemma LoadAfterStore(p: Priorities, i: int, j: int, b: nat)
    requires HasPriority(i) && HasPriority(j) && Sized(p)
    ensures LoadByte(StoreByte(p, i, b), j) == if i == j then b else LoadByte(p, j)
  {
  }

  function SetPriority(p: Priorities, n: nat, irq: int, priority: nat): (r: Priorities)
    requires PrioBits(n) && HasPriority(irq) && Sized(p)
    ensures Sized(r)
  {
    StoreByte(p, irq, ByteOf(n, priority))
  }

  function GetPriority(p: Priorities, n: nat, irq: int): nat
    requires PrioBits(n) && HasPriority(irq) && Sized(p)
  {
    Drop(LoadByte(p, irq), 8 - n)
  }

  lemma ByteValue(n: nat, priority: nat)
    requires PrioBits(n)
    ensures ByteOf(n, priority) == Low(priority, n) * Pow2(8 - n)
  {
    LowByte(priority * Pow2(8 - n));
    LowOfShifted(priority, 8 - n, n);
  }

  lemma LowByte(x: nat)
    ensures And(x % 0x1_0000_0000, 0xFF) == Low(x, 8)
  {
    assert Low(x % 0x1_0000_0000, 8) == Low(x, 8) by {
      Pow2Values();
      LowOfLow(x, 32, 8);
    }
    assert Pow2(8) == 0x100;
    AndMask(x % 0x1_0000_0000, 8);
  }

  /** The stored byte read back: the n low bits, whatever was shifted out. */
  lemma ByteRoundTrip(n: nat, priority: nat)
    requires PrioBits(n)
    ensures Drop(ByteOf(n, priority), 8 - n) == Low(priority, n)
  {
    ByteValue(n, priority);
    DropShifted(Low(priority, n), 8 - n);
  }

  lemma DropShifted(a: nat, m: nat)
    ensures Drop(a * Pow2(m), m) == a
  {
    Pow2Mono(0, m);
    TakeApart(a, 0, m);
  }

  /** Which byte is written, and with what: SHP[irq + 12] for a handler, IP[irq] for
      an interrupt, and no other. */
  lemma PriorityStored(p: Priorities, n: nat, irq: int, priority: nat)
    requires PrioBits(n) && HasPriority(irq) && Sized(p)
    ensures var r, b := SetPriority(p, n, irq, priority), priority % Pow2(n) * Pow2(8 - n);
            r == if irq < 0 then Priorities(p.ip, p.shp[irq + 12 := b]) else Priorities(p.ip[irq := b], p.shp)
  {
    StoredByte(n, priority);
    StoreByteAt(p, irq, ByteOf(n, priority));
  }

  lemma StoreByteAt(p: Priorities, irq: int, b: nat)
    requires HasPriority(irq) && Sized(p)
    ensures StoreByte(p, irq, b)
            == if irq < 0 then Priorities(p.ip, p.shp[irq + 12 := b]) else Priorities(p.ip[irq := b], p.shp)
  {
  }

  /** And which is read. */
  lemma PriorityRead(p: Priorities, n: nat, irq: int)
    requires PrioBits(n) && HasPriority(irq) && Sized(p)
    ensures GetPriority(p, n, irq) == (if irq < 0 then p.shp[irq + 12] else p.ip[irq]) / Pow2(8 - n)
  {
    DropIsQuotient(if irq < 0 then p.shp[irq + 12] else p.ip[irq], 8 - n);
  }

  lemma StoredByte(n: nat, priority: nat)
    requires PrioBits(n)
    ensures ByteOf(n, priority) == priority % Pow2(n) * Pow2(8 - n)
  {
    ByteValue(n, priority);
    LowIsRemainder(priority, n);
  }

  /** SetPriority then GetPriority returns the n low bits, for an interrupt and a
      handler alike, and leaves the priority of every other one alone. */
  lemma PriorityReadsBack(p: Priorities, n: nat, i: int, j: int, priority: nat)
    requires PrioBits(n) && HasPriority(i) && HasPriority(j) && Sized(p)
    ensures GetPriority(SetPriority(p, n, i, priority), n, j)
            == if i == j then Low(priority, n) else GetPriority(p, n, j)
  {
    LoadAfterStore(p, i, j, ByteOf(n, priority));
    ByteRoundTrip(n, priority);
  }

  /** Encode, store, read and decode: both fields come back modulo their widths. */
  lemma PriorityEndToEnd(p: Priorities, n: nat, group: nat, irq: int, preempt: nat, sub: nat)
    requires PrioBits(n) && HasPriority(irq) && Sized(p)
    ensures Decode(n, group, GetPriority(SetPriority(p, n, irq, Encode(n, group, preempt, sub)), n, irq))
            == (Low(preempt, PreemptBits(n, group)), Low(sub, SubBits(n, group)))
  {
    var v := Encode(n, group, preempt, sub);
    EncodeBound(n, group, preempt, sub);
    DecodeEncode(n, group, preempt, sub);
    PriorityReadsBack(p, n, irq, irq, v);
    LowOfSmall(v, n);
  }

  // ----- the accessors -----

  class Controller {
    // number of implemented priority bits
    const prioBits: nat
    var bank: Bank
    var priorities: Priorities

    ghost predicate Valid()
      reads this
    {
      PrioBits(prioBits) && Sized(priorities)
    }

    constructor (n: nat)
      requires PrioBits(n)
      ensures Valid() && prioBits == n
    {
      prioBits := n;
      bank := Bank([0, 0, 0, 0, 0, 0, 0, 0], [0, 0, 0, 0, 0, 0, 0, 0]);
      priorities := Priorities(seq(240, _ => 0), seq(12, _ => 0));
    }

    method EnableIRQ(irq: int)
      requires IsIrq(irq)
      modifies this`bank
      ensures bank == Apply(old(bank), Enable(irq))
    {
      if irq >= 0 {
        bank := bank.(enabled := WriteOneToSet(bank.enabled, irq / 32, Pow2(irq % 32)));
      }
    }

    method DisableIRQ(irq: int)
      requires IsIrq(irq)
      modifies this`bank
      ensures bank == Apply(old(bank), Disable(irq))
    {
      if irq >= 0 {
        bank := bank.(enabled := WriteOneToClear(bank.enabled, irq / 32, Pow2(irq % 32)));
      }
    }

    method SetPendingIRQ(irq: int)
      requires IsIrq(irq)
      modifies this`bank
      ensures bank == Apply(old(bank), SetPending(irq))
    {
      if irq >= 0 {
        bank := bank.(pending := WriteOneToSet(bank.pending, irq / 32, Pow2(irq % 32)));
      }
    }

    method ClearPendingIRQ(irq: int)
      requires IsIrq(irq)
      modifies this`bank
      ensures bank == Apply(old(bank), ClearPending(irq))
    {
      if irq >= 0 {
        bank := bank.(pending := WriteOneToClear(bank.pending, irq / 32, Pow2(irq % 32)));
      }
    }

    method GetEnableIRQ(irq: int) returns (r: nat)
      requires IsIrq(irq)
      ensures r == if irq >= 0 && BitOf(bank.enabled, irq) then 1 else 0
    {
      if irq >= 0 {
        TestBit(bank.enabled[irq / 32], irq % 32);
        r := if And(bank.enabled[irq / 32], Pow2(irq % 32)) != 0 then 1 else 0;
      } else {
        r := 0;
      }
    }

    method GetPendingIRQ(irq: int) returns (r: nat)
      requires IsIrq(irq)
      ensures r == if irq >= 0 && BitOf(bank.pending, irq) then 1 else 0
    {
      if irq >= 0 {
        TestBit(bank.pending[irq / 32], irq % 32);
        r := if And(bank.pending[irq / 32], Pow2(irq % 32)) != 0 then 1 else 0;
      } else {
        r := 0;
      }
    }

    method SetIrqPriority(irq: int, priority: nat)
      requires Valid() && HasPriority(irq)
      modifies this`priorities
      ensures Valid() && priorities == SetPriority(old(priorities), prioBits, irq, priority)
    {
      if irq >= 0 {
        priorities := priorities.(ip := priorities.ip[irq := ByteOf(prioBits, priority)]);
      } else {
        priorities := priorities.(shp := priorities.shp[HandlerIndex(irq) := ByteOf(prioBits, priority)]);
      }
    }

    method GetIrqPriority(irq: int) returns (r: nat)
      requires Valid() && HasPriority(irq)
      ensures r == GetPriority(priorities, prioBits, irq)
    {
      if irq >= 0 {
        r := Drop(priorities.ip[irq], 8 - prioBits);
      } else {
        r := Drop(priorities.shp[HandlerIndex(irq)], 8 - prioBits);
      }
    }
  }
}
