/** Programming the memory protection unit: ARM_MPU_SetRegion, orderedCpy and
    ARM_MPU_Load of mpu_armv7.h.

    Register semantics follow section B3.5 of the ARMv7-M Architecture Reference
    Manual: writing RBAR with VALID set first moves RNR to the REGION field; then
    the base address of region RNR is replaced.  Writing RASR replaces the
    attributes of region RNR.  The three alias pairs behind RBAR and RASR act
    like the pair itself. */
module Mpu {
  import opened Arithmetic
  import opened Words

  // regions that fit the alias window, and words per table entry
  const RALIASES := 4
  const ROW_WORDS := 2

  datatype State = State(rnr: nat, base: map<nat, nat>, attr: map<nat, nat>)

  // the fields of RBAR: REGION in bits 0-3, VALID in bit 4, ADDR in bits 5-31
  function RegionField(rbar: nat): nat { rbar % 16 }
  predicate IsValid(rbar: nat) { rbar / 16 % 2 == 1 }
  function AddrField(rbar: nat): nat { rbar / 32 * 32 }

  /** The region a store to RBAR selects. */
  function Selected(rnr: nat, rbar: nat): nat
  {
    if IsValid(rbar) then RegionField(rbar) else rnr
  }

  function WriteRbar(s: State, w: nat): State
  {
    var n := Selected(s.rnr, w);
    State(n, s.base[n := AddrField(w)], s.attr)
  }

  function WriteRasr(s: State, w: nat): State
  {
    State(s.rnr, s.base, s.attr[s.rnr := w])
  }

  /** A store to word i of the window RBAR, RASR, RBAR_A1, .., RASR_A3. */
  function WriteWord(s: State, i: nat, w: nat): State
  {
    if i % 2 == 0 then WriteRbar(s, w) else WriteRasr(s, w)
  }

  /** The effect of ARM_MPU_SetRegion. */
  function SetOne(s: State, rbar: nat, rasr: nat): State
  {
    WriteRasr(WriteRbar(s, rbar), rasr)
  }

  /** A table is the words it occupies; entry j is the pair at 2*j. */
  predicate HasEntries(table: seq<nat>, n: int) { 2 * n <= |table| }

  /** ARM_MPU_SetRegion on entries 0, .., n - 1 in turn. */
  function SetEach(s: State, table: seq<nat>, n: nat): State
    requires HasEntries(table, n)
  {
    if n == 0 then s else SetOne(SetEach(s, table, n - 1), table[2 * n - 2], table[2 * n - 1])
  }

  /** The words from, .., from + n - 1 stored at window offsets 0, .., n - 1. */
  function Copied(s: State, words: seq<nat>, from: nat, n: nat): State
    requires from + n <= |words|
  {
    if n == 0 then s else WriteWord(Copied(s, words, from, n - 1), n - 1, words[from + n - 1])
  }

  /** The stores of a copy: window offset and word. */
  function Numbered(words: seq<nat>, from: nat, n: nat): seq<(nat, nat)>
    requires from + n <= |words|
  {
    if n == 0 then [] else Numbered(words, from, n - 1) + [(n - 1, words[from + n - 1])]
  }

  /** The first n words, at offsets that cycle through the window. */
  function Cyclic(words: seq<nat>, n: nat): (r: seq<(nat, nat)>)
    requires n <= |words|
    ensures |r| == n
  {
    if n == 0 then [] else Cyclic(words, n - 1) + [((n - 1) % 8, words[n - 1])]
  }

  class Unit {
    var state: State
    // every store made: its word offset in the window and its value
    ghost var trace: seq<(nat, nat)>

    method Store(i: nat, w: nat)
      requires i < RALIASES * ROW_WORDS
      modifies this
      ensures state == WriteWord(old(state), i, w) && trace == old(trace) + [(i, w)]
    {
      state := WriteWord(state, i, w);
      trace := trace + [(i, w)];
    }

    method SetRegion(rbar: nat, rasr: nat)
      modifies this
      ensures state == SetOne(old(state), rbar, rasr)
      ensures trace == old(trace) + [(0, rbar), (1, rasr)]
    {
      Store(0, rbar);
      Store(1, rasr);
    }

    /** Copies len words from src[from..] into the window, in order. */
    method OrderedCpy(src: seq<nat>, from: nat, len: nat)
      requires from + len <= |src| && len <= RALIASES * ROW_WORDS
      modifies this
      ensures state == Copied(old(state), src, from, len)
      ensures trace == old(trace) + Numbered(src, from, len)
    {
      var i := 0;
      while i < len
        invariant 0 <= i <= len
        invariant state == Copied(old(state), src, from, i)
        invariant trace == old(trace) + Numbered(src, from, i)
      {
        Store(i, src[from + i]);
        i := i + 1;
      }
    }

    /** ARM_MPU_Load: four entries at a time, then the rest.  The state is the one
        ARM_MPU_SetRegion leaves when called on each entry in turn, every table
        word is stored once and in order, and no store leaves the window. */
    method Load(table: seq<nat>, cnt: nat)
      requires HasEntries(table, cnt)
      modifies this
      ensures state == SetEach(old(state), table, cnt)
      ensures trace == old(trace) + Cyclic(table, 2 * cnt)
    {
      var at, left := 0, cnt;
      ghost var chunks: nat := 0;
      while left > RALIASES
        invariant 0 <= left <= cnt && at == cnt - left && at == RALIASES * chunks
        invariant state == SetEach(old(state), table, at)
        invariant trace == old(trace) + Cyclic(table, 2 * at)
      {
        LoadChunk(table, at, RALIASES, chunks, old(state), old(trace));
        at := at + RALIASES;
        left := left - RALIASES;
        chunks := chunks + 1;
      }
      LoadChunk(table, at, left, chunks, old(state), old(trace));
    }

    /** One copy of up to four entries. */
    method LoadChunk(table: seq<nat>, at: nat, n: nat, ghost chunks: nat, ghost s: State, ghost before: seq<(nat, nat)>)
      requires at == RALIASES * chunks && n <= RALIASES && HasEntries(table, at + n)
      requires state == SetEach(s, table, at) && trace == before + Cyclic(table, 2 * at)
      modifies this
      ensures state == SetEach(s, table, at + n) && trace == before + Cyclic(table, 2 * (at + n))
    {
      Chunk(s, table, chunks, at, n, before);
      OrderedCpy(table, at * ROW_WORDS, n * ROW_WORDS);
    }
  }

  /** A chunk of up to four entries copied through the window: the same state as
      setting its entries, and the same stores as the next part of the cycle. */
  lemma Chunk(s: State, table: seq<nat>, chunks: nat, at: nat, n: nat, before: seq<(nat, nat)>)
    requires at == RALIASES * chunks && n <= RALIASES && HasEntries(table, at + n)
    ensures Copied(SetEach(s, table, at), table, 2 * at, 2 * n) == SetEach(s, table, at + n)
    ensures before + Cyclic(table, 2 * at) + Numbered(table, 2 * at, 2 * n) == before + Cyclic(table, 2 * (at + n))
  {
    CopiedIsSetEach(s, table, at, n);
    NumberedIsCyclic(table, chunks, 2 * at, 2 * n);
    Associate(before, Cyclic(table, 2 * at), Numbered(table, 2 * at, 2 * n));
  }

  lemma Associate<T>(a: seq<T>, b: seq<T>, c: seq<T>)
    ensures a + b + c == a + (b + c)
  {
  }

  lemma {:induction false} CopiedIsSetEach(s: State, table: seq<nat>, at: nat, n: nat)
    requires HasEntries(table, at + n)
    ensures Copied(SetEach(s, table, at), table, 2 * at, 2 * n) == SetEach(s, table, at + n)
    decreases n
  {
    if n != 0 {
      CopiedIsSetEach(s, table, at, n - 1);
      CopiedPair(SetEach(s, table, at), table, 2 * at, n);
      LastEntry(SetEach(s, table, at), s, table, at, n);
    }
  }

  lemma SetEachStep(s: State, table: seq<nat>, m: nat)
    requires HasEntries(table, m + 1)
    ensures SetEach(s, table, m + 1) == SetOne(SetEach(s, table, m), table[2 * m], table[2 * m + 1])
  {
  }

  lemma LastEntry(c: State, s: State, table: seq<nat>, at: nat, n: nat)
    requires n > 0 && HasEntries(table, at + n)
    requires Copied(c, table, 2 * at, 2 * n - 2) == SetEach(s, table, at + n - 1)
    requires Copied(c, table, 2 * at, 2 * n)
               == SetOne(Copied(c, table, 2 * at, 2 * n - 2), table[2 * at + 2 * n - 2], table[2 * at + 2 * n - 1])
    ensures Copied(c, table, 2 * at, 2 * n) == SetEach(s, table, at + n)
  {
    SetEachStep(s, table, at + n - 1);
  }

  lemma CopiedPair(s: State, words: seq<nat>, from: nat, n: nat)
    requires n > 0 && from + 2 * n <= |words|
    ensures Copied(s, words, from, 2 * n)
              == SetOne(Copied(s, words, from, 2 * n - 2), words[from + 2 * n - 2], words[from + 2 * n - 1])
  {
    var c := Copied(s, words, from, 2 * n - 2);
    assert Copied(s, words, from, 2 * n - 1) == WriteWord(c, 2 * n - 2, words[from + 2 * n - 2]);
  }

  lemma {:induction false} NumberedIsCyclic(words: seq<nat>, chunks: nat, from: nat, n: nat)
    requires from == 8 * chunks && n <= 8 && from + n <= |words|
    ensures Cyclic(words, from) + Numbered(words, from, n) == Cyclic(words, from + n)
    decreases n
  {
    if n != 0 {
      NumberedIsCyclic(words, chunks, from, n - 1);
      Associate(Cyclic(words, from), Numbered(words, from, n - 1), [(n - 1, words[from + n - 1])]);
      CycleOffset(chunks, from, n - 1);
    }
  }

  lemma CycleOffset(chunks: nat, from: nat, m: nat)
    requires from == 8 * chunks && m < 8
    ensures (from + m) % 8 == m
  {
  }

  /** Store k of a load goes to offset k modulo the window and carries table word k. */
  lemma {:induction false} CyclicAt(words: seq<nat>, n: nat, k: nat)
    requires k < n <= |words|
    ensures Cyclic(words, n)[k] == (k % (RALIASES * ROW_WORDS), words[k])
    decreases n
  {
    if k < n - 1 {
      CyclicAt(words, n - 1, k);
    }
  }

  // ----- what the regions hold afterwards -----

  /** The region that entry j programs: its own if VALID, else the one before. */
  function Target(rnr: nat, table: seq<nat>, j: nat): nat
    requires HasEntries(table, j + 1)
  {
    Selected(if j == 0 then rnr else Target(rnr, table, j - 1), table[2 * j])
  }

  /** The last of the first n entries that programs region r, or -1. */
  function LastFor(rnr: nat, table: seq<nat>, r: nat, n: nat): (j: int)
    requires HasEntries(table, n)
    ensures -1 <= j < n && (j >= 0 ==> Target(rnr, table, j) == r)
    ensures forall k: nat :: j < k < n ==> Target(rnr, table, k) != r
  {
    if n == 0 then -1
    else if Target(rnr, table, n - 1) == r then n - 1
    else LastFor(rnr, table, r, n - 1)
  }

  predicate SameRegion(f: State, s: State, r: nat)
  {
    && (r in f.base <==> r in s.base) && (r in s.base ==> f.base[r] == s.base[r])
    && (r in f.attr <==> r in s.attr) && (r in s.attr ==> f.attr[r] == s.attr[r])
  }

  predicate Programmed(f: State, r: nat, rbar: nat, rasr: nat)
  {
    r in f.base && r in f.attr && f.base[r] == AddrField(rbar) && f.attr[r] == rasr
  }

  /** Loading a table leaves in each region the base and attributes of the last
      entry that targets it, and every other region alone. */
  lemma {:induction false} LoadedRegion(s: State, table: seq<nat>, n: nat, r: nat)
    requires HasEntries(table, n)
    ensures var f, j := SetEach(s, table, n), LastFor(s.rnr, table, r, n);
            if j >= 0 then Programmed(f, r, table[2 * j], table[2 * j + 1]) else SameRegion(f, s, r)
    ensures SetEach(s, table, n).rnr == if n == 0 then s.rnr else Target(s.rnr, table, n - 1)
    decreases n
  {
    if n != 0 {
      var m := n - 1;
      LoadedRegion(s, table, m, r);
      SetEachStep(s, table, m);
      SetOneRegion(SetEach(s, table, m), table[2 * m], table[2 * m + 1], r);
    }
  }

  /** One entry programs the region it selects and no other. */
  lemma SetOneRegion(s: State, rbar: nat, rasr: nat, r: nat)
    ensures var f, target := SetOne(s, rbar, rasr), Selected(s.rnr, rbar);
            && f.rnr == target
            && (if r == target then Programmed(f, r, rbar, rasr) else SameRegion(f, s, r))
  {
  }

  lemma {:induction false} TargetFixed(a: nat, b: nat, table: seq<nat>, j: nat)
    requires HasEntries(table, j + 1) && IsValid(table[0])
    ensures Target(a, table, j) == Target(b, table, j)
  {
    if j != 0 {
      TargetFixed(a, b, table, j - 1);
    }
  }

  lemma {:induction false} LastForFixed(a: nat, b: nat, table: seq<nat>, r: nat, n: nat)
    requires HasEntries(table, n) && (n > 0 ==> IsValid(table[0]))
    ensures LastFor(a, table, r, n) == LastFor(b, table, r, n)
  {
    if n != 0 {
      TargetFixed(a, b, table, n - 1);
      LastForFixed(a, b, table, r, n - 1);
    }
  }

  /** A table whose first entry is VALID can be loaded again without effect. */
  lemma LoadIdempotent(s: State, table: seq<nat>, n: nat)
    requires n > 0 && HasEntries(table, n) && IsValid(table[0])
    ensures var f := SetEach(s, table, n); SetEach(f, table, n) == f
  {
    var f := SetEach(s, table, n);
    var g := SetEach(f, table, n);
    forall r: nat
      ensures SameRegion(g, f, r)
    {
      LoadedRegion(s, table, n, r);
      LoadedRegion(f, table, n, r);
      LastForFixed(s.rnr, f.rnr, table, r, n);
    }
    SameEverywhere(g, f);
    LoadedRegion(s, table, n, 0);
    LoadedRegion(f, table, n, 0);
    TargetFixed(s.rnr, f.rnr, table, n - 1);
  }

  lemma SameEverywhere(g: State, f: State)
    requires forall r: nat :: SameRegion(g, f, r)
    ensures g.base == f.base && g.attr == f.attr
  {
    forall r: nat
      ensures (r in g.base <==> r in f.base) && (r in f.base ==> g.base[r] == f.base[r])
      ensures (r in g.attr <==> r in f.attr) && (r in f.attr ==> g.attr[r] == f.attr[r])
    {
      assert SameRegion(g, f, r);
    }
  }

  // ----- the words of a table -----

  /** ARM_MPU_RBAR. */
  function Rbar(region: nat, base: nat): nat
  {
    Or(Or(And(base, 0xFFFF_FFE0), And(region, 0xF)), 0x10)
  }

  /** The macro puts the region number, modulo 16, below the base address cut to
      32 bytes, with bit 4 between them. */
  lemma RbarValue(region: nat, base: nat)
    requires base < 0x1_0000_0000
    ensures Rbar(region, base) == base / 32 * 32 + 16 + region % 16
  {
    var m := base / 32;
    KeepsBase(m, base % 32, base, 0xFFFF_FFE0);
    KeepsRegion(region, 0xF);
    JoinsFields(m, region % 16);
  }

  lemma KeepsBase(m: nat, b: nat, base: nat, mask: nat)
    requires m < 0x800_0000 && b < 32 && base == m * 32 + b && mask == 0xFFFF_FFE0
    ensures And(base, mask) == m * 32
  {
    assert Pow2(5) == 32;
    KeepsLow(m, 0x7FF_FFFF);
    AndAbove(m, b, 0x7FF_FFFF, 5, base, mask);
  }

  lemma KeepsLow(m: nat, mask: nat)
    requires m < 0x800_0000 && mask == 0x7FF_FFFF
    ensures And(m, mask) == m
  {
    Pow2Is27();
    AndMask(m, 27);
    LowOfSmall(m, 27);
  }

  lemma Pow2Is27()
    ensures Pow2(27) == 0x800_0000
  {
    Pow2Values();
    Pow2Add(27, 3);
    assert Pow2(3) == 8;
  }

  lemma KeepsRegion(region: nat, mask: nat)
    requires mask == 0xF
    ensures And(region, mask) == region % 16
  {
    assert Pow2(4) == 16;
    AndMask(region, 4);
    LowIsRemainder(region, 4);
  }

  lemma JoinsFields(m: nat, region: nat)
    requires region < 16
    ensures Or(Or(m * 32, region), 0x10) == m * 32 + 16 + region
  {
    assert Pow2(5) == 32 && Pow2(4) == 16;
    OrDisjoint(m, region, 5);
    OrAbove(2 * m, region, 1, 4, m * 32 + region, 0x10);
    OrOne(m);
  }

  lemma OrOne(m: nat)
    ensures Or(2 * m, 1) == 2 * m + 1
  {
    OrZero(m);
  }

  /** An entry made with the macro programs the region and the base it names. */
  lemma RbarEntry(s: State, region: nat, base: nat, rbar: nat, rasr: nat)
    requires base < 0x1_0000_0000 && rbar == Rbar(region, base)
    ensures SetEach(s, [rbar, rasr], 1)
            == State(region % 16, s.base[region % 16 := base / 32 * 32], s.attr[region % 16 := rasr])
  {
    RbarValue(region, base);
    ValidEntry(s, rbar, region % 16, base / 32, rasr);
  }

  lemma ValidEntry(s: State, w: nat, region: nat, m: nat, rasr: nat)
    requires region < 16 && w == m * 32 + 16 + region
    ensures SetEach(s, [w, rasr], 1) == State(region, s.base[region := m * 32], s.attr[region := rasr])
  {
    ValidFields(w, region, m);
    EntryEffect(s, w, rasr, region, m * 32);
  }

  lemma ValidFields(w: nat, region: nat, m: nat)
    requires region < 16 && w == m * 32 + 16 + region
    ensures w % 16 == region && w / 16 % 2 == 1 && w / 32 * 32 == m * 32
  {
    QuotientIs(w, 16, 2 * m + 1, region);
    QuotientIs(2 * m + 1, 2, m, 1);
    QuotientIs(w, 32, m, 16 + region);
  }

  /** One with bit 4 clear programs the current region. */
  lemma PlainEntry(s: State, w: nat, rasr: nat)
    requires w / 16 % 2 == 0
    ensures SetEach(s, [w, rasr], 1) == State(s.rnr, s.base[s.rnr := w / 32 * 32], s.attr[s.rnr := rasr])
  {
    EntryEffect(s, w, rasr, s.rnr, w / 32 * 32);
  }

  lemma EntryEffect(s: State, w: nat, rasr: nat, region: nat, address: nat)
    requires region == if w / 16 % 2 == 1 then w % 16 else s.rnr
    requires address == w / 32 * 32
    ensures SetEach(s, [w, rasr], 1) == State(region, s.base[region := address], s.attr[region := rasr])
  {
    SetEachStep(s, [w, rasr], 0);
  }
}
