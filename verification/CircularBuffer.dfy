/** arm_circularWrite_* and arm_circularRead_* of arm_math.h.  The f32, q15 and
    q7 versions differ in the element type only. */
module CircularBuffer {
  import opened Arithmetic
  import opened FixedPoint

  /** The cell used by step k: start + k * inc, taken modulo the length. */
  function Pos(L: int, start: int, inc: int, k: nat): (p: int)
    requires L > 0
    ensures 0 <= p < L
  {
    (start + k * inc) % L
  }

  /** The update in the loops: a 32-bit sum and one conditional subtraction. */
  function Advance(L: int, offset: int, inc: int): int
  {
    Reduced(L, ToQ31(offset + inc))
  }

  function Reduced(L: int, w: int): int { if w >= L then w - L else w }

  /** The offset after k steps, whatever the stride. */
  function OffsetAt(L: int, start: int, inc: int, k: nat): int
  {
    if k == 0 then start else Advance(L, OffsetAt(L, start, inc, k - 1), inc)
  }

  predicate Buffer(L: int, start: int, inc: int) { 0 <= start < L <= 0x4000_0000 && IsQ31(inc) }

  /** The first n accesses all fall inside the buffer. */
  predicate InBuffer(L: int, start: int, inc: int, n: nat)
  {
    forall k :: 0 <= k < n ==> 0 <= OffsetAt(L, start, inc, k) < L
  }

  /** One step that stays inside is a step modulo the length. */
  lemma AdvanceIsPos(L: int, start: int, inc: int, k: nat)
    requires Buffer(L, start, inc) && 0 <= Advance(L, Pos(L, start, inc, k), inc) < L
    ensures Advance(L, Pos(L, start, inc, k), inc) == Pos(L, start, inc, k + 1)
  {
    var p := Pos(L, start, inc, k);
    assert (k + 1) * inc == k * inc + inc;
    RemainderOfSum(start + k * inc, inc, L);
    UnwrappedAdvance(L, p, inc);
    if p + inc >= L {
      QuotientIs(p + inc, L, 1, p + inc - L);
    } else {
      QuotientIs(p + inc, L, 0, p + inc);
    }
  }

  lemma UnwrappedAdvance(L: int, p: int, inc: int)
    requires 0 <= p < L <= 0x4000_0000 && IsQ31(inc)
    ensures Advance(L, p, inc) == if IsQ31(p + inc) then Reduced(L, p + inc) else p + inc - 0x1_0000_0000
    ensures !IsQ31(p + inc) ==> p + inc >= 0x8000_0000
  {
    ToQ31Fits(p + inc);
  }

  lemma PosZero(L: int, start: int, inc: int)
    requires 0 <= start < L
    ensures Pos(L, start, inc, 0) == start
  {
    QuotientIs(start, L, 0, start);
  }

  /** While the accesses stay inside the buffer, whatever the stride, step k uses
      the cell start + k * inc modulo the length. */
  lemma {:induction false} OffsetIsPos(L: int, start: int, inc: int, k: nat)
    requires Buffer(L, start, inc) && InBuffer(L, start, inc, k + 1)
    ensures OffsetAt(L, start, inc, k) == Pos(L, start, inc, k)
  {
    if k == 0 {
      PosZero(L, start, inc);
    } else {
      OffsetIsPos(L, start, inc, k - 1);
      assert 0 <= OffsetAt(L, start, inc, k) < L;
      AdvanceIsPos(L, start, inc, k - 1);
    }
  }

  /** The strides for which one subtraction is enough. */
  predicate Stride(L: int, inc: int) { 0 <= inc <= L }

  lemma {:induction false} StrideStays(L: int, start: int, inc: int, k: nat)
    requires Buffer(L, start, inc) && Stride(L, inc)
    ensures 0 <= OffsetAt(L, start, inc, k) < L
    ensures OffsetAt(L, start, inc, k) == Pos(L, start, inc, k)
  {
    if k == 0 {
      PosZero(L, start, inc);
    } else {
      StrideStays(L, start, inc, k - 1);
      UnwrappedAdvance(L, OffsetAt(L, start, inc, k - 1), inc);
      AdvanceIsPos(L, start, inc, k - 1);
    }
  }

  lemma FinalOffset(L: int, start: int, inc: int, n: nat)
    requires Buffer(L, start, inc)
    ensures Stride(L, inc) ==> OffsetAt(L, start, inc, n) == Pos(L, start, inc, n)
    ensures Stride(L, inc) && L <= 0x1_0000 ==> OffsetAt(L, start, inc, n) % 0x1_0000 == Pos(L, start, inc, n)
  {
    if Stride(L, inc) {
      StrideStays(L, start, inc, n);
    }
  }

  /** By how much the offset moves with any other stride while it is inside. */
  function Drift(L: int, inc: int): int { if inc < 0 then inc else inc - L }

  lemma {:induction false} DriftsOut(L: int, start: int, inc: int, k: nat)
    requires Buffer(L, start, inc) && !Stride(L, inc) && InBuffer(L, start, inc, k)
    ensures 0 <= OffsetAt(L, start, inc, k) < L <==> 0 <= start + k * Drift(L, inc) < L
    ensures 0 <= OffsetAt(L, start, inc, k) < L ==> OffsetAt(L, start, inc, k) == start + k * Drift(L, inc)
  {
    if k != 0 {
      DriftsOut(L, start, inc, k - 1);
      assert 0 <= OffsetAt(L, start, inc, k - 1) < L;
      DriftStep(L, OffsetAt(L, start, inc, k - 1), inc);
      Distribute(k - 1, 1, Drift(L, inc));
    }
  }

  lemma DriftStep(L: int, p: int, inc: int)
    requires 0 <= p < L <= 0x4000_0000 && IsQ31(inc) && !Stride(L, inc)
    ensures 0 <= Advance(L, p, inc) < L <==> 0 <= p + Drift(L, inc) < L
    ensures 0 <= Advance(L, p, inc) < L ==> Advance(L, p, inc) == p + Drift(L, inc)
  {
    UnwrappedAdvance(L, p, inc);
  }

  /** The accesses stay inside exactly when the stride is 0 up to the length, or
      the block is too short for the drift of the stride to leave the buffer. */
  lemma {:induction false} InBufferIff(L: int, start: int, inc: int, n: nat)
    requires Buffer(L, start, inc)
    ensures InBuffer(L, start, inc, n) <==> n <= 1 || Stride(L, inc) || 0 <= start + (n - 1) * Drift(L, inc) < L
  {
    if Stride(L, inc) {
      forall k | 0 <= k < n
        ensures 0 <= OffsetAt(L, start, inc, k) < L
      {
        StrideStays(L, start, inc, k);
      }
    } else if n >= 2 {
      InBufferIff(L, start, inc, n - 1);
      OneLess(n, Drift(L, inc));
      if InBuffer(L, start, inc, n - 1) {
        DriftsOut(L, start, inc, n - 1);
      }
    }
  }

  /** A failing input: a negative stride from the first cell. */
  lemma NegativeStrideLeaves()
    ensures OffsetAt(4, 0, -1, 1) == -1 && !InBuffer(4, 0, -1, 2)
  {
    assert OffsetAt(4, 0, -1, 0) == 0;
    UnwrappedAdvance(4, 0, -1);
  }

  lemma OneLess(n: int, d: int)
    requires n >= 2 && d != 0
    ensures (n - 1) * d == (n - 2) * d + d
    ensures d > 0 ==> (n - 2) * d >= 0
    ensures d < 0 ==> (n - 2) * d <= 0
  {
  }

  /** The source index of step k. */
  function SrcPos(start: int, inc: int, k: int): int { start + k * inc }

  lemma SrcStep(start: int, inc: int, k: int)
    ensures SrcPos(start, inc, k + 1) == SrcPos(start, inc, k) + inc
    ensures SrcPos(start, inc, 0) == start
  {
  }

  /** Every inc-th element of src from srcStart. */
  function Strided<T>(src: seq<T>, srcStart: int, srcInc: int, n: nat): (s: seq<T>)
    requires forall k :: 0 <= k < n ==> 0 <= SrcPos(srcStart, srcInc, k) < |src|
    ensures |s| == n && forall k :: 0 <= k < n ==> s[k] == src[SrcPos(srcStart, srcInc, k)]
  {
    seq(n, k requires 0 <= k < n => src[SrcPos(srcStart, srcInc, k)])
  }

  /** The buffer after the values have been written one after the other. */
  function Written<T>(buf: seq<T>, L: int, start: int, inc: int, vals: seq<T>): (r: seq<T>)
    requires 0 < L <= |buf|
    ensures |r| == |buf|
  {
    if vals == [] then buf
    else
      var n := |vals| - 1;
      Written(buf, L, start, inc, vals[..n])[Pos(L, start, inc, n) := vals[n]]
  }

  /** The samples met by n reads. */
  function ReadOut<T>(buf: seq<T>, L: int, start: int, inc: int, n: nat): (s: seq<T>)
    requires 0 < L <= |buf|
    ensures |s| == n && forall k :: 0 <= k < n ==> s[k] == buf[Pos(L, start, inc, k)]
  {
    seq(n, k requires 0 <= k < n => buf[Pos(L, start, inc, k)])
  }

  /** The destination index of arm_circularRead: it returns to the base when it
      meets the end exactly. */
  function DstPos(base: int, length: int, start: int, inc: int, k: nat): int
  {
    if k == 0 then start
    else
      var d := DstPos(base, length, start, inc, k - 1) + inc;
      if d == base + length then base else d
  }

  function Stored<T>(dst: seq<T>, base: int, length: int, start: int, inc: int, vals: seq<T>): (r: seq<T>)
    requires forall k :: 0 <= k < |vals| ==> 0 <= DstPos(base, length, start, inc, k) < |dst|
    ensures |r| == |dst|
  {
    if vals == [] then dst
    else
      var n := |vals| - 1;
      Stored(dst, base, length, start, inc, vals[..n])[DstPos(base, length, start, inc, n) := vals[n]]
  }

  lemma WrittenStep<T>(buf: seq<T>, L: int, start: int, inc: int, vals: seq<T>, k: nat)
    requires 0 < L <= |buf| && k < |vals|
    ensures Written(buf, L, start, inc, vals[..k + 1])
              == Written(buf, L, start, inc, vals[..k])[Pos(L, start, inc, k) := vals[k]]
  {
    assert vals[..k + 1][..k] == vals[..k];
  }

  lemma StoredStep<T>(dst: seq<T>, base: int, length: int, start: int, inc: int, vals: seq<T>, k: nat)
    requires forall i :: 0 <= i < |vals| ==> 0 <= DstPos(base, length, start, inc, i) < |dst|
    requires k < |vals|
    ensures Stored(dst, base, length, start, inc, vals[..k + 1])
              == Stored(dst, base, length, start, inc, vals[..k])[DstPos(base, length, start, inc, k) := vals[k]]
  {
    assert vals[..k + 1][..k] == vals[..k];
  }

  lemma DstStep(base: int, length: int, start: int, inc: int, k: nat)
    ensures var d := DstPos(base, length, start, inc, k) + inc;
            DstPos(base, length, start, inc, k + 1) == if d == base + length then base else d
  {
  }

  /** The offset update that all the loops share. */
  method Turn(L: int, offset: int, inc: int) returns (w: int)
    ensures w == Advance(L, offset, inc)
  {
    w := ToQ31(offset + inc);
    if w >= L {
      w := w - L;
    }
  }

  method NextDst(at: int, base: int, end: int) returns (d: int)
    ensures d == if at == end then base else at
  {
    d := at;
    if d == end {
      d := base;
    }
  }

  method CircularWrite<T>(circBuffer: array<T>, L: int, writeOffset: int, bufferInc: int,
                          src: array<T>, srcStart: int, srcInc: int, blockSize: nat)
    returns (offset: int)
    requires Buffer(L, writeOffset, bufferInc) && writeOffset < 0x1_0000
    requires L <= circBuffer.Length && src != circBuffer
    requires InBuffer(L, writeOffset, bufferInc, blockSize)
    requires forall k :: 0 <= k < blockSize ==> 0 <= SrcPos(srcStart, srcInc, k) < src.Length
    modifies circBuffer
    ensures circBuffer[..] == Written(old(circBuffer[..]), L, writeOffset, bufferInc,
                                      Strided(src[..], srcStart, srcInc, blockSize))
    ensures offset == OffsetAt(L, writeOffset, bufferInc, blockSize) % 0x1_0000
    ensures Stride(L, bufferInc) && L <= 0x1_0000 ==> offset == Pos(L, writeOffset, bufferInc, blockSize)
  {
    ghost var before, vals := circBuffer[..], Strided(src[..], srcStart, srcInc, blockSize);
    var wOffset := writeOffset;
    var from := srcStart;
    SrcStep(srcStart, srcInc, 0);
    var i := blockSize;
    assert vals[..0] == [];
    while i > 0
      invariant 0 <= i <= blockSize
      invariant from == SrcPos(srcStart, srcInc, blockSize - i)
      invariant wOffset == OffsetAt(L, writeOffset, bufferInc, blockSize - i)
      invariant circBuffer[..] == Written(before, L, writeOffset, bufferInc, vals[..blockSize - i])
    {
      ghost var k := blockSize - i;
      OffsetIsPos(L, writeOffset, bufferInc, k);
      assert src[from] == vals[k];
      ghost var written := circBuffer[..];
      circBuffer[wOffset] := src[from];
      assert circBuffer[..] == written[wOffset := vals[k]];
      WrittenStep(before, L, writeOffset, bufferInc, vals, k);
      from := from + srcInc;
      SrcStep(srcStart, srcInc, k);
      wOffset := Turn(L, wOffset, bufferInc);
      i := i - 1;
    }
    assert vals[..blockSize] == vals;
    FinalOffset(L, writeOffset, bufferInc, blockSize);
    // the cast to uint16_t
    offset := wOffset % 0x1_0000;
  }

  method CircularRead<T>(circBuffer: array<T>, L: int, readOffset: int, bufferInc: int,
                         dst: array<T>, dstStart: int, dstBase: int, dstLength: int, dstInc: int, blockSize: nat)
    returns (offset: int)
    requires Buffer(L, readOffset, bufferInc) && L <= circBuffer.Length && dst != circBuffer
    requires InBuffer(L, readOffset, bufferInc, blockSize)
    requires forall k :: 0 <= k < blockSize ==> 0 <= DstPos(dstBase, dstLength, dstStart, dstInc, k) < dst.Length
    modifies dst
    ensures dst[..] == Stored(old(dst[..]), dstBase, dstLength, dstStart, dstInc,
                              ReadOut(circBuffer[..], L, readOffset, bufferInc, blockSize))
    ensures offset == OffsetAt(L, readOffset, bufferInc, blockSize)
    ensures Stride(L, bufferInc) ==> offset == Pos(L, readOffset, bufferInc, blockSize)
  {
    ghost var before, vals := dst[..], ReadOut(circBuffer[..], L, readOffset, bufferInc, blockSize);
    var rOffset := readOffset;
    var at := dstStart;
    var dstEnd := dstBase + dstLength;
    var i := blockSize;
    assert vals[..0] == [];
    while i > 0
      invariant 0 <= i <= blockSize
      invariant at == DstPos(dstBase, dstLength, dstStart, dstInc, blockSize - i)
      invariant rOffset == OffsetAt(L, readOffset, bufferInc, blockSize - i)
      invariant dst[..] == Stored(before, dstBase, dstLength, dstStart, dstInc, vals[..blockSize - i])
    {
      ghost var k := blockSize - i;
      OffsetIsPos(L, readOffset, bufferInc, k);
      assert circBuffer[rOffset] == vals[k];
      ghost var stored := dst[..];
      dst[at] := circBuffer[rOffset];
      assert dst[..] == stored[at := vals[k]];
      StoredStep(before, dstBase, dstLength, dstStart, dstInc, vals, k);
      DstStep(dstBase, dstLength, dstStart, dstInc, k);
      at := NextDst(at + dstInc, dstBase, dstEnd);
      rOffset := Turn(L, rOffset, bufferInc);
      i := i - 1;
    }
    assert vals[..blockSize] == vals;
    FinalOffset(L, readOffset, bufferInc, blockSize);
    offset := rOffset;
  }

  // ----- one run is two runs -----

  lemma PosFrom(L: int, start: int, inc: int, n: nat, k: nat)
    requires L > 0
    ensures Pos(L, Pos(L, start, inc, n), inc, k) == Pos(L, start, inc, n + k)
  {
    RemainderOfSum(start + n * inc, k * inc, L);
    assert (n + k) * inc == n * inc + k * inc;
  }

  /** Writing a + b is writing a and then b from where a ended. */
  lemma {:induction false} WrittenSplit<T>(buf: seq<T>, L: int, start: int, inc: int, a: seq<T>, b: seq<T>)
    requires 0 < L <= |buf|
    ensures Written(buf, L, start, inc, a + b)
              == Written(Written(buf, L, start, inc, a), L, Pos(L, start, inc, |a|), inc, b)
    decreases |b|
  {
    if b == [] {
      assert a + b == a;
    } else {
      var n := |b| - 1;
      assert (a + b)[..|a + b| - 1] == a + b[..n];
      WrittenSplit(buf, L, start, inc, a, b[..n]);
      PosFrom(L, start, inc, |a|, n);
    }
  }

  /** The offsets of a run continue from where its first n steps end. */
  lemma {:induction false} OffsetFrom(L: int, start: int, inc: int, n: nat, k: nat)
    ensures OffsetAt(L, OffsetAt(L, start, inc, n), inc, k) == OffsetAt(L, start, inc, n + k)
  {
    if k != 0 {
      OffsetFrom(L, start, inc, n, k - 1);
      assert n + k - 1 == n + (k - 1);
    }
  }

  /** m further steps from next stay inside and end where n + m steps end. */
  predicate Continues(L: int, start: int, inc: int, n: nat, next: int, m: nat)
  {
    InBuffer(L, next, inc, m) && OffsetAt(L, next, inc, m) == OffsetAt(L, start, inc, n + m)
  }

  /** Two calls of the write with the offset that the first leaves, cut to 16 bits,
      are one call: for any stride, as long as the one call stays in the buffer. */
  lemma WriteTwice<T>(buf: seq<T>, L: int, start: int, inc: int, a: seq<T>, b: seq<T>, next: int)
    requires Buffer(L, start, inc) && L <= |buf| && L <= 0x1_0000 && b != []
    requires InBuffer(L, start, inc, |a| + |b|)
    requires next == OffsetAt(L, start, inc, |a|) % 0x1_0000
    ensures Buffer(L, next, inc) && Continues(L, start, inc, |a|, next, |b|)
    ensures Written(Written(buf, L, start, inc, a), L, next, inc, b) == Written(buf, L, start, inc, a + b)
  {
    CutKeeps(L, start, inc, |a|, next);
    SecondRun(L, start, inc, |a|, |b|, next);
    WrittenSplit(buf, L, start, inc, a, b);
  }

  lemma CutKeeps(L: int, start: int, inc: int, n: nat, next: int)
    requires Buffer(L, start, inc) && L <= 0x1_0000 && InBuffer(L, start, inc, n + 1)
    requires next == OffsetAt(L, start, inc, n) % 0x1_0000
    ensures 0 <= next < L && next == OffsetAt(L, start, inc, n) == Pos(L, start, inc, n)
  {
    assert 0 <= OffsetAt(L, start, inc, n) < L;
    OffsetIsPos(L, start, inc, n);
  }

  lemma SecondRun(L: int, start: int, inc: int, n: nat, m: nat, next: int)
    requires next == OffsetAt(L, start, inc, n) && InBuffer(L, start, inc, n + m)
    ensures Continues(L, start, inc, n, next, m)
  {
    OffsetFrom(L, start, inc, n, m);
    forall k | 0 <= k < m
      ensures 0 <= OffsetAt(L, next, inc, k) < L
    {
      OffsetFrom(L, start, inc, n, k);
      assert 0 <= OffsetAt(L, start, inc, n + k) < L;
    }
  }

  // ----- which steps share a cell -----

  predicate Divides(d: int, x: int)
    requires d > 0
  {
    x % d == 0
  }

  /** Two steps meet in one cell exactly when L divides the ground between them. */
  lemma PosEqualIff(L: int, start: int, inc: int, i: nat, j: nat)
    requires L > 0 && i <= j
    ensures Pos(L, start, inc, i) == Pos(L, start, inc, j) <==> Divides(L, (j - i) * inc)
  {
    var x, y := start + i * inc, (j - i) * inc;
    assert x + y == start + j * inc by {
      assert j * inc == i * inc + (j - i) * inc;
    }
    RemainderOfSum(x, y, L);
    QuotientRemainder(y, L);
    var r, s := x % L, y % L;
    assert (r + y) % L == (r + s) % L by {
      RemainderOfSum(y, r, L);
    }
    if r + s >= L {
      QuotientIs(r + s, L, 1, r + s - L);
    } else {
      QuotientIs(r + s, L, 0, r + s);
    }
  }

  /** The least positive number of steps that returns to the starting cell. */
  function Period(L: int, inc: int): (p: int)
    requires L > 0
    ensures 1 <= p <= L && Divides(L, p * inc)
    ensures forall k :: 1 <= k < p ==> !Divides(L, k * inc)
  {
    PeriodFrom(L, inc, 1)
  }

  function PeriodFrom(L: int, inc: int, k: int): (p: int)
    requires 1 <= k <= L && forall i :: 1 <= i < k ==> !Divides(L, i * inc)
    ensures k <= p <= L && Divides(L, p * inc)
    ensures forall i :: 1 <= i < p ==> !Divides(L, i * inc)
    decreases L - k
  {
    MultipleRemainder(L, inc);
    if Divides(L, k * inc) then k else PeriodFrom(L, inc, k + 1)
  }

  /** A block touches distinct cells exactly when it is no longer than the period. */
  lemma DistinctIff(L: int, start: int, inc: int, n: nat)
    requires L > 0
    ensures (forall i: nat, j: nat :: i < j < n ==> Pos(L, start, inc, i) != Pos(L, start, inc, j))
            <==> n <= Period(L, inc)
  {
    var p := Period(L, inc);
    if n <= p {
      forall i: nat, j: nat | i < j < n
        ensures Pos(L, start, inc, i) != Pos(L, start, inc, j)
      {
        PosEqualIff(L, start, inc, i, j);
        assert !Divides(L, (j - i) * inc);
      }
    } else {
      PosEqualIff(L, start, inc, 0, p);
      assert 0 < p < n && Pos(L, start, inc, 0) == Pos(L, start, inc, p);
    }
  }

  /** The period divides every number of steps that closes a round. */
  lemma PeriodDivides(L: int, inc: int, m: nat)
    requires L > 0 && Divides(L, m * inc)
    ensures Divides(Period(L, inc), m)
  {
    var p := Period(L, inc);
    var q, r := m / p, m % p;
    QuotientRemainder(m, p);
    QuotientRemainder(m * inc, L);
    QuotientRemainder(p * inc, L);
    var a, b := m * inc / L, p * inc / L;
    assert r * inc == L * (a - q * b) by {
      RoundsLeft(L, inc, m, p, q, r, a, b);
    }
    MultipleRemainder(L, a - q * b);
  }

  lemma RoundsLeft(L: int, inc: int, m: int, p: int, q: int, r: int, a: int, b: int)
    requires m == p * q + r && m * inc == L * a && p * inc == L * b
    ensures r * inc == L * (a - q * b)
  {
    assert m * inc == (p * q) * inc + r * inc;
    assert (p * q) * inc == q * (p * inc);
    assert q * (L * b) == L * (q * b);
    assert L * (a - q * b) == L * a - L * (q * b);
  }

  /** L / Period is the greatest common divisor of L and the stride. */
  lemma PeriodGcd(L: int, inc: int) returns (d: int)
    requires L > 0
    ensures d > 0 && d * Period(L, inc) == L && Divides(d, L) && Divides(d, inc)
    ensures forall e :: e > 0 && Divides(e, L) && Divides(e, inc) ==> e <= d
  {
    var p := Period(L, inc);
    MultipleRemainder(L, inc);
    PeriodDivides(L, inc, L);
    QuotientRemainder(L, p);
    d := L / p;
    assert d > 0 by {
      if d <= 0 { MulLe(p, d, 0); }
    }
    MultipleRemainder(d, p);
    QuotientRemainder(p * inc, L);
    var t := p * inc / L;
    assert p * inc == p * (d * t);
    CancelEq(p, inc, d * t);
    MultipleRemainder(d, t);
    forall e | e > 0 && Divides(e, L) && Divides(e, inc)
      ensures e <= d
    {
      CommonDivisorBound(L, inc, e);
      CancelLe(p, e, d);
    }
  }

  lemma CommonDivisorBound(L: int, inc: int, e: int)
    requires L > 0 && e > 0 && Divides(e, L) && Divides(e, inc)
    ensures Period(L, inc) * e <= L
  {
    QuotientRemainder(L, e);
    QuotientRemainder(inc, e);
    SharedFactor(L, inc, e, L / e, inc / e);
    assert Period(L, inc) <= L / e;
    MulLe(e, Period(L, inc), L / e);
  }

  lemma SharedFactor(L: int, inc: int, e: int, u: int, v: int)
    requires L > 0 && e > 0 && L == e * u && inc == e * v
    ensures u >= 1 && Divides(L, u * inc)
  {
    CancelLt(e, 0, u);
    Exchange(e, u, v);
    MultipleRemainder(L, v);
  }

  lemma Exchange(e: int, u: int, v: int)
    ensures u * (e * v) == (e * u) * v
  {
  }

  /** With a stride prime to the length a whole buffer can be written. */
  lemma CoprimePeriod(L: int, inc: int)
    requires L > 0 && forall e :: e > 1 && Divides(e, L) ==> !Divides(e, inc)
    ensures Period(L, inc) == L
  {
    var d := PeriodGcd(L, inc);
  }

  // ----- what is read back -----

  /** A cell that no step uses keeps its value. */
  lemma {:induction false} CellUntouched<T>(buf: seq<T>, L: int, start: int, inc: int, vals: seq<T>, c: int)
    requires 0 < L <= |buf| && 0 <= c < |buf|
    requires forall k: nat :: k < |vals| ==> Pos(L, start, inc, k) != c
    ensures Written(buf, L, start, inc, vals)[c] == buf[c]
  {
    if vals != [] {
      var n := |vals| - 1;
      CellUntouched(buf, L, start, inc, vals[..n], c);
      assert Pos(L, start, inc, n) != c;
    }
  }

  /** A cell holds the value of the last step that uses it. */
  lemma {:induction false} CellLastWrite<T>(buf: seq<T>, L: int, start: int, inc: int, vals: seq<T>, j: nat)
    requires 0 < L <= |buf| && j < |vals|
    requires forall k: nat :: j < k < |vals| ==> Pos(L, start, inc, k) != Pos(L, start, inc, j)
    ensures Written(buf, L, start, inc, vals)[Pos(L, start, inc, j)] == vals[j]
  {
    var n := |vals| - 1;
    if j < n {
      CellLastWrite(buf, L, start, inc, vals[..n], j);
      assert Pos(L, start, inc, n) != Pos(L, start, inc, j);
    }
  }

  /** Reading with the offset and stride of the write returns the samples in
      order when the block does not lap itself. */
  lemma ReadAfterWrite<T>(buf: seq<T>, L: int, start: int, inc: int, vals: seq<T>)
    requires 0 < L <= |buf| && |vals| <= Period(L, inc)
    ensures ReadOut(Written(buf, L, start, inc, vals), L, start, inc, |vals|) == vals
  {
    DistinctIff(L, start, inc, |vals|);
    var w := Written(buf, L, start, inc, vals);
    forall k: nat | k < |vals|
      ensures w[Pos(L, start, inc, k)] == vals[k]
    {
      CellLastWrite(buf, L, start, inc, vals, k);
    }
  }

  ghost predicate ReadsBack(buf: seq<int>, L: int, start: int, inc: int, n: nat)
    requires 0 < L <= |buf|
  {
    forall vals: seq<int> :: |vals| == n ==>
      ReadOut(Written(buf, L, start, inc, vals), L, start, inc, n) == vals
  }

  /** And only then: a longer block overwrites its own first sample. */
  lemma ReadsBackIff(buf: seq<int>, L: int, start: int, inc: int, n: nat)
    requires 0 < L <= |buf|
    ensures ReadsBack(buf, L, start, inc, n) <==> n <= Period(L, inc)
  {
    var p := Period(L, inc);
    if n <= p {
      forall vals: seq<int> | |vals| == n
        ensures ReadOut(Written(buf, L, start, inc, vals), L, start, inc, n) == vals
      {
        ReadAfterWrite(buf, L, start, inc, vals);
      }
    } else {
      var vals := seq(n, k => k);
      PosEqualIff(L, start, inc, 0, p);
      var got := ReadOut(Written(buf, L, start, inc, vals), L, start, inc, n);
      assert got[0] == got[p];
      assert vals[0] != vals[p];
      assert got != vals;
    }
  }

  // ----- the destination of a read -----

  predicate NotAmong(base: int, length: int, start: int, inc: int, n: nat, c: int)
  {
    forall k :: 0 <= k < n ==> DstPos(base, length, start, inc, k) != c
  }

  lemma {:induction false} StoredUntouched<T>(dst: seq<T>, base: int, length: int, start: int, inc: int, vals: seq<T>, c: int)
    requires 0 <= c < |dst|
    requires forall k :: 0 <= k < |vals| ==> 0 <= DstPos(base, length, start, inc, k) < |dst|
    requires NotAmong(base, length, start, inc, |vals|, c)
    ensures Stored(dst, base, length, start, inc, vals)[c] == dst[c]
  {
    if vals != [] {
      var n := |vals| - 1;
      StoredUntouched(dst, base, length, start, inc, vals[..n], c);
      assert DstPos(base, length, start, inc, n) != c;
    }
  }

  lemma {:induction false} StoredLastWrite<T>(dst: seq<T>, base: int, length: int, start: int, inc: int, vals: seq<T>, j: nat)
    requires j < |vals|
    requires forall k :: 0 <= k < |vals| ==> 0 <= DstPos(base, length, start, inc, k) < |dst|
    requires forall k :: j < k < |vals| ==> DstPos(base, length, start, inc, k) != DstPos(base, length, start, inc, j)
    ensures Stored(dst, base, length, start, inc, vals)[DstPos(base, length, start, inc, j)] == vals[j]
  {
    var n := |vals| - 1;
    if j < n {
      StoredLastWrite(dst, base, length, start, inc, vals[..n], j);
      assert DstPos(base, length, start, inc, n) != DstPos(base, length, start, inc, j);
    }
  }

  /** The strides with which a destination that starts in its buffer meets the end
      exactly, in every round. */
  predicate MeetsEnd(base: int, length: int, start: int, inc: int)
  {
    base <= start < base + length && inc > 0 && length % inc == 0 && (start - base) % inc == 0
  }

  /** Then step k uses the cell start + k * inc of the destination, modulo its
      length. */
  lemma {:induction false} DstIsPos(base: int, length: int, start: int, inc: int, k: nat)
    requires MeetsEnd(base, length, start, inc)
    ensures DstPos(base, length, start, inc, k) == base + Pos(length, start - base, inc, k)
    ensures Pos(length, start - base, inc, k) % inc == 0
  {
    if k == 0 {
      PosZero(length, start - base, inc);
    } else {
      DstIsPos(base, length, start, inc, k - 1);
      var p := Pos(length, start - base, inc, k - 1);
      DstStep(base, length, start, inc, k - 1);
      NextMultiple(p, inc, length);
      assert k * inc == (k - 1) * inc + inc;
      RemainderOfSum(start - base + (k - 1) * inc, inc, length);
      if p + inc == length {
        QuotientIs(p + inc, length, 1, 0);
      } else {
        QuotientIs(p + inc, length, 0, p + inc);
      }
    }
  }

  lemma NextMultiple(p: int, inc: int, length: int)
    requires 0 <= p < length && inc > 0 && p % inc == 0 && length % inc == 0
    ensures p + inc <= length && (p + inc) % inc == 0 && 0 % inc == 0
  {
    QuotientRemainder(p, inc);
    QuotientRemainder(length, inc);
    CancelLt(inc, p / inc, length / inc);
    MulLe(inc, p / inc + 1, length / inc);
    QuotientIs(p + inc, inc, p / inc + 1, 0);
    QuotientIs(0, inc, 0, 0);
  }

  /** A destination that starts anywhere in its buffer receives a block of up to a
      period of samples in order, each in its cell, around the end and on from the
      base, and is otherwise unchanged. */
  lemma StoredAround<T>(dst: seq<T>, base: int, length: int, start: int, inc: int, vals: seq<T>)
    requires MeetsEnd(base, length, start, inc) && 0 <= base && base + length <= |dst|
    requires |vals| <= Period(length, inc)
    ensures forall k :: 0 <= k < |vals| ==> 0 <= DstPos(base, length, start, inc, k) < |dst|
    ensures forall k: nat :: DstPos(base, length, start, inc, k) == base + (start - base + k * inc) % length
    ensures forall k :: 0 <= k < |vals| ==>
              Stored(dst, base, length, start, inc, vals)[DstPos(base, length, start, inc, k)] == vals[k]
    ensures forall c :: 0 <= c < |dst| && NotAmong(base, length, start, inc, |vals|, c) ==>
              Stored(dst, base, length, start, inc, vals)[c] == dst[c]
  {
    forall k: nat
      ensures DstPos(base, length, start, inc, k) == base + (start - base + k * inc) % length
    {
      DstIsPos(base, length, start, inc, k);
    }
    forall k: nat, j: nat | k < j < |vals|
      ensures DstPos(base, length, start, inc, k) != DstPos(base, length, start, inc, j)
    {
      DistinctIff(length, start - base, inc, |vals|);
      DstIsPos(base, length, start, inc, k);
      DstIsPos(base, length, start, inc, j);
    }
    forall k | 0 <= k < |vals|
      ensures Stored(dst, base, length, start, inc, vals)[DstPos(base, length, start, inc, k)] == vals[k]
    {
      StoredLastWrite(dst, base, length, start, inc, vals, k);
    }
    forall c | 0 <= c < |dst| && NotAmong(base, length, start, inc, |vals|, c)
      ensures Stored(dst, base, length, start, inc, vals)[c] == dst[c]
    {
      StoredUntouched(dst, base, length, start, inc, vals, c);
    }
  }

  /** Before the end is met the destination just advances. */
  lemma {:induction false} DstAdvances(base: int, length: int, start: int, inc: int, k: nat)
    requires forall i: nat :: 0 < i <= k ==> start + i * inc != base + length
    ensures DstPos(base, length, start, inc, k) == start + k * inc
  {
    if k != 0 {
      DstAdvances(base, length, start, inc, k - 1);
      assert (k - 1) * inc + inc == k * inc;
      assert start + k * inc != base + length;
    }
  }

  lemma {:induction false} DstFrom(base: int, length: int, start: int, inc: int, n: nat, k: nat)
    ensures DstPos(base, length, DstPos(base, length, start, inc, n), inc, k) == DstPos(base, length, start, inc, n + k)
  {
    if k != 0 {
      DstFrom(base, length, start, inc, n, k - 1);
      assert n + k - 1 == n + (k - 1);
    }
  }

  /** A positive stride that does not meet the end passes it. */
  lemma PassesEnd(base: int, length: int, start: int, inc: int) returns (k: nat)
    requires base <= start < base + length && inc > 0 && (base + length - start) % inc != 0
    ensures DstPos(base, length, start, inc, k) > base + length
  {
    var r := base + length - start;
    k := r / inc + 1;
    QuotientRemainder(r, inc);
    forall i: nat | 0 < i <= k
      ensures start + i * inc != base + length
    {
      if i * inc == r {
        QuotientIs(r, inc, i, 0);
      }
    }
    DstAdvances(base, length, start, inc, k);
    assert k * inc == r / inc * inc + inc;
  }

  /** A positive stride that meets the end is back at the base. */
  lemma MeetsBase(base: int, length: int, start: int, inc: int) returns (k: nat)
    requires base <= start < base + length && inc > 0 && (base + length - start) % inc == 0
    ensures DstPos(base, length, start, inc, k) == base
  {
    var r := base + length - start;
    k := r / inc;
    QuotientRemainder(r, inc);
    CancelLt(inc, 0, k);
    forall i: nat | 0 < i <= k - 1
      ensures start + i * inc != base + length
    {
      OneStepShort(inc, k, i);
    }
    DstAdvances(base, length, start, inc, k - 1);
    OneStepShort(inc, k, k - 1);
    DstStep(base, length, start, inc, k - 1);
  }

  lemma OneStepShort(inc: int, k: int, i: int)
    requires inc > 0 && i <= k - 1
    ensures i * inc + inc <= inc * k && (k - 1) * inc + inc == inc * k
  {
    MulLe(inc, i, k - 1);
  }

  ghost predicate StaysInDst(base: int, length: int, start: int, inc: int)
  {
    forall k: nat :: base <= DstPos(base, length, start, inc, k) < base + length
  }

  /** A destination stays in its buffer for blocks of any size exactly when its
      stride is 0 or divides both the length and the distance from the base. */
  lemma StaysInDstIff(base: int, length: int, start: int, inc: int)
    requires base <= start < base + length
    ensures StaysInDst(base, length, start, inc) <==> inc == 0 || MeetsEnd(base, length, start, inc)
  {
    if inc == 0 {
      forall k: nat
        ensures DstPos(base, length, start, inc, k) == start
      {
        DstAdvances(base, length, start, inc, k);
      }
    } else if MeetsEnd(base, length, start, inc) {
      forall k: nat
        ensures base <= DstPos(base, length, start, inc, k) < base + length
      {
        DstIsPos(base, length, start, inc, k);
      }
    } else if inc < 0 {
      var k := start - base + 1;
      forall i: nat | 0 < i <= k
        ensures start + i * inc != base + length
      {
        MulLe(i, inc, -1);
      }
      DstAdvances(base, length, start, inc, k);
      MulLe(k, inc, -1);
      assert DstPos(base, length, start, inc, k) < base;
    } else {
      LeavesDst(base, length, start, inc);
    }
  }

  lemma LeavesDst(base: int, length: int, start: int, inc: int)
    requires base <= start < base + length && inc > 0 && !MeetsEnd(base, length, start, inc)
    ensures !StaysInDst(base, length, start, inc)
  {
    if (base + length - start) % inc != 0 {
      var k := PassesEnd(base, length, start, inc);
    } else {
      var n := MeetsBase(base, length, start, inc);
      Remaining(length, start - base, inc);
      var k := PassesEnd(base, length, base, inc);
      DstFrom(base, length, start, inc, n, k);
    }
  }

  lemma Remaining(length: int, d: int, inc: int)
    requires inc > 0 && (length - d) % inc == 0
    ensures length % inc == 0 ==> d % inc == 0
  {
    if length % inc == 0 {
      QuotientRemainder(length, inc);
      QuotientRemainder(length - d, inc);
      MultipleRemainder(inc, length / inc - (length - d) / inc);
      assert d == inc * (length / inc - (length - d) / inc);
    }
  }

  /** A destination filled forwards from its base receives the values in order. */
  lemma {:induction false} StoredForwards<T>(dst: seq<T>, base: int, length: int, vals: seq<T>)
    requires 0 <= base && |vals| <= length && base + length <= |dst|
    requires forall k :: 0 <= k < |vals| ==> 0 <= DstPos(base, length, base, 1, k) < |dst|
    ensures Stored(dst, base, length, base, 1, vals) == dst[..base] + vals + dst[base + |vals|..]
    decreases |vals|
  {
    if vals != [] {
      var n := |vals| - 1;
      StoredForwards(dst, base, length, vals[..n]);
      ForwardPos(base, length, n);
    }
  }

  lemma {:induction false} ForwardPos(base: int, length: int, k: nat)
    requires k < length
    ensures DstPos(base, length, base, 1, k) == base + k
  {
    if k != 0 {
      ForwardPos(base, length, k - 1);
    }
  }
}
