/** The software loops behind __CLZ and __RBIT in the compiler headers.

    Words are natural numbers below 2^32: `x >> 1` is x / 2 and `x << n` is
    x * 2^n modulo 2^32. */
module BitLoops {
  import opened Arithmetic
  import opened Words

  // ----- count leading zeros -----

  /** Position of the highest set bit. */
  function Log2(x: nat): (k: nat)
    requires x > 0
    ensures Pow2(k) <= x < Pow2(k + 1)
  {
    if x == 1 then 0 else 1 + Log2(x / 2)
  }

  lemma {:induction false} Log2Unique(x: nat, k: nat)
    requires Pow2(k) <= x < Pow2(k + 1)
    ensures Log2(x) == k
  {
    var l := Log2(x);
    if l < k {
      Pow2Mono(l + 1, k);
    } else if k < l {
      Pow2Mono(k + 1, l);
    }
  }

  lemma Log2Below(x: nat, n: nat)
    requires 0 < x < Pow2(n)
    ensures Log2(x) < n
  {
    if Log2(x) >= n {
      Pow2Mono(n, Log2(x));
    }
  }

  /** Leading zeros of a 32-bit word; 32 for zero. */
  function LeadingZeros(x: nat): (c: nat)
    requires x < 0x1_0000_0000
    ensures c <= 32
    ensures x > 0 ==> c < 32 && Pow2(31 - c) <= x < Pow2(32 - c)
    ensures x == 0 <==> c == 32
  {
    if x == 0 then 32 else
      Pow2Values();
      Log2Below(x, 32);
      31 - Log2(x)
  }

  /** The __CLZ scan: a one-bit mask walks down from bit 31. */
  method CountLeadingZeros(data: nat) returns (count: nat)
    requires data < 0x1_0000_0000
    ensures count == LeadingZeros(data)
  {
    if data == 0 {
      return 32;
    }
    count := 0;
    var mask := 0x8000_0000;
    assert mask == Pow2(31) && data < Pow2(32) by {
      Pow2Values();
    }
    while And(data, mask) == 0
      invariant 0 <= count <= 31 && mask == Pow2(31 - count)
      invariant 0 < data < Pow2(32 - count)
      decreases mask
    {
      ScanStep(data, 31 - count);
      count := count + 1;
      mask := mask / 2;
    }
    ScanResult(data, count);
  }

  lemma ScanStep(data: nat, k: nat)
    requires 0 < data < Pow2(k + 1) && And(data, Pow2(k)) == 0
    ensures k > 0 && data < Pow2(k) && Pow2(k) / 2 == Pow2(k - 1)
  {
    ScanBit(data, k);
  }

  lemma ScanResult(data: nat, count: nat)
    requires 0 < data < 0x1_0000_0000 && count <= 31 && data < Pow2(32 - count)
    requires And(data, Pow2(31 - count)) != 0
    ensures count == LeadingZeros(data)
  {
    ScanBit(data, 31 - count);
    Log2Unique(data, 31 - count);
  }

  lemma ScanBit(data: nat, k: nat)
    requires data < Pow2(k + 1)
    ensures And(data, Pow2(k)) == 0 <==> data < Pow2(k)
  {
    TestBit(data, k);
    TopBitClear(data, k);
  }

  /** Shifting a positive word left by its leading zeros less one leaves the
      top bit of a signed word at bit 30. */
  lemma NormaliseQ31(x: nat)
    requires 0 < x < 0x8000_0000
    ensures 1 <= LeadingZeros(x) <= 31
    ensures 0x4000_0000 <= x * Pow2(LeadingZeros(x) - 1) < 0x8000_0000
  {
    var c := LeadingZeros(x);
    assert Pow2(30) == 0x4000_0000 && Pow2(31) == 0x8000_0000 by {
      Pow2Values();
    }
    if c == 0 {
      assert false;
    }
    Pow2Add(31 - c, c - 1);
    Pow2Add(32 - c, c - 1);
    ScaleBetween(x, Pow2(31 - c), Pow2(32 - c), Pow2(c - 1));
  }

  /** The same for a 16-bit word held in 32 bits. */
  lemma NormaliseQ15(x: nat)
    requires 0 < x < 0x8000
    ensures 17 <= LeadingZeros(x) <= 31
    ensures 0x4000 <= x * Pow2(LeadingZeros(x) - 17) < 0x8000
  {
    var c := LeadingZeros(x);
    assert Pow2(14) == 0x4000 && Pow2(15) == 0x8000 by {
      Pow2Values();
    }
    if c < 17 {
      Pow2Mono(15, 31 - c);
      assert false;
    }
    Pow2Add(31 - c, c - 17);
    Pow2Add(32 - c, c - 17);
    ScaleBetween(x, Pow2(31 - c), Pow2(32 - c), Pow2(c - 17));
  }

  lemma ScaleBetween(x: nat, lo: nat, hi: nat, k: nat)
    requires lo <= x < hi && k > 0
    ensures lo * k <= x * k < hi * k
  {
  }

  // ----- bit reversal -----

  /** Bit b at position k. */
  function High(b: nat, k: nat): nat
  {
    if b == 1 then Pow2(k) else 0
  }

  /** The n low bits of x in reverse order. */
  function Reverse(x: nat, n: nat): nat
    decreases n
  {
    if n == 0 then 0 else High(x % 2, n - 1) + Reverse(x / 2, n - 1)
  }

  lemma {:induction false} ReverseBound(x: nat, n: nat)
    ensures Reverse(x, n) < Pow2(n)
  {
    if n != 0 {
      ReverseBound(x / 2, n - 1);
    }
  }

  /** Reversal puts bit i at bit n-1-i. */
  lemma {:induction false} ReverseBit(x: nat, n: nat, i: nat)
    requires i < n
    ensures Bit(Reverse(x, n), i) == Bit(x, n - 1 - i)
    decreases n
  {
    var t := Reverse(x / 2, n - 1);
    ReverseBound(x / 2, n - 1);
    if i == n - 1 {
      TopBit(t, x % 2, n - 1);
    } else {
      ReverseBit(x / 2, n - 1, i);
      BitBelowTop(t, x % 2, n - 1, i);
    }
  }

  lemma {:induction false} TopBit(t: nat, b: nat, k: nat)
    requires t < Pow2(k) && b < 2
    ensures Bit(High(b, k) + t, k) == (b == 1)
  {
    if k != 0 {
      assert (High(b, k) + t) / 2 == High(b, k - 1) + t / 2;
      TopBit(t / 2, b, k - 1);
    }
  }

  lemma {:induction false} BitBelowTop(t: nat, b: nat, k: nat, i: nat)
    requires i < k && t < Pow2(k) && b < 2
    ensures Bit(High(b, k) + t, i) == Bit(t, i)
  {
    assert (High(b, k) + t) / 2 == High(b, k - 1) + t / 2;
    if i != 0 {
      BitBelowTop(t / 2, b, k - 1, i - 1);
    }
  }

  /** Reversing twice gives the word back. */
  lemma ReverseInvolution(x: nat, n: nat)
    requires x < Pow2(n)
    ensures Reverse(Reverse(x, n), n) == x
  {
    var r := Reverse(x, n);
    ReverseBound(r, n);
    forall i: nat | i < n
      ensures Bit(Reverse(r, n), i) == Bit(x, i)
    {
      ReverseBit(r, n, i);
      ReverseBit(x, n, n - 1 - i);
    }
    BitsDetermine(Reverse(r, n), x, n);
  }

  /** One more low bit: the loop body's shift-and-or. */
  lemma {:induction false} ReverseSnoc(x: nat, n: nat)
    ensures Reverse(x, n + 1) == 2 * Reverse(x, n) + Drop(x, n) % 2
    decreases n
  {
    if n != 0 {
      ReverseSnoc(x / 2, n - 1);
    }
  }

  /** When the high bits are zero, the missing steps are one left shift. */
  lemma {:induction false} ReversePad(x: nat, n: nat, m: nat)
    requires x < Pow2(n)
    ensures Reverse(x, n + m) == Reverse(x, n) * Pow2(m)
  {
    if n == 0 {
      ReverseZero(m);
    } else {
      ReversePad(x / 2, n - 1, m);
      Pow2Add(n - 1, m);
      Distribute(High(x % 2, n - 1), Reverse(x / 2, n - 1), Pow2(m));
      assert n + m - 1 == n - 1 + m;
    }
  }

  lemma {:induction false} ReverseZero(n: nat)
    ensures Reverse(0, n) == 0
  {
    if n != 0 {
      ReverseZero(n - 1);
    }
  }

  /** The __RBIT loop.  It starts from all of value, not its low bit, and stops
      as soon as no set bit is left; s counts the shifts still owed.  The low
      32-s bits of result are already the reversed low bits of v; whatever else
      result holds is shifted out in the end. */
  method ReverseBits(v: nat) returns (result: nat)
    requires v < 0x1_0000_0000
    ensures result == Reverse(v, 32) < 0x1_0000_0000
    ensures forall i: nat :: i < 32 ==> Bit(result, i) == Bit(v, 31 - i)
  {
    var s := 31;
    var value := v;
    result := value;
    value := value / 2;
    assert Drop(v, 1) == v / 2 && Low(v, 1) == v % 2 == Reverse(v, 1);
    while value != 0
      invariant 0 <= s <= 31 && result < 0x1_0000_0000
      invariant value == Drop(v, 32 - s)
      invariant Low(result, 32 - s) == Reverse(v, 32 - s)
      decreases value
    {
      ShiftStep(v, 32 - s, result);
      result := result * 2 % 0x1_0000_0000;
      result := Or(result, And(value, 1));
      s := s - 1;
      value := value / 2;
    }
    FinalShift(v, s, result);
    result := result * Pow2(s) % 0x1_0000_0000;
    ReverseWordBits(v);
  }

  lemma ReverseWordBits(v: nat)
    ensures Reverse(v, 32) < 0x1_0000_0000
    ensures forall i: nat :: i < 32 ==> Bit(Reverse(v, 32), i) == Bit(v, 31 - i)
  {
    Pow2Values();
    ReverseBound(v, 32);
    forall i: nat | i < 32
      ensures Bit(Reverse(v, 32), i) == Bit(v, 31 - i)
    {
      ReverseBit(v, 32, i);
    }
  }

  lemma ShiftStep(v: nat, n: nat, r: nat)
    requires v < 0x1_0000_0000 && n <= 32
    requires Drop(v, n) != 0 && Low(r, n) == Reverse(v, n)
    ensures n < 32
    ensures Drop(v, n + 1) == Drop(v, n) / 2
    ensures var next := Or(r * 2 % 0x1_0000_0000, And(Drop(v, n), 1));
            next < 0x1_0000_0000 && Low(next, n + 1) == Reverse(v, n + 1)
  {
    assert n < 32 by {
      Pow2Values();
      DropZero(v, 32);
    }
    DropStep(v, n);
    PushBit(r, Drop(v, n), n);
    ReverseSnoc(v, n);
  }

  lemma PushBit(r: nat, v: nat, n: nat)
    requires n < 32
    ensures var next := Or(r * 2 % 0x1_0000_0000, And(v, 1));
            next < 0x1_0000_0000 && Low(next, n + 1) == 2 * Low(r, n) + v % 2
  {
    OrLowBit(r * 2 % 0x1_0000_0000, v);
    LowOfDoubled(r, v % 2, n);
  }

  lemma OrLowBit(x: nat, v: nat)
    requires x % 2 == 0
    ensures Or(x, And(v, 1)) == x + v % 2
  {
    assert Pow2(1) == 2 && Low(v, 1) == v % 2;
    AndMask(v, 1);
    OrDisjoint(x / 2, v % 2, 1);
  }

  lemma LowOfDoubled(r: nat, b: nat, n: nat)
    requires b < 2 && n < 32
    ensures Low(r * 2 % 0x1_0000_0000 + b, n + 1) == 2 * Low(r, n) + b
  {
    assert Low(r % 0x8000_0000, n) == Low(r, n) by {
      Pow2Values();
      LowOfLow(r, 31, n);
    }
    DoubledParts(r, b);
  }

  lemma DoubledParts(r: nat, b: nat)
    requires b < 2
    ensures var x := r * 2 % 0x1_0000_0000 + b; x / 2 == r % 0x8000_0000 && x % 2 == b
  {
  }

  lemma FinalShift(v: nat, s: nat, r: nat)
    requires v < 0x1_0000_0000 && s <= 31
    requires Drop(v, 32 - s) == 0 && Low(r, 32 - s) == Reverse(v, 32 - s)
    ensures r * Pow2(s) % 0x1_0000_0000 == Reverse(v, 32)
  {
    DropZero(v, 32 - s);
    ReversePad(v, 32 - s, s);
    LowIsRemainder(r, 32 - s);
    WordSplits(s);
    ShiftUp(r, Pow2(32 - s), Pow2(s));
  }

  lemma WordSplits(s: nat)
    requires s <= 32
    ensures Pow2(32 - s) * Pow2(s) == 0x1_0000_0000
  {
    Pow2Add(32 - s, s);
    Pow2Values();
  }

  lemma ShiftUp(r: nat, d: nat, m: nat)
    requires d > 0 && m > 0
    ensures d * m > 0 && r * m % (d * m) == r % d * m
  {
    var q, t := r / d, r % d;
    assert r == d * q + t;
    Distribute(d * q, t, m);
    assert d * q * m == d * m * q;
    assert t * m < d * m;
    QuotientIs(r * m, d * m, q, t * m);
  }

  // ----- find first set -----

  /** Index of the lowest set bit. */
  function LowestSet(x: nat): (i: nat)
    requires x > 0
    ensures Bit(x, i) && forall j: nat :: j < i ==> !Bit(x, j)
  {
    if x % 2 == 1 then 0 else
      var k := LowestSet(x / 2);
      assert forall j: nat :: 0 < j < k + 1 ==> Bit(x, j) == Bit(x / 2, j - 1);
      1 + k
  }

  lemma {:induction false} ReverseOfLowest(x: nat, n: nat)
    requires 0 < x < Pow2(n)
    ensures LowestSet(x) < n
    ensures Pow2(n - 1 - LowestSet(x)) <= Reverse(x, n) < Pow2(n - LowestSet(x))
  {
    ReverseBound(x, n);
    if x % 2 == 0 {
      assert x / 2 < Pow2(n - 1);
      ReverseOfLowest(x / 2, n - 1);
      assert LowestSet(x) == 1 + LowestSet(x / 2);
      assert Reverse(x, n) == Reverse(x / 2, n - 1);
    }
  }

  /** CLZ(RBIT(x)) finds the lowest set bit. */
  lemma ClzOfReverse(x: nat)
    requires 0 < x < 0x1_0000_0000
    ensures Reverse(x, 32) < 0x1_0000_0000
    ensures LeadingZeros(Reverse(x, 32)) == LowestSet(x)
  {
    Pow2Values();
    ReverseBound(x, 32);
    ReverseOfLowest(x, 32);
    var r := Reverse(x, 32);
    assert r >= 1;
    Log2Unique(r, 31 - LowestSet(x));
  }

  // ----- rotation -----

  /** __ROR: a count of zero is taken apart, since shifting by 32 is not defined. */
  function RotateRight(x: nat, n: nat): nat
    requires x < 0x1_0000_0000
  {
    var k := n % 32;
    if k == 0 then x else Or(Drop(x, k), x * Pow2(32 - k) % 0x1_0000_0000)
  }

  lemma HighPartBit(x: nat, k: nat, i: nat)
    requires 0 < k < 32
    ensures Bit(x * Pow2(32 - k) % 0x1_0000_0000, i) <==> i < 32 && i >= 32 - k && Bit(x, i + k - 32)
  {
    BitOfWord(x * Pow2(32 - k), i);
    BitOfShift(x, 32 - k, i);
  }

  /** Keeping a word keeps its 32 low bits. */
  lemma BitOfWord(y: nat, i: nat)
    ensures Bit(y % 0x1_0000_0000, i) <==> i < 32 && Bit(y, i)
  {
    WordIsLow(y);
    BitOfLow(y, 32, i);
  }

  lemma WordIsLow(y: nat)
    ensures y % 0x1_0000_0000 == Low(y, 32)
  {
    Pow2Values();
    LowIsRemainder(y, 32);
  }

  /** Bit i of the result is bit i + n of x, cyclically, and there are no others. */
  lemma RotateBit(x: nat, n: nat, i: nat)
    requires x < 0x1_0000_0000
    ensures Bit(RotateRight(x, n), i) <==> i < 32 && Bit(x, (i + n) % 32)
  {
    var k := n % 32;
    NoHighBits(x, i);
    NoHighBits(x, i + k);
    CyclicIndex(i, n);
    if k != 0 {
      HighPartBit(x, k, i);
      BitOfDrop(x, k, i);
      BitOfOr(Drop(x, k), x * Pow2(32 - k) % 0x1_0000_0000, i);
    }
  }

  lemma NoHighBits(x: nat, i: nat)
    requires x < 0x1_0000_0000
    ensures Bit(x, i) ==> i < 32
  {
    Pow2Values();
    LowOfSmall(x, 32);
    BitOfLow(x, 32, i);
  }

  lemma CyclicIndex(i: nat, n: nat)
    ensures i < 32 ==> (i + n) % 32 == if i + n % 32 < 32 then i + n % 32 else i + n % 32 - 32
  {
  }

  lemma RotateBound(x: nat, n: nat)
    requires x < 0x1_0000_0000
    ensures RotateRight(x, n) < 0x1_0000_0000
  {
    Pow2Values();
    forall i: nat | i >= 32
      ensures !Bit(RotateRight(x, n), i)
    {
      RotateBit(x, n, i);
    }
    BoundedByBits(RotateRight(x, n), 32);
  }

  /** Rotations compose by adding their counts. */
  lemma RotateCompose(x: nat, m: nat, n: nat)
    requires x < 0x1_0000_0000
    ensures RotateRight(x, m) < 0x1_0000_0000
    ensures RotateRight(RotateRight(x, m), n) == RotateRight(x, m + n)
  {
    RotateBound(x, m);
    var y := RotateRight(x, m);
    forall i: nat | i < 32
      ensures Bit(RotateRight(y, n), i) == Bit(RotateRight(x, m + n), i)
    {
      RotateTwiceBit(x, m, n, i);
    }
    SameWord(x, m, n);
  }

  lemma RotateTwiceBit(x: nat, m: nat, n: nat, i: nat)
    requires x < 0x1_0000_0000 && RotateRight(x, m) < 0x1_0000_0000 && i < 32
    ensures Bit(RotateRight(RotateRight(x, m), n), i) == Bit(RotateRight(x, m + n), i)
  {
    RotateBit(RotateRight(x, m), n, i);
    RotateBit(x, m, (i + n) % 32);
    RotateBit(x, m + n, i);
    AddIndices(i, m, n);
  }

  lemma AddIndices(i: nat, m: nat, n: nat)
    ensures ((i + n) % 32 + m) % 32 == (i + (m + n)) % 32
  {
  }

  lemma SameWord(x: nat, m: nat, n: nat)
    requires x < 0x1_0000_0000 && RotateRight(x, m) < 0x1_0000_0000
    requires forall i: nat :: i < 32 ==> Bit(RotateRight(RotateRight(x, m), n), i) == Bit(RotateRight(x, m + n), i)
    ensures RotateRight(RotateRight(x, m), n) == RotateRight(x, m + n)
  {
    RotateBound(RotateRight(x, m), n);
    RotateBound(x, m + n);
    Pow2Values();
    BitsDetermine(RotateRight(RotateRight(x, m), n), RotateRight(x, m + n), 32);
  }

  /** So rotating by n and then by what is missing to 32 gives the word back. */
  lemma RotateInverse(x: nat, n: nat)
    requires x < 0x1_0000_0000 && n <= 32
    ensures RotateRight(x, n) < 0x1_0000_0000
    ensures RotateRight(RotateRight(x, n), 32 - n) == x
  {
    RotateCompose(x, n, 32 - n);
    assert n + (32 - n) == 32 && RotateRight(x, 32) == x;
  }
}
