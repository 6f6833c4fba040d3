/** Machine words as natural numbers: powers of two, single bits, the bitwise
    operators, and the low and high parts of a word. */
module Words {
  import opened Arithmetic

  function Pow2(n: nat): (r: nat)
    ensures r >= 1
  {
    if n == 0 then 1 else 2 * Pow2(n - 1)
  }

  lemma {:induction false} Pow2Add(m: nat, n: nat)
    ensures Pow2(m + n) == Pow2(m) * Pow2(n)
  {
    if m != 0 {
      Pow2Add(m - 1, n);
      assert Pow2(m + n) == 2 * Pow2(m - 1 + n);
      assert 2 * (Pow2(m - 1) * Pow2(n)) == (2 * Pow2(m - 1)) * Pow2(n);
    }
  }

  lemma {:induction false} Pow2Mono(m: nat, n: nat)
    requires m <= n
    ensures Pow2(m) <= Pow2(n)
  {
    if m < n {
      Pow2Mono(m, n - 1);
    }
  }

  lemma Pow2Values()
    ensures Pow2(14) == 0x4000 && Pow2(15) == 0x8000
    ensures Pow2(30) == 0x4000_0000 && Pow2(31) == 0x8000_0000 && Pow2(32) == 0x1_0000_0000
  {
    assert Pow2(8) == 0x100;
    assert Pow2(14) == 0x4000 && Pow2(16) == 0x1_0000;
    assert Pow2(24) == 0x100_0000;
    assert Pow2(30) == 0x4000_0000;
  }

  /** Bit i of x. */
  predicate Bit(x: nat, i: nat)
    decreases i
  {
    if i == 0 then x % 2 == 1 else Bit(x / 2, i - 1)
  }

  /** Numbers below 2^n are determined by their n low bits. */
  lemma {:induction false} BitsDetermine(x: nat, y: nat, n: nat)
    requires x < Pow2(n) && y < Pow2(n)
    requires forall i: nat :: i < n ==> Bit(x, i) == Bit(y, i)
    ensures x == y
  {
    if n != 0 {
      assert Bit(x, 0) == Bit(y, 0);
      forall i: nat | i < n - 1
        ensures Bit(x / 2, i) == Bit(y / 2, i)
      {
        assert Bit(x, i + 1) == Bit(y, i + 1);
      }
      BitsDetermine(x / 2, y / 2, n - 1);
    }
  }

  /** x >> n, and x modulo 2^n. */
  function Drop(x: nat, n: nat): nat
    decreases n
  {
    if n == 0 then x else Drop(x / 2, n - 1)
  }

  function Low(x: nat, n: nat): nat
    decreases n
  {
    if n == 0 then 0 else x % 2 + 2 * Low(x / 2, n - 1)
  }

  lemma {:induction false} DropStep(x: nat, n: nat)
    ensures Drop(x, n + 1) == Drop(x, n) / 2
    decreases n
  {
    if n != 0 {
      DropStep(x / 2, n - 1);
    }
  }

  lemma {:induction false} DropZero(x: nat, n: nat)
    ensures Drop(x, n) == 0 <==> x < Pow2(n)
    decreases n
  {
    if n != 0 {
      DropZero(x / 2, n - 1);
    }
  }

  lemma {:induction false} LowIsRemainder(x: nat, n: nat)
    ensures Low(x, n) == x % Pow2(n)
    decreases n
  {
    if n != 0 {
      LowIsRemainder(x / 2, n - 1);
      HalfRemainder(x, Pow2(n - 1));
    }
  }

  lemma {:induction false} DropIsQuotient(x: nat, n: nat)
    ensures Drop(x, n) == x / Pow2(n)
    decreases n
  {
    if n != 0 {
      DropIsQuotient(x / 2, n - 1);
      HalfQuotient(x, Pow2(n - 1));
    }
  }

  lemma HalfQuotient(x: nat, d: nat)
    requires d > 0
    ensures x / (2 * d) == x / 2 / d
  {
    var h := x / 2;
    assert h == d * (h / d) + h % d;
    QuotientIs(x, 2 * d, h / d, x % 2 + 2 * (h % d));
  }

  lemma HalfRemainder(x: nat, d: nat)
    requires d > 0
    ensures x % (2 * d) == x % 2 + 2 * (x / 2 % d)
  {
    var h := x / 2;
    var q := h / d;
    assert h == d * q + h % d;
    QuotientIs(x, 2 * d, q, x % 2 + 2 * (h % d));
  }

  lemma {:induction false} LowBound(x: nat, n: nat)
    ensures Low(x, n) < Pow2(n)
    decreases n
  {
    if n != 0 {
      LowBound(x / 2, n - 1);
    }
  }

  lemma {:induction false} LowOfSmall(x: nat, n: nat)
    requires x < Pow2(n)
    ensures Low(x, n) == x
    decreases n
  {
    if n != 0 {
      LowOfSmall(x / 2, n - 1);
    }
  }

  lemma {:induction false} DropBound(x: nat, n: nat, m: nat)
    requires x < Pow2(m + n)
    ensures Drop(x, n) < Pow2(m)
    decreases n
  {
    if n != 0 {
      DropBound(x / 2, n - 1, m);
    }
  }

  /** a above n bits of b: the two parts can be taken apart again. */
  lemma {:induction false} TakeApart(a: nat, b: nat, n: nat)
    requires b < Pow2(n)
    ensures Drop(a * Pow2(n) + b, n) == a && Low(a * Pow2(n) + b, n) == b
    decreases n
  {
    if n != 0 {
      assert a * Pow2(n) == 2 * (a * Pow2(n - 1));
      assert (a * Pow2(n) + b) / 2 == a * Pow2(n - 1) + b / 2;
      TakeApart(a, b / 2, n - 1);
    }
  }

  lemma {:induction false} PutTogether(x: nat, n: nat)
    ensures Drop(x, n) * Pow2(n) + Low(x, n) == x
    decreases n
  {
    if n != 0 {
      PutTogether(x / 2, n - 1);
      Twice(Drop(x / 2, n - 1), Pow2(n - 1));
    }
  }

  lemma {:induction false} LowOfShifted(x: nat, m: nat, n: nat)
    ensures Low(x * Pow2(m), n + m) == Low(x, n) * Pow2(m)
    decreases m
  {
    if m != 0 {
      LowOfShifted(x, m - 1, n);
      LowEven(x * Pow2(m - 1), n + m - 1);
      Twice(x, Pow2(m - 1));
      Twice(Low(x, n), Pow2(m - 1));
    }
  }

  lemma LowEven(z: nat, k: nat)
    ensures Low(2 * z, k + 1) == 2 * Low(z, k)
  {
  }

  lemma Twice(x: int, y: int)
    ensures x * (2 * y) == 2 * (x * y)
  {
  }

  /** Bits beyond the n low ones do not matter to Low. */
  lemma {:induction false} LowOfLow(x: nat, m: nat, n: nat)
    requires n <= m
    ensures Low(x % Pow2(m), n) == Low(x, n)
    decreases n
  {
    if n != 0 {
      var y := x % Pow2(m);
      HalfRemainder(x, Pow2(m - 1));
      assert y % 2 == x % 2 && y / 2 == x / 2 % Pow2(m - 1);
      LowOfLow(x / 2, m - 1, n - 1);
      assert Low(y, n) == y % 2 + 2 * Low(y / 2, n - 1);
    }
  }

  // ----- bitwise operators -----

  function Or(x: nat, y: nat): nat
    decreases x + y
  {
    if x == 0 && y == 0 then 0
    else (if x % 2 == 1 || y % 2 == 1 then 1 else 0) + 2 * Or(x / 2, y / 2)
  }

  function And(x: nat, y: nat): nat
    decreases x + y
  {
    if x == 0 && y == 0 then 0
    else (if x % 2 == 1 && y % 2 == 1 then 1 else 0) + 2 * And(x / 2, y / 2)
  }

  /** x & ~y */
  function AndNot(x: nat, y: nat): nat
    decreases x + y
  {
    if x == 0 && y == 0 then 0
    else (if x % 2 == 1 && y % 2 == 0 then 1 else 0) + 2 * AndNot(x / 2, y / 2)
  }

  lemma {:induction false} BitOfZero(i: nat)
    ensures !Bit(0, i)
  {
    if i != 0 {
      BitOfZero(i - 1);
    }
  }

  lemma OrStep(x: nat, y: nat)
    ensures Or(x, y) / 2 == Or(x / 2, y / 2)
    ensures Or(x, y) % 2 == 1 <==> x % 2 == 1 || y % 2 == 1
  {
  }

  lemma AndStep(x: nat, y: nat)
    ensures And(x, y) / 2 == And(x / 2, y / 2)
    ensures And(x, y) % 2 == 1 <==> x % 2 == 1 && y % 2 == 1
  {
  }

  lemma AndNotStep(x: nat, y: nat)
    ensures AndNot(x, y) / 2 == AndNot(x / 2, y / 2)
    ensures AndNot(x, y) % 2 == 1 <==> x % 2 == 1 && y % 2 == 0
  {
  }

  lemma LowStep(x: nat, n: nat)
    requires n > 0
    ensures Low(x, n) / 2 == Low(x / 2, n - 1) && Low(x, n) % 2 == x % 2
  {
  }

  lemma {:induction false} BitOfOr(x: nat, y: nat, i: nat)
    ensures Bit(Or(x, y), i) <==> Bit(x, i) || Bit(y, i)
    decreases i
  {
    OrStep(x, y);
    if i != 0 {
      BitOfOr(x / 2, y / 2, i - 1);
    }
  }

  lemma {:induction false} BitOfAnd(x: nat, y: nat, i: nat)
    ensures Bit(And(x, y), i) <==> Bit(x, i) && Bit(y, i)
    decreases i
  {
    AndStep(x, y);
    if i != 0 {
      BitOfAnd(x / 2, y / 2, i - 1);
    }
  }

  lemma {:induction false} BitOfAndNot(x: nat, y: nat, i: nat)
    ensures Bit(AndNot(x, y), i) <==> Bit(x, i) && !Bit(y, i)
    decreases i
  {
    AndNotStep(x, y);
    if i != 0 {
      BitOfAndNot(x / 2, y / 2, i - 1);
    }
  }

  /** 1 << k has bit k and no other. */
  lemma {:induction false} BitOfPow2(k: nat, i: nat)
    ensures Bit(Pow2(k), i) <==> i == k
    decreases k
  {
    if k == 0 {
      if i != 0 {
        BitOfZero(i - 1);
      }
    } else if i != 0 {
      BitOfPow2(k - 1, i - 1);
      assert Pow2(k) / 2 == Pow2(k - 1);
    }
  }

  lemma {:induction false} BitOfDrop(x: nat, n: nat, i: nat)
    ensures Bit(Drop(x, n), i) == Bit(x, i + n)
    decreases n
  {
    if n != 0 {
      BitOfDrop(x / 2, n - 1, i);
    }
  }

  lemma {:induction false} BitOfShift(x: nat, m: nat, i: nat)
    ensures Bit(x * Pow2(m), i) <==> i >= m && Bit(x, i - m)
    decreases m
  {
    if m != 0 {
      Twice(x, Pow2(m - 1));
      if i != 0 {
        BitOfShift(x, m - 1, i - 1);
        assert x * Pow2(m) / 2 == x * Pow2(m - 1);
      }
    }
  }

  lemma {:induction false} BitOfLow(x: nat, n: nat, i: nat)
    ensures Bit(Low(x, n), i) <==> i < n && Bit(x, i)
    decreases n
  {
    if n == 0 {
      BitOfZero(i);
    } else {
      LowStep(x, n);
      if i != 0 {
        BitOfLow(x / 2, n - 1, i - 1);
      }
    }
  }

  /** Numbers that agree on n bits and have no more are bounded alike. */
  lemma {:induction false} BoundedByBits(x: nat, n: nat)
    requires forall i: nat :: i >= n ==> !Bit(x, i)
    ensures x < Pow2(n)
    decreases n
  {
    if n == 0 {
      if x != 0 {
        var i := NonZeroHasBit(x);
        assert false;
      }
    } else {
      forall i: nat | i >= n - 1
        ensures !Bit(x / 2, i)
      {
        assert !Bit(x, i + 1);
      }
      BoundedByBits(x / 2, n - 1);
    }
  }

  /** A word with a set bit is not zero, and the other way round. */
  lemma {:induction false} NonZeroHasBit(x: nat) returns (i: nat)
    requires x != 0
    ensures Bit(x, i)
  {
    if x % 2 == 1 {
      i := 0;
    } else {
      i := NonZeroHasBit(x / 2);
      i := i + 1;
    }
  }

  /** The test `w & (1 << k) != 0` reads bit k. */
  lemma TestBit(w: nat, k: nat)
    ensures And(w, Pow2(k)) != 0 <==> Bit(w, k)
  {
    BitOfPow2(k, k);
    BitOfAnd(w, Pow2(k), k);
    BitOfZero(k);
    if And(w, Pow2(k)) != 0 {
      var i := NonZeroHasBit(And(w, Pow2(k)));
      BitOfAnd(w, Pow2(k), i);
      BitOfPow2(k, i);
    }
  }

  /** OR with bits above s leaves the s low bits alone. */
  lemma {:induction false} OrAbove(a: nat, b: nat, c: nat, s: nat, x: nat, y: nat)
    requires b < Pow2(s) && x == a * Pow2(s) + b && y == c * Pow2(s)
    ensures Or(x, y) == Or(a, c) * Pow2(s) + b
    decreases s
  {
    if s != 0 {
      HalfOfShift(a, b, s);
      HalfOfShift(c, 0, s);
      OrAbove(a, b / 2, c, s - 1, x / 2, y / 2);
      OrHalves(x, y);
      Twice(Or(a, c), Pow2(s - 1));
    }
  }

  lemma HalfOfShift(a: nat, b: nat, s: nat)
    requires s > 0 && b < Pow2(s)
    ensures (a * Pow2(s) + b) / 2 == a * Pow2(s - 1) + b / 2 && (a * Pow2(s) + b) % 2 == b % 2
  {
    Twice(a, Pow2(s - 1));
  }

  lemma OrHalves(x: nat, y: nat)
    requires y % 2 == 0
    ensures Or(x, y) == x % 2 + 2 * Or(x / 2, y / 2)
  {
  }

  /** AND with a mask above s clears the s low bits. */
  lemma {:induction false} AndAbove(a: nat, b: nat, c: nat, s: nat, x: nat, y: nat)
    requires b < Pow2(s) && x == a * Pow2(s) + b && y == c * Pow2(s)
    ensures And(x, y) == And(a, c) * Pow2(s)
    decreases s
  {
    if s != 0 {
      HalfOfShift(a, b, s);
      HalfOfShift(c, 0, s);
      AndAbove(a, b / 2, c, s - 1, x / 2, y / 2);
      AndHalves(x, y);
      Twice(And(a, c), Pow2(s - 1));
    }
  }

  lemma AndHalves(x: nat, y: nat)
    requires y % 2 == 0
    ensures And(x, y) == 2 * And(x / 2, y / 2)
  {
  }

  /** With bit k clear, a word of k+1 bits has k bits. */
  lemma {:induction false} TopBitClear(x: nat, k: nat)
    requires x < Pow2(k + 1)
    ensures Bit(x, k) <==> Pow2(k) <= x
    decreases k
  {
    if k != 0 {
      TopBitClear(x / 2, k - 1);
    }
  }

  /** Masking with 2^k - 1 keeps the k low bits. */
  lemma {:induction false} AndMask(x: nat, k: nat)
    ensures And(x, Pow2(k) - 1) == Low(x, k)
    decreases k
  {
    if k == 0 {
      AndZero(x);
    } else {
      var m := Pow2(k) - 1;
      assert m % 2 == 1 && m / 2 == Pow2(k - 1) - 1;
      AndMask(x / 2, k - 1);
    }
  }

  lemma {:induction false} AndZero(x: nat)
    ensures And(x, 0) == 0
  {
    if x != 0 {
      AndZero(x / 2);
    }
  }

  /** OR of parts that do not overlap is their sum. */
  lemma {:induction false} OrDisjoint(a: nat, b: nat, s: nat)
    requires b < Pow2(s)
    ensures Or(a * Pow2(s), b) == a * Pow2(s) + b
    decreases s
  {
    if s == 0 {
      OrZero(a);
    } else {
      var x := a * Pow2(s);
      assert x == 2 * (a * Pow2(s - 1));
      OrDisjoint(a, b / 2, s - 1);
    }
  }

  lemma {:induction false} OrZero(x: nat)
    ensures Or(x, 0) == x
  {
    if x != 0 {
      OrZero(x / 2);
    }
  }
}
