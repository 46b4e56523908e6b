/**
 The C integer types the protocol code uses, and its shifts, on unbounded integers.
 A negative `int16_t` behaves as an infinitely sign-extended word: `TestBit` of a negative
 number is `true` for every high enough bit, which is what an arithmetic right shift shows.
 */
module Words {
  type uint8 = x: int | 0 <= x < 0x100
  type uint16 = x: int | 0 <= x < 0x1_0000
  type int16 = x: int | -0x8000 <= x < 0x8000

  /** Conversion to `uint8_t` or `unsigned char`. */
  function ToUInt8(x: int): uint8 {
    x % 0x100
  }

  /** Conversion to `uint16_t`. */
  function ToUInt16(x: int): uint16 {
    x % 0x1_0000
  }

  /** Conversion to `int16_t`, in two's complement. */
  function ToInt16(x: int): int16 {
    (x + 0x8000) % 0x1_0000 - 0x8000
  }

  function Pow2(n: nat): (p: nat)
    ensures p > 0
  {
    if n == 0 then 1 else 2 * Pow2(n - 1)
  }

  /** x << s */
  function Shl(x: int, s: nat): int
    decreases s
  {
    if s == 0 then x else 2 * Shl(x, s - 1)
  }

  /** x >> s, rounding towards minus infinity */
  function Shr(x: int, s: nat): int
    decreases s
  {
    if s == 0 then x else Shr(x / 2, s - 1)
  }

  /** The value of the n lowest bits of x. */
  function Low(x: int, n: nat): nat
    decreases n
  {
    if n == 0 then 0 else 2 * Low(x / 2, n - 1) + x % 2
  }

  predicate TestBit(x: int, i: nat)
    decreases i
  {
    if i == 0 then x % 2 == 1 else TestBit(x / 2, i - 1)
  }

  /** The bitwise `|` of two bytes. */
  function Or(a: nat, b: nat): nat {
    if a == 0 && b == 0 then 0
    else 2 * Or(a / 2, b / 2) + (if a % 2 == 1 || b % 2 == 1 then 1 else 0)
  }

  predicate Fits(x: int, n: nat) {
    0 <= x < Pow2(n)
  }

  lemma {:induction false} TestBitZero(i: nat)
    ensures !TestBit(0, i)
  {
    if i > 0 {
      TestBitZero(i - 1);
    }
  }

  lemma OrHalves(a: nat, b: nat)
    ensures Or(a, b) / 2 == Or(a / 2, b / 2)
    ensures Or(a, b) % 2 == 1 <==> a % 2 == 1 || b % 2 == 1
  {
    if a == 0 && b == 0 {
      assert a / 2 == 0 && b / 2 == 0;
    } else {
      assert Or(a, b) == 2 * Or(a / 2, b / 2) + (if a % 2 == 1 || b % 2 == 1 then 1 else 0);
    }
  }

  lemma {:induction false} TestBitOr(a: nat, b: nat, i: nat)
    ensures TestBit(Or(a, b), i) == (TestBit(a, i) || TestBit(b, i))
    decreases i
  {
    OrHalves(a, b);
    if i > 0 {
      TestBitOr(a / 2, b / 2, i - 1);
    }
  }

  lemma {:induction false} OrFits(a: nat, b: nat, n: nat)
    requires Fits(a, n) && Fits(b, n)
    ensures Fits(Or(a, b), n)
  {
    if n > 0 {
      OrFits(a / 2, b / 2, n - 1);
    }
  }

  lemma Pow2Values()
    ensures Pow2(0) == 1 && Pow2(1) == 2 && Pow2(3) == 8 && Pow2(4) == 0x10
    ensures Pow2(8) == 0x100 && Pow2(15) == 0x8000 && Pow2(16) == 0x1_0000
  {
    assert Pow2(4) == 2 * Pow2(3) == 4 * Pow2(2) == 8 * Pow2(1) == 0x10 * Pow2(0);
    assert Pow2(8) == 2 * Pow2(7) == 4 * Pow2(6) == 8 * Pow2(5) == 0x10 * Pow2(4);
    assert Pow2(12) == 2 * Pow2(11) == 4 * Pow2(10) == 8 * Pow2(9) == 0x10 * Pow2(8);
    assert Pow2(16) == 2 * Pow2(15) == 4 * Pow2(14) == 8 * Pow2(13) == 0x10 * Pow2(12);
  }

  lemma OrByte(a: uint8, b: uint8)
    ensures 0 <= Or(a, b) < 0x100
  {
    Pow2Values();
    OrFits(a, b, 8);
  }

  lemma {:induction false} TestBitShl(x: int, s: nat, i: nat)
    ensures TestBit(Shl(x, s), i) == (i >= s && TestBit(x, i - s))
    decreases s
  {
    if s > 0 && i > 0 {
      TestBitShl(x, s - 1, i - 1);
    }
  }

  lemma {:induction false} TestBitShr(x: int, s: nat, i: nat)
    ensures TestBit(Shr(x, s), i) == TestBit(x, i + s)
    decreases s
  {
    if s > 0 {
      TestBitShr(x / 2, s - 1, i);
    }
  }

  lemma {:induction false} TestBitLow(x: int, n: nat, i: nat)
    ensures TestBit(Low(x, n), i) == (i < n && TestBit(x, i))
    decreases n
  {
    if n == 0 {
      TestBitZero(i);
    } else if i > 0 {
      TestBitLow(x / 2, n - 1, i - 1);
    }
  }

  /** What is left of a word once its high part has been subtracted. */
  lemma {:induction false} SubtractHigh(x: int, s: nat)
    ensures x - Shl(Shr(x, s), s) == Low(x, s)
    decreases s
  {
    if s > 0 {
      SubtractHigh(x / 2, s - 1);
    }
  }

  lemma {:induction false} LowFits(x: int, n: nat)
    ensures Fits(Low(x, n), n)
    decreases n
  {
    if n > 0 {
      LowFits(x / 2, n - 1);
    }
  }

  lemma {:induction false} LowOfFitting(x: int, n: nat)
    requires Fits(x, n)
    ensures Low(x, n) == x
    decreases n
  {
    if n > 0 {
      LowOfFitting(x / 2, n - 1);
    }
  }

  lemma {:induction false} LowDetermines(x: int, y: int, n: nat)
    requires forall i :: 0 <= i < n ==> TestBit(x, i) == TestBit(y, i)
    ensures Low(x, n) == Low(y, n)
    decreases n
  {
    if n > 0 {
      assert TestBit(x, 0) == TestBit(y, 0);
      forall i | 0 <= i < n - 1
        ensures TestBit(x / 2, i) == TestBit(y / 2, i)
      {
        assert TestBit(x, i + 1) == TestBit(y, i + 1);
      }
      LowDetermines(x / 2, y / 2, n - 1);
    }
  }

  /** A right shift does not leave an interval around 0. */
  lemma {:induction false} ShrBounds(x: int, s: nat, lo: int, hi: int)
    requires lo <= x <= hi && lo <= 0 <= hi
    ensures lo <= Shr(x, s) <= hi
    decreases s
  {
    if s > 0 {
      ShrBounds(x / 2, s - 1, lo, hi);
    }
  }

  lemma {:induction false} ShlShl(x: int, s: nat, t: nat)
    ensures Shl(Shl(x, s), t) == Shl(x, s + t)
    decreases t
  {
    if t > 0 {
      ShlShl(x, s, t - 1);
    }
  }

  lemma {:induction false} ShlAdd(x: int, y: int, s: nat)
    ensures Shl(x + y, s) == Shl(x, s) + Shl(y, s)
    decreases s
  {
    if s > 0 {
      ShlAdd(x, y, s - 1);
    }
  }

  lemma {:induction false} Pow2Monotone(m: nat, n: nat)
    requires m <= n
    ensures Pow2(m) <= Pow2(n)
    decreases n - m
  {
    if m < n {
      Pow2Monotone(m + 1, n);
    }
  }

  lemma LowBelow(x: int, n: nat)
    ensures n <= 15 ==> 0 <= Low(x, n) < 0x8000
  {
    if n <= 15 {
      LowFits(x, n);
      Pow2Monotone(n, 15);
      Pow2Values();
    }
  }

  /** C's narrowing conversions are remainders, which keep the low bits. */
  lemma {:induction false} TestBitRemainder(x: int, d: int, n: nat, i: nat)
    requires d == Pow2(n)
    ensures TestBit(x % d, i) == (i < n && TestBit(x, i))
    decreases n
  {
    if n == 0 {
      TestBitZero(i);
    } else {
      HalveRemainder(x, d / 2);
      if i > 0 {
        TestBitRemainder(x / 2, d / 2, n - 1, i - 1);
      }
    }
  }

  lemma HalveRemainder(x: int, p: int)
    requires p > 0
    ensures x % (2 * p) == 2 * ((x / 2) % p) + x % 2
    ensures x / (2 * p) == (x / 2) / p
  {
    var q, r := (x / 2) / p, (x / 2) % p;
    assert x / 2 == q * p + r;
    DivModUnique(x, 2 * p, q, 2 * r + x % 2);
  }

  lemma {:induction false} LowIsRemainder(x: int, n: nat, d: int)
    requires d == Pow2(n)
    ensures Low(x, n) == x % d
    decreases n
  {
    if n > 0 {
      LowIsRemainder(x / 2, n - 1, d / 2);
      HalveRemainder(x, d / 2);
    }
  }

  lemma DivModUnique(x: int, d: int, q: int, r: int)
    requires 0 <= r < d && x == q * d + r
    ensures x / d == q && x % d == r
  {
    assert (x / d - q) * d == r - x % d;
    SmallMultiple(x / d - q, d);
  }

  lemma SmallMultiple(k: int, d: int)
    requires -d < k * d < d
    ensures k == 0
  {
    if k >= 1 {
      Monotone(1, k, d);
    } else if k <= -1 {
      Monotone(k, -1, d);
    }
  }

  lemma Monotone(a: int, b: int, d: int)
    requires a <= b && 0 <= d
    ensures a * d <= b * d
  {
  }

  /** A byte of a 16-bit word is a byte of the number that the word was made from. */
  lemma ByteOfWord(x: int)
    ensures ToUInt8(ToUInt16(x)) == ToUInt8(x)
  {
    var u := x % 0x1_0000;
    DivModUnique(x, 0x100, 0x100 * (x / 0x1_0000) + u / 0x100, u % 0x100);
  }

  lemma TestBitConversions(x: int, i: nat)
    ensures i < 8 ==> TestBit(ToUInt8(x), i) == TestBit(x, i)
    ensures i < 16 ==> TestBit(ToUInt16(x), i) == TestBit(x, i)
    ensures i < 16 ==> TestBit(ToInt16(x), i) == TestBit(x, i)
  {
    Pow2Values();
    TestBitRemainder(x, 0x100, 8, i);
    TestBitRemainder(x, 0x1_0000, 16, i);
    TestBitRemainder(ToInt16(x), 0x1_0000, 16, i);
    assert ToInt16(x) % 0x1_0000 == x % 0x1_0000 by {
      ToInt16IsCongruent(x);
    }
  }

  lemma ToInt16IsCongruent(x: int)
    ensures ToUInt16(ToInt16(x)) == ToUInt16(x)
  {
    var q := (x + 0x8000) / 0x1_0000;
    DivModUnique(ToInt16(x), 0x1_0000, x / 0x1_0000 - q, x % 0x1_0000);
  }

  /** Two's complement additions and shifts may be truncated at the end only. */
  lemma {:induction false} ToInt16Absorbs(x: int, y: int, s: nat)
    ensures ToInt16(ToInt16(x) + y) == ToInt16(x + y)
    ensures ToInt16(Shl(ToInt16(x), s)) == ToInt16(Shl(x, s))
    decreases s
  {
    var q := (x + 0x8000) / 0x1_0000;
    assert ToInt16(x) == x + 0x1_0000 * -q;
    ToInt16Periodic(x + y, -q);
    ToInt16Periodic(x, -q);
    if s > 0 {
      ToInt16Absorbs(x, y, s - 1);
      ToInt16Doubles(Shl(ToInt16(x), s - 1), Shl(x, s - 1));
    }
  }

  lemma ToInt16Doubles(x: int, y: int)
    requires ToInt16(x) == ToInt16(y)
    ensures ToInt16(2 * x) == ToInt16(2 * y)
  {
    var k := (x + 0x8000) / 0x1_0000 - (y + 0x8000) / 0x1_0000;
    assert 2 * x == 2 * y + 0x1_0000 * (2 * k);
    ToInt16Periodic(2 * y, 2 * k);
  }

  lemma ToInt16Periodic(x: int, k: int)
    ensures ToInt16(x + 0x1_0000 * k) == ToInt16(x)
  {
    var z := x + 0x8000;
    DivModUnique(z + 0x1_0000 * k, 0x1_0000, z / 0x1_0000 + k, z % 0x1_0000);
  }

  // ---- disjoint sums: a shifted number and one that fits below it ----

  lemma {:induction false} LowOfSum(x: int, f: nat, r: nat)
    requires Fits(f, r)
    ensures Low(Shl(x, r) + f, r) == f
    decreases r
  {
    if r > 0 {
      LowOfSum(x, f / 2, r - 1);
    }
  }

  lemma {:induction false} TestBitSum(x: int, f: nat, r: nat, i: nat)
    requires Fits(f, r)
    ensures TestBit(Shl(x, r) + f, i) == if i < r then TestBit(f, i) else TestBit(x, i - r)
    decreases r
  {
    if r > 0 && i > 0 {
      TestBitSum(x, f / 2, r - 1, i - 1);
    }
  }

  lemma {:induction false} TestBitBeyond(x: nat, n: nat, i: nat)
    requires Fits(x, n) && i >= n
    ensures !TestBit(x, i)
    decreases n
  {
    if n == 0 {
      TestBitZero(i);
    } else {
      TestBitBeyond(x / 2, n - 1, i - 1);
    }
  }

  /** Conversions keep the low bits. */
  lemma LowConversions(x: int, r: nat)
    ensures r <= 8 ==> Low(ToUInt8(x), r) == Low(x, r)
    ensures r <= 16 ==> Low(ToUInt16(x), r) == Low(x, r) && Low(ToInt16(x), r) == Low(x, r)
  {
    hide ToUInt8, ToUInt16, ToInt16, Low;
    forall i: nat
      ensures i < 8 ==> TestBit(ToUInt8(x), i) == TestBit(x, i)
      ensures i < 16 ==> TestBit(ToUInt16(x), i) == TestBit(x, i) && TestBit(ToInt16(x), i) == TestBit(x, i)
    {
      TestBitConversions(x, i);
    }
    if r <= 8 {
      LowDetermines(ToUInt8(x), x, r);
    }
    if r <= 16 {
      LowDetermines(ToUInt16(x), x, r);
      LowDetermines(ToInt16(x), x, r);
    }
  }
}
