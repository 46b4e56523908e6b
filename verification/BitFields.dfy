/** When `write_bit_value` and `read_bit_value` are exact, and that they are inverse exactly then. */
module BitFields {
  import opened Words
  import opened BitStrings
  import opened BitUtils

  /** No bit of b in [lo, hi) is set. */
  predicate Blank(b: seq<bool>, lo: nat, hi: nat)
    requires lo <= hi <= |b|
  {
    forall k :: lo <= k < hi ==> !b[k]
  }

  /** b with the bits from off on replaced by those of f. */
  function Splice(b: seq<bool>, off: nat, f: seq<bool>): (r: seq<bool>)
    requires off + |f| <= |b|
  {
    b[..off] + f + b[off + |f|..]
  }

  /** The bits of the sign-extended value that fall between the start of the byte and the field. */
  predicate SpillFree(off: nat, val: int, n: nat) {
    Low(Shr(val, n), off % 8) == 0
  }

  /** A field of n bits at offset off gives back the value u that was written to it. */
  predicate Carries(off: nat, n: nat, u: uint16) {
    Fits(u, n) && (off % 8 + n <= 16 || Fits(u, off % 8 + n - 8))
  }

  lemma LowZeroClears(x: int, n: nat, i: nat)
    requires Low(x, n) == 0 && i < n
    ensures !TestBit(x, i)
  {
    TestBitLow(x, n, i);
    TestBitZero(i);
  }

  lemma {:induction false} SomeBit(x: int, n: nat) returns (i: nat)
    requires Low(x, n) != 0
    ensures i < n && TestBit(x, i)
    decreases n
  {
    if x % 2 == 1 {
      i := 0;
    } else {
      i := SomeBit(x / 2, n - 1);
      i := i + 1;
    }
  }

  /** The field itself always receives the n low bits of the value. */
  lemma FieldReceives(b: seq<bool>, off: nat, val: int, n: nat)
    requires off + n <= |b| && Blank(b, off, off + n)
    ensures WriteBits(b, off, val, n)[off..off + n] == Enc(val, n)
    ensures WriteBits(b, off, val, n)[..8 * (off / 8)] == b[..8 * (off / 8)]
    ensures WriteBits(b, off, val, n)[off + n..] == b[off + n..]
  {
  }

  /** On blank bits, a write changes the field and nothing else exactly when nothing is spilled. */
  lemma WriteExactIff(b: seq<bool>, off: nat, val: int, n: nat)
    requires off + n <= |b| && Blank(b, 8 * (off / 8), off + n)
    ensures WriteBits(b, off, val, n) == Splice(b, off, Enc(val, n)) <==> SpillFree(off, val, n)
  {
    if SpillFree(off, val, n) {
      WriteExact(b, off, val, n);
    } else {
      var i := SomeBit(Shr(val, n), off % 8);
      TestBitShr(val, n, i);
      assert WriteBits(b, off, val, n)[off - 1 - i] && !Splice(b, off, Enc(val, n))[off - 1 - i];
    }
  }

  lemma WriteExact(b: seq<bool>, off: nat, val: int, n: nat)
    requires off + n <= |b| && Blank(b, off, off + n) && SpillFree(off, val, n)
    ensures WriteBits(b, off, val, n) == Splice(b, off, Enc(val, n))
  {
    var w, r := WriteBits(b, off, val, n), Splice(b, off, Enc(val, n));
    forall k | 0 <= k < |b|
      ensures w[k] == r[k]
    {
      if 8 * (off / 8) <= k < off {
        TestBitShr(val, n, off - 1 - k);
        LowZeroClears(Shr(val, n), off % 8, off - 1 - k);
      }
    }
  }

  lemma BlankAfterSplice(b: seq<bool>, off: nat, e: seq<bool>, n: nat)
    requires off + |e| + n <= |b| && Blank(b, off, off + |e| + n)
    ensures Blank(Splice(b, off, e), off + |e|, off + |e| + n)
  {
  }

  lemma SpliceAppends(b: seq<bool>, off: nat, e: seq<bool>, f: seq<bool>)
    requires off + |e| + |f| <= |b|
    ensures Splice(Splice(b, off, e), off + |e|, f) == Splice(b, off, e + f)
  {
    var s := Splice(b, off, e);
    assert s[..off + |e|] == b[..off] + e;
    assert s[off + |e| + |f|..] == b[off + |e| + |f|..];
  }

  /** Values that fit and are below 2^15 are written exactly at any offset, and every value is at byte offsets. */
  lemma FittingIsSpillFree(off: nat, u: uint16, n: nat)
    requires n <= 16 && (off % 8 == 0 || (Fits(u, n) && u < 0x8000))
    ensures SpillFree(off, ToInt16(u), n)
  {
    if off % 8 != 0 {
      ShrZeroIff(u, n);
      LowOfFitting(0, off % 8);
    }
  }

  /** A negative `int16_t` always spills: its sign extension is all ones. */
  lemma NegativeSpills(off: nat, u: uint16, n: nat)
    requires n == 16 && u >= 0x8000 && off % 8 > 0
    ensures !SpillFree(off, ToInt16(u), n)
  {
    hide Shr, Low, Pow2;
    var v := ToInt16(u);
    TestBitShr(v, 16, 0);
    SignBit(u, 16);
    if SpillFree(off, v, n) {
      LowZeroClears(Shr(v, 16), off % 8, 0);
    }
  }

  lemma {:induction false} NegativeBit(x: int, i: nat)
    requires x < 0 <= x + Pow2(i)
    ensures TestBit(x, i)
    decreases i
  {
    if i > 0 {
      NegativeBit(x / 2, i - 1);
    }
  }

  /** The sign bit of an `int16_t` goes on for ever. */
  lemma SignBit(v: uint16, i: nat)
    requires v >= 0x8000 && i >= 16
    ensures TestBit(ToInt16(v), i)
  {
    hide TestBit, Pow2;
    Pow2Values();
    Pow2Monotone(16, i);
    NegativeBit(ToInt16(v), i);
  }

  lemma CarriesIsSpillFree(off: nat, u: uint16, n: nat)
    requires 1 <= n <= 16 && Carries(off, n, u)
    ensures SpillFree(off, ToInt16(u), n)
  {
    hide SpillFree;
    Pow2Values();
    if off % 8 + n <= 16 {
      if off % 8 > 0 {
        Pow2Monotone(n, 15);
      }
    } else {
      Pow2Monotone(off % 8 + n - 8, 15);
    }
    FittingIsSpillFree(off, u, n);
  }

  lemma EncConversions(u: int, n: nat)
    requires n <= 16
    ensures Enc(ToInt16(u), n) == Enc(u, n)
  {
    forall k | 0 <= k < n
      ensures Enc(ToInt16(u), n)[k] == Enc(u, n)[k]
    {
      TestBitConversions(u, n - 1 - k);
    }
  }

  lemma EncSlice(v: int, n: nat, i: nat, len: nat)
    requires i + len <= n
    ensures Enc(v, n)[i..i + len] == Enc(Shr(v, n - i - len), len)
  {
    var w := Shr(v, n - i - len);
    forall k | 0 <= k < len
      ensures Enc(v, n)[i..i + len][k] == Enc(w, len)[k]
    {
      TestBitShr(v, n - i - len, len - 1 - k);
    }
  }

  lemma LowIsUInt16(u: int, n: nat)
    requires n <= 16
    ensures 0 <= Low(u, n) < 0x1_0000
  {
    LowFits(u, n);
    Pow2Monotone(n, 16);
    Pow2Values();
  }

  lemma ReadOfTwoBytes(b: seq<bool>, off: nat, n: nat)
    requires off + n <= |b| && off % 8 + n <= 16
    ensures ReadBits(b, off, n) == ToInt16(Dec(b[off..off + n]))
  {
  }

  lemma LowIsIdentityIff(u: int, n: nat)
    ensures Low(u, n) == u <==> Fits(u, n)
  {
    LowFits(u, n);
    if Fits(u, n) {
      LowOfFitting(u, n);
    }
  }

  /** A field holding the n low bits of u reads as u exactly when it carries u. */
  lemma ReadFieldIff(b: seq<bool>, off: nat, u: uint16, n: nat)
    requires 1 <= n <= 16 && off + n <= |b| && b[off..off + n] == Enc(u, n)
    ensures ToUInt16(ReadBits(b, off, n)) == u <==> Carries(off, n, u)
  {
    hide Low, Dec, Enc, ReadBits, Fits;
    if off % 8 + n <= 16 {
      ReadOfTwoBytes(b, off, n);
      DecEnc(u, n);
      LowIsUInt16(u, n);
      LowIsIdentityIff(u, n);
      ToInt16IsCongruent(Low(u, n));
    } else {
      ReadThreeBytes(b, off, u, n);
    }
  }

  /** The three fragments of a three-byte field: what the code reads, and the value that they form. */
  lemma Fragments(b: seq<bool>, off: nat, u: uint16, n: nat) returns (f1: nat, f2: nat, f3: nat)
    requires 16 < off % 8 + n && n <= 16 && off + n <= |b| && b[off..off + n] == Enc(u, n)
    ensures f1 == Dec(b[off..off + 8 - off % 8])
    ensures var a := 8 - off % 8; var r := n - a - 8;
      && ReadBits(b, off, n) == ToInt16(Shl(Shl(f1, 8 + r) + f2, r) + f3)
      && Low(u, n) == Shl(Shl(f1, 8) + f2, r) + f3
      && f1 == Low(Shr(u, 8 + r), a)
      && Fits(f2, 8) && Fits(f3, r)
  {
    hide Low, Shl, Shr, Enc, Dec;
    var a := 8 - off % 8;
    var r := n - a - 8;
    var p, q, s := b[off..off + a], b[off + a..off + a + 8], b[off + a + 8..off + n];
    f1, f2, f3 := Dec(p), Dec(q), Dec(s);
    DecFits(q);
    DecFits(s);
    DecEnc(u, n);
    assert b[off..off + n] == p + q + s;
    DecConcat(p + q, s);
    DecConcat(p, q);
    assert p == Enc(u, n)[0..0 + a];
    EncSlice(u, n, 0, a);
    DecEnc(Shr(u, 8 + r), a);
  }

  /** The misread fragment is too far up to be seen in the low byte. */
  lemma LowByteIsRead(b: seq<bool>, off: nat, u: uint16, n: nat)
    requires 16 < off % 8 + n && n <= 16 && off + n <= |b| && b[off..off + n] == Enc(u, n)
    ensures Low(ReadBits(b, off, n), 8) == Low(u, 8)
  {
    hide Low, Shl, Enc, Dec, ReadBits, TestBit, ToInt16, Pow2;
    var r := off % 8 + n - 16;
    var f1, f2, f3 := Fragments(b, off, u, n);
    Pow2Monotone(8, 8 + r);
    forall i | 0 <= i < 8
      ensures TestBit(ReadBits(b, off, n), i) == TestBit(u, i)
    {
      TestBitConversions(Shl(Shl(f1, 8 + r) + f2, r) + f3, i);
      TestBitSum(Shl(f1, 8 + r) + f2, f3, r, i);
      TestBitSum(Shl(f1, 8) + f2, f3, r, i);
      TestBitLow(u, n, i);
      if i >= r {
        TestBitSum(f1, f2, 8 + r, i - r);
        TestBitSum(f1, f2, 8, i - r);
      }
    }
    LowDetermines(ReadBits(b, off, n), u, 8);
  }

  lemma {:induction false} ShlIsProduct(x: int, s: nat)
    ensures Shl(x, s) == x * Pow2(s)
    decreases s
  {
    if s > 0 {
      ShlIsProduct(x, s - 1);
    }
  }

  lemma {:induction false} Pow2Adds(m: nat, n: nat)
    ensures Pow2(m + n) == Pow2(m) * Pow2(n)
    decreases n
  {
    if n > 0 {
      Pow2Adds(m, n - 1);
    }
  }

  /** An even multiple of an odd number is a multiple of an even one. */
  lemma EvenFactor(f: nat, h: nat, p: nat, k: int)
    requires f * (2 * h + 1) == 2 * p * k
    ensures f == 2 * (f / 2) && f / 2 * (2 * h + 1) == p * k
  {
    var g, x := f * h, p * k;
    assert f * (2 * h + 1) == 2 * g + f;
    assert 2 * p * k == 2 * x;
    assert f == 2 * (x - g);
    HalfOf(f, x - g);
    assert 2 * ((x - g) * (2 * h + 1)) == (2 * (x - g)) * (2 * h + 1);
  }

  lemma HalfOf(f: int, g: int)
    requires f == 2 * g
    ensures f / 2 == g
  {
  }

  /** An odd factor does not help a small number to be a multiple of a power of 2. */
  lemma {:induction false} OddFactor(f: nat, h: nat, a: nat, k: int)
    requires Fits(f, a) && f * (2 * h + 1) == Pow2(a) * k
    ensures f == 0
    decreases a
  {
    if a > 0 {
      Doubles(a);
      EvenFactor(f, h, Pow2(a - 1), k);
      OddFactor(f / 2, h, a - 1, k);
    }
  }

  lemma Doubles(a: nat)
    requires a > 0
    ensures Pow2(a) == 2 * Pow2(a - 1)
  {
  }

  /** The powers of 2 that separate the parts of a misread value. */
  lemma SlipFactors(a: nat, r: nat)
    requires 1 <= r && a + r <= 8
    ensures Pow2(8 + 2 * r) == Pow2(8 + r) * Pow2(r) && Pow2(8 + a + r) == Pow2(8 + r) * Pow2(a)
    ensures 0x1_0000 == Pow2(8 + r) * (Pow2(a) * Pow2(8 - a - r))
    ensures Pow2(r) - 1 == 2 * (Pow2(r - 1) - 1) + 1
  {
    hide Pow2;
    Pow2Adds(8 + r, r);
    Pow2Adds(8 + r, a);
    Pow2Adds(8 + r, 8 - r);
    Pow2Adds(a, 8 - a - r);
    Pow2Values();
    Doubles(r);
  }

  /**
   The error made on a first fragment f, less a part t of the value that does not fit the field,
   vanishes modulo 2^16 only if both are 0.
   */
  lemma Slip(f: nat, t: nat, a: nat, r: nat, k: int)
    requires 1 <= r && a + r <= 8 && Fits(f, a) && Fits(t, 8 - a - r)
    requires f * Pow2(8 + 2 * r) - f * Pow2(8 + r) - t * Pow2(8 + a + r) == 0x1_0000 * k
    ensures f == 0 && t == 0
  {
    hide Pow2;
    var p, q, c, d := Pow2(8 + r), Pow2(r), Pow2(a), Pow2(8 - a - r);
    SlipFactors(a, r);
    CommonFactor(f, t, k, p, q, c, d);
    OddFactor(f, Pow2(r - 1) - 1, a, t + d * k);
    Cancel(c, t + d * k, 0);
    SmallMultiple(k, d);
  }

  lemma CommonFactor(f: int, t: int, k: int, p: int, q: int, c: int, d: int)
    requires p > 0 && f * (p * q) - f * p - t * (p * c) == (p * (c * d)) * k
    ensures f * (q - 1) == c * (t + d * k)
  {
    assert p * (f * (q - 1) - t * c) == f * (p * q) - f * p - t * (p * c);
    assert p * (c * d * k) == (p * (c * d)) * k;
    Cancel(p, f * (q - 1) - t * c, c * d * k);
    assert c * (t + d * k) == c * t + c * d * k;
  }

  lemma Cancel(p: int, x: int, y: int)
    requires p > 0 && p * x == p * y
    ensures x == y
  {
    assert (x - y) * p == 0;
    SmallMultiple(x - y, p);
  }

  lemma {:induction false} ShrZeroIff(u: nat, m: nat)
    ensures Shr(u, m) == 0 <==> Fits(u, m)
    decreases m
  {
    if m > 0 {
      ShrZeroIff(u / 2, m - 1);
    }
  }

  lemma {:induction false} ShrFits(u: int, m: nat, n: nat)
    requires Fits(u, m + n)
    ensures Fits(Shr(u, m), n)
    decreases m
  {
    if m > 0 {
      ShrFits(u / 2, m - 1, n);
    }
  }

  /** What the code computes on a three-byte field minus the value that it should give. */
  lemma ReadError(f1: nat, f2: nat, f3: nat, t: int, a: nat, r: nat)
    ensures (Shl(Shl(f1, 8 + r) + f2, r) + f3) - (Shl(Shl(f1, 8) + f2, r) + f3 + Shl(t, 8 + a + r))
         == f1 * Pow2(8 + 2 * r) - f1 * Pow2(8 + r) - t * Pow2(8 + a + r)
  {
    ShlAdd(Shl(f1, 8 + r), f2, r);
    ShlAdd(Shl(f1, 8), f2, r);
    ShlShl(f1, 8 + r, r);
    ShlShl(f1, 8, r);
    ShlIsProduct(f1, 8 + 2 * r);
    ShlIsProduct(f1, 8 + r);
    ShlIsProduct(t, 8 + a + r);
  }

  /** The first fragment is 0 exactly when the value has no bit that high. */
  lemma FirstFragmentZeroIff(u: nat, m: nat, a: nat)
    requires Fits(u, m + a)
    ensures Low(Shr(u, m), a) == 0 <==> Fits(u, m)
  {
    hide Shr, Low;
    ShrFits(u, m, a);
    LowOfFitting(Shr(u, m), a);
    ShrZeroIff(u, m);
  }

  lemma ReadThreeBytes(b: seq<bool>, off: nat, u: uint16, n: nat)
    requires 16 < off % 8 + n && n <= 16 && off + n <= |b| && b[off..off + n] == Enc(u, n)
    ensures ToUInt16(ReadBits(b, off, n)) == u <==> Carries(off, n, u)
  {
    hide Low, Shl, Shr, Enc, Dec, Pow2, ReadBits;
    var a := 8 - off % 8;
    var r := n - a - 8;
    var t := Shr(u, n);
    var f1, f2, f3 := Fragments(b, off, u, n);
    var raw := Shl(Shl(f1, 8 + r) + f2, r) + f3;
    ToInt16IsCongruent(raw);
    SubtractHigh(u, n);
    ReadError(f1, f2, f3, t, a, r);
    LowFits(Shr(u, 8 + r), a);
    Pow2Values();
    ShrFits(u, n, 16 - n);
    ShrZeroIff(u, n);
    if Fits(u, n) {
      FirstFragmentZeroIff(u, 8 + r, a);
    }
    if ToUInt16(raw) == u {
      Slip(f1, t, a, r, raw / 0x1_0000);
    }
  }

  lemma {:induction false} ShrIsQuotient(x: int, n: nat, d: int)
    requires d == Pow2(n)
    ensures Shr(x, n) == x / d
    decreases n
  {
    if n > 0 {
      ShrIsQuotient(x / 2, n - 1, d / 2);
      HalveRemainder(x, d / 2);
    }
  }

  lemma RawMisread(b: seq<bool>, off: nat, u: uint16, n: nat, r: nat) returns (raw: int)
    requires off % 8 + n == 16 + r && 1 <= r && n <= 16 && off + n <= |b| && b[off..off + n] == Enc(u, n) && Fits(u, n)
    ensures ReadBits(b, off, n) == ToInt16(raw)
    ensures raw - u == (u / Pow2(8 + r)) * Pow2(8 + 2 * r) - (u / Pow2(8 + r)) * Pow2(8 + r)
  {
    hide Low, Shl, Shr, Enc, Dec, Pow2, ReadBits;
    var a := 8 - off % 8;
    var f1, f2, f3 := Fragments(b, off, u, n);
    raw := Shl(Shl(f1, 8 + r) + f2, r) + f3;
    LowOfFitting(u, n);
    ShrFits(u, 8 + r, a);
    LowOfFitting(Shr(u, 8 + r), a);
    ShrIsQuotient(u, 8 + r, Pow2(8 + r));
    ReadError(f1, f2, f3, 0, a, r);
    ShlIsProduct(0, 8 + a + r);
  }

  /** What a three-byte field is read as: with r bits in its last byte, those in its first byte count 2^r times. */
  lemma MisreadIs(b: seq<bool>, off: nat, u: uint16, n: nat, r: nat)
    requires off % 8 + n == 16 + r && 1 <= r && n <= 16 && off + n <= |b| && b[off..off + n] == Enc(u, n) && Fits(u, n)
    ensures ToUInt16(ReadBits(b, off, n)) == (u + u / Pow2(8 + r) * Pow2(8 + r) * (Pow2(r) - 1)) % 0x1_0000
  {
    hide *;
    var raw := RawMisread(b, off, u, n, r);
    ToInt16IsCongruent(raw);
    Pow2Adds(8 + r, r);
    Distributes(u / Pow2(8 + r), Pow2(8 + r), Pow2(r));
    WordIsRemainder(raw);
  }

  lemma WordIsRemainder(x: int)
    ensures ToUInt16(x) == x % 0x1_0000
  {
  }

  lemma Distributes(f: int, p: int, q: int)
    ensures f * (p * q) - f * p == f * p * (q - 1)
  {
  }

  /** The same on a field that was written on blank bits: there is no smaller or larger exact domain. */
  lemma RoundTripIff(b: seq<bool>, off: nat, u: uint16, n: nat)
    requires 1 <= n <= 16 && off + n <= |b| && Blank(b, off, off + n)
    ensures ToUInt16(ReadBits(WriteBits(b, off, ToInt16(u), n), off, n)) == u <==> Carries(off, n, u)
  {
    FieldReceives(b, off, ToInt16(u), n);
    EncConversions(u, n);
    ReadFieldIff(WriteBits(b, off, ToInt16(u), n), off, u, n);
  }

  lemma SameWord(x: int16, u: uint16)
    ensures x == ToInt16(u) <==> ToUInt16(x) == u
  {
  }

  lemma ThreeBytesExactIff(b: seq<bool>, off: nat, u: uint16, n: nat)
    requires 16 < off % 8 + n && n <= 16 && off + n <= |b| && b[off..off + n] == Enc(u, n) && Fits(u, n)
    ensures ReadBits(b, off, n) == ToInt16(u) <==> Dec(b[off..off + 8 - off % 8]) == 0
  {
    hide Low, Shr, Shl, Enc, Dec, Pow2, ReadBits, ToInt16, ToUInt16;
    SameWord(ReadBits(b, off, n), u);
    ReadThreeBytes(b, off, u, n);
    var f1, _, _ := Fragments(b, off, u, n);
    FirstFragmentZeroIff(u, n - 8 + off % 8, 8 - off % 8);
  }

  /** The value of a field of at most 16 bits. */
  lemma FieldValue(f: seq<bool>)
    requires |f| <= 16
    ensures Dec(f) < 0x1_0000 && Fits(Dec(f), |f|) && Enc(Dec(f), |f|) == f
  {
    hide Dec, Enc, Pow2;
    DecFits(f);
    Pow2Monotone(|f|, 16);
    Pow2Values();
    EncDec(f);
  }

  /** `read_bit_value` on any field: exact if and only if the field has no third byte or starts with zeros. */
  lemma ReadExactIff(b: seq<bool>, off: nat, n: nat)
    requires 1 <= n <= 16 && off + n <= |b|
    ensures ReadBits(b, off, n) == ToInt16(Dec(b[off..off + n]))
      <==> off % 8 + n <= 16 || Dec(b[off..off + 8 - off % 8]) == 0
  {
    hide Enc, Dec, Pow2, ReadBits, ToInt16, Fits;
    FieldValue(b[off..off + n]);
    if off % 8 + n > 16 {
      ThreeBytesExactIff(b, off, Dec(b[off..off + n]), n);
    } else {
      ReadOfTwoBytes(b, off, n);
    }
  }

  // ---- fields whose last byte has been disturbed ----

  lemma EncOfLow(u: int, r: nat)
    ensures Enc(Low(u, r), r) == Enc(u, r)
  {
    forall k | 0 <= k < r
      ensures Enc(Low(u, r), r)[k] == Enc(u, r)[k]
    {
      TestBitLow(u, r, r - 1 - k);
    }
  }

  /** On three bytes, the last fragment is what the reader returns in the lowest bits, misread or not. */
  lemma ThirdFragment(b: seq<bool>, off: nat, n: nat)
    requires n <= 16 && 16 < off % 8 + n && off + n <= |b|
    ensures var r := off % 8 + n - 16;
      Low(ReadBits(b, off, n), r) == Dec(b[off + n - r..off + n])
  {
    hide Low, Shl, Dec;
    var a := 8 - off % 8;
    var r := n - a - 8;
    var x := Shl(Dec(b[off..off + a]), 8 + r) + Dec(b[off + a..off + a + 8]);
    var f := Dec(b[off + a + 8..off + n]);
    DecFits(b[off + a + 8..off + n]);
    LowOfSum(x, f, r);
    LowConversions(Shl(x, r) + f, r);
  }

  lemma TwoParts(b: seq<bool>, off: nat, e: seq<bool>, m: nat)
    requires off + |e| <= |b| && m <= |e|
    requires b[off..off + m] == e[..m] && b[off + m..off + |e|] == e[m..]
    ensures b[off..off + |e|] == e
  {
    assert b[off..off + |e|] == b[off..off + m] + b[off + m..off + |e|];
    assert e == e[..m] + e[m..];
  }

  /** If only the last byte of a field can have changed, its low bits tell whether it has. */
  lemma LastFragmentDecides(b: seq<bool>, off: nat, u: uint16, n: nat)
    requires n <= 16 && 16 < off % 8 + n && off + n <= |b|
    requires b[off..off + 16 - off % 8] == Enc(u, n)[..16 - off % 8]
    requires Low(ReadBits(b, off, n), off % 8 + n - 16) == Low(u, off % 8 + n - 16)
    ensures b[off..off + n] == Enc(u, n)
  {
    hide Low, Dec, Enc, ReadBits;
    var m := 16 - off % 8;
    var r := n - m;
    ThirdFragment(b, off, n);
    EncDec(b[off + m..off + n]);
    EncOfLow(u, r);
    EncSlice(u, n, m, r);
    ShrByNone(u);
    SliceToEnd(Enc(u, n), m);
    TwoParts(b, off, Enc(u, n), m);
  }

  lemma ShrByNone(u: int)
    ensures Shr(u, 0) == u
  {
  }

  lemma SliceToEnd(e: seq<bool>, m: nat)
    requires m <= |e|
    ensures e[m..|e|] == e[m..]
  {
  }

  /** A field of at most two bytes reads as a value exactly when it holds the bits of that value, which fits. */
  lemma ReadTwoBytesIff(b: seq<bool>, off: nat, n: nat, u: uint16)
    requires 1 <= n <= 16 && off + n <= |b| && off % 8 + n <= 16
    ensures Fits(ToUInt16(ReadBits(b, off, n)), n)
    ensures ToUInt16(ReadBits(b, off, n)) == u <==> b[off..off + n] == Enc(u, n) && Fits(u, n)
  {
    hide Low, Dec, Enc, ReadBits, Pow2;
    var d := Dec(b[off..off + n]);
    DecFits(b[off..off + n]);
    EncDec(b[off..off + n]);
    Pow2Monotone(n, 16);
    Pow2Values();
    ReadOfTwoBytes(b, off, n);
    ToInt16IsCongruent(d);
    if b[off..off + n] == Enc(u, n) && Fits(u, n) {
      DecEnc(u, n);
      LowOfFitting(u, n);
    }
  }

  /**
   A field whose first two bytes are right reads as a value exactly when it holds all the bits of a
   value that it carries.
   */
  lemma ReadBackIff(b: seq<bool>, off: nat, u: uint16, n: nat)
    requires 1 <= n <= 16 && off + n <= |b|
    requires 16 < off % 8 + n ==> b[off..off + 16 - off % 8] == Enc(u, n)[..16 - off % 8]
    ensures ToUInt16(ReadBits(b, off, n)) == u <==> Carries(off, n, u) && b[off..off + n] == Enc(u, n)
  {
    hide Low, Enc, ReadBits, Fits, ToUInt16;
    if b[off..off + n] == Enc(u, n) {
      ReadFieldIff(b, off, u, n);
    } else if ToUInt16(ReadBits(b, off, n)) == u {
      if off % 8 + n <= 16 {
        ReadTwoBytesIff(b, off, n, u);
      } else {
        LowConversions(ReadBits(b, off, n), off % 8 + n - 16);
        LastFragmentDecides(b, off, u, n);
      }
    }
  }

  /** Reading never moves a bit to a lower place: low zeros stay. */
  lemma LowZerosStay(b: seq<bool>, off: nat, n: nat, y: int, p: nat)
    requires n <= 16 && p <= 16 && off + n <= |b| && b[off..off + n] == Enc(y, n)
    requires forall i :: 0 <= i < p ==> !TestBit(y, i)
    ensures forall i :: 0 <= i < p ==> !TestBit(ReadBits(b, off, n), i)
  {
    hide TestBit, Enc, ReadBits;
    forall i | 0 <= i < p
      ensures !TestBit(ReadBits(b, off, n), i)
    {
      LowZeroStays(b, off, n, y, p, i);
    }
  }

  lemma LowZeroStays(b: seq<bool>, off: nat, n: nat, y: int, p: nat, i: nat)
    requires n <= 16 && i < p <= 16 && off + n <= |b| && b[off..off + n] == Enc(y, n)
    requires forall i :: 0 <= i < p ==> !TestBit(y, i)
    ensures !TestBit(ReadBits(b, off, n), i)
  {
    hide TestBit, Enc, ReadBits, Low, Shl, Dec, Shr, Pow2;
    if off % 8 + n <= 16 {
      ReadOfTwoBytes(b, off, n);
      DecEnc(y, n);
      TestBitConversions(Low(y, n), i);
      TestBitLow(y, n, i);
    } else {
      ThreeByteZero(b, off, n, y, p, i);
    }
  }

  lemma ThreeByteZero(b: seq<bool>, off: nat, n: nat, y: int, p: nat, i: nat)
    requires n <= 16 && 16 < off % 8 + n && i < p <= 16 && off + n <= |b| && b[off..off + n] == Enc(y, n)
    requires forall i :: 0 <= i < p ==> !TestBit(y, i)
    ensures !TestBit(ReadBits(b, off, n), i)
  {
    hide TestBit, Enc, ReadBits, Low, Shl, Dec, Shr, Pow2;
    var r := off % 8 + n - 16;
    EncOfLow(y, n);
    var u := ToUInt16(Low(y, n));
    LowIsUInt16(y, n);
    var f1, f2, f3 := Fragments(b, off, u, n);
    var raw := Shl(Shl(f1, 8 + r) + f2, r) + f3;
    var low := Shl(Shl(f1, 8) + f2, r) + f3;
    LowFits(y, n);
    LowOfFitting(u, n);
    TestBitConversions(raw, i);
    TestBitSum(Shl(f1, 8 + r) + f2, f3, r, i);
    TestBitLow(y, n, i);
    TestBitSum(Shl(f1, 8) + f2, f3, r, i);
    if i >= r {
      Pow2Monotone(8, 8 + r);
      TestBitSum(f1, f2, 8 + r, i - r);
      TestBitSum(f1, f2, 8, i - r);
      if i - r >= 8 {
        TestBitBeyond(f2, 8, i - r);
        if i - r >= 8 + r {
          TestBitLow(y, n, i - r);
          TestBitSum(Shl(f1, 8) + f2, f3, r, i - r);
          TestBitSum(f1, f2, 8, i - r - r);
        }
      }
    }
  }

  /** A read depends on the bits of its field only. */
  lemma ReadIsLocal(b: seq<bool>, c: seq<bool>, off: nat, n: nat)
    requires off + n <= |b| && off + n <= |c| && b[off..off + n] == c[off..off + n]
    ensures ReadBits(b, off, n) == ReadBits(c, off, n)
  {
    hide Dec, Shl;
    var a := 8 - off % 8;
    if n > a + 8 {
      SliceOfSlice(b, off, off + n, 0, a);
      SliceOfSlice(b, off, off + n, a, a + 8);
      SliceOfSlice(b, off, off + n, a + 8, n);
      SliceOfSlice(c, off, off + n, 0, a);
      SliceOfSlice(c, off, off + n, a, a + 8);
      SliceOfSlice(c, off, off + n, a + 8, n);
    }
  }

  lemma SliceAt(w: seq<bool>, lo: nat, hi: nat, i: nat)
    requires lo <= i < hi <= |w|
    ensures w[lo..hi][i - lo] == w[i]
  {
  }

  lemma SameSlice(c: seq<bool>, z: seq<bool>, lo: nat, hi: nat)
    requires lo <= hi <= |c| && hi <= |z| && forall i :: lo <= i < hi ==> c[i] == z[i]
    ensures c[lo..hi] == z[lo..hi]
  {
  }
}
