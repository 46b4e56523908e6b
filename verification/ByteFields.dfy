/** Fields that coincide with bytes: reading and writing them is reading and writing the bytes. */
module ByteFields {
  import opened Words
  import opened BitStrings
  import opened BitUtils
  import opened BitFields

  /** Two buffers of the same length with the same bits are the same. */
  lemma SameBits(s: seq<uint8>, t: seq<uint8>)
    requires |s| == |t|
    requires forall k :: 0 <= k < 8 * |s| ==> Bits(s)[k] == Bits(t)[k]
    ensures s == t
  {
    assert Bits(s) == Bits(t);
    BitsInjective(s, t);
  }

  /** An 8-bit write to a zero byte stores the byte. */
  lemma WriteOfByte(s: seq<uint8>, t: seq<uint8>, m: nat, v: int)
    requires m < |s| && s[m] == 0
    requires Bits(t) == WriteBits(Bits(s), 8 * m, v, 8)
    ensures t == s[m := ToUInt8(v)]
  {
    forall k | 0 <= k < 8 * |s|
      ensures Bits(t)[k] == Bits(s[m := ToUInt8(v)])[k]
    {
      TestBitZero(7 - k % 8);
      TestBitConversions(v, 7 - k % 8);
    }
    SameBits(t, s[m := ToUInt8(v)]);
  }

  /** A 16-bit write to two zero bytes stores the value, high byte first. */
  lemma WriteOfWord(s: seq<uint8>, t: seq<uint8>, m: nat, v: uint16)
    requires m + 1 < |s| && s[m] == 0 && s[m + 1] == 0
    requires Bits(t) == WriteBits(Bits(s), 8 * m, ToInt16(v), 16)
    ensures t == s[m := v / 0x100][m + 1 := v % 0x100]
  {
    var r := s[m := v / 0x100][m + 1 := v % 0x100];
    Pow2Values();
    ShrIsQuotient(v, 8, 0x100);
    forall k | 0 <= k < 8 * |s|
      ensures Bits(t)[k] == Bits(r)[k]
    {
      var i := 7 - k % 8;
      TestBitZero(i);
      TestBitShr(v, 8, i);
      TestBitRemainder(v, 0x100, 8, i);
      TestBitConversions(v, i);
      TestBitConversions(v, i + 8);
    }
    SameBits(t, r);
  }

  /** Two 4-bit writes to a zero byte store the two halves of a byte. */
  lemma WriteOfHalves(s: seq<uint8>, t: seq<uint8>, u: seq<uint8>, v: uint8)
    requires 0 < |s| && s[0] == 0
    requires Bits(t) == WriteBits(Bits(s), 0, v / 0x10, 4)
    requires Bits(u) == WriteBits(Bits(t), 4, v % 0x10, 4)
    ensures u == s[0 := v]
  {
    Pow2Values();
    ShrIsQuotient(v, 4, 0x10);
    forall k | 0 <= k < 8 * |s|
      ensures Bits(u)[k] == Bits(s[0 := v])[k]
    {
      var i := 7 - k % 8;
      TestBitZero(i);
      if k < 4 {
        TestBitShr(v, 4, 3 - k);
        TestBitRemainder(v, 0x10, 4, i);
      } else if k < 8 {
        TestBitRemainder(v, 0x10, 4, i);
      }
    }
    SameBits(u, s[0 := v]);
  }

  lemma ReadOfByte(s: seq<uint8>, m: nat)
    requires m < |s|
    ensures ReadBits(Bits(s), 8 * m, 8) == s[m]
  {
    hide Bits, Enc;
    BitsOfByte(s, m);
    DecByteOfEnc(s[m]);
  }

  lemma ReadOfWord(s: seq<uint8>, m: nat)
    requires m + 1 < |s|
    ensures ToUInt16(ReadBits(Bits(s), 8 * m, 16)) == 0x100 * (s[m] as int) + s[m + 1]
  {
    hide Bits, Enc, Dec, ReadBits;
    var b := Bits(s);
    var v := 0x100 * (s[m] as int) + s[m + 1];
    WordSlices(b, m);
    BitsOfByte(s, m);
    BitsOfByte(s, m + 1);
    DecByteOfEnc(s[m]);
    DecByteOfEnc(s[m + 1]);
    DecBytes(b[8 * m..8 * m + 8], b[8 * m + 8..8 * m + 16]);
    ReadOfTwoBytes(b, 8 * m, 16);
    ToInt16IsCongruent(v);
  }

  lemma WordSlices(b: seq<bool>, m: nat)
    requires 8 * m + 16 <= |b|
    ensures b[8 * m..8 * m + 16] == b[8 * m..8 * m + 8] + b[8 * m + 8..8 * m + 16]
    ensures 8 * (m + 1) == 8 * m + 8 && (8 * m) % 8 == 0
  {
  }

  lemma DecBytes(x: seq<bool>, y: seq<bool>)
    requires |x| == |y| == 8
    ensures Dec(x + y) == 0x100 * (DecByte(x) as int) + DecByte(y)
  {
    hide Dec, Shl, Pow2;
    DecConcat(x, y);
    ShlIsProduct(Dec(x), 8);
    Pow2Values();
  }

  lemma ReadOfHalves(s: seq<uint8>)
    requires 0 < |s|
    ensures ReadBits(Bits(s), 0, 4) == s[0] / 0x10
    ensures ReadBits(Bits(s), 4, 4) == s[0] % 0x10
  {
    hide Bits, Shr, Low;
    BitsInByte(s, 0, 0, 4);
    BitsInByte(s, 0, 4, 4);
    Pow2Values();
    ShrIsQuotient(s[0], 4, 0x10);
    ShrIsQuotient(s[0], 0, 1);
    LowIsRemainder(s[0] / 0x10, 4, 0x10);
    LowIsRemainder(s[0], 4, 0x10);
  }
}
