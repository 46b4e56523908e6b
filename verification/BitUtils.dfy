/** src/bit_utils.c: fields of 0 to 16 bits at any bit offset of a byte buffer. */
module BitUtils {
  import opened Words
  import opened BitStrings

  /**
   What `write_bit_value` does to the bits of a buffer, for every value: the bits of the
   sign-extended value are ORed in, from the start of the byte holding `off` up to the end of
   the field. Those before `off` are spilled: they are not part of the field.
   */
  function WriteBits(b: seq<bool>, off: nat, val: int, n: nat): (r: seq<bool>)
    ensures |r| == |b|
  {
    seq(|b|, k requires 0 <= k < |b| =>
      b[k] || (8 * (off / 8) <= k < off + n && TestBit(val, off + n - 1 - k)))
  }

  /** The last byte that a field of n bits makes the code touch; a field of width 0 touches one. */
  function LastByte(off: nat, n: nat): nat {
    if n == 0 then off / 8 else (off + n - 1) / 8
  }

  lemma BitsOfOr(s: seq<uint8>, m: nat, x: int)
    requires m < |s|
    ensures 0 <= Or(s[m], ToUInt8(x)) < 0x100
    ensures forall k :: 0 <= k < 8 * |s| ==>
      Bits(s[m := Or(s[m], ToUInt8(x))])[k] == (Bits(s)[k] || (k / 8 == m && TestBit(x, 7 - k % 8)))
  {
    OrByte(s[m], ToUInt8(x));
    forall k | 0 <= k < 8 * |s| && k / 8 == m
      ensures TestBit(Or(s[m], ToUInt8(x)), 7 - k % 8) == (Bits(s)[k] || TestBit(x, 7 - k % 8))
    {
      TestBitOr(s[m], ToUInt8(x), 7 - k % 8);
      TestBitConversions(x, 7 - k % 8);
    }
  }

  /** All bytes of `s` before `upTo` have been given their final bits, the others are those of `s0`. */
  ghost predicate Written(s0: seq<uint8>, s: seq<uint8>, upTo: nat, off: nat, val: int, n: nat) {
    && upTo <= |s| == |s0|
    && s[upTo..] == s0[upTo..]
    && Bits(s)[..8 * upTo] == WriteBits(Bits(s0), off, val, n)[..8 * upTo]
  }

  lemma NothingWritten(s0: seq<uint8>, m: nat, off: nat, val: int, n: nat)
    requires m == off / 8 && m <= |s0|
    ensures Written(s0, s0, m, off, val, n)
  {
  }

  /** ORing in a byte that holds the value's bits for this position finishes one more byte. */
  lemma OneMoreByte(s0: seq<uint8>, s: seq<uint8>, m: nat, off: nat, val: int, n: nat, x: int)
    requires m < |s| && off / 8 <= m && Written(s0, s, m, off, val, n)
    requires forall i :: 0 <= i < 8 ==>
      TestBit(x, i) == (8 * m + 7 - i < off + n && TestBit(val, off + n + i - 8 - 8 * m))
    ensures 0 <= Or(s[m], ToUInt8(x)) < 0x100
    ensures Written(s0, s[m := Or(s[m], ToUInt8(x))], m + 1, off, val, n)
  {
    BitsOfOr(s, m, x);
    var t, target := s[m := Or(s[m], ToUInt8(x))], WriteBits(Bits(s0), off, val, n);
    forall k | 0 <= k < 8 * m
      ensures Bits(t)[k] == target[k]
    {
      assert k / 8 != m && Bits(t)[k] == Bits(s)[k] == Bits(s)[..8 * m][k];
    }
    assert t[m + 1..] == s[m..][1..] == s0[m..][1..];
    forall k | 8 * m <= k < 8 * (m + 1)
      ensures Bits(t)[k] == target[k]
    {
      var i := 7 - (k - 8 * m);
      assert k / 8 == m && k % 8 == 7 - i;
      assert s[m] == s[m..][0] == s0[m..][0] == s0[m];
      assert TestBit(x, i) == (k < off + n && TestBit(val, off + n - 1 - k));
      assert Bits(s)[k] == Bits(s0)[k];
      assert Bits(t)[k] == (Bits(s)[k] || TestBit(x, i));
      assert target[k] == (Bits(s0)[k] || (k < off + n && TestBit(val, off + n - 1 - k)));
    }
  }

  /** Once the byte holding the last bit is written, so is the whole buffer. */
  lemma AllWritten(s0: seq<uint8>, s: seq<uint8>, m: nat, off: nat, val: int, n: nat)
    requires Written(s0, s, m, off, val, n) && off + n <= 8 * m
    ensures Bits(s) == WriteBits(Bits(s0), off, val, n)
  {
    forall k | 8 * m <= k < 8 * |s|
      ensures Bits(s)[k] == Bits(s0)[k]
    {
      assert s[k / 8] == s[m..][k / 8 - m] == s0[m..][k / 8 - m] == s0[k / 8];
    }
  }

  /** The bits that one pass of the loop writes, and those that it leaves in `val`. */
  lemma SplitHigh(v: int, shift: nat)
    ensures forall i :: 0 <= i < 8 ==> TestBit(Shr(v, shift), i) == TestBit(v, i + shift)
    ensures forall j :: 0 <= j < shift ==> TestBit(v - Shl(Shr(v, shift), shift), j) == TestBit(v, j)
    ensures shift <= 15 ==> 0 <= v - Shl(Shr(v, shift), shift) < 0x8000
  {
    SubtractHigh(v, shift);
    LowBelow(v, shift);
    forall i | 0 <= i < 8
      ensures TestBit(Shr(v, shift), i) == TestBit(v, i + shift)
    {
      TestBitShr(v, shift, i);
    }
    forall j | 0 <= j < shift
      ensures TestBit(Low(v, shift), j) == TestBit(v, j)
    {
      TestBitLow(v, shift, j);
    }
  }

  lemma LastFragment(v: int, shift: nat)
    ensures forall i :: 0 <= i < 8 ==>
      TestBit(ToInt16(Shl(v, shift)), i) == (i >= shift && TestBit(v, i - shift))
  {
    forall i | 0 <= i < 8
      ensures TestBit(ToInt16(Shl(v, shift)), i) == (i >= shift && TestBit(v, i - shift))
    {
      TestBitShl(v, shift, i);
      TestBitConversions(Shl(v, shift), i);
    }
  }

  /** `dst` and `base` stand for the C pointer `dst + base`. */
  method WriteBitValue(dst: array<uint8>, base: nat, offset: uint16, val: int16, valSize: uint8)
    requires valSize <= 16
    requires base + LastByte(offset, valSize) < dst.Length
    modifies dst
    ensures Bits(dst[..]) == WriteBits(old(Bits(dst[..])), 8 * base + offset, val, valSize)
  {
    hide TestBit, Written, Bits, WriteBits;
    ghost var off, s0 := 8 * base + offset, dst[..];
    var byteNo := base + offset / 8;
    NothingWritten(s0, byteNo, off, val, valSize);
    var o := offset % 8;
    var v: int16 := val;
    var remaining := valSize;
    var available := 8 - o;
    while remaining > available
      invariant 0 <= remaining && 0 <= o < 8 && available == 8 - o
      invariant 8 * byteNo + o + remaining == off + valSize
      invariant remaining > 0 || (valSize == 0 && byteNo == off / 8)
      invariant off / 8 <= byteNo
      invariant o == 0 || v == val
      invariant forall j :: 0 <= j < remaining ==> TestBit(v, j) == TestBit(val, j)
      invariant Written(s0, dst[..], byteNo, off, val, valSize)
    {
      var shift := remaining - available;
      var toWrite := ShrInt16(v, shift);
      SplitHigh(v, shift);
      OneMoreByte(s0, dst[..], byteNo, off, val, valSize, toWrite);
      dst[byteNo] := Or(dst[byteNo], ToUInt8(toWrite));
      v := v - Shl(toWrite, shift);
      remaining := remaining - available;
      available := 8;
      o := 0;
      byteNo := byteNo + 1;
    }
    var shift := 8 - remaining - o;
    var toWrite := ToInt16(Shl(v, shift));
    LastFragment(v, shift);
    OneMoreByte(s0, dst[..], byteNo, off, val, valSize, toWrite);
    dst[byteNo] := Or(dst[byteNo], ToUInt8(toWrite));
    AllWritten(s0, dst[..], byteNo + 1, off, val, valSize);
  }

  /** An arithmetic right shift stays within `int16_t`. */
  function ShrInt16(x: int16, s: nat): (r: int16)
    ensures r == Shr(x, s)
  {
    ShrBounds(x, s, -0x8000, 0x7FFF);
    Shr(x, s)
  }

  /**
   What `read_bit_value` returns. When the field touches three bytes, its first fragment is
   shifted once per pass by all the bits that remain, r places too far.
   */
  function ReadBits(b: seq<bool>, off: nat, n: nat): int16
    requires off + n <= |b|
  {
    var a := 8 - off % 8;
    if n <= a + 8 then ToInt16(Dec(b[off..off + n]))
    else
      var r := n - a - 8;
      ToInt16(Shl(Shl(Dec(b[off..off + a]), 8 + r) + Dec(b[off + a..off + a + 8]), r) + Dec(b[off + a + 8..off + n]))
  }

  lemma DroppedBits(x: uint8, o: nat, i: nat)
    requires o <= 8
    ensures TestBit(Shr(ToUInt8(Shl(x, o)), o), i) == TestBit(Low(x, 8 - o), i)
  {
    TestBitShr(ToUInt8(Shl(x, o)), o, i);
    TestBitShl(x, o, i + o);
    Pow2Values();
    TestBitRemainder(Shl(x, o), 0x100, 8, i + o);
    TestBitLow(x, 8 - o, i);
  }

  /** (unsigned char)(x << o) >> o drops the o high bits of a byte. */
  lemma DropHigh(x: uint8, o: nat)
    requires o <= 8
    ensures Shr(ToUInt8(Shl(x, o)), o) == Low(x, 8 - o)
  {
    var y, z := Shr(ToUInt8(Shl(x, o)), o), Low(x, 8 - o);
    forall i | 0 <= i < 8
      ensures TestBit(y, i) == TestBit(z, i)
    {
      DroppedBits(x, o, i);
    }
    hide *;
    ShrBounds(ToUInt8(Shl(x, o)), o, 0, 0xFF);
    LowIsByte(x, 8 - o);
    BytesEqual(y, z);
  }

  lemma LowIsByte(x: int, n: nat)
    requires n <= 8
    ensures 0 <= Low(x, n) < 0x100
  {
    LowFits(x, n);
    Pow2Monotone(n, 8);
    Pow2Values();
  }

  lemma BytesEqual(y: uint8, z: uint8)
    requires forall i :: 0 <= i < 8 ==> TestBit(y, i) == TestBit(z, i)
    ensures y == z
  {
    hide TestBit, Low;
    LowDetermines(y, z, 8);
    Pow2Values();
    LowOfFitting(y, 8);
    LowOfFitting(z, 8);
  }

  /** The fragment read by a pass of the loop: the end of a byte, from bit o. */
  lemma FragmentOfPass(s: seq<uint8>, m: nat, o: nat)
    requires m < |s| && o <= 8
    ensures Shr(ToUInt8(Shl(s[m], o)), o) == Dec(Bits(s)[8 * m + o..8 * m + 8]) < 0x100
  {
    DropHigh(s[m], o);
    BitsInByte(s, m, o, 8 - o);
    LowIsByte(s[m], 8 - o);
  }

  /** The fragment read after the loop: r bits from bit o of a byte. */
  lemma LastFragmentRead(s: seq<uint8>, m: nat, o: nat, r: nat)
    requires m < |s| && o + r <= 8
    ensures 0 <= Shr(s[m], 8 - r - o) < 0x100
    ensures Shr(ToUInt8(Shl(Shr(s[m], 8 - r - o), 8 - r)), 8 - r) == Dec(Bits(s)[8 * m + o..8 * m + o + r])
  {
    ShrBounds(s[m], 8 - r - o, 0, 0xFF);
    DropHigh(Shr(s[m], 8 - r - o), 8 - r);
    BitsInByte(s, m, o, r);
  }

  /** The accumulator after the given number of passes of the loop. */
  ghost function Accumulated(b: seq<bool>, off: nat, n: nat, passes: nat): int16
    requires off + n <= |b| && passes <= 2
    requires passes > 0 ==> 8 * passes < off % 8 + n
  {
    var a := 8 - off % 8;
    if passes == 0 then 0
    else if passes == 1 then ToInt16(Shl(Dec(b[off..off + a]), n - a))
    else ToInt16(Shl(Shl(Dec(b[off..off + a]), n - a) + Dec(b[off + a..off + a + 8]), n - a - 8))
  }

  lemma NothingAccumulated(b: seq<bool>, off: nat, n: nat)
    requires off + n <= |b|
    ensures Accumulated(b, off, n, 0) == 0
  {
  }

  lemma AccumulateOnce(b: seq<bool>, off: nat, n: nat, passes: nat, f: int)
    requires off + n <= |b| && n <= 16 && passes < 2 && 8 * (passes + 1) < off % 8 + n
    requires passes == 0 ==> f == Dec(b[off..off + 8 - off % 8])
    requires passes == 1 ==> f == Dec(b[off + 8 - off % 8..off + 16 - off % 8])
    ensures ToInt16(Shl(ToInt16(Accumulated(b, off, n, passes) + f), off % 8 + n - 8 * (passes + 1)))
         == Accumulated(b, off, n, passes + 1)
  {
    var s := off % 8 + n - 8 * (passes + 1);
    if passes == 0 {
      ToInt16Absorbs(f, 0, s);
    } else {
      var g := Shl(Dec(b[off..off + 8 - off % 8]), n - (8 - off % 8));
      ToInt16Absorbs(g, f, s);
      ToInt16Absorbs(g + f, 0, s);
    }
  }

  lemma AccumulateLast(b: seq<bool>, off: nat, n: nat, passes: nat, f: int)
    requires off + n <= |b| && n <= 16 && passes <= 2
    requires passes > 0 ==> 8 * passes < off % 8 + n
    requires off % 8 + n <= 8 * (passes + 1)
    requires f == Dec(b[if passes == 0 then off else off - off % 8 + 8 * passes..off + n])
    ensures ToInt16(Accumulated(b, off, n, passes) + f) == ReadBits(b, off, n)
  {
    hide Shl, Dec;
    var a := 8 - off % 8;
    if passes == 1 {
      assert b[off..off + n] == b[off..off + a] + b[off + a..off + n];
      DecConcat(b[off..off + a], b[off + a..off + n]);
      ToInt16Absorbs(Shl(Dec(b[off..off + a]), n - a), f, 0);
    } else if passes == 2 {
      ToInt16Absorbs(Shl(Shl(Dec(b[off..off + a]), n - a) + Dec(b[off + a..off + a + 8]), n - a - 8), f, 0);
    }
  }

  /** `src` and `base` stand for the C pointer `src + base`. */
  method ReadBitValue(src: array<uint8>, base: nat, offset: uint16, valSize: uint8) returns (val: int16)
    requires valSize <= 16
    requires base + LastByte(offset, valSize) < src.Length
    ensures val == ReadBits(Bits(src[..]), 8 * base + offset, valSize)
  {
    hide Bits, ReadBits, Dec, Accumulated;
    ghost var off, b, passes := 8 * base + offset, Bits(src[..]), 0;
    val := 0;
    NothingAccumulated(b, off, valSize);
    var byteNo := base + offset / 8;
    var o := offset % 8;
    var remaining := valSize;
    var available := 8 - o;
    while remaining > available
      invariant 0 <= remaining && 0 <= o < 8 && available == 8 - o
      invariant 8 * byteNo + o + remaining == off + valSize
      invariant remaining > 0 || (valSize == 0 && byteNo == off / 8)
      invariant passes <= 2 && byteNo == off / 8 + passes
      invariant if passes == 0 then o == off % 8 else o == 0 && 8 * passes < off % 8 + valSize
      invariant val == Accumulated(b, off, valSize, passes)
    {
      var readValue := Shr(ToUInt8(Shl(src[byteNo], o)), o);
      FragmentOfPass(src[..], byteNo, o);
      AccumulateOnce(b, off, valSize, passes, readValue);
      val := ToInt16(val + readValue);
      remaining := remaining - available;
      available := 8;
      o := 0;
      byteNo := byteNo + 1;
      passes := passes + 1;
      val := ToInt16(Shl(val, remaining));
    }
    var shift := 8 - remaining - o;
    var readValue := Shr(src[byteNo], shift);
    LastFragmentRead(src[..], byteNo, o, remaining);
    AccumulateLast(b, off, valSize, passes, Dec(b[8 * byteNo + o..8 * byteNo + o + remaining]));
    val := ToInt16(val + Shr(ToUInt8(Shl(readValue, 8 - remaining)), 8 - remaining));
  }
}
