/** Byte buffers seen as strings of bits, most significant bit of each byte first. */
module BitStrings {
  import opened Words

  /** The bits of a buffer, in the order in which the protocol numbers them. */
  function Bits(s: seq<uint8>): (b: seq<bool>)
    ensures |b| == 8 * |s|
  {
    seq(8 * |s|, k requires 0 <= k < 8 * |s| => TestBit(s[k / 8], 7 - k % 8))
  }

  /** The n-bit big-endian representation of v. */
  function Enc(v: int, n: nat): (b: seq<bool>)
    ensures |b| == n
  {
    seq(n, k requires 0 <= k < n => TestBit(v, n - 1 - k))
  }

  /** The number a bit string stands for. */
  function Dec(b: seq<bool>): nat {
    if b == [] then 0
    else 2 * Dec(b[..|b| - 1]) + (if b[|b| - 1] then 1 else 0)
  }

  /** The buffer that has the given bits. */
  function Pack(b: seq<bool>): (s: seq<uint8>)
    requires |b| % 8 == 0
    ensures |s| == |b| / 8
  {
    seq(|b| / 8, i requires 0 <= i < |b| / 8 => DecByte(b[8 * i..8 * i + 8]))
  }

  function DecByte(b: seq<bool>): uint8
    requires |b| == 8
  {
    DecFits(b);
    Pow2Values();
    Dec(b)
  }

  function Zeros(n: nat): (b: seq<bool>)
    ensures |b| == n
  {
    seq(n, _ => false)
  }

  lemma {:induction false} DecFits(b: seq<bool>)
    ensures Fits(Dec(b), |b|)
  {
    if b != [] {
      DecFits(b[..|b| - 1]);
    }
  }

  /** The last bit of a representation is the parity, the others represent the half. */
  lemma EncHalve(v: int, n: nat)
    requires n > 0
    ensures Enc(v, n) == Enc(v / 2, n - 1) + [v % 2 == 1]
  {
    forall k | 0 <= k < n - 1
      ensures Enc(v, n)[k] == Enc(v / 2, n - 1)[k]
    {
      assert TestBit(v, n - 1 - k) == TestBit(v / 2, n - 2 - k);
    }
    assert Enc(v, n)[n - 1] == TestBit(v, 0) == (v % 2 == 1);
  }

  lemma {:induction false} DecEnc(v: int, n: nat)
    ensures Dec(Enc(v, n)) == Low(v, n)
    decreases n
  {
    if n > 0 {
      EncHalve(v, n);
      assert Enc(v, n)[..n - 1] == Enc(v / 2, n - 1);
      DecEnc(v / 2, n - 1);
    }
  }

  lemma {:induction false} EncDec(b: seq<bool>)
    ensures Enc(Dec(b), |b|) == b
  {
    if b != [] {
      var n := |b| - 1;
      EncHalve(Dec(b), |b|);
      EncDec(b[..n]);
      assert Dec(b) / 2 == Dec(b[..n]);
      assert b == b[..n] + [b[n]];
    }
  }

  lemma {:induction false} DecConcat(a: seq<bool>, b: seq<bool>)
    ensures Dec(a + b) == Shl(Dec(a), |b|) + Dec(b)
  {
    if b == [] {
      assert a + b == a;
    } else {
      var n := |b| - 1;
      assert (a + b)[..|a + b| - 1] == a + b[..n];
      DecConcat(a, b[..n]);
    }
  }

  lemma BitsOfPack(b: seq<bool>)
    requires |b| % 8 == 0
    ensures Bits(Pack(b)) == b
  {
    forall k | 0 <= k < |b|
      ensures Bits(Pack(b))[k] == b[k]
    {
      var i := k / 8;
      EncDec(b[8 * i..8 * i + 8]);
      assert Enc(Pack(b)[i], 8)[k % 8] == b[8 * i..8 * i + 8][k % 8];
    }
  }

  lemma BitsOfByte(s: seq<uint8>, i: nat)
    requires i < |s|
    ensures Bits(s)[8 * i..8 * i + 8] == Enc(s[i], 8)
  {
    forall j | 0 <= j < 8
      ensures Bits(s)[8 * i + j] == Enc(s[i], 8)[j]
    {
      assert (8 * i + j) / 8 == i;
    }
  }

  lemma DecByteOfEnc(v: uint8)
    ensures DecByte(Enc(v, 8)) == v
  {
    hide Enc, Low;
    DecEnc(v, 8);
    Pow2Values();
    LowOfFitting(v, 8);
  }

  lemma PackOfBits(s: seq<uint8>)
    ensures Pack(Bits(s)) == s
  {
    forall i | 0 <= i < |s|
      ensures Pack(Bits(s))[i] == s[i]
    {
      BitsOfByte(s, i);
      DecByteOfEnc(s[i]);
    }
  }

  /** A buffer is determined by its bits. */
  lemma BitsInjective(s: seq<uint8>, t: seq<uint8>)
    requires Bits(s) == Bits(t)
    ensures s == t
  {
    PackOfBits(s);
    PackOfBits(t);
  }

  /** r bits starting at bit o of byte m. */
  lemma BitsInByte(s: seq<uint8>, m: nat, o: nat, r: nat)
    requires m < |s| && o + r <= 8
    ensures Dec(Bits(s)[8 * m + o..8 * m + o + r]) == Low(Shr(s[m], 8 - r - o), r)
  {
    var v := Shr(s[m], 8 - r - o);
    forall k | 0 <= k < r
      ensures Enc(v, r)[k] == Bits(s)[8 * m + o + k]
    {
      TestBitShr(s[m], 8 - r - o, r - 1 - k);
    }
    assert Bits(s)[8 * m + o..8 * m + o + r] == Enc(v, r);
    DecEnc(v, r);
  }

  lemma SliceOfSlice(b: seq<bool>, lo: nat, hi: nat, i: nat, j: nat)
    requires lo <= hi <= |b| && i <= j <= hi - lo
    ensures b[lo..hi][i..j] == b[lo + i..lo + j]
  {
    var e := b[lo..hi];
    forall k | 0 <= k < j - i
      ensures e[i..j][k] == b[lo + i..lo + j][k]
    {
      assert e[i + k] == b[..hi][lo + i + k];
    }
  }

  lemma SliceOfConcat(e: seq<bool>, f: seq<bool>, i: nat, j: nat)
    requires i <= j <= |e|
    ensures (e + f)[i..j] == e[i..j]
    ensures (e + f)[|e|..|e| + |f|] == f
  {
  }
}
