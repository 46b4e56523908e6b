/** src/mask.c: pin masks, their bits on the wire, and tables gathered or scattered along them. */
module Masks {
  import opened Words
  import opened BitStrings
  import opened BitUtils
  import opened BitFields

  /** The number of pins used below p, which is the index of p's value in a list of values. */
  function Rank(m: seq<bool>, p: nat): (r: nat)
    requires p <= |m|
    ensures r <= p
  {
    if p == 0 then 0 else Rank(m, p - 1) + (if m[p - 1] then 1 else 0)
  }

  function CountOn(m: seq<bool>): nat {
    Rank(m, |m|)
  }

  /** The pins used below p, in the order in which a loop over the mask visits them. */
  function PinsBelow(m: seq<bool>, p: nat): (r: seq<nat>)
    requires p <= |m|
    ensures |r| == Rank(m, p)
  {
    if p == 0 then [] else PinsBelow(m, p - 1) + (if m[p - 1] then [p - 1] else [])
  }

  function Pins(m: seq<bool>): seq<nat> {
    PinsBelow(m, |m|)
  }

  lemma {:induction false} RankMonotone(m: seq<bool>, p: nat, q: nat)
    requires p <= q <= |m|
    ensures Rank(m, p) <= Rank(m, q)
    decreases q
  {
    if p < q {
      RankMonotone(m, p, q - 1);
    }
  }

  /** Skipping unused pins does not change the index into the list of values. */
  lemma {:induction false} RankSkip(m: seq<bool>, p: nat, q: nat)
    requires p <= q <= |m| && forall k :: p <= k < q ==> !m[k]
    ensures Rank(m, q) == Rank(m, p)
    decreases q
  {
    if p < q {
      RankSkip(m, p, q - 1);
    }
  }

  lemma RankOfUsed(m: seq<bool>, p: nat)
    requires p < |m| && m[p]
    ensures Rank(m, p) < CountOn(m)
  {
    RankMonotone(m, p + 1, |m|);
  }

  lemma {:induction false} RankOfPrefix(m: seq<bool>, n: nat, p: nat)
    requires p <= n <= |m|
    ensures Rank(m[..n], p) == Rank(m, p)
  {
    if p > 0 {
      RankOfPrefix(m, n, p - 1);
    }
  }

  lemma {:induction false} SamePrefix(m: seq<bool>, m': seq<bool>, p: nat)
    requires p <= |m| && p <= |m'| && forall q :: 0 <= q < p ==> m[q] == m'[q]
    ensures Rank(m, p) == Rank(m', p) && PinsBelow(m, p) == PinsBelow(m', p)
  {
    if p > 0 {
      SamePrefix(m, m', p - 1);
    }
  }

  lemma {:induction false} RankGrows(m: seq<bool>, m': seq<bool>, p: nat)
    requires p <= |m| && p <= |m'| && forall q :: 0 <= q < p && m[q] ==> m'[q]
    ensures Rank(m, p) <= Rank(m', p)
  {
    if p > 0 {
      RankGrows(m, m', p - 1);
    }
  }

  /** The visited pins are exactly the used ones, each at the index given by its rank. */
  lemma {:induction false} PinsAreRanked(m: seq<bool>, n: nat)
    requires n <= |m|
    ensures forall p :: 0 <= p < n && m[p] ==> Rank(m, p) < Rank(m, n) && PinsBelow(m, n)[Rank(m, p)] == p
    ensures forall k :: 0 <= k < Rank(m, n) ==>
      PinsBelow(m, n)[k] < n && m[PinsBelow(m, n)[k]] && Rank(m, PinsBelow(m, n)[k]) == k
  {
    if n > 0 {
      PinsAreRanked(m, n - 1);
    }
  }

  /** A loop over a mask visits each used pin once, in increasing order, and no other. */
  lemma VisitsUsedPins(m: seq<bool>)
    ensures |Pins(m)| == CountOn(m)
    ensures forall k, l :: 0 <= k < l < |Pins(m)| ==> Pins(m)[k] < Pins(m)[l]
    ensures forall p: nat :: p in Pins(m) <==> p < |m| && m[p]
  {
    PinsAreRanked(m, |m|);
    forall k, l | 0 <= k < l < |Pins(m)|
      ensures Pins(m)[k] < Pins(m)[l]
    {
      if Pins(m)[l] <= Pins(m)[k] {
        RankMonotone(m, Pins(m)[l], Pins(m)[k]);
      }
    }
    forall p: nat
      ensures p in Pins(m) <==> p < |m| && m[p]
    {
      if p < |m| && m[p] {
        assert Pins(m)[Rank(m, p)] == p;
      }
    }
  }

  /** The entries of the used pins, in increasing pin order. */
  function Gather<T>(t: seq<T>, m: seq<bool>): (r: seq<T>)
    requires |t| == |m|
    ensures |r| == CountOn(m)
  {
    PinsAreRanked(m, |m|);
    seq(CountOn(m), k requires 0 <= k < CountOn(m) => t[Pins(m)[k]])
  }

  /** The table whose k-th used pin holds the k-th value, other pins being left alone. */
  function Scatter<T>(t: seq<T>, m: seq<bool>, values: seq<T>): (r: seq<T>)
    requires |t| == |m| && |values| == CountOn(m)
    ensures |r| == |t|
  {
    seq(|t|, p requires 0 <= p < |t| => if m[p] then (RankOfUsed(m, p); values[Rank(m, p)]) else t[p])
  }

  lemma GatherAt<T>(t: seq<T>, m: seq<bool>, p: nat)
    requires |t| == |m| && p < |m| && m[p]
    ensures Rank(m, p) < CountOn(m) && Gather(t, m)[Rank(m, p)] == t[p]
  {
    PinsAreRanked(m, |m|);
    assert Pins(m)[Rank(m, p)] == p;
  }

  lemma ScatterAt<T>(t: seq<T>, m: seq<bool>, values: seq<T>, p: nat)
    requires |t| == |m| && |values| == CountOn(m) && p < |m|
    ensures !m[p] ==> Scatter(t, m, values)[p] == t[p]
    ensures m[p] ==> Rank(m, p) < |values| && Scatter(t, m, values)[p] == values[Rank(m, p)]
  {
    if m[p] {
      RankOfUsed(m, p);
    }
  }

  /** The table once the pins below p have been handled. */
  function ScatterBelow<T>(t: seq<T>, m: seq<bool>, values: seq<T>, p: nat): (r: seq<T>)
    requires |t| == |m| && |values| == CountOn(m) && p <= |m|
    ensures |r| == |t|
  {
    seq(|t|, q requires 0 <= q < |t| =>
      if q < p && m[q] then (RankOfUsed(m, q); values[Rank(m, q)]) else t[q])
  }

  lemma ScatterStarts<T>(t: seq<T>, m: seq<bool>, values: seq<T>)
    requires |t| == |m| && |values| == CountOn(m)
    ensures ScatterBelow(t, m, values, 0) == t
  {
  }

  /** One turn of a loop over a mask: skip to the next used pin and store its value. */
  lemma ScatterStep<T>(t: seq<T>, m: seq<bool>, values: seq<T>, p: nat, q: nat)
    requires |t| == |m| && |values| == CountOn(m) && p <= q < |m|
    requires m[q] && forall k :: p <= k < q ==> !m[k]
    ensures Rank(m, q) == Rank(m, p) < CountOn(m) && Rank(m, q + 1) == Rank(m, p) + 1
    ensures ScatterBelow(t, m, values, q + 1) == ScatterBelow(t, m, values, p)[q := values[Rank(m, p)]]
  {
    RankSkip(m, p, q);
    RankOfUsed(m, q);
  }

  lemma ScatterEnds<T>(t: seq<T>, m: seq<bool>, values: seq<T>, p: nat)
    requires |t| == |m| && |values| == CountOn(m) && p <= |m|
    requires forall k :: p <= k < |m| ==> !m[k]
    ensures Rank(m, p) == CountOn(m)
    ensures ScatterBelow(t, m, values, p) == Scatter(t, m, values)
  {
    RankSkip(m, p, |m|);
  }

  lemma GatherOfScatter<T>(t: seq<T>, m: seq<bool>, values: seq<T>)
    requires |t| == |m| && |values| == CountOn(m)
    ensures Gather(Scatter(t, m, values), m) == values
  {
    PinsAreRanked(m, |m|);
    var s := Scatter(t, m, values);
    forall k | 0 <= k < CountOn(m)
      ensures Gather(s, m)[k] == values[k]
    {
      assert s[Pins(m)[k]] == values[Rank(m, Pins(m)[k])];
    }
  }

  lemma ScatterOfGather<T>(t: seq<T>, m: seq<bool>)
    requires |t| == |m|
    ensures Scatter(t, m, Gather(t, m)) == t
  {
    PinsAreRanked(m, |m|);
    forall p | 0 <= p < |t| && m[p]
      ensures Scatter(t, m, Gather(t, m))[p] == t[p]
    {
      assert Pins(m)[Rank(m, p)] == p;
    }
  }

  method NewMask(nbPins: nat) returns (m: array<bool>)
    ensures fresh(m) && m.Length == nbPins && forall p :: 0 <= p < nbPins ==> !m[p]
  {
    m := new bool[nbPins];
    for i := 0 to nbPins
      invariant forall p :: 0 <= p < i ==> !m[p]
    {
      m[i] := false;
    }
  }

  /** The first used pin from `start` on, or -1. */
  method MaskNextPinUsed(m: seq<bool>, start: nat, maskLength: nat) returns (r: int)
    requires maskLength <= |m|
    ensures r == -1 ==> forall p :: start <= p < maskLength ==> !m[p]
    ensures r != -1 ==> start <= r < maskLength && m[r] && forall p :: start <= p < r ==> !m[p]
  {
    var p := start;
    while p < maskLength
      invariant start <= p
      invariant forall q :: start <= q < p && q < maskLength ==> !m[q]
    {
      if m[p] {
        return p;
      }
      p := p + 1;
    }
    return -1;
  }

  /** The loop that the handlers and the driver run over a mask. */
  method VisitPins(m: seq<bool>, maskLength: nat) returns (pins: seq<nat>)
    requires maskLength == |m|
    ensures pins == Pins(m)
  {
    pins := [];
    var pinIndex := 0;
    while true
      invariant 0 <= pinIndex <= |m| && pins == PinsBelow(m, pinIndex)
      decreases |m| - pinIndex
    {
      var next := MaskNextPinUsed(m, pinIndex, maskLength);
      if next == -1 {
        PinsSkip(m, pinIndex, |m|);
        break;
      }
      PinsSkip(m, pinIndex, next);
      pins := pins + [next];
      pinIndex := next + 1;
    }
  }

  lemma {:induction false} PinsSkip(m: seq<bool>, p: nat, q: nat)
    requires p <= q <= |m| && forall k :: p <= k < q ==> !m[k]
    ensures PinsBelow(m, q) == PinsBelow(m, p)
    decreases q
  {
    if p < q {
      PinsSkip(m, p, q - 1);
    }
  }

  method MaskNbPinsUsed(m: seq<bool>, maskLength: nat) returns (pinsUsed: nat)
    requires maskLength <= |m|
    ensures pinsUsed == Rank(m, maskLength)
  {
    pinsUsed := 0;
    for i := 0 to maskLength
      invariant pinsUsed == Rank(m, i)
    {
      if m[i] {
        pinsUsed := pinsUsed + 1;
      }
    }
  }

  /** b with the bits of a mask ORed in from bit off on. */
  function OrMask(b: seq<bool>, off: nat, m: seq<bool>): (r: seq<bool>)
    ensures |r| == |b|
  {
    seq(|b|, k requires 0 <= k < |b| => b[k] || (off <= k < off + |m| && m[k - off]))
  }

  lemma OrMaskOnBlank(b: seq<bool>, off: nat, m: seq<bool>)
    requires off + |m| <= |b| && Blank(b, off, off + |m|)
    ensures OrMask(b, off, m) == Splice(b, off, m)
  {
  }

  /** A single bit never spills. */
  lemma OrMaskStep(b: seq<bool>, off: nat, m: seq<bool>, i: nat)
    requires i < |m|
    ensures WriteBits(OrMask(b, off, m[..i]), off + i, if m[i] then 1 else 0, 1) == OrMask(b, off, m[..i + 1])
  {
    forall j: nat
      ensures TestBit(1, j) == (j == 0) && !TestBit(0, j)
    {
      TestBitZero(j);
      if j > 0 {
        TestBitZero(j - 1);
      }
    }
  }

  /** `buffer` and `base` stand for the C pointer `buffer + base`. */
  method WriteMask(buffer: array<uint8>, base: nat, m: seq<bool>, maskLength: nat) returns (written: nat)
    requires maskLength <= |m| && maskLength <= 0x100 && 8 * base + maskLength <= 8 * buffer.Length
    modifies buffer
    ensures Bits(buffer[..]) == OrMask(old(Bits(buffer[..])), 8 * base, m[..maskLength])
    ensures written == maskLength
  {
    hide Bits, WriteBits;
    ghost var b, n := Bits(buffer[..]), m[..maskLength];
    assert OrMask(b, 8 * base, []) == b;
    for i := 0 to maskLength
      invariant Bits(buffer[..]) == OrMask(b, 8 * base, n[..i])
    {
      OrMaskStep(b, 8 * base, n, i);
      WriteBitValue(buffer, base, i, if m[i] then 1 else 0, 1);
    }
    written := maskLength;
    assert n[..maskLength] == n;
  }

  lemma ReadOfBit(b: seq<bool>, k: nat)
    requires k < |b|
    ensures ReadBits(b, k, 1) == if b[k] then 1 else 0
  {
    assert b[k..k + 1] == [b[k]] && [b[k]][..0] == [];
    assert Dec([b[k]]) == 2 * Dec([]) + (if b[k] then 1 else 0);
  }

  method ReadMask(buffer: array<uint8>, offset: nat, m: array<bool>, maskLength: nat) returns (read: nat)
    requires maskLength <= m.Length && offset + maskLength <= 8 * buffer.Length && offset + maskLength <= 0x1_0000
    modifies m
    ensures m[..maskLength] == Bits(buffer[..])[offset..offset + maskLength]
    ensures m[maskLength..] == old(m[maskLength..])
    ensures read == maskLength
  {
    hide Bits, ReadBits;
    for i := 0 to maskLength
      invariant m[..i] == Bits(buffer[..])[offset..offset + i]
      invariant m[maskLength..] == old(m[maskLength..])
    {
      var v := ReadBitValue(buffer, 0, offset + i, 1);
      ReadOfBit(Bits(buffer[..]), offset + i);
      m[i] := v != 0;
    }
    read := maskLength;
  }
}
