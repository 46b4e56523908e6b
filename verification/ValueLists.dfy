/** src/bit_utils.c: lists of equally wide fields. */
module ValueLists {
  import opened Words
  import opened BitStrings
  import opened BitUtils
  import opened BitFields

  /** The number of bits of k fields of n bits, by the running sum that the loops compute. */
  function Span(k: nat, n: nat): nat {
    if k == 0 then 0 else Span(k - 1, n) + n
  }

  /** The bits of the values one after the other. */
  function EncList(values: seq<uint16>, n: nat): (b: seq<bool>)
    ensures |b| == Span(|values|, n)
  {
    if values == [] then []
    else
      var last := |values| - 1;
      EncList(values[..last], n) + Enc(values[last], n)
  }

  /** What `write_value_list` does to the bits of a buffer, spilled bits included. */
  function WriteList(b: seq<bool>, off: nat, values: seq<uint16>, n: nat): (r: seq<bool>)
    ensures |r| == |b|
  {
    if values == [] then b
    else
      var last := |values| - 1;
      WriteBits(WriteList(b, off, values[..last], n), off + Span(last, n), ToInt16(values[last]), n)
  }

  /** The k-th field of a list, as the loop of `read_value_list` stores it. */
  function ReadField(b: seq<bool>, off: nat, n: nat, k: nat): uint16
    requires off + Span(k, n) + n <= |b|
  {
    ToUInt16(ReadBits(b, off + Span(k, n), n))
  }

  /** What `read_value_list` stores. */
  function ReadList(b: seq<bool>, off: nat, count: nat, n: nat): (values: seq<uint16>)
    requires off + Span(count, n) <= |b|
    ensures |values| == count
  {
    if count == 0 then []
    else ReadList(b, off, count - 1, n) + [ReadField(b, off, n, count - 1)]
  }

  lemma {:induction false} SpanMonotone(k: nat, m: nat, n: nat)
    requires k <= m
    ensures Span(k, n) <= Span(m, n)
    decreases m
  {
    if k < m {
      SpanMonotone(k, m - 1, n);
    }
  }

  lemma FieldInside(k: nat, count: nat, n: nat)
    requires k < count
    ensures Span(k, n) + n <= Span(count, n)
  {
    SpanMonotone(k + 1, count, n);
  }

  lemma {:induction false} SpanIsProduct(k: nat, n: nat)
    ensures Span(k, n) == k * n
  {
    if k > 0 {
      SpanIsProduct(k - 1, n);
    }
  }

  lemma {:induction false} SpanAtMost(k: nat, n: nat, w: nat)
    requires n <= w
    ensures Span(k, n) <= Span(k, w)
  {
    if k > 0 {
      SpanAtMost(k - 1, n, w);
    }
  }

  /** 255 values of at most 16 bits. */
  lemma SpanLimit(k: nat, n: nat)
    requires k < 0x100 && n <= 16
    ensures Span(k, n) <= 4080
  {
    SpanAtMost(k, n, 16);
    SpanIsProduct(k, 16);
  }

  lemma AddBytes(x: nat, y: nat)
    requires x % 8 == 0 && y % 8 == 0
    ensures (x + y) % 8 == 0
  {
    DivModUnique(x + y, 8, x / 8 + y / 8, 0);
  }

  lemma SpanOfBytes(k: nat, n: nat)
    requires n % 8 == 0
    ensures Span(k, n) % 8 == 0
  {
    if k > 0 {
      SpanOfBytes(k - 1, n);
      AddBytes(Span(k - 1, n), n);
    }
  }

  predicate SpillFreeAt(off: nat, values: seq<uint16>, n: nat, k: nat)
    requires k < |values|
  {
    SpillFree(off + Span(k, n), ToInt16(values[k]), n)
  }

  predicate CarriesAt(off: nat, values: seq<uint16>, n: nat, k: nat)
    requires k < |values|
  {
    Carries(off + Span(k, n), n, values[k])
  }

  /** No value of the list spills bits in front of its field. */
  predicate ListSpillFree(off: nat, values: seq<uint16>, n: nat) {
    forall k :: 0 <= k < |values| ==> SpillFreeAt(off, values, n, k)
  }

  /** Every value of the list survives the passage through its field. */
  predicate ListCarries(off: nat, values: seq<uint16>, n: nat) {
    forall k :: 0 <= k < |values| ==> CarriesAt(off, values, n, k)
  }

  lemma {:induction false} EncListField(values: seq<uint16>, n: nat, k: nat)
    requires k < |values|
    ensures Span(k, n) + n <= |EncList(values, n)|
    ensures EncList(values, n)[Span(k, n)..Span(k, n) + n] == Enc(values[k], n)
  {
    hide Enc;
    var last := |values| - 1;
    var e, f := EncList(values[..last], n), Enc(values[last], n);
    FieldInside(k, |values|, n);
    assert EncList(values, n) == e + f;
    if k < last {
      EncListField(values[..last], n, k);
      SliceOfConcat(e, f, Span(k, n), Span(k, n) + n);
    } else {
      SliceOfConcat(e, f, 0, 0);
    }
  }

  lemma SpillFreePrefix(off: nat, values: seq<uint16>, n: nat, last: nat)
    requires ListSpillFree(off, values, n) && last < |values|
    ensures ListSpillFree(off, values[..last], n) && SpillFreeAt(off, values, n, last)
  {
    hide SpillFree, Span, ToInt16;
    assert forall k :: 0 <= k < last ==> SpillFreeAt(off, values[..last], n, k) == SpillFreeAt(off, values, n, k);
  }

  /** Spill-free values land one after the other in a blank part of the buffer. */
  lemma {:induction false} WriteListExact(b: seq<bool>, off: nat, values: seq<uint16>, n: nat)
    requires n <= 16 && off + Span(|values|, n) <= |b|
    requires Blank(b, off, off + Span(|values|, n)) && ListSpillFree(off, values, n)
    ensures WriteList(b, off, values, n) == Splice(b, off, EncList(values, n))
    decreases |values|
  {
    hide WriteBits, SpillFree, Enc, ToInt16, Span, ListSpillFree;
    if values != [] {
      var last := |values| - 1;
      FieldInside(last, |values|, n);
      SpillFreePrefix(off, values, n, last);
      WriteListExact(b, off, values[..last], n);
      AppendExact(b, off, EncList(values[..last], n), values[last], n);
    }
  }

  /** One more spill-free value behind what is already in place. */
  lemma AppendExact(b: seq<bool>, off: nat, e: seq<bool>, v: uint16, n: nat)
    requires n <= 16 && off + |e| + n <= |b| && Blank(b, off, off + |e| + n) && SpillFree(off + |e|, ToInt16(v), n)
    ensures WriteBits(Splice(b, off, e), off + |e|, ToInt16(v), n) == Splice(b, off, e + Enc(v, n))
  {
    hide WriteBits, SpillFree, Enc, ToInt16;
    BlankAfterSplice(b, off, e, n);
    WriteExact(Splice(b, off, e), off + |e|, ToInt16(v), n);
    EncConversions(v, n);
    SpliceAppends(b, off, e, Enc(v, n));
  }

  lemma {:induction false} ReadListField(b: seq<bool>, off: nat, count: nat, n: nat, k: nat)
    requires off + Span(count, n) <= |b| && k < count
    ensures off + Span(k, n) + n <= |b|
    ensures ReadList(b, off, count, n)[k] == ReadField(b, off, n, k)
    decreases count
  {
    FieldInside(k, count, n);
    assert ReadList(b, off, count, n) == ReadList(b, off, count - 1, n) + [ReadField(b, off, n, count - 1)];
    if k < count - 1 {
      ReadListField(b, off, count - 1, n, k);
    }
  }

  /** A field of a list reads as the value that was written exactly when it carries that value. */
  lemma ReadFieldOfListIff(b: seq<bool>, off: nat, values: seq<uint16>, n: nat, k: nat)
    requires 1 <= n <= 16 && off + Span(|values|, n) <= |b| && k < |values|
    requires b[off..off + Span(|values|, n)] == EncList(values, n)
    ensures off + Span(k, n) + n <= |b|
    ensures ReadField(b, off, n, k) == values[k] <==> CarriesAt(off, values, n, k)
  {
    hide *;
    FieldInside(k, |values|, n);
    EncListField(values, n, k);
    SliceOfSlice(b, off, off + Span(|values|, n), Span(k, n), Span(k, n) + n);
    ReadFieldValueIff(b, off, values, n, k);
  }

  lemma ReadFieldValueIff(b: seq<bool>, off: nat, values: seq<uint16>, n: nat, k: nat)
    requires 1 <= n <= 16 && off + Span(k, n) + n <= |b| && k < |values|
    requires b[off + Span(k, n)..off + Span(k, n) + n] == Enc(values[k], n)
    ensures ReadField(b, off, n, k) == values[k] <==> CarriesAt(off, values, n, k)
  {
    hide ReadBits, Carries, Enc;
    BitFields.ReadFieldIff(b, off + Span(k, n), values[k], n);
  }

  /** A list can be read back where it was written exactly when every field carries its value. */
  lemma ReadListIff(b: seq<bool>, off: nat, values: seq<uint16>, n: nat)
    requires 1 <= n <= 16 && off + Span(|values|, n) <= |b|
    requires b[off..off + Span(|values|, n)] == EncList(values, n)
    ensures ReadList(b, off, |values|, n) == values <==> ListCarries(off, values, n)
  {
    hide ReadBits, ReadList, ReadField, EncList, Span, CarriesAt;
    forall k | 0 <= k < |values|
      ensures ReadList(b, off, |values|, n)[k] == values[k] <==> CarriesAt(off, values, n, k)
    {
      ReadListField(b, off, |values|, n, k);
      ReadFieldOfListIff(b, off, values, n, k);
    }
  }

  /** The ordinary domains: fitting values of 1 to 8 bits anywhere, 16 bits from a byte boundary. */
  lemma ListDomains(off: nat, values: seq<uint16>, n: nat)
    requires (1 <= n <= 8 && forall v :: v in values ==> Fits(v, n)) || (n == 16 && off % 8 == 0)
    ensures ListSpillFree(off, values, n) && ListCarries(off, values, n)
  {
    forall k | 0 <= k < |values|
      ensures SpillFreeAt(off, values, n, k) && CarriesAt(off, values, n, k)
    {
      assert values[k] in values;
      SpanIsProduct(k, n);
      FieldDomain(off + Span(k, n), values[k], n);
    }
  }

  /** Fields of whole bytes that start on a byte boundary never spill, whatever their values are. */
  lemma AlignedListIsSpillFree(off: nat, values: seq<uint16>, n: nat)
    requires off % 8 == 0 && n % 8 == 0
    ensures ListSpillFree(off, values, n)
  {
    hide Span, ToInt16;
    forall k | 0 <= k < |values|
      ensures SpillFreeAt(off, values, n, k)
    {
      SpanOfBytes(k, n);
      AddBytes(off, Span(k, n));
    }
  }

  lemma FieldDomain(off: nat, v: uint16, n: nat)
    requires (1 <= n <= 8 && Fits(v, n)) || (n == 16 && off % 8 == 0)
    ensures SpillFree(off, ToInt16(v), n) && Carries(off, n, v)
  {
    hide SpillFree, Pow2;
    Pow2Values();
    Pow2Monotone(n, 16);
    if n <= 8 {
      Pow2Monotone(n, 15);
    }
    FittingIsSpillFree(off, v, n);
  }

  /** One turn of a loop that appends the values of a list. */
  lemma WriteListStep(b: seq<bool>, off: nat, values: seq<uint16>, n: nat, k: nat)
    requires k < |values|
    ensures WriteList(b, off, values[..k + 1], n)
         == WriteBits(WriteList(b, off, values[..k], n), off + Span(k, n), ToInt16(values[k]), n)
  {
    hide WriteBits, ToInt16, Span;
    assert values[..k + 1][..k] == values[..k];
  }

  lemma WriteListStarts(b: seq<bool>, off: nat, values: seq<uint16>, n: nat)
    ensures WriteList(b, off, values[..0], n) == b
  {
  }

  lemma FieldByte(off: nat, k: nat, count: nat, n: nat, length: nat)
    requires 1 <= n && k < count && off + Span(count, n) <= 8 * length
    ensures LastByte(off + Span(k, n), n) < length
  {
    FieldInside(k, count, n);
  }

  method WriteValueList(p: array<uint8>, offset: nat, values: seq<uint16>, nbValues: nat, valueSize: uint8)
    requires valueSize <= 16 && nbValues <= |values|
    requires nbValues > 0 ==>
      && offset + Span(nbValues - 1, valueSize) < 0x1_0000
      && LastByte(offset + Span(nbValues - 1, valueSize), valueSize) < p.Length
    modifies p
    ensures Bits(p[..]) == WriteList(old(Bits(p[..])), offset, values[..nbValues], valueSize)
  {
    hide Bits, WriteBits, ToInt16;
    ghost var b0 := Bits(p[..]);
    var off := offset;
    for i := 0 to nbValues
      invariant off == offset + Span(i, valueSize)
      invariant Bits(p[..]) == WriteList(b0, offset, values[..i], valueSize)
    {
      SpanMonotone(i, nbValues - 1, valueSize);
      WriteBitValue(p, 0, off, ToInt16(values[i]), valueSize);
      assert values[..i + 1][..i] == values[..i];
      off := off + valueSize;
    }
  }

  method ReadValueList(p: array<uint8>, offset: nat, values: array<uint16>, nbValues: nat, valueSize: uint8)
    requires 1 <= valueSize <= 16 && nbValues <= values.Length
    requires offset + Span(nbValues, valueSize) <= 8 * p.Length && offset + Span(nbValues, valueSize) <= 0x1_0000
    modifies values
    ensures values[..nbValues] == ReadList(Bits(p[..]), offset, nbValues, valueSize)
    ensures values[nbValues..] == old(values[nbValues..])
  {
    hide Bits, ReadBits;
    var off := offset;
    for i := 0 to nbValues
      invariant off == offset + Span(i, valueSize)
      invariant offset + Span(i, valueSize) <= 8 * p.Length
      invariant values[..i] == ReadList(Bits(p[..]), offset, i, valueSize)
      invariant values[nbValues..] == old(values[nbValues..])
    {
      FieldInside(i, nbValues, valueSize);
      var v := ReadBitValue(p, 0, off, valueSize);
      values[i] := ToUInt16(v);
      off := off + valueSize;
    }
  }
}
