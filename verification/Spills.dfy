/** src/bit_utils.c: lists with values too wide for their fields, and what becomes of the fields in front of them. */
module Spills {
  import opened Words
  import opened BitStrings
  import opened BitUtils
  import opened BitFields
  import opened ValueLists
  import opened Masks

  /** Writing the k-th value of a list sets bit i, in its own field or in front of it. */
  predicate Sets(off: nat, values: seq<uint16>, n: nat, k: nat, i: nat)
    requires k < |values|
  {
    var o := off + Span(k, n);
    8 * (o / 8) <= i < o + n && TestBit(ToInt16(values[k]), o + n - 1 - i)
  }

  /** No later value sets a zero bit of the k-th field. */
  predicate Spared(off: nat, values: seq<uint16>, n: nat, k: nat)
    requires k < |values|
  {
    forall j, i :: k < j < |values| && off + Span(k, n) <= i < off + Span(k, n) + n && Sets(off, values, n, j, i)
      ==> Sets(off, values, n, k, i)
  }

  predicate AllSpared(off: nat, values: seq<uint16>, n: nat) {
    forall k :: 0 <= k < |values| ==> Spared(off, values, n, k)
  }

  /** No value of a list at bit off sets a zero bit of the mask right in front of the list. */
  predicate MaskSpared(off: nat, mask: seq<bool>, values: seq<uint16>, n: nat) {
    forall k, i: nat :: 0 <= k < |values| && off - |mask| <= i < off && Sets(off, values, n, k, i)
      ==> mask[i - (off - |mask|)]
  }

  /** Some value of the list sets bit i. */
  predicate SetBySome(off: nat, values: seq<uint16>, n: nat, i: nat) {
    exists k :: 0 <= k < |values| && Sets(off, values, n, k, i)
  }

  /** What becomes of a mask right in front of a list at bit off: the values set bits of it. */
  function MaskFound(off: nat, mask: seq<bool>, values: seq<uint16>, n: nat): (r: seq<bool>)
    requires |mask| <= off
    ensures |r| == |mask|
  {
    seq(|mask|, p requires 0 <= p < |mask| => mask[p] || SetBySome(off, values, n, off - |mask| + p))
  }

  // ---- every bit of a written list ----

  lemma {:induction false} SetByValue(b: seq<bool>, off: nat, values: seq<uint16>, n: nat, k: nat, i: nat)
    requires k < |values| && i < |b| && Sets(off, values, n, k, i)
    ensures WriteList(b, off, values, n)[i]
    decreases |values|
  {
    var last := |values| - 1;
    if k < last {
      assert Sets(off, values[..last], n, k, i);
      SetByValue(b, off, values[..last], n, k, i);
    }
  }

  lemma {:induction false} OnlySetByValues(b: seq<bool>, off: nat, values: seq<uint16>, n: nat, i: nat) returns (k: nat)
    requires i < |b| && WriteList(b, off, values, n)[i] && !b[i]
    ensures k < |values| && Sets(off, values, n, k, i)
    decreases |values|
  {
    var last := |values| - 1;
    if WriteList(b, off, values[..last], n)[i] {
      k := OnlySetByValues(b, off, values[..last], n, i);
      assert Sets(off, values[..last], n, k, i) == Sets(off, values, n, k, i);
    } else {
      k := last;
    }
  }

  lemma {:induction false} BitsStaySet(b: seq<bool>, off: nat, values: seq<uint16>, n: nat, i: nat)
    requires i < |b| && b[i]
    ensures WriteList(b, off, values, n)[i]
    decreases |values|
  {
    if values != [] {
      BitsStaySet(b, off, values[..|values| - 1], n, i);
    }
  }

  /** A bit of the list does not depend on the rest of the buffer. */
  lemma SameListBit(b: seq<bool>, c: seq<bool>, off: nat, values: seq<uint16>, n: nat, i: nat)
    requires i < |b| && i < |c| && b[i] == c[i]
    ensures WriteList(b, off, values, n)[i] == WriteList(c, off, values, n)[i]
  {
    hide WriteList, Sets;
    if b[i] {
      BitsStaySet(b, off, values, n, i);
      BitsStaySet(c, off, values, n, i);
    } else if WriteList(b, off, values, n)[i] {
      var k := OnlySetByValues(b, off, values, n, i);
      SetByValue(c, off, values, n, k, i);
    } else if WriteList(c, off, values, n)[i] {
      var k := OnlySetByValues(c, off, values, n, i);
      SetByValue(b, off, values, n, k, i);
    }
  }

  /** Bytes in front of the list and bits behind it are not touched. */
  lemma ListFrame(b: seq<bool>, off: nat, values: seq<uint16>, n: nat, i: nat)
    requires i < |b| && (i < 8 * (off / 8) || i >= off + Span(|values|, n))
    ensures WriteList(b, off, values, n)[i] == b[i]
  {
    hide WriteList, Span, TestBit;
    if b[i] {
      BitsStaySet(b, off, values, n, i);
    } else if WriteList(b, off, values, n)[i] {
      var k := OnlySetByValues(b, off, values, n, i);
      FieldInside(k, |values|, n);
    }
  }

  /** A later value reaches back to the byte where its own field starts, and no further. */
  lemma SetsBehind(off: nat, values: seq<uint16>, n: nat, k: nat, j: nat, i: nat)
    requires k < j < |values| && Sets(off, values, n, j, i)
    ensures i >= 8 * ((off + Span(k, n) + n) / 8)
  {
    FieldInside(k, j, n);
  }

  lemma SetsBefore(off: nat, values: seq<uint16>, n: nat, k: nat, j: nat, i: nat)
    requires j < k < |values| && Sets(off, values, n, j, i)
    ensures i < off + Span(k, n)
  {
    FieldInside(j, k, n);
  }

  /** The bits of a field: those of its value, and those that later values set. */
  lemma FieldBit(b: seq<bool>, off: nat, values: seq<uint16>, n: nat, k: nat, t: nat)
    requires n <= 16 && k < |values| && t < n && off + Span(k, n) + n <= |b| && !b[off + Span(k, n) + t]
    ensures var i := off + Span(k, n) + t;
      && (Enc(values[k], n)[t] <==> Sets(off, values, n, k, i))
      && (WriteList(b, off, values, n)[i] <==> exists j :: k <= j < |values| && Sets(off, values, n, j, i))
  {
    hide WriteList, Span, Sets, TestBit, ToInt16;
    var i := off + Span(k, n) + t;
    assert Enc(values[k], n)[t] <==> Sets(off, values, n, k, i) by {
      OwnBit(off, values, n, k, t);
    }
    if WriteList(b, off, values, n)[i] {
      var j := OnlySetByValues(b, off, values, n, i);
      if j < k {
        SetsBefore(off, values, n, k, j, i);
      }
    }
    if j :| k <= j < |values| && Sets(off, values, n, j, i) {
      SetByValue(b, off, values, n, j, i);
    }
  }

  lemma OwnBit(off: nat, values: seq<uint16>, n: nat, k: nat, t: nat)
    requires n <= 16 && k < |values| && t < n
    ensures Enc(values[k], n)[t] <==> Sets(off, values, n, k, off + Span(k, n) + t)
  {
    TestBitConversions(values[k], n - 1 - t);
  }

  /** A field of a list holds the bits of its value exactly when the later values spare it. */
  lemma FieldHoldsIff(b: seq<bool>, off: nat, values: seq<uint16>, n: nat, k: nat)
    requires n <= 16 && k < |values| && off + Span(k, n) + n <= |b|
    requires Blank(b, off + Span(k, n), off + Span(k, n) + n)
    ensures WriteList(b, off, values, n)[off + Span(k, n)..off + Span(k, n) + n] == Enc(values[k], n)
      <==> Spared(off, values, n, k)
  {
    hide WriteList, Enc, Span, Sets, Spared;
    var o, w, e := off + Span(k, n), WriteList(b, off, values, n), Enc(values[k], n);
    if Spared(off, values, n, k) {
      forall t | 0 <= t < n
        ensures w[o + t] == e[t]
      {
        SparedBit(b, off, values, n, k, t);
      }
    }
    if w[o..o + n] == e {
      HoldingIsSpared(b, off, values, n, k);
    }
  }

  lemma SparedBit(b: seq<bool>, off: nat, values: seq<uint16>, n: nat, k: nat, t: nat)
    requires n <= 16 && k < |values| && t < n && off + Span(k, n) + n <= |b|
    requires !b[off + Span(k, n) + t] && Spared(off, values, n, k)
    ensures WriteList(b, off, values, n)[off + Span(k, n) + t] == Enc(values[k], n)[t]
  {
    hide WriteList, Enc, Span, Sets;
    FieldBit(b, off, values, n, k, t);
  }

  lemma HoldingIsSpared(b: seq<bool>, off: nat, values: seq<uint16>, n: nat, k: nat)
    requires n <= 16 && k < |values| && off + Span(k, n) + n <= |b|
    requires Blank(b, off + Span(k, n), off + Span(k, n) + n)
    requires WriteList(b, off, values, n)[off + Span(k, n)..off + Span(k, n) + n] == Enc(values[k], n)
    ensures Spared(off, values, n, k)
  {
    hide WriteList, Enc, Span, Sets;
    var o, w := off + Span(k, n), WriteList(b, off, values, n);
    forall j, i | k < j < |values| && o <= i < o + n && Sets(off, values, n, j, i)
      ensures Sets(off, values, n, k, i)
    {
      FieldBit(b, off, values, n, k, i - o);
      SliceAt(w, o, o + n, i);
    }
  }

  /** The first two bytes of a field over three bytes are out of reach of the later values. */
  lemma FirstTwoBytesHold(b: seq<bool>, off: nat, values: seq<uint16>, n: nat, k: nat)
    requires n <= 16 && k < |values| && off + Span(k, n) + n <= |b|
    requires Blank(b, off + Span(k, n), off + Span(k, n) + n)
    requires 16 < (off + Span(k, n)) % 8 + n
    ensures var o := off + Span(k, n);
      WriteList(b, off, values, n)[o..o + 16 - o % 8] == Enc(values[k], n)[..16 - o % 8]
  {
    hide WriteList, Enc, Span, Sets;
    var o, w, e := off + Span(k, n), WriteList(b, off, values, n), Enc(values[k], n);
    forall t | 0 <= t < 16 - o % 8
      ensures w[o + t] == e[t]
    {
      var i := o + t;
      FieldBit(b, off, values, n, k, t);
      forall j | k < j < |values|
        ensures !Sets(off, values, n, j, i)
      {
        if Sets(off, values, n, j, i) {
          SetsBehind(off, values, n, k, j, i);
        }
      }
    }
  }

  /** What the reader of a request finds where the mask was written. */
  lemma MaskIsFound(b: seq<bool>, off: nat, mask: seq<bool>, values: seq<uint16>, n: nat)
    requires |mask| <= off <= |b| && b[off - |mask|..off] == mask
    ensures WriteList(b, off, values, n)[off - |mask|..off] == MaskFound(off, mask, values, n)
  {
    hide WriteList, Sets;
    var w, lo, found := WriteList(b, off, values, n), off - |mask|, MaskFound(off, mask, values, n);
    forall p | 0 <= p < |mask|
      ensures w[lo + p] == found[p]
    {
      SliceAt(b, lo, off, lo + p);
      if b[lo + p] {
        BitsStaySet(b, off, values, n, lo + p);
      } else if w[lo + p] {
        var k := OnlySetByValues(b, off, values, n, lo + p);
      }
      if SetBySome(off, values, n, lo + p) {
        var k :| 0 <= k < |values| && Sets(off, values, n, k, lo + p);
        SetByValue(b, off, values, n, k, lo + p);
      }
    }
  }

  lemma FoundIffSpared(off: nat, mask: seq<bool>, values: seq<uint16>, n: nat)
    requires |mask| <= off
    ensures MaskFound(off, mask, values, n) == mask <==> MaskSpared(off, mask, values, n)
  {
    hide Sets;
    var found, lo := MaskFound(off, mask, values, n), off - |mask|;
    if MaskSpared(off, mask, values, n) {
      forall p: nat | p < |mask|
        ensures found[p] == mask[p]
      {
        if SetBySome(off, values, n, lo + p) {
          var k :| 0 <= k < |values| && Sets(off, values, n, k, lo + p);
          assert mask[(lo + p) - lo];
        }
      }
    }
    if found == mask {
      forall k, i: nat | 0 <= k < |values| && lo <= i < off && Sets(off, values, n, k, i)
        ensures mask[i - lo]
      {
        assert SetBySome(off, values, n, i);
        assert found[i - lo] by {
          assert lo + (i - lo) == i;
        }
      }
    }
  }

  /** A mask in front of a list is still there exactly when the values spare it. */
  lemma MaskHoldsIff(b: seq<bool>, off: nat, mask: seq<bool>, values: seq<uint16>, n: nat)
    requires |mask| <= off <= |b| && b[off - |mask|..off] == mask
    ensures WriteList(b, off, values, n)[off - |mask|..off] == mask <==> MaskSpared(off, mask, values, n)
  {
    hide WriteList, MaskFound, MaskSpared;
    MaskIsFound(b, off, mask, values, n);
    FoundIffSpared(off, mask, values, n);
  }

  lemma FoundGrows(off: nat, mask: seq<bool>, values: seq<uint16>, n: nat)
    requires |mask| <= off
    ensures CountOn(mask) <= CountOn(MaskFound(off, mask, values, n))
    ensures forall p :: 0 <= p < |mask| && mask[p] ==> MaskFound(off, mask, values, n)[p]
  {
    hide Sets;
    RankGrows(mask, MaskFound(off, mask, values, n), |mask|);
  }

  // ---- reading a written list back ----

  /** The k-th value as the reader finds it. */
  function Found(b: seq<bool>, off: nat, values: seq<uint16>, n: nat, k: nat): int16
    requires k < |values| && off + Span(k, n) + n <= |b|
  {
    ReadBits(WriteList(b, off, values, n), off + Span(k, n), n)
  }

  /** If the reader finds the low byte of a value, or of a wider one, the field holds the value. */
  lemma LowPartDecides(b: seq<bool>, off: nat, values: seq<uint16>, n: nat, k: nat)
    requires n <= 16 && k < |values| && off + Span(k, n) + n <= |b|
    requires Blank(b, off + Span(k, n), off + Span(k, n) + n)
    requires 16 < (off + Span(k, n)) % 8 + n
    requires ToUInt8(Found(b, off, values, n, k)) == ToUInt8(values[k])
    ensures Spared(off, values, n, k)
  {
    hide WriteList, Enc, Span, Sets, ReadBits, Low, Spared, ToUInt8;
    var o := off + Span(k, n);
    FirstTwoBytesHold(b, off, values, n, k);
    LowConversions(Found(b, off, values, n, k), o % 8 + n - 16);
    LowConversions(values[k], o % 8 + n - 16);
    LastFragmentDecides(WriteList(b, off, values, n), o, values[k], n);
    FieldHoldsIff(b, off, values, n, k);
  }

  /** A value comes back from a written list exactly when its place carries it and the later values spare its field. */
  lemma FieldReadIff(b: seq<bool>, off: nat, values: seq<uint16>, n: nat, k: nat)
    requires 1 <= n <= 16 && k < |values| && off + Span(k, n) + n <= |b|
    requires Blank(b, off + Span(k, n), off + Span(k, n) + n)
    ensures ToUInt16(Found(b, off, values, n, k)) == values[k]
      <==> CarriesAt(off, values, n, k) && Spared(off, values, n, k)
  {
    hide WriteList, Enc, Span, Sets, ReadBits, Fits, Spared, ToUInt16;
    var o := off + Span(k, n);
    FieldHoldsIff(b, off, values, n, k);
    if 16 < o % 8 + n {
      FirstTwoBytesHold(b, off, values, n, k);
    }
    ReadBackIff(WriteList(b, off, values, n), o, values[k], n);
  }

  /** A value that does not spill sets nothing in front of its field. */
  lemma NothingInFront(off: nat, values: seq<uint16>, n: nat, j: nat, i: nat)
    requires j < |values| && SpillFreeAt(off, values, n, j) && i < off + Span(j, n)
    ensures !Sets(off, values, n, j, i)
  {
    hide Low, Shr, ToInt16, TestBit, Span;
    var o, v := off + Span(j, n), ToInt16(values[j]);
    if Sets(off, values, n, j, i) {
      TestBitShr(v, n, o - 1 - i);
      LowZeroClears(Shr(v, n), o % 8, o - 1 - i);
    }
  }

  /** Values that do not spill spare all fields. */
  lemma SpillFreeSpares(off: nat, values: seq<uint16>, n: nat)
    requires ListSpillFree(off, values, n)
    ensures AllSpared(off, values, n)
  {
    hide Sets, SpillFreeAt, Span;
    forall k | 0 <= k < |values|
      ensures Spared(off, values, n, k)
    {
      forall j, i | k < j < |values| && off + Span(k, n) <= i < off + Span(k, n) + n
        ensures !Sets(off, values, n, j, i)
      {
        FieldInside(k, j, n);
        NothingInFront(off, values, n, j, i);
      }
    }
  }

  lemma SpillFreeSparesMask(off: nat, mask: seq<bool>, values: seq<uint16>, n: nat)
    requires ListSpillFree(off, values, n)
    ensures MaskSpared(off, mask, values, n)
  {
    hide Sets, SpillFreeAt, Span;
    forall k, i: nat | 0 <= k < |values| && off - |mask| <= i < off
      ensures !Sets(off, values, n, k, i)
    {
      NothingInFront(off, values, n, k, i);
    }
  }

  /** Values that survive their place do not spill. */
  lemma CarryingListIsSpillFree(off: nat, values: seq<uint16>, n: nat)
    requires 1 <= n <= 16 && ListCarries(off, values, n)
    ensures ListSpillFree(off, values, n)
  {
    hide SpillFree, Carries, Span, ToInt16;
    forall k | 0 <= k < |values|
      ensures SpillFreeAt(off, values, n, k)
    {
      assert CarriesAt(off, values, n, k);
      CarriesIsSpillFree(off + Span(k, n), values[k], n);
    }
  }

  /**
   `read_value_list` inverts `write_value_list` exactly when every value survives its place: a list
   with a value that spills never comes back, whatever the other values are.
   */
  lemma ListRoundTrip(b: seq<bool>, off: nat, values: seq<uint16>, n: nat)
    requires 1 <= n <= 16 && off + Span(|values|, n) <= |b| && Blank(b, off, off + Span(|values|, n))
    ensures ReadList(WriteList(b, off, values, n), off, |values|, n) == values <==> ListCarries(off, values, n)
    ensures ListCarries(off, values, n) ==> WriteList(b, off, values, n)[..off] == b[..off]
    ensures forall i :: 0 <= i < |b| && (i < 8 * (off / 8) || off + Span(|values|, n) <= i) ==>
      WriteList(b, off, values, n)[i] == b[i]
  {
    hide WriteList, ReadList, ListCarries, ListSpillFree, EncList, Span;
    var w := WriteList(b, off, values, n);
    forall i | 0 <= i < |b| && (i < 8 * (off / 8) || i >= off + Span(|values|, n))
      ensures w[i] == b[i]
    {
      ListFrame(b, off, values, n, i);
    }
    if ListCarries(off, values, n) {
      CarryingListIsSpillFree(off, values, n);
      WriteListExact(b, off, values, n);
      ReadListIff(w, off, values, n);
    } else if ReadList(w, off, |values|, n) == values {
      ReadBackListCarries(b, off, values, n);
    }
  }

  lemma ReadBackListCarries(b: seq<bool>, off: nat, values: seq<uint16>, n: nat)
    requires 1 <= n <= 16 && off + Span(|values|, n) <= |b| && Blank(b, off, off + Span(|values|, n))
    requires ReadList(WriteList(b, off, values, n), off, |values|, n) == values
    ensures ListCarries(off, values, n)
  {
    hide WriteList, ReadList, Span, CarriesAt, Spared, ReadBits, ToUInt16;
    forall k | 0 <= k < |values|
      ensures CarriesAt(off, values, n, k)
    {
      FieldInside(k, |values|, n);
      ReadListField(WriteList(b, off, values, n), off, |values|, n, k);
      FieldReadIff(b, off, values, n, k);
    }
  }

  // ---- the passage of a list through its fields ----

  /** What the reader of a list makes of it. */
  function Arrived(off: nat, values: seq<uint16>, n: nat): (r: seq<uint16>)
    ensures |r| == |values|
  {
    ReadList(WriteList(Zeros(off + Span(|values|, n)), off, values, n), off, |values|, n)
  }

  /**
   The list that the reader of a request finds behind a mask. If the values have set bits of the
   mask, it takes zeros from the padding for the pins that were not meant.
   */
  function ListReceived(off: nat, mask: seq<bool>, values: seq<uint16>, n: nat): (r: seq<uint16>)
    requires |mask| <= off && |values| == CountOn(mask)
    ensures |r| == CountOn(MaskFound(off, mask, values, n))
  {
    FoundGrows(off, mask, values, n);
    Arrived(off, values, n) + seq(CountOn(MaskFound(off, mask, values, n)) - |values|, _ => 0)
  }

  lemma WholeListReceived(off: nat, mask: seq<bool>, values: seq<uint16>, n: nat)
    requires |mask| <= off && |values| == CountOn(mask) && MaskSpared(off, mask, values, n)
    ensures MaskFound(off, mask, values, n) == mask && ListReceived(off, mask, values, n) == Arrived(off, values, n)
  {
    hide Arrived, MaskFound, MaskSpared, Rank;
    FoundIffSpared(off, mask, values, n);
  }

  /** Two buffers with the same bits in the place of a list read the same there. */
  lemma ReadListIsLocal(c: seq<bool>, z: seq<bool>, off: nat, count: nat, n: nat)
    requires off + Span(count, n) <= |c| && off + Span(count, n) <= |z|
    requires forall i :: off <= i < off + Span(count, n) ==> c[i] == z[i]
    ensures ReadList(c, off, count, n) == ReadList(z, off, count, n)
  {
    hide ReadList, Span, ReadBits, ToUInt16;
    forall k | 0 <= k < count
      ensures ReadList(c, off, count, n)[k] == ReadList(z, off, count, n)[k]
    {
      ReadListField(c, off, count, n, k);
      ReadListField(z, off, count, n, k);
      FieldInside(k, count, n);
      SameSlice(c, z, off + Span(k, n), off + Span(k, n) + n);
      ReadIsLocal(c, z, off + Span(k, n), n);
    }
  }

  /** A list that was written on blank bits is read as it arrives, wherever it stands. */
  lemma ListArrives(b: seq<bool>, c: seq<bool>, off: nat, values: seq<uint16>, n: nat)
    requires off + Span(|values|, n) <= |b| && off + Span(|values|, n) <= |c| && Blank(b, off, off + Span(|values|, n))
    requires forall i :: off <= i < off + Span(|values|, n) ==> c[i] == WriteList(b, off, values, n)[i]
    ensures ReadList(c, off, |values|, n) == Arrived(off, values, n)
  {
    hide WriteList, ReadList, Span;
    var zeros := Zeros(off + Span(|values|, n));
    forall i | off <= i < off + Span(|values|, n)
      ensures c[i] == WriteList(zeros, off, values, n)[i]
    {
      SameListBit(b, zeros, off, values, n, i);
    }
    ReadListIsLocal(c, WriteList(zeros, off, values, n), off, |values|, n);
  }

  /** The k-th value that arrives. */
  lemma ArrivedField(off: nat, values: seq<uint16>, n: nat, k: nat)
    requires k < |values|
    ensures off + Span(k, n) + n <= off + Span(|values|, n)
    ensures var z := Zeros(off + Span(|values|, n));
      && Blank(z, off + Span(k, n), off + Span(k, n) + n)
      && Arrived(off, values, n)[k] == ToUInt16(Found(z, off, values, n, k))
  {
    hide WriteList, ReadList, Span, ReadBits, ToUInt16;
    FieldInside(k, |values|, n);
    ReadListField(WriteList(Zeros(off + Span(|values|, n)), off, values, n), off, |values|, n, k);
  }

  /** A value arrives exactly when its place carries it and the later values spare its field. */
  lemma ArrivedIff(off: nat, values: seq<uint16>, n: nat, k: nat)
    requires 1 <= n <= 16 && k < |values|
    ensures Arrived(off, values, n)[k] == values[k] <==> CarriesAt(off, values, n, k) && Spared(off, values, n, k)
  {
    hide Arrived, Span, Spared, CarriesAt, Found, Zeros, Blank, ToUInt16;
    ArrivedField(off, values, n, k);
    FieldReadIff(Zeros(off + Span(|values|, n)), off, values, n, k);
  }

  lemma FieldsBehindNinePins(mask: seq<bool>)
    requires |mask| == 9
    ensures MaskSpared(9, mask, [4, 0x8001], 16) && CarriesAt(9, [4, 0x8001], 16, 0) && !Spared(9, [4, 0x8001], 16, 0)
  {
    hide TestBit;
    SignBit(0x8001, 16);
    BitsOfFour();
    assert Sets(9, [4, 0x8001], 16, 1, 24) && !Sets(9, [4, 0x8001], 16, 0, 24);
  }

  lemma BitsOfFour()
    ensures !TestBit(4, 0) && !TestBit(4, 16)
  {
    TestBitBeyond(4, 3, 16);
  }

  lemma FieldsBehindSixteenPins()
    ensures CarriesAt(16, [0, 8], 3, 0) && !Spared(16, [0, 8], 3, 0)
  {
    assert Sets(16, [0, 8], 3, 1, 18) && !Sets(16, [0, 8], 3, 0, 18);
  }

  /**
   Behind a mask of 9 pins, a second 16-bit value of 0x8001 leaves the mask intact and the first
   value 4 is lost, although it fits its place; so is a first type 0 behind 16 pins before a type 8.
   */
  lemma SpillsReachBack(mask: seq<bool>)
    requires |mask| == 9
    ensures MaskSpared(9, mask, [4, 0x8001], 16) && CarriesAt(9, [4, 0x8001], 16, 0)
    ensures Arrived(9, [4, 0x8001], 16)[0] != 4
    ensures CarriesAt(16, [0, 8], 3, 0) && Arrived(16, [0, 8], 3)[0] != 0
  {
    hide Arrived, Carries, Span, Sets, MaskSpared, SpillFree, Spared;
    FieldsBehindNinePins(mask);
    FieldsBehindSixteenPins();
    ArrivedIff(9, [4, 0x8001], 16, 0);
    ArrivedIff(16, [0, 8], 3, 0);
  }

  /**
   What arrives through fields of at most two bytes fits their width, and is the value modulo 2^n where
   it is spared.
   */
  lemma ArrivedLowIff(off: nat, values: seq<uint16>, n: nat, k: nat)
    requires 1 <= n <= 16 && k < |values| && (off + Span(k, n)) % 8 + n <= 16
    ensures Fits(Arrived(off, values, n)[k], n)
    ensures Arrived(off, values, n)[k] == Low(values[k], n) <==> Spared(off, values, n, k)
  {
    hide Arrived, Span, Spared, WriteList, ReadBits, Enc, Low, Fits, ToUInt16;
    var z, o, v := Zeros(off + Span(|values|, n)), off + Span(k, n), values[k];
    ArrivedField(off, values, n, k);
    FieldHoldsIff(z, off, values, n, k);
    LowIsUInt16(v, n);
    LowFits(v, n);
    EncOfLow(v, n);
    ReadTwoBytesIff(WriteList(z, off, values, n), o, n, Low(v, n));
  }

  /** If the low byte of a value arrives, over three bytes, nothing was set in its field. */
  lemma ArrivedByteSpares(off: nat, values: seq<uint16>, n: nat, k: nat)
    requires 1 <= n <= 16 && k < |values| && 16 < (off + Span(k, n)) % 8 + n
    requires ToUInt8(Arrived(off, values, n)[k]) == ToUInt8(values[k])
    ensures Spared(off, values, n, k)
  {
    hide Arrived, Span, Spared, Found, Zeros, Blank, ToUInt16, ToUInt8;
    var z := Zeros(off + Span(|values|, n));
    ArrivedField(off, values, n, k);
    ByteOfWord(Found(z, off, values, n, k));
    LowPartDecides(z, off, values, n, k);
  }

  /** A width of a whole number of bytes, from a byte boundary: nothing ever spills. */
  lemma AlignedIsSpared(off: nat, values: seq<uint16>, n: nat, k: nat)
    requires n % 8 == 0 && k < |values| && (off + Span(k, n)) % 8 == 0
    ensures Spared(off, values, n, k)
  {
    hide Span, Spared, Sets, ListSpillFree;
    SpanOfBytes(k, n);
    SubtractBytes(off, Span(k, n));
    AlignedListIsSpillFree(off, values, n);
    SpillFreeSpares(off, values, n);
  }

  lemma SubtractBytes(x: nat, y: nat)
    requires y % 8 == 0 && (x + y) % 8 == 0
    ensures x % 8 == 0
  {
  }

  lemma FittingByte(v: uint16, n: nat)
    requires n <= 8 && Fits(v, n)
    ensures ToUInt8(v) == v
  {
    Pow2Monotone(n, 8);
    Pow2Values();
  }

  lemma LowByteIs(x: int)
    ensures ToUInt8(x) == Low(x, 8) && ToUInt8(ToUInt16(x)) == Low(x, 8)
  {
    hide Low, Pow2, ToUInt16;
    Pow2Values();
    ByteOfWord(x);
    LowIsRemainder(x, 8, 0x100);
  }

  /** Over three bytes, the low byte of a value that is spared arrives even where the value is misread. */
  lemma SparedByteArrives(off: nat, values: seq<uint16>, n: nat, k: nat)
    requires n <= 16 && k < |values| && 16 < (off + Span(k, n)) % 8 + n && Spared(off, values, n, k)
    ensures ToUInt8(Arrived(off, values, n)[k]) == Low(values[k], 8)
  {
    hide Arrived, Span, Spared, WriteList, ReadBits, Enc, Low, ToUInt16, ToUInt8;
    var z, o := Zeros(off + Span(|values|, n)), off + Span(k, n);
    ArrivedField(off, values, n, k);
    FieldHoldsIff(z, off, values, n, k);
    LowByteIsRead(WriteList(z, off, values, n), o, values[k], n);
    LowByteIs(Found(z, off, values, n, k));
  }

  /**
   What goes through a list and then a byte is the value modulo 2^n and 256 exactly when the later
   values spare it.
   */
  lemma ArrivedLowByteIff(off: nat, values: seq<uint16>, n: nat, k: nat)
    requires (1 <= n <= 8 || n == 16) && k < |values|
    ensures ToUInt8(Arrived(off, values, n)[k]) == Low(values[k], if n < 8 then n else 8) <==> Spared(off, values, n, k)
  {
    hide Arrived, Span, Spared, Low, ToUInt8, Fits;
    var o, v := off + Span(k, n), values[k];
    if n <= 8 {
      ArrivedLowIff(off, values, n, k);
      FittingByte(Arrived(off, values, n)[k], n);
    } else {
      LowByteIs(v);
      if o % 8 == 0 {
        AlignedIsSpared(off, values, n, k);
        WordsFit(v);
        ArrivedIff(off, values, n, k);
      } else if Spared(off, values, n, k) {
        SparedByteArrives(off, values, n, k);
      } else if ToUInt8(Arrived(off, values, n)[k]) == ToUInt8(v) {
        ArrivedByteSpares(off, values, n, k);
      }
    }
  }

  lemma WordsFit(v: uint16)
    ensures Fits(v, 16)
  {
    Pow2Values();
  }
}
