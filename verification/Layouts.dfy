/** Where each field of a request or of a reply ends up, and what its reader finds there. */
module Layouts {
  import opened Words
  import opened BitStrings
  import opened BitUtils
  import opened BitFields
  import opened ValueLists
  import opened Spills
  import opened Masks
  import opened Protocol
  import opened Failsafes
  import opened TableSpills
  import opened FirmwareSteps
  import opened DriverCalls

  /** What the other peer reads from a field of n bits at offset off that holds the low bits of u. */
  function Transported(off: nat, n: nat, u: uint16): uint16 {
    ToUInt16(ReadBits(Zeros(off) + Enc(u, n), off, n))
  }

  /** A value modulo 2^n. */
  function Truncated(u: uint16, n: nat): (r: uint16)
    requires n <= 16
    ensures r == Low(u, n)
  {
    LowIsUInt16(u, n);
    Low(u, n)
  }

  lemma ReadIsTransported(b: seq<bool>, off: nat, n: nat, u: uint16)
    requires off + n <= |b| && b[off..off + n] == Enc(u, n)
    ensures ToUInt16(ReadBits(b, off, n)) == Transported(off, n, u)
  {
    hide ReadBits, Enc;
    ReadIsLocal(b, Zeros(off) + Enc(u, n), off, n);
  }

  lemma TransportedIff(off: nat, n: nat, u: uint16)
    requires 1 <= n <= 16
    ensures Transported(off, n, u) == u <==> Carries(off, n, u)
  {
    hide ReadBits, Enc, Carries;
    ReadFieldIff(Zeros(off) + Enc(u, n), off, u, n);
  }

  /** Fields of at most two bytes transport values modulo 2^n. */
  lemma TransportedLow(off: nat, n: nat, u: uint16)
    requires n <= 16 && off % 8 + n <= 16
    ensures Transported(off, n, u) == Truncated(u, n)
  {
    hide Enc, Dec, Low;
    var b := Zeros(off) + Enc(u, n);
    ReadOfTwoBytes(b, off, n);
    assert b[off..off + n] == Enc(u, n);
    DecEnc(u, n);
    LowIsUInt16(u, n);
    ToInt16IsCongruent(Low(u, n));
  }

  lemma BytesFit(x: uint8)
    ensures Fits(x, 8)
  {
    Pow2Values();
  }

  /** A pin number in a byte of the request. */
  lemma PinFound(b: seq<bool>, off: nat, pin: uint8)
    requires off % 8 == 0 && off + 8 <= |b| && b[off..off + 8] == Enc(pin, 8)
    ensures PinOf(b, off) == pin
  {
    hide ReadBits, Enc, Carries;
    CarriesByte(off, pin);
    ReadFieldIff(b, off, pin, 8);
    ByteOfSmallWord(ReadBits(b, off, 8), pin);
  }

  lemma CarriesByte(off: nat, pin: uint8)
    ensures Carries(off, 8, pin)
  {
    BytesFit(pin);
  }

  /** Writing a field at a byte boundary of blank bits, whatever the value. */
  lemma WriteAligned(b: seq<bool>, off: nat, val: int, n: nat)
    requires off % 8 == 0 && off + n <= |b| && Blank(b, off, |b|)
    ensures WriteBits(b, off, val, n) == Splice(b, off, Enc(val, n))
    ensures WriteBits(b, off, val, n)[..off] == b[..off]
    ensures WriteBits(b, off, val, n)[off..off + n] == Enc(val, n)
    ensures Blank(WriteBits(b, off, val, n), off + n, |b|)
  {
    hide WriteBits, Enc;
    WriteExact(b, off, val, n) by {
      assert SpillFree(off, val, n);
    }
  }

  lemma PinRequestLayout(pin: uint8)
    ensures PinOf(PinRequest(pin), 0) == pin
  {
    hide WriteBits, Enc, PinOf;
    WriteAligned(Zeros(8), 0, pin, 8);
    PinFound(PinRequest(pin), 0, pin);
  }

  lemma ValueRequestLayout(pin: uint8, val: int16, n: nat)
    requires n <= 16
    ensures 8 + n <= |ValueRequest(pin, val, n)|
    ensures PinOf(ValueRequest(pin, val, n), 0) == pin
    ensures ValueRequest(pin, val, n)[0..8] == Enc(pin, 8) && ValueRequest(pin, val, n)[8..8 + n] == Enc(val, n)
    ensures Blank(ValueRequest(pin, val, n), 8 + n, |ValueRequest(pin, val, n)|)
  {
    hide WriteBits, Enc, PinOf;
    var z := Zeros(8 * Bits2Bytes(8 + n));
    WriteAligned(z, 0, pin, 8);
    var b := WriteBits(z, 0, pin, 8);
    WriteAligned(b, 8, val, n);
    var c := WriteBits(b, 8, val, n);
    assert c[0..8] == c[..8] == b[..8] == b[0..8];
    PinFound(c, 0, pin);
  }

  lemma MaskRequestLayout(mask: seq<bool>, bytes: nat)
    requires 0 < bytes <= 544 && |mask| <= 8 * bytes
    ensures MaskRequest(mask, bytes)[0..|mask|] == mask
    ensures Blank(MaskRequest(mask, bytes), |mask|, 8 * bytes)
  {
    OrMaskOnBlank(Zeros(8 * bytes), 0, mask);
    SpliceParts(Zeros(8 * bytes), 0, mask);
  }

  lemma EncOfWord(val: int, n: nat)
    requires n <= 16
    ensures Enc(val, n) == Enc(ToUInt16(val), n)
  {
    forall k | 0 <= k < n
      ensures Enc(val, n)[k] == Enc(ToUInt16(val), n)[k]
    {
      TestBitConversions(val, n - 1 - k);
    }
  }

  /** A mask at bit off, and behind it the list that is read along it. */
  predicate HoldsList(b: seq<bool>, off: nat, mask: seq<bool>, list: seq<uint16>, n: nat) {
    && |list| == CountOn(mask)
    && off + |mask| + Span(|list|, n) <= |b|
    && b[off..off + |mask|] == mask
    && ReadList(b, off + |mask|, |list|, n) == list
  }

  /** The k-th field of a list at bit off holds the k-th value. */
  predicate HoldsField(b: seq<bool>, off: nat, values: seq<uint16>, n: nat, k: nat)
    requires k < |values|
  {
    off + Span(k, n) + n <= |b| && b[off + Span(k, n)..off + Span(k, n) + n] == Enc(values[k], n)
  }

  /** The list and the mask that a reader finds in w at bit off, for a list that was written behind a mask. */
  predicate FindsList(w: seq<bool>, off: nat, mask: seq<bool>, values: seq<uint16>, n: nat)
    requires |values| == CountOn(mask)
  {
    var o := off + |mask|;
    var found := MaskFound(o, mask, values, n);
    && o <= |w| && w[off..o] == found
    && (o + Span(CountOn(found), n) <= |w| ==> HoldsList(w, off, found, ListReceived(o, mask, values, n), n))
    && (forall k :: 0 <= k < |values| ==> (HoldsField(w, o, values, n, k) <==> Spared(o, values, n, k)))
  }

  /** Behind a list there is nothing to read but zeros. */
  lemma {:induction false} PaddedRead(w: seq<bool>, off: nat, list: seq<uint16>, n: nat, count: nat)
    requires n <= 16 && |list| <= count && off + Span(|list|, n) <= |w| && off + Span(count, n) <= |w|
    requires ReadList(w, off, |list|, n) == list && Blank(w, off + Span(|list|, n), |w|)
    ensures ReadList(w, off, count, n) == list + seq(count - |list|, _ => 0)
    decreases count
  {
    hide ReadBits, Span, ToUInt16;
    if count > |list| {
      FieldInside(count - 1, count, n);
      SpanMonotone(|list|, count - 1, n);
      PaddedRead(w, off, list, n, count - 1);
      BlankRead(w, off + Span(count - 1, n), n);
    }
  }

  /** A list written on blank bits behind a mask. */
  lemma ListBehindMask(b: seq<bool>, off: nat, mask: seq<bool>, values: seq<uint16>, n: nat)
    requires n <= 16 && |values| == CountOn(mask) && off + |mask| + Span(|values|, n) <= |b|
    requires b[off..off + |mask|] == mask && Blank(b, off + |mask|, |b|)
    ensures FindsList(WriteList(b, off + |mask|, values, n), off, mask, values, n)
  {
    hide WriteList, ReadList, Enc, MaskFound, ListReceived, Spared, Span, Rank, CountOn;
    var o := off + |mask|;
    var w := WriteList(b, o, values, n);
    MaskIsFound(b, o, mask, values, n);
    if o + Span(CountOn(MaskFound(o, mask, values, n)), n) <= |w| {
      ReceivedIsRead(b, o, mask, values, n);
    }
    forall k | 0 <= k < |values|
      ensures HoldsField(w, o, values, n, k) <==> Spared(o, values, n, k)
    {
      FieldInside(k, |values|, n);
      FieldHoldsIff(b, o, values, n, k);
    }
  }

  lemma ListPadding(b: seq<bool>, o: nat, values: seq<uint16>, n: nat)
    requires o + Span(|values|, n) <= |b| && Blank(b, o, |b|)
    ensures Blank(WriteList(b, o, values, n), o + Span(|values|, n), |b|)
  {
    hide WriteList, Span;
    forall i | o + Span(|values|, n) <= i < |b|
      ensures !WriteList(b, o, values, n)[i]
    {
      ListFrame(b, o, values, n, i);
    }
  }

  lemma ReceivedIsRead(b: seq<bool>, o: nat, mask: seq<bool>, values: seq<uint16>, n: nat)
    requires n <= 16 && |mask| <= o && |values| == CountOn(mask) && o + Span(|values|, n) <= |b| && Blank(b, o, |b|)
    requires o + Span(CountOn(MaskFound(o, mask, values, n)), n) <= |b|
    ensures ReadList(WriteList(b, o, values, n), o, CountOn(MaskFound(o, mask, values, n)), n)
         == ListReceived(o, mask, values, n)
  {
    hide WriteList, ReadList, MaskFound, Span, Rank, CountOn, Arrived, Blank;
    BlankPart(b, o, o + Span(|values|, n));
    ListArrives(b, WriteList(b, o, values, n), o, values, n);
    FoundGrows(o, mask, values, n);
    ListPadding(b, o, values, n);
    PaddedRead(WriteList(b, o, values, n), o, Arrived(o, values, n), n, CountOn(MaskFound(o, mask, values, n)));
  }

  lemma BlankPart(b: seq<bool>, lo: nat, hi: nat)
    requires lo <= hi <= |b| && Blank(b, lo, |b|)
    ensures Blank(b, lo, hi)
  {
  }

  /** A mask and a list, written one after the other on blank bits. */
  lemma MaskAndList(z: seq<bool>, off: nat, mask: seq<bool>, values: seq<uint16>, n: nat)
    requires n <= 16 && |values| == CountOn(mask) && off + |mask| + Span(|values|, n) <= |z| && Blank(z, off, |z|)
    ensures FindsList(WriteList(OrMask(z, off, mask), off + |mask|, values, n), off, mask, values, n)
  {
    hide WriteList, FindsList, OrMask, Span, Rank;
    OrMaskOnBlank(z, off, mask);
    SpliceParts(z, off, mask);
    BlankAfterSplice(z, off, mask, |z| - off - |mask|);
    ListBehindMask(OrMask(z, off, mask), off, mask, values, n);
  }

  /**
   A request has the mask in its first bits, with the bits that the values set, and behind it the
   list that goes with that mask; each value is right in its place exactly when the later ones
   spare it.
   */
  lemma ListRequestLayout(mask: seq<bool>, values: seq<uint16>, n: nat)
    requires Listed(mask, values) && n <= 16
    ensures FindsList(ListRequest(mask, values, n), 0, mask, values, n)
    ensures ListRequest(mask, values, n)[0..|mask|] == mask <==> MaskSpared(|mask|, mask, values, n)
  {
    hide WriteList, MaskFound, HoldsList, HoldsField, MaskSpared, Spared, OrMask, Span, Rank;
    MaskAndList(Zeros(8 * Bits2Bytes(|mask| + Span(|values|, n))), 0, mask, values, n);
    FoundIffSpared(|mask|, mask, values, n);
  }

  lemma ListRequestHolds(mask: seq<bool>, values: seq<uint16>, n: nat)
    requires Listed(mask, values) && n <= 16 && FoundFits(|mask|, mask, values, n)
    ensures HoldsList(ListRequest(mask, values, n), 0, MaskFound(|mask|, mask, values, n),
      ListReceived(|mask|, mask, values, n), n)
  {
    hide ListRequest, MaskFound, HoldsList, ListReceived, Spared, Span, CountOn, Rank;
    ListRequestLayout(mask, values, n);
  }

  lemma SpliceParts(b: seq<bool>, off: nat, f: seq<bool>)
    requires off + |f| <= |b|
    ensures Splice(b, off, f)[..off] == Splice(b, off, f)[0..off] == b[..off]
    ensures Splice(b, off, f)[off..off + |f|] == f
    ensures Splice(b, off, f)[off + |f|..] == b[off + |f|..]
  {
  }

  lemma FailsafeRequestLayout(timeout: uint16, pin: uint8, val: uint16, n: nat)
    requires n == 8 || n == 16
    ensures var b := FailsafeRequest(timeout, pin, val, n);
      && 24 + n <= |b| && b[0..16] == Enc(timeout, 16)
      && b[16..24] == Enc(pin, 8) && PinOf(b, 16) == pin
      && b[24..24 + n] == Enc(val, n)
  {
    hide WriteBits, Enc, PinOf, ToInt16;
    var z := Zeros(8 * Bits2Bytes(17 + n));
    var t, v := ToInt16(timeout), ToInt16(val);
    WriteAligned(z, 0, t, 16);
    var b := WriteBits(z, 0, t, 16);
    WriteAligned(b, 16, pin, 8);
    var c := WriteBits(b, 16, pin, 8);
    WriteAligned(c, 24, v, n);
    var d := WriteBits(c, 24, v, n);
    EncConversions(timeout, 16);
    EncConversions(val, n);
    assert d[0..16] == d[..24][0..16] == c[..24][0..16] == c[..16] == b[..16] == b[0..16];
    assert d[16..24] == d[..24][16..24] == c[..24][16..24] == c[16..24];
    PinFound(d, 16, pin);
  }

  /** The timeout is always in place; mask and values are as in a request without one. */
  lemma FailsafeListLayout(timeout: uint16, mask: seq<bool>, values: seq<uint16>, n: nat)
    requires Listed(mask, values) && n <= 16
    ensures FailsafeListRequest(timeout, mask, values, n)[0..16] == Enc(timeout, 16)
    ensures FindsList(FailsafeListRequest(timeout, mask, values, n), 16, mask, values, n)
    ensures FailsafeListRequest(timeout, mask, values, n)[16..16 + |mask|] == mask
      <==> MaskSpared(16 + |mask|, mask, values, n)
  {
    hide WriteList, MaskFound, HoldsList, HoldsField, MaskSpared, Spared, WriteBits, OrMask, Enc, Span, Rank, ToInt16;
    var o, t := 16 + |mask|, ToInt16(timeout);
    var z := Zeros(8 * Bits2Bytes(o + Span(|values|, n)));
    WriteAligned(z, 0, t, 16);
    EncConversions(timeout, 16);
    var b := WriteBits(z, 0, t, 16);
    MaskAndList(b, 16, mask, values, n);
    FoundIffSpared(o, mask, values, n);
    TimeoutStays(b, mask, values, n);
  }

  lemma FailsafeListHolds(timeout: uint16, mask: seq<bool>, values: seq<uint16>, n: nat)
    requires Listed(mask, values) && n <= 16 && FoundFits(16 + |mask|, mask, values, n)
    ensures var r := FailsafeListRequest(timeout, mask, values, n);
      && 16 <= |r| && r[0..16] == Enc(timeout, 16)
      && HoldsList(r, 16, MaskFound(16 + |mask|, mask, values, n), ListReceived(16 + |mask|, mask, values, n), n)
  {
    hide FailsafeListRequest, MaskFound, HoldsList, ListReceived, Spared, Span, CountOn, Rank, Enc;
    FailsafeListLayout(timeout, mask, values, n);
  }

  lemma TimeoutStays(b: seq<bool>, mask: seq<bool>, values: seq<uint16>, n: nat)
    requires 16 + |mask| + Span(|values|, n) <= |b| && Blank(b, 16, |b|)
    ensures WriteList(OrMask(b, 16, mask), 16 + |mask|, values, n)[0..16] == b[0..16]
  {
    hide WriteList, Span;
    forall i | 0 <= i < 16
      ensures WriteList(OrMask(b, 16, mask), 16 + |mask|, values, n)[i] == b[i]
    {
      ListFrame(OrMask(b, 16, mask), 16 + |mask|, values, n, i);
    }
  }

  // ---- replies ----

  /** The replies of the firmware, with their identifier. */
  function ValueReply(v: uint16, n: nat, id: uint8): (r: seq<bool>)
    ensures |r| == 8 * Bits2Bytes(8 + n)
  {
    StampId(WriteBits(Zeros(8 * Bits2Bytes(8 + n)), 8, ToInt16(v), n), id)
  }

  function TypeReply(t: uint8, id: uint8): (r: seq<bool>)
    ensures |r| == 16
  {
    StampId(WriteBits(Zeros(16), 8, t, 3), id)
  }

  function ValuesReply(values: seq<uint16>, n: nat, id: uint8): (r: seq<bool>)
    ensures |r| == 8 * Bits2Bytes(8 + Span(|values|, n))
  {
    StampId(WriteList(Zeros(8 * Bits2Bytes(8 + Span(|values|, n))), 8, values, n), id)
  }

  function TypesReply(values: seq<uint16>, id: uint8): (r: seq<bool>)
    requires values != []
    ensures |r| == 8 * (1 + Bits2Bytes(Span(|values|, 3)))
  {
    StampId(WriteList(Zeros(8 * (1 + Bits2Bytes(Span(|values|, 3)))), 8, values, 3), id)
  }

  function EntryReply(f: PinFailsafe, id: uint8, timeout: uint16): (r: seq<bool>)
    ensures |r| == 8 * (3 + Bits2Bytes(3 + GetTypeBitsNb(f.pinState)))
  {
    WriteBits(StampId(EntryAnswer(f), id), 8, ToInt16(timeout), 16)
  }

  function StreamReply(sub: seq<PinFailsafe>, id: uint8, timeout: uint16): (r: seq<bool>)
    ensures |r| == 8 * (3 + Bits2Bytes(NbBits(sub)))
  {
    WriteBits(StampId(TableAnswer(sub), id), 8, ToInt16(timeout), 16)
  }

  /** The reply number does not disturb what follows it. */
  lemma StampKeeps(b: seq<bool>, id: uint8, lo: nat, hi: nat)
    requires 8 <= lo <= hi <= |b|
    ensures StampId(b, id)[lo..hi] == b[lo..hi]
  {
    var s := StampId(b, id);
    forall k | lo <= k < hi
      ensures s[k] == b[k]
    {
      assert s[8..][k - 8] == b[8..][k - 8];
    }
  }

  lemma ValueReplyLayout(bytes: nat, val: int, n: nat, id: uint8)
    requires 8 + n <= 8 * bytes
    ensures StampId(WriteBits(Zeros(8 * bytes), 8, val, n), id)[8..8 + n] == Enc(val, n)
  {
    hide WriteBits, Enc, StampId;
    WriteAligned(Zeros(8 * bytes), 8, val, n);
    StampKeeps(WriteBits(Zeros(8 * bytes), 8, val, n), id, 8, 8 + n);
  }

  /** A list that starts at bit 8 of a reply is read as it arrives there. */
  lemma ListReplyReads(bytes: nat, values: seq<uint16>, n: nat, id: uint8)
    requires 8 + Span(|values|, n) <= 8 * bytes
    ensures ReadList(StampId(WriteList(Zeros(8 * bytes), 8, values, n), id), 8, |values|, n) == Arrived(8, values, n)
  {
    hide WriteList, ReadList, StampId, Arrived, Span;
    var w := WriteList(Zeros(8 * bytes), 8, values, n);
    forall i | 8 <= i < 8 + Span(|values|, n)
      ensures StampId(w, id)[i] == w[i]
    {
      StampKeepsBit(w, id, i);
    }
    ListArrives(Zeros(8 * bytes), StampId(w, id), 8, values, n);
  }

  lemma StampKeepsBit(b: seq<bool>, id: uint8, i: nat)
    requires 8 <= i < |b|
    ensures StampId(b, id)[i] == b[i]
  {
    assert StampId(b, id)[8..][i - 8] == b[8..][i - 8];
  }

  /** Behind the list, a reply is blank. */
  lemma ListReplyPadding(bytes: nat, values: seq<uint16>, n: nat, id: uint8, i: nat)
    requires 8 + Span(|values|, n) <= i < 8 * bytes
    ensures !StampId(WriteList(Zeros(8 * bytes), 8, values, n), id)[i]
  {
    hide WriteList, StampId, Span;
    var w := WriteList(Zeros(8 * bytes), 8, values, n);
    StampKeepsBit(w, id, i);
    ListFrame(Zeros(8 * bytes), 8, values, n, i);
  }

  /** The failsafe reply: identifier, timeout, then the entries. */
  lemma FailsafeReplyLayout(b: seq<bool>, id: uint8, timeout: uint16)
    requires 24 <= |b| && Blank(b, 8, 24)
    ensures var r := WriteBits(StampId(b, id), 8, ToInt16(timeout), 16);
      r[0..8] == Enc(id, 8) && r[8..24] == Enc(timeout, 16) && r[24..] == b[24..]
  {
    hide WriteBits, Enc, ToInt16;
    var s := StampId(b, id);
    assert s[0..8] == Enc(id, 8);
    forall k | 8 <= k < 24
      ensures !s[k]
    {
      assert s[8..][k - 8] == b[8..][k - 8];
    }
    WriteExact(s, 8, ToInt16(timeout), 16) by {
      assert SpillFree(8, ToInt16(timeout), 16);
    }
    EncConversions(timeout, 16);
    SpliceParts(s, 8, Enc(timeout, 16));
    assert s[24..] == b[24..];
  }

  lemma SameTail(r: seq<bool>, a: seq<bool>, lo: nat, hi: nat)
    requires 24 <= lo <= hi <= |a| == |r| && r[24..] == a[24..]
    ensures r[lo..hi] == a[lo..hi]
  {
    forall k | lo <= k < hi
      ensures r[k] == a[k]
    {
      assert r[24..][k - 24] == a[24..][k - 24];
    }
  }

  /** A value of 0x8000 or more, negative as an `int16_t`, sets the bits of the type in front of it. */
  predicate HidesType(f: PinFailsafe) {
    GetTypeBitsNb(f.pinState) == 16 && f.pinValue >= 0x8000
  }

  /** The type and the value of one entry from bit 24 on. */
  lemma FailsafeEntryLayout(z: seq<bool>, f: PinFailsafe)
    requires Storable(f)
    requires |z| == 8 * (3 + Bits2Bytes(3 + GetTypeBitsNb(f.pinState))) && Blank(z, 0, |z|)
    ensures var a := WriteBits(WriteBits(z, 24, f.pinState, 3), 27, ToInt16(f.pinValue), GetTypeBitsNb(f.pinState));
      && Blank(a, 8, 24)
      && (f.pinState == PIN_TYPE_DISABLED || HidesType(f) ==> a[24..27] == Enc(PIN_TYPE_DISABLED, 3))
      && (f.pinState != PIN_TYPE_DISABLED && !HidesType(f) ==> a[24..24 + Width(f)] == EncPin(f))
  {
    hide TestBit, ToInt16, SpillFree, Fits;
    var n := GetTypeBitsNb(f.pinState);
    var t := WriteBits(z, 24, f.pinState, 3);
    var a := WriteBits(t, 27, ToInt16(f.pinValue), n);
    if f.pinState == PIN_TYPE_DISABLED || HidesType(f) {
      forall k | 24 <= k < 27
        ensures a[k] == Enc(PIN_TYPE_DISABLED, 3)[k - 24]
      {
        OnesOfSeven(26 - k);
        if HidesType(f) {
          SignBit(f.pinValue, 42 - k);
        }
      }
    } else {
      SmallIsSpillFree(f);
      WritePinExact(z, 24, f);
      SpliceParts(z, 24, EncPin(f));
    }
  }

  lemma SmallIsSpillFree(f: PinFailsafe)
    requires Storable(f) && f.pinState != PIN_TYPE_DISABLED && !HidesType(f)
    ensures PinSpillFree(24, f)
  {
    hide SpillFree, Pow2;
    var n := GetTypeBitsNb(f.pinState);
    Pow2Values();
    if n < 16 {
      Pow2Monotone(n, 15);
    }
    FittingIsSpillFree(27, f.pinValue, n);
  }

  lemma EntryCarriesIff(f: PinFailsafe)
    requires Storable(f) && f.pinState != PIN_TYPE_DISABLED
    ensures PinCarries(24, f) <==> (GetTypeBitsNb(f.pinState) == 16 ==> f.pinValue < 2048)
  {
    Pow2Values();
    assert Pow2(11) == 8 * Pow2(8);
  }

  /** A disabled entry is read as a disabled entry of width 0. */
  lemma DisabledEntryRead(r: seq<bool>, a: seq<bool>)
    requires 32 <= |a| == |r| && r[24..] == a[24..] && a[24..27] == Enc(PIN_TYPE_DISABLED, 3)
    ensures TypeAt(r, 24) == PIN_TYPE_DISABLED
  {
    hide ReadBits, Enc, Carries;
    SameTail(r, a, 24, 27);
    TypeIsSpillFree(24, PIN_TYPE_DISABLED);
    ReadFieldIff(r, 24, PIN_TYPE_DISABLED, 3);
    ByteOfSmallWord(ReadBits(r, 24, 3), PIN_TYPE_DISABLED);
  }

  lemma DisabledEntryValue(r: seq<bool>)
    requires 27 <= |r| && TypeAt(r, 24) == PIN_TYPE_DISABLED
    ensures PinAt(r, 24) == DISABLED_PIN
  {
    hide TypeAt;
    ReadOfTwoBytes(r, 27, 0);
    assert r[27..27] == [];
  }

  /**
   What an entry is read as, from the reply to a single request. A 16-bit value of 0x8000 or more
   makes it a disabled pin; otherwise its type comes back, and its value unless it is a 16-bit value
   of 2048 or more.
   */
  predicate ReadsAs(f: PinFailsafe, got: PinFailsafe) {
    && (f.pinState == PIN_TYPE_DISABLED || HidesType(f) ==> got == DISABLED_PIN)
    && (f.pinState != PIN_TYPE_DISABLED && !HidesType(f) ==> got.pinState == f.pinState)
    && (f.pinState != PIN_TYPE_DISABLED ==> (got == f <==> (GetTypeBitsNb(f.pinState) == 16 ==> f.pinValue < 2048)))
  }

  predicate EntryIsRead(r: seq<bool>, f: PinFailsafe) {
    27 <= |r| && 27 + GetTypeBitsNb(TypeAt(r, 24)) <= |r| && ReadsAs(f, PinAt(r, 24))
  }

  lemma EntryReplyReads(f: PinFailsafe, id: uint8, timeout: uint16)
    requires Storable(f)
    ensures EntryIsRead(EntryReply(f, id, timeout), f)
  {
    hide WriteBits, ReadBits, StampId, EncPin, PinCarries, PinSpillFree, TypeAt, PinAt, Enc, ToInt16, Storable;
    FailsafeEntryLayout(Zeros(8 * (3 + Bits2Bytes(3 + GetTypeBitsNb(f.pinState)))), f);
    var a, r := EntryAnswer(f), EntryReply(f, id, timeout);
    FailsafeReplyLayout(a, id, timeout);
    StorableTypes(f);
    if f.pinState == PIN_TYPE_DISABLED || HidesType(f) {
      DisabledEntryRead(r, a);
      DisabledEntryValue(r);
    } else {
      SameTail(r, a, 24, 24 + Width(f));
      ReadPinIff(r, 24, f);
      PinAtType(r, 24);
      EntryCarriesIff(f);
    }
  }

  lemma StorableTypes(f: PinFailsafe)
    requires Storable(f)
    ensures Sendable(f)
  {
  }
}
