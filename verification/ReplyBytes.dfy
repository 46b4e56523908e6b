/** The replies in numbers: which requests are answered, under which header, and with which data bytes. */
module ReplyBytes {
  import opened Words
  import opened BitStrings
  import opened BitUtils
  import opened BitFields
  import opened ValueLists
  import opened Spills
  import opened Masks
  import opened Protocol
  import opened Failsafes
  import opened FirmwareSteps
  import opened DriverCalls
  import opened Layouts
  import opened Exchanges
  import opened RequestBytes

  /** The header of each reply: some carry the number of another command. */
  lemma ReplyHeaderIs(d: Device, m: Message)
    requires Serviceable(d, m)
    ensures ReplyTo(d, m).header ==
      match m.header / 0x10
      case 3 => 0x30
      case 4 => 0x40
      case 5 => 0x60
      case 6 => 0x60
      case 7 => 0x60
      case 8 => 0x60
      case _ => 0
    ensures ReplyTo(d, m).data == ReplyData(d, m)
  {
    hide ReplyData, ReadOk, WriteOk, GetTypeOk, SetTypeOk, GetFailsafeOk, SetFailsafeOk, Bits, Valid;
  }

  /** The commands that are answered: all but `reset`, up to `set_failsafe`. */
  lemma AnsweredIff(cmd: uint8)
    ensures Answered(cmd) <==> cmd == 0 || 2 <= cmd <= 8
  {
  }

  /** A ping is served by any device, and answered with the version under the header of `get_caps`. */
  lemma PingServed(d: Device, m: Message)
    requires d.conn.Ok() && m.Sized() && Valid(m) && m.header / 0x10 == 2
    ensures Answered(CmdOf(m.header)) && Serviceable(d, m)
    ensures ReplyTo(d, m).header == 0 && ReplyTo(d, m).data == [d.nextId, d.version]
    ensures Step(d, m) == d.(nextId := if d.nextId == 255 then 16 else d.nextId + 1)
  {
    hide Valid, Bits;
  }

  /** So is a request for the capabilities: the number of pins and one byte for each pin. */
  lemma CapsServed(d: Device, m: Message)
    requires d.conn.Ok() && m.Sized() && Valid(m) && m.header / 0x10 == 0
    ensures Answered(CmdOf(m.header)) && Serviceable(d, m)
    ensures ReplyTo(d, m).header == 0 && ReplyTo(d, m).data == [d.nextId, |d.conn.types|] + d.conn.caps
    ensures Step(d, m) == d.(nextId := if d.nextId == 255 then 16 else d.nextId + 1)
  {
    hide Valid, Bits;
  }

  lemma StampStarts(b: seq<bool>, id: uint8)
    requires 8 <= |b|
    ensures StampId(b, id)[0..8] == Enc(id, 8)
  {
    hide Enc;
  }

  /** A value behind the identifier of a reply, and zeros behind it. */
  lemma ValueReplyBits(v: uint16, n: nat, id: uint8)
    requires n <= 16
    ensures var r := ValueReply(v, n, id);
      8 + n <= |r| && r[0..8] == Enc(id, 8) && r[8..8 + n] == Enc(v, n) && Blank(r, 8 + n, |r|)
  {
    hide WriteBits, Enc, StampId, ToInt16;
    var z := Zeros(8 * Bits2Bytes(8 + n));
    var w := WriteBits(z, 8, ToInt16(v), n);
    WriteAligned(z, 8, ToInt16(v), n);
    EncConversions(v, n);
    StampStarts(w, id);
    StampKeeps(w, id, 8, 8 + n);
    forall i | 8 + n <= i < |w|
      ensures !StampId(w, id)[i]
    {
      StampKeepsBit(w, id, i);
    }
  }

  lemma ValueReplyData(d: Device, pin: uint8, mode: uint8)
    requires d.conn.Ok() && Typed(mode) && pin < d.conn.NbPins()
    ensures var m, n := Request(GenericRead(pin, mode)), GetTypeBitsNb(mode);
      && Serviceable(d, m) && ReplyTo(d, m).header == 0x30
      && Bits(ReplyTo(d, m).data) == ValueReply(d.conn.vals[pin], n, d.nextId)
  {
    hide Serviceable, StateAfter, ReplyData, Bits, ValueReply, Request;
    var call := GenericRead(pin, mode);
    ReadServed(d, pin, mode);
    ReplyHeaderIs(d, Request(call));
    HeaderIs(call);
    StartsWithHeader(call);
  }

  /**
   The reply to a single read: the identifier, then the value, high byte first; a digital value is the
   highest bit.
   */
  lemma ReadReplyBytes(d: Device, pin: uint8, mode: uint8)
    requires d.conn.Ok() && Typed(mode) && pin < d.conn.NbPins()
    ensures var m, v := Request(GenericRead(pin, mode)), d.conn.vals[pin];
      && Serviceable(d, m) && ReplyTo(d, m).header == 0x30
      && (mode == 0 ==> ReplyTo(d, m).data == [d.nextId, 0x80 * (v % 2)])
      && (mode == 1 || mode == 3 ==> ReplyTo(d, m).data == [d.nextId, v % 0x100])
      && (mode == 2 || mode == 4 ==> ReplyTo(d, m).data == [d.nextId, v / 0x100, v % 0x100])
  {
    hide Serviceable, ReplyTo, Step, Bits, Enc, ValueReply, Request, Blank;
    var n, v := GetTypeBitsNb(mode), d.conn.vals[pin];
    Widths(mode);
    ValueReplyData(d, pin, mode);
    ValueReplyBits(v, n, d.nextId);
    ByteAndField(ReplyTo(d, Request(GenericRead(pin, mode))).data, d.nextId, v, n);
  }

  lemma TypeReplyBits(t: uint8, id: uint8)
    ensures var r := TypeReply(t, id);
      |r| == 16 && r[0..8] == Enc(id, 8) && r[8..11] == Enc(t, 3) && Blank(r, 11, 16)
  {
    hide WriteBits, Enc, StampId;
    var w := WriteBits(Zeros(16), 8, t, 3);
    WriteAligned(Zeros(16), 8, t, 3);
    StampStarts(w, id);
    StampKeeps(w, id, 8, 11);
    forall i | 11 <= i < 16
      ensures !StampId(w, id)[i]
    {
      StampKeepsBit(w, id, i);
    }
  }

  lemma TypeReplyData(d: Device, pin: uint8)
    requires d.conn.Ok() && pin < |d.conn.types|
    ensures var m := Request(GetType(pin));
      && Serviceable(d, m) && ReplyTo(d, m).header == 0x60
      && Bits(ReplyTo(d, m).data) == TypeReply(d.conn.types[pin], d.nextId)
  {
    hide Serviceable, StateAfter, ReplyData, Bits, TypeReply, Request;
    var call := GetType(pin);
    GetTypeServed(d, pin);
    ReplyHeaderIs(d, Request(call));
    HeaderIs(call);
    StartsWithHeader(call);
  }

  lemma ByteAndType(data: seq<uint8>, first: uint8, t: uint8)
    requires Bits(data) == TypeReply(t, first)
    ensures data == [first, 0x20 * (t % 8)]
  {
    hide Bits, TypeReply, Enc, Blank;
    TypeReplyBits(t, first);
    ByteAndField(data, first, t, 3);
  }

  /** The reply to `get_type`: the identifier, then the type in the three highest bits of a byte. */
  lemma TypeReplyBytes(d: Device, pin: uint8)
    requires d.conn.Ok() && pin < |d.conn.types|
    ensures Serviceable(d, Request(GetType(pin)))
    ensures var r, t := ReplyTo(d, Request(GetType(pin))), d.conn.types[pin];
      r.header == 0x60 && r.data == [d.nextId, 0x20 * (t % 8)]
  {
    hide *;
    GetTypeParts(pin);
    TypeReplyData(d, pin);
    ByteAndType(ReplyTo(d, Request(GetType(pin))).data, d.nextId, d.conn.types[pin]);
  }

  /** The calls that store something are answered with nothing but the identifier. */
  lemma StoringReplyBytes(d: Device, call: Call)
    requires d.conn.Ok() && Safe(call, d.conn)
    requires call.GenericWrite? || call.WriteValueMask? || call.SetType? || call.SetTypeMask? || call.SetFailsafe?
      || call.SetFailsafeMask?
    ensures Sound(call) && Serviceable(d, Request(call))
    ensures ReplyTo(d, Request(call)).data == [d.nextId]
    ensures ReplyTo(d, Request(call)).header == if call.GenericWrite? || call.WriteValueMask? then 0x40 else 0x60
  {
    hide *;
    StoringServed(d, call);
    ReplyHeaderIs(d, Request(call));
    StartsWithHeader(call);
    HeaderOfWrites(call);
    RequestStarts(call);
  }

  lemma RequestStarts(call: Call)
    requires Sound(call)
    ensures Request(call).header == RequestHeader(call)
  {
    hide RequestBits, RequestHeader, Pack, Bits, Sound;
  }

  lemma HeaderOfWrites(call: Call)
    requires Sound(call)
    ensures call.GenericWrite? || call.WriteValueMask? ==> RequestHeader(call) / 0x10 == 4
    ensures call.SetType? || call.SetTypeMask? ==> RequestHeader(call) / 0x10 == 6
    ensures call.SetFailsafe? || call.SetFailsafeMask? ==> RequestHeader(call) / 0x10 == 8
  {
    hide RequestHeader, Rank;
    HeaderIs(call);
  }

  lemma StoringServed(d: Device, call: Call)
    requires d.conn.Ok() && Safe(call, d.conn)
    requires call.GenericWrite? || call.WriteValueMask? || call.SetType? || call.SetTypeMask? || call.SetFailsafe?
      || call.SetFailsafeMask?
    ensures Sound(call) && Serviceable(d, Request(call)) && ReplyData(d, Request(call)) == [d.nextId]
  {
    hide Serviceable, ReplyData, StateAfter, Request, FoundFits, MaskFound, ListReceived, Scatter, Truncated, Rank;
    match call
    case GenericWrite(pin, mode, val) => WriteServed(d, pin, mode, val);
    case WriteValueMask(mask, mode, values) => MaskedWriteServed(d, mask, mode, values);
    case SetType(pin, t) => SetTypeServed(d, pin, t);
    case SetTypeMask(mask, types) => MaskedSetTypeServed(d, mask, types);
    case SetFailsafe(pin, timeout, f) => SetFailsafeServed(d, pin, timeout, f);
    case SetFailsafeMask(mask, mode, timeout, values) => MaskedSetFailsafeServed(d, mask, mode, timeout, values);
  }

  // ---- replies with values of several pins ----

  /** The list of a reply starts behind the identifier; each spared value is in its place. */
  lemma ListReplyHolds(bytes: nat, values: seq<uint16>, n: nat, id: uint8, k: nat)
    requires 8 + Span(|values|, n) <= 8 * bytes && n <= 16 && k < |values| && Spared(8, values, n, k)
    ensures HoldsField(StampId(WriteList(Zeros(8 * bytes), 8, values, n), id), 8, values, n, k)
  {
    hide WriteList, StampId, Spared, Span, Enc;
    var z := Zeros(8 * bytes);
    var w := WriteList(z, 8, values, n);
    FieldInside(k, |values|, n);
    FieldHoldsIff(z, 8, values, n, k);
    StampKeeps(w, id, 8 + Span(k, n), 8 + Span(k, n) + n);
  }

  lemma ValuesReplyHolds(values: seq<uint16>, n: nat, id: uint8)
    requires n <= 16 && AllSpared(8, values, n)
    ensures var r := ValuesReply(values, n, id);
      && 8 + Span(|values|, n) <= |r| && r[0..8] == Enc(id, 8)
      && forall k :: 0 <= k < |values| ==> HoldsField(r, 8, values, n, k)
  {
    hide WriteList, StampId, Spared, Span, Enc, HoldsField;
    var bytes := Bits2Bytes(8 + Span(|values|, n));
    StampStarts(WriteList(Zeros(8 * bytes), 8, values, n), id);
    forall k | 0 <= k < |values|
      ensures HoldsField(ValuesReply(values, n, id), 8, values, n, k)
    {
      ListReplyHolds(bytes, values, n, id, k);
    }
  }

  lemma ValuesReplyData(d: Device, mask: seq<bool>, mode: uint8)
    requires d.conn.Ok() && Typed(mode) && 0 < |mask| == |d.conn.types|
    ensures var m, n := Request(ReadValueMask(mask, mode)), GetTypeBitsNb(mode);
      && |d.conn.vals| == |mask|
      && Serviceable(d, m) && ReplyTo(d, m).header == 0x30
      && Bits(ReplyTo(d, m).data) == ValuesReply(Gather(d.conn.vals, mask), n, d.nextId)
  {
    hide Serviceable, StateAfter, ReplyData, Bits, ValuesReply, Request, Gather, Rank;
    var call := ReadValueMask(mask, mode);
    MaskedReadServed(d, mask, mode);
    ReplyHeaderIs(d, Request(call));
    HeaderIs(call);
    StartsWithHeader(call);
  }

  /** The reply to a masked read: the identifier, then the values of the pins in increasing order, high bytes first. */
  lemma ReadMaskReplyBytes(d: Device, mask: seq<bool>, mode: uint8)
    requires d.conn.Ok() && 1 <= mode <= 4 && 0 < |mask| == |d.conn.types| == |d.conn.vals|
    ensures var m, values := Request(ReadValueMask(mask, mode)), Gather(d.conn.vals, mask);
      && Serviceable(d, m) && ReplyTo(d, m).header == 0x30
      && |ReplyTo(d, m).data| > 0 && ReplyTo(d, m).data[0] == d.nextId
      && ShowsValues(ReplyTo(d, m).data, 1, values, if mode == 1 || mode == 3 then 8 else 16)
  {
    hide Serviceable, ReplyTo, Step, Bits, Enc, ValuesReply, Request, Gather, HoldsField, ShowsValues, ListSpillFree,
      Spared, Span, Rank;
    var n, values := GetTypeBitsNb(mode), Gather(d.conn.vals, mask);
    Widths(mode);
    ValuesReplyData(d, mask, mode);
    AlignedListIsSpillFree(8, values, n);
    SpillFreeSpares(8, values, n);
    ValuesReplyHolds(values, n, d.nextId);
    var data := ReplyTo(d, Request(ReadValueMask(mask, mode))).data;
    ByteIs(data, 0, d.nextId);
    ValuesShown(data, 1, values, n);
  }

  lemma BitsSpared(values: seq<uint16>)
    requires forall k :: 0 <= k < |values| ==> values[k] < 2
    ensures AllSpared(8, values, 1)
  {
    hide Spared, ListSpillFree, ListCarries, Pow2;
    Pow2Values();
    ListDomains(8, values, 1);
    SpillFreeSpares(8, values, 1);
  }

  lemma BitShown(data: seq<uint8>, values: seq<uint16>, k: nat)
    requires k < |values| && HoldsField(Bits(data), 8, values, 1, k)
    ensures 1 + k / 8 < |data| && (TestBit(data[1 + k / 8], 7 - k % 8) <==> values[k] % 2 == 1)
  {
    hide Bits, Span;
    SpanIsProduct(k, 1);
    BitOfByte(data, 8 + k);
    SliceAt(Bits(data), 8 + k, 8 + k + 1, 8 + k);
    DivModUnique(8 + k, 8, 1 + k / 8, k % 8);
  }

  /** The same for digital values, one bit each, the highest bit of each byte first. */
  lemma ReadDigitalReplyBits(d: Device, mask: seq<bool>)
    requires d.conn.Ok() && 0 < |mask| == |d.conn.types| == |d.conn.vals|
    requires forall k :: 0 <= k < CountOn(mask) ==> Gather(d.conn.vals, mask)[k] < 2
    ensures var m, values := Request(ReadValueMask(mask, 0)), Gather(d.conn.vals, mask);
      && Serviceable(d, m) && ReplyTo(d, m).header == 0x30
      && |ReplyTo(d, m).data| > 0 && ReplyTo(d, m).data[0] == d.nextId
      && forall k :: 0 <= k < |values| ==>
           1 + k / 8 < |ReplyTo(d, m).data| && (TestBit(ReplyTo(d, m).data[1 + k / 8], 7 - k % 8) <==> values[k] == 1)
  {
    hide Serviceable, ReplyTo, Step, Bits, Enc, ValuesReply, Request, Gather, HoldsField, Spared, Span, Rank, TestBit;
    var values := Gather(d.conn.vals, mask);
    ValuesReplyData(d, mask, 0);
    BitsSpared(values);
    ValuesReplyHolds(values, 1, d.nextId);
    var data := ReplyTo(d, Request(ReadValueMask(mask, 0))).data;
    ByteIs(data, 0, d.nextId);
    forall k | 0 <= k < |values|
      ensures 1 + k / 8 < |data| && (TestBit(data[1 + k / 8], 7 - k % 8) <==> values[k] == 1)
    {
      BitShown(data, values, k);
    }
  }

  lemma TypesReplyData(d: Device, mask: seq<bool>)
    requires d.conn.Ok() && 2 <= |mask| == |d.conn.types| && (|mask| - 1) % 8 != 0 && CountOn(Sent(mask)) > 0
    ensures var m := Request(GetTypeMask(mask));
      && Serviceable(d, m) && ReplyTo(d, m).header == 0x60
      && Bits(ReplyTo(d, m).data) == TypesReply(Gather(Widened(d.conn.types), Sent(mask)), d.nextId)
  {
    hide Serviceable, StateAfter, ReplyData, Bits, TypesReply, Request, Gather, Widened, Sent, Rank;
    var call := GetTypeMask(mask);
    MaskedGetTypeServed(d, mask);
    ReplyHeaderIs(d, Request(call));
    HeaderIs(call);
    StartsWithHeader(call);
  }

  /** The reply to a masked request for types: the identifier, then 3 bits for each pin that was sent. */
  lemma TypeMaskReplyBits(d: Device, mask: seq<bool>)
    requires d.conn.Ok() && 2 <= |mask| == |d.conn.types| && (|mask| - 1) % 8 != 0 && CountOn(Sent(mask)) > 0
    requires forall p :: 0 <= p < |mask| ==> d.conn.types[p] < 8
    ensures var m, types := Request(GetTypeMask(mask)), Gather(d.conn.types, Sent(mask));
      && Serviceable(d, m) && ReplyTo(d, m).header == 0x60
      && 8 + 3 * |types| <= 8 * |ReplyTo(d, m).data| && ReplyTo(d, m).data[0] == d.nextId
      && forall k :: 0 <= k < |types| ==>
           Bits(ReplyTo(d, m).data)[8 + 3 * k..8 + 3 * k + 3] == Enc(types[k], 3)
  {
    hide Serviceable, ReplyTo, Step, Bits, Enc, TypesReply, Request, Gather, Widened, HoldsField, ListSpillFree,
      ListCarries, Spared, Sent, Span, Rank;
    var values, types := Gather(Widened(d.conn.types), Sent(mask)), Gather(d.conn.types, Sent(mask));
    TypesReplyData(d, mask);
    TypesCarry(d.conn.types, Sent(mask));
    SpillFreeSpares(8, values, 3);
    TypesReplyHolds(values, d.nextId);
    TypesShown(ReplyTo(d, Request(GetTypeMask(mask))).data, d.conn.types, Sent(mask), d.nextId);
  }

  lemma TypesShown(data: seq<uint8>, types: seq<uint8>, mask: seq<bool>, id: uint8)
    requires |types| == |mask| && data != [] && Bits(data)[0..8] == Enc(id, 8)
    requires var values := Gather(Widened(types), mask);
      && 8 + Span(|values|, 3) <= 8 * |data|
      && forall k :: 0 <= k < |values| ==> HoldsField(Bits(data), 8, values, 3, k)
    ensures var sub := Gather(types, mask);
      && data[0] == id && 8 + 3 * |sub| <= 8 * |data|
      && forall k :: 0 <= k < |sub| ==> Bits(data)[8 + 3 * k..8 + 3 * k + 3] == Enc(sub[k], 3)
  {
    hide Bits, Enc, Gather, Widened, HoldsField, Span, Rank;
    var values, sub := Gather(Widened(types), mask), Gather(types, mask);
    ByteIs(data, 0, id);
    SpanIsProduct(|values|, 3);
    forall k | 0 <= k < |sub|
      ensures Bits(data)[8 + 3 * k..8 + 3 * k + 3] == Enc(sub[k], 3)
    {
      SpanIsProduct(k, 3);
      WidenedGather(types, mask, k);
      HeldField(Bits(data), 8, values, 3, k);
    }
  }

  lemma HeldField(b: seq<bool>, off: nat, values: seq<uint16>, n: nat, k: nat)
    requires k < |values| && HoldsField(b, off, values, n, k)
    ensures off + Span(k, n) + n <= |b| && b[off + Span(k, n)..off + Span(k, n) + n] == Enc(values[k], n)
  {
    hide Span, Enc;
  }

  lemma WidenedGather(types: seq<uint8>, mask: seq<bool>, k: nat)
    requires |types| == |mask| && k < CountOn(mask)
    ensures Gather(Widened(types), mask)[k] == Gather(types, mask)[k]
  {
    PinsAreRanked(mask, |mask|);
    assert Gather(Widened(types), mask)[k] == types[Pins(mask)[k]];
  }

  lemma TypesReplyHolds(values: seq<uint16>, id: uint8)
    requires values != [] && AllSpared(8, values, 3)
    ensures var r := TypesReply(values, id);
      && 8 + Span(|values|, 3) <= |r| && r[0..8] == Enc(id, 8)
      && forall k :: 0 <= k < |values| ==> HoldsField(r, 8, values, 3, k)
  {
    hide WriteList, StampId, Spared, Enc, HoldsField;
    FieldInside(0, |values|, 3);
    hide Span;
    var bytes := 1 + Bits2Bytes(Span(|values|, 3));
    StampStarts(WriteList(Zeros(8 * bytes), 8, values, 3), id);
    forall k | 0 <= k < |values|
      ensures HoldsField(TypesReply(values, id), 8, values, 3, k)
    {
      ListReplyHolds(bytes, values, 3, id, k);
    }
  }

  // ---- replies with failsafes ----

  /** The type that a reply shows for an entry: 7 for a disabled pin, and where a 16-bit value is 0x8000 or more. */
  lemma EntryAnswerBits(f: PinFailsafe)
    requires Storable(f)
    ensures var a, n := EntryAnswer(f), GetTypeBitsNb(f.pinState);
      && 27 + n <= |a| && Blank(a, 8, 24)
      && a[24..27] == Enc(if f.pinState == 7 || HidesType(f) then 7 else f.pinState, 3)
      && a[27..27 + n] == Enc(f.pinValue, n) && Blank(a, 27 + n, |a|)
  {
    hide WriteBits, Enc, ToInt16, HidesType, Fits, EncPin, Storable;
    var n := GetTypeBitsNb(f.pinState);
    var z := Zeros(8 * (3 + Bits2Bytes(3 + n)));
    var t := WriteBits(z, 24, f.pinState, 3);
    WriteAligned(z, 24, f.pinState, 3);
    BlankPart(t, 27, 27 + n);
    FieldReceives(t, 27, ToInt16(f.pinValue), n);
    EncConversions(f.pinValue, n);
    FailsafeEntryLayout(z, f);
    TailIsBlank(WriteBits(t, 27, ToInt16(f.pinValue), n), t, 27 + n);
    if f.pinState != 7 && !HidesType(f) {
      EntryStarts(EntryAnswer(f), f);
    }
  }

  lemma TailIsBlank(a: seq<bool>, t: seq<bool>, lo: nat)
    requires |a| == |t| && lo <= |t| && a[lo..] == t[lo..] && 27 <= lo && Blank(t, 27, |t|)
    ensures Blank(a, lo, |a|)
  {
    forall i | lo <= i < |a|
      ensures !a[i]
    {
      assert a[lo..][i - lo] == t[lo..][i - lo];
    }
  }

  lemma EntryStarts(a: seq<bool>, f: PinFailsafe)
    requires f.pinState != 7 && 24 + Width(f) <= |a| && a[24..24 + Width(f)] == EncPin(f)
    ensures 27 <= |a| && a[24..27] == Enc(f.pinState, 3)
  {
    hide Enc;
    StreamSplits(a, 24, Enc(f.pinState, 3), Enc(f.pinValue, GetTypeBitsNb(f.pinState)));
  }

  lemma EntryReplyBits(f: PinFailsafe, id: uint8, timeout: uint16)
    requires Storable(f)
    ensures var r, n := EntryReply(f, id, timeout), GetTypeBitsNb(f.pinState);
      && 27 + n <= |r| && r[0..8] == Enc(id, 8) && r[8..24] == Enc(timeout, 16)
      && r[24..27] == Enc(if f.pinState == 7 || HidesType(f) then 7 else f.pinState, 3)
      && r[27..27 + n] == Enc(f.pinValue, n) && Blank(r, 27 + n, |r|)
  {
    hide WriteBits, Enc, ToInt16, HidesType, Storable, EntryAnswer, StampId;
    var a, r, n := EntryAnswer(f), EntryReply(f, id, timeout), GetTypeBitsNb(f.pinState);
    EntryAnswerBits(f);
    FailsafeReplyLayout(a, id, timeout);
    SameTail(r, a, 24, 27);
    SameTail(r, a, 27, 27 + n);
    forall i | 27 + n <= i < |r|
      ensures !r[i]
    {
      TailAt(r, a, i);
    }
  }

  /** A type, a value and zeros, as one number. */
  lemma FieldsInOne(b: seq<bool>, off: nat, t: uint8, v: uint16, n: nat, zeros: nat)
    requires t < 8 && Fits(v, n) && off + 3 + n + zeros <= |b|
    requires b[off..off + 3] == Enc(t, 3) && b[off + 3..off + 3 + n] == Enc(v, n)
    requires Blank(b, off + 3 + n, off + 3 + n + zeros)
    ensures Dec(b[off..off + 3 + n + zeros]) == (t * Pow2(n) + v) * Pow2(zeros)
  {
    hide Enc, Dec, Low, Shl, Pow2;
    var s := b[off..off + 3 + n + zeros];
    assert b[off + 3 + n..off + 3 + n + zeros] == Zeros(zeros);
    assert s == (Enc(t, 3) + Enc(v, n)) + Zeros(zeros);
    DecConcat(Enc(t, 3) + Enc(v, n), Zeros(zeros));
    DecConcat(Enc(t, 3), Enc(v, n));
    ZerosDecode(zeros);
    DecEnc(t, 3);
    DecEnc(v, n);
    LowOfType(t);
    LowOfFitting(v, n);
    ShlIsProduct(t, n);
    ShlIsProduct(t * Pow2(n) + v, zeros);
  }

  /** Bytes as one number, the high byte first. */
  lemma BytesInOne(data: seq<uint8>, i: nat)
    ensures i < |data| ==> Dec(Bits(data)[8 * i..8 * i + 8]) == data[i]
    ensures i + 1 < |data| ==> Dec(Bits(data)[8 * i..8 * i + 16]) == 0x100 * (data[i] as int) + data[i + 1]
    ensures i + 2 < |data| ==>
      Dec(Bits(data)[8 * i..8 * i + 24]) == 0x1_0000 * (data[i] as int) + 0x100 * data[i + 1] as int + data[i + 2]
  {
    hide Bits, Enc, Dec, Low, Shl, Pow2;
    var b := Bits(data);
    Pow2Values();
    if i < |data| {
      ByteDecodes(data, i);
    }
    if i + 1 < |data| {
      ByteDecodes(data, i + 1);
      assert b[8 * i..8 * i + 16] == b[8 * i..8 * i + 8] + b[8 * (i + 1)..8 * (i + 1) + 8];
      DecConcat(b[8 * i..8 * i + 8], b[8 * (i + 1)..8 * (i + 1) + 8]);
      ShlIsProduct(data[i], 8);
    }
    if i + 2 < |data| {
      ByteDecodes(data, i + 2);
      assert b[8 * i..8 * i + 24] == b[8 * i..8 * i + 16] + b[8 * (i + 2)..8 * (i + 2) + 8];
      DecConcat(b[8 * i..8 * i + 16], b[8 * (i + 2)..8 * (i + 2) + 8]);
      ShlIsProduct(Dec(b[8 * i..8 * i + 16]), 8);
    }
  }

  lemma ByteDecodes(data: seq<uint8>, i: nat)
    requires i < |data|
    ensures Dec(Bits(data)[8 * i..8 * i + 8]) == data[i]
  {
    hide Bits, Enc, Dec, Low;
    BitsOfByte(data, i);
    DecEnc(data[i], 8);
    LowOfByte(data[i]);
  }

  lemma SplitInTwo(t: uint8, v: uint8, hi: uint8, lo: uint8)
    requires t < 8 && 0x100 * (hi as int) + lo == (t * 0x100 + v) * 0x20
    ensures hi == 0x20 * t + v / 8 && lo == 0x20 * (v % 8)
  {
    DivModUnique(0x100 * (hi as int) + lo, 0x100, 0x20 * t as int + v / 8, 0x20 * (v % 8) as int);
    DivModUnique(0x100 * (hi as int) + lo, 0x100, hi, lo);
  }

  lemma SplitInThree(t: uint8, v: uint16, hi: uint8, mid: uint8, lo: uint8)
    requires t < 8 && 0x1_0000 * (hi as int) + 0x100 * mid as int + lo == (t * 0x1_0000 + v) * 0x20
    ensures hi == 0x20 * t + v / 0x800 && mid == v / 8 % 0x100 && lo == 0x20 * (v % 8)
  {
    var q := v / 8;
    DivModUnique(v, 0x800, q / 0x100, 8 * (q % 0x100) + v % 8);
    DivModUnique(0x100 * (0x100 * (hi as int) + mid) + lo, 0x100, 0x100 * (hi as int) + mid, lo);
    DivModUnique(0x100 * (0x100 * (hi as int) + mid) + lo, 0x100, 0x2000 * t as int + q, 0x20 * (v % 8) as int);
    DivModUnique(0x100 * (hi as int) + mid, 0x100, hi, mid);
    DivModUnique(0x100 * (hi as int) + mid, 0x100, 0x20 * t as int + q / 0x100, q % 0x100);
  }

  /** The bytes from a type of 3 bits on, with its value and zeros behind it. */
  lemma EntryBytes(data: seq<uint8>, i: nat, t: uint8, v: uint16, n: nat)
    requires t < 8 && (n == 0 || n == 1 || n == 8 || n == 16) && Fits(v, n)
    requires i + (if n == 16 then 3 else if n == 8 then 2 else 1) == |data|
    requires Bits(data)[8 * i..8 * i + 3] == Enc(t, 3) && Bits(data)[8 * i + 3..8 * i + 3 + n] == Enc(v, n)
    requires Blank(Bits(data), 8 * i + 3 + n, 8 * |data|)
    ensures data[i..] ==
      if n == 0 then [0x20 * t]
      else if n == 1 then [0x20 * t + 0x10 * v]
      else if n == 8 then [0x20 * t + v / 8, 0x20 * (v % 8)]
      else [0x20 * t + v / 0x800, v / 8 % 0x100, 0x20 * (v % 8)]
  {
    hide Bits, Enc, Dec, Pow2;
    FieldsInOne(Bits(data), 8 * i, t, v, n, if n < 2 then 5 - n else 5);
    BytesInOne(data, i);
    Pow2Values();
    PowersOfTwo();
    if n == 8 {
      SplitInTwo(t, v, data[i], data[i + 1]);
    } else if n == 16 {
      SplitInThree(t, v, data[i], data[i + 1], data[i + 2]);
    }
  }

  lemma EntryReplyData(d: Device, pin: uint8)
    requires d.conn.Ok() && pin < |d.conn.types| == |d.conn.failsafe| && Storable(d.conn.failsafe[pin])
    ensures Sound(GetFailsafe(pin))
    ensures var m := Request(GetFailsafe(pin));
      && Serviceable(d, m) && ReplyTo(d, m).header == 0x60
      && Bits(ReplyTo(d, m).data) == EntryReply(d.conn.failsafe[pin], d.nextId, d.conn.timeout)
  {
    hide Serviceable, StateAfter, ReplyData, Bits, EntryReply, Request, Storable;
    var call := GetFailsafe(pin);
    GetFailsafeServed(d, pin);
    ReplyHeaderIs(d, Request(call));
    HeaderIs(call);
    StartsWithHeader(call);
  }

  /** A reply with one entry; the type is 7 for a disabled pin and where a 16-bit value is 0x8000 or more. */
  lemma EntryData(data: seq<uint8>, f: PinFailsafe, id: uint8, timeout: uint16)
    requires Storable(f) && Bits(data) == EntryReply(f, id, timeout)
    ensures var s, v := f.pinState, f.pinValue; var wide := s == 2 || s == 4;
      var t: uint8 := if wide && v >= 0x8000 then 7 else s;
      t < 8 && data == [id, timeout / 0x100, timeout % 0x100] +
        if wide then [0x20 * t + v / 0x800, v / 8 % 0x100, 0x20 * (v % 8)]
        else if s == 1 || s == 3 then [0x20 * s + v / 8, 0x20 * (v % 8)]
        else if s == 0 then [0x10 * v]
        else [0xE0]
  {
    hide Bits, Enc, Blank, Fits, EntryReply;
    var n := GetTypeBitsNb(f.pinState);
    var v: uint16 := if f.pinState == 7 then 0 else f.pinValue;
    EntryWidth(f);
    EntryReplyBits(f, id, timeout);
    EntrySize(data, f, id, timeout);
    ByteIs(data, 0, id);
    WordIs(data, 1, timeout);
    EntryBytes(data, 3, if f.pinState == 7 || HidesType(f) then 7 else f.pinState, v, n);
    assert data == data[..3] + data[3..];
  }

  lemma EntryWidth(f: PinFailsafe)
    requires Storable(f)
    ensures f.pinState < 8 && (f.pinState == 7 || f.pinState <= 4)
    ensures GetTypeBitsNb(f.pinState) == match f.pinState
      case 0 => 1
      case 1 => 8
      case 3 => 8
      case 7 => 0
      case _ => 16
    ensures var v: uint16 := if f.pinState == 7 then 0 else f.pinValue;
      && Fits(v, GetTypeBitsNb(f.pinState)) && (f.pinState == 0 ==> v < 2)
      && Enc(v, GetTypeBitsNb(f.pinState)) == Enc(f.pinValue, GetTypeBitsNb(f.pinState))
  {
    hide Pow2;
    Widths(f.pinState);
    Pow2Values();
  }

  lemma EntrySize(data: seq<uint8>, f: PinFailsafe, id: uint8, timeout: uint16)
    requires Bits(data) == EntryReply(f, id, timeout)
    ensures |data| == 3 + (3 + GetTypeBitsNb(f.pinState) as int + 7) / 8
  {
    hide EntryReply, Bits;
  }

  /** The reply to `get_failsafe`: the identifier, the timeout, the type in 3 bits and the value behind it. */
  lemma EntryReplyBytes(d: Device, pin: uint8)
    requires d.conn.Ok() && pin < |d.conn.types| == |d.conn.failsafe| && Storable(d.conn.failsafe[pin])
    ensures Serviceable(d, Request(GetFailsafe(pin))) && ReplyTo(d, Request(GetFailsafe(pin))).header == 0x60
    ensures var s, v, timeout := d.conn.failsafe[pin].pinState, d.conn.failsafe[pin].pinValue, d.conn.timeout;
      var wide := s == 2 || s == 4;
      var t: uint8 := if wide && v >= 0x8000 then 7 else s;
      t < 8 && ReplyTo(d, Request(GetFailsafe(pin))).data == [d.nextId, timeout / 0x100, timeout % 0x100] +
        if wide then [0x20 * t + v / 0x800, v / 8 % 0x100, 0x20 * (v % 8)]
        else if s == 1 || s == 3 then [0x20 * s + v / 8, 0x20 * (v % 8)]
        else if s == 0 then [0x10 * v]
        else [0xE0]
  {
    hide *;
    EntryReplyData(d, pin);
    EntryData(ReplyTo(d, Request(GetFailsafe(pin))).data, d.conn.failsafe[pin], d.nextId, d.conn.timeout);
  }

  lemma StreamReplyBits(sub: seq<PinFailsafe>, id: uint8, timeout: uint16)
    requires AllSendable(sub) && TableSpillFree(24, sub)
    ensures var r := StreamReply(sub, id, timeout);
      && 24 + |EncFailsafe(sub)| <= |r| && r[0..8] == Enc(id, 8) && r[8..24] == Enc(timeout, 16)
      && r[24..24 + |EncFailsafe(sub)|] == EncFailsafe(sub)
  {
    hide WriteTable, WriteBits, StampId, Enc, EncFailsafe, AllSendable, TableSpillFree, ToInt16;
    var z := Zeros(8 * (3 + Bits2Bytes(NbBits(sub))));
    StreamStaysInReply(sub);
    WriteTableExact(z, 24, sub);
    SpliceParts(z, 24, EncFailsafe(sub));
    var a, r := TableAnswer(sub), StreamReply(sub, id, timeout);
    forall i | 8 <= i < 24
      ensures !a[i]
    {
      TableFrame(z, 24, sub, i);
    }
    FailsafeReplyLayout(a, id, timeout);
    SameTail(r, a, 24, 24 + |EncFailsafe(sub)|);
  }

  lemma StreamReplyData(d: Device, mask: seq<bool>)
    requires d.conn.Ok() && Sound(GetFailsafeMask(mask)) && |mask| == |d.conn.types| == |d.conn.failsafe|
    requires var sub := Gather(d.conn.failsafe, mask);
      AllSendable(sub) && 3 + Bits2Bytes(NbBits(sub)) < 0x100
    ensures var m, sub := Request(GetFailsafeMask(mask)), Gather(d.conn.failsafe, mask);
      && Serviceable(d, m) && ReplyTo(d, m).header == 0x60
      && Bits(ReplyTo(d, m).data) == StreamReply(sub, d.nextId, d.conn.timeout)
  {
    hide Serviceable, StateAfter, ReplyData, Bits, StreamReply, Request, Gather, AllSendable, NbBits, Rank;
    var call := GetFailsafeMask(mask);
    MaskedGetFailsafeServed(d, mask);
    ReplyHeaderIs(d, Request(call));
    HeaderIs(call);
    StartsWithHeader(call);
  }

  /**
   The reply to a masked request for failsafes: identifier, timeout, and the stream of the selected
   pins, as long as no value spills.
   */
  lemma StreamReplyBytes(d: Device, mask: seq<bool>)
    requires d.conn.Ok() && Sound(GetFailsafeMask(mask)) && |mask| == |d.conn.types| == |d.conn.failsafe|
    requires var sub := Gather(d.conn.failsafe, mask);
      AllSendable(sub) && TableSpillFree(24, sub) && 3 + Bits2Bytes(NbBits(sub)) < 0x100
    ensures Serviceable(d, Request(GetFailsafeMask(mask)))
    ensures var r, stream := ReplyTo(d, Request(GetFailsafeMask(mask))), EncFailsafe(Gather(d.conn.failsafe, mask));
      && r.header == 0x60 && 24 + |stream| <= 8 * |r.data|
      && r.data[..3] == [d.nextId, d.conn.timeout / 0x100, d.conn.timeout % 0x100]
      && Bits(r.data)[24..24 + |stream|] == stream
  {
    hide Serviceable, ReplyTo, Sound, Bits, Enc, StreamReply, EncFailsafe, Request, Gather, AllSendable, TableSpillFree,
      NbBits;
    StreamReplyData(d, mask);
    StreamReplyBits(Gather(d.conn.failsafe, mask), d.nextId, d.conn.timeout);
    var data := ReplyTo(d, Request(GetFailsafeMask(mask))).data;
    ByteIs(data, 0, d.nextId);
    WordIs(data, 1, d.conn.timeout);
  }

  /** One entry of a stream: its type in 3 bits and its value; nothing for a disabled pin. */
  lemma StreamInBits(pins: seq<PinFailsafe>)
    ensures EncFailsafe([]) == []
    ensures pins != [] ==> var f := pins[0];
      EncFailsafe(pins) == (
        if f.pinState == 7 then []
        else if f.pinState == 0 then Enc(0, 3) + Enc(f.pinValue, 1)
        else if f.pinState == 1 || f.pinState == 3 then Enc(f.pinState, 3) + Enc(f.pinValue, 8)
        else if f.pinState == 2 || f.pinState == 4 then Enc(f.pinState, 3) + Enc(f.pinValue, 16)
        else Enc(f.pinState, 3)) + EncFailsafe(pins[1..])
  {
    hide Enc;
  }
}
