/** Each call of the driver, from the request bytes to the reply bytes: what both peers hold afterwards. */
module Exchanges {
  import opened Words
  import opened BitStrings
  import opened BitUtils
  import opened BitFields
  import opened ValueLists
  import opened Spills
  import opened Masks
  import opened Protocol
  import opened Failsafes
  import opened TableSpills
  import opened Connections
  import opened FirmwareSteps
  import opened DriverCalls
  import opened Layouts
  import opened Decodings

  /** Both peers know the same pins, and the device holds what its handlers can send. */
  predicate Ready(sys: System) {
    var s := sys.device.conn;
    && sys.mirror.Ok() && s.Ok() && sys.mirror.NbPins() == s.NbPins()
    && (forall p :: 0 <= p < |s.types| ==> s.types[p] < 8)
    && AllStorable(s.failsafe)
  }

  /** A whole packet as the other peer receives it. */
  function Delivered(m: Message): (r: Message)
    requires m.Sized() && |m.Wire()| <= BUFF_SIZE
    ensures r == m
  {
    ReceivedWire(m);
    Parse(Received(m.Wire()))
  }

  /** The call goes through: every buffer is large enough and every pin exists. */
  predicate Carried(call: Call, sys: System)
    requires Sound(call)
  {
    && Serviceable(sys.device, Request(call))
    && Addresses(call, sys.mirror)
    && ReplyOk(call, Bits(ReplyData(sys.device, Request(call))))
  }

  function DeviceAfter(call: Call, sys: System): (s: Conn)
    requires Sound(call) && Carried(call, sys)
    ensures s.Ok() && s.NbPins() == sys.device.conn.NbPins()
  {
    StateAfter(sys.device, Request(call))
  }

  /** The bits that the driver reads its answer from. */
  function ReplyBits(call: Call, sys: System): seq<bool>
    requires Sound(call) && Carried(call, sys)
  {
    Bits(ReplyData(sys.device, Request(call)))
  }

  function MirrorOf(call: Call, sys: System): (s: Conn)
    requires Sound(call) && Carried(call, sys)
    ensures s.Ok() && s.NbPins() == sys.mirror.NbPins()
  {
    MirrorAfter(call, sys.mirror, ReplyBits(call, sys))
  }

  lemma Assemble(call: Call, sys: System, s': Conn, r: seq<bool>)
    requires Sound(call) && Serviceable(sys.device, Request(call)) && Addresses(call, sys.mirror) && ReplyOk(call, r)
    requires StateAfter(sys.device, Request(call)) == s' && Bits(ReplyData(sys.device, Request(call))) == r
    ensures Carried(call, sys) && DeviceAfter(call, sys) == s' && ReplyBits(call, sys) == r
    ensures MirrorOf(call, sys) == MirrorAfter(call, sys.mirror, r)
  {
  }

  /** What the firmware finds in a request. */
  lemma RequestParts(call: Call, cmd: uint8, mode: uint8, flag: uint8)
    requires Sound(call) && Typed(mode) && cmd <= CMD_SET_FAILSAFE && flag < 2
    requires RequestHeader(call) == HeaderOf(cmd, ToUInt8(2 * (mode as int) + flag))
    ensures var m := Request(call);
      && m.Sized() && Valid(m) && Bits(m.data) == RequestBits(call)
      && CmdOf(m.header) == cmd && UsesMask(m.header) == (flag == USE_MASK)
      && TypeOf(m.header) == mode <= PIN_TYPE_PWM16 && ValueBits(m.header) == GetTypeBitsNb(mode)
  {
    hide Valid, RequestBits, Pack, Bits, GetTypeBitsNb, RequestHeader, HeaderOf, TypeOf, UsesMask, CmdOf, ToUInt8;
    HeaderParts(cmd, mode, flag);
  }

  lemma HeaderParts(cmd: uint8, mode: uint8, flag: uint8)
    requires cmd < 0x10 && mode < 8 && flag < 2
    ensures var h := HeaderOf(cmd, ToUInt8(2 * (mode as int) + flag));
      CmdOf(h) == cmd && UsesMask(h) == (flag == USE_MASK) && TypeOf(h) == mode
  {
    var param := 2 * (mode as int) + flag;
    var h := HeaderOf(cmd, ToUInt8(param));
    assert h == 0x10 * (cmd as int) + param;
    DivModUnique(h, 0x10, cmd, param);
    DivModUnique(h, 2, 8 * (cmd as int) + mode, flag);
    DivModUnique(param, 2, mode, flag);
  }

  /** The facts that a masked call starts from. */
  lemma MaskedFacts(sys: System, call: Call)
    requires Ready(sys) && Safe(call, sys.device.conn)
    requires call.ReadValueMask? || call.WriteValueMask? || call.GetTypeMask? || call.SetTypeMask?
      || call.GetFailsafeMask? || call.SetFailsafeMask?
    ensures Sound(call) && sys.device.conn.Ok() && Addresses(call, sys.mirror)
    ensures |call.mask| == sys.device.conn.NbPins() == |sys.device.conn.types| < 0x100
  {
    hide FoundFits, AllStorable, Readable, NbBits, Gather, Rank;
  }

  lemma PinFacts(sys: System, call: Call)
    requires Ready(sys) && Safe(call, sys.device.conn)
    requires call.GenericRead? || call.GenericWrite? || call.GetType? || call.SetType? || call.GetFailsafe?
      || call.SetFailsafe?
    ensures Sound(call) && sys.device.conn.Ok() && Addresses(call, sys.mirror)
    ensures call.pin < sys.device.conn.NbPins() == |sys.device.conn.types|
  {
  }

  // ---- reading values ----

  lemma ReadServed(d: Device, pin: uint8, mode: uint8)
    requires d.conn.Ok() && Typed(mode) && pin < d.conn.NbPins()
    ensures var m, n := Request(GenericRead(pin, mode)), GetTypeBitsNb(mode);
      && Serviceable(d, m) && StateAfter(d, m) == d.conn
      && Bits(ReplyData(d, m)) == ValueReply(d.conn.vals[pin], n, d.nextId)
  {
    var call := GenericRead(pin, mode);
    assert RequestBits(call) == PinRequest(pin);
    RequestParts(call, CMD_READ, mode, USE_PIN_ID);
    PinRequestLayout(pin);
    hide *;
    SingleRead(d.conn, Request(call).header, PinRequest(pin), pin, d.nextId);
    ServesRead(d, Request(call));
  }

  lemma GenericReadExchange(sys: System, pin: uint8, mode: uint8)
    requires Ready(sys) && Safe(GenericRead(pin, mode), sys.device.conn)
    ensures var call, n := GenericRead(pin, mode), GetTypeBitsNb(mode);
      && Carried(call, sys)
      && DeviceAfter(call, sys) == sys.device.conn
      && MirrorOf(call, sys) == sys.mirror.(vals := sys.mirror.vals[pin := Truncated(sys.device.conn.vals[pin], n)])
  {
    hide *;
    var call, n := GenericRead(pin, mode), GetTypeBitsNb(mode);
    PinFacts(sys, call);
    ReadFacts(sys, pin, mode);
    ReadServed(sys.device, pin, mode);
    ValueIsRead(sys.device.conn.vals[pin], mode, sys.device.nextId);
    MirrorsValue(sys.mirror, pin, mode, ValueReply(sys.device.conn.vals[pin], n, sys.device.nextId));
    Assemble(call, sys, sys.device.conn, Bits(ReplyData(sys.device, Request(call))));
  }

  lemma ReadFacts(sys: System, pin: uint8, mode: uint8)
    requires Ready(sys) && Safe(GenericRead(pin, mode), sys.device.conn)
    ensures Typed(mode) && GetTypeBitsNb(mode) <= 16 && pin < |sys.device.conn.vals| == |sys.mirror.vals|
  {
    hide AllStorable;
  }

  /** A value of one of the five types, behind the identifier of a reply, is read modulo 2^n. */
  lemma ValueIsRead(v: uint16, mode: uint8, id: uint8)
    requires Typed(mode)
    ensures var r, n := ValueReply(v, GetTypeBitsNb(mode), id), GetTypeBitsNb(mode);
      8 + n <= |r| && n <= 16 && ToUInt16(ReadBits(r, 8, n)) == Truncated(v, n)
  {
    hide ReadBits, Truncated, ToInt16, Enc, Transported, WriteBits, StampId;
    var n := GetTypeBitsNb(mode);
    ValueReplyLayout(Bits2Bytes(8 + n), ToInt16(v), n, id);
    EncConversions(v, n);
    ReadIsTransported(ValueReply(v, n, id), 8, n, v);
    TransportedLow(8, n, v);
  }

  lemma MirrorsValue(s: Conn, pin: uint8, mode: uint8, r: seq<bool>)
    requires var call := GenericRead(pin, mode);
      Sound(call) && Addresses(call, s) && 8 + GetTypeBitsNb(mode) <= |r|
    ensures var call := GenericRead(pin, mode);
      && ReplyOk(call, r) && pin < |s.vals|
      && MirrorAfter(call, s, r) == s.(vals := s.vals[pin := ToUInt16(ReadBits(r, 8, GetTypeBitsNb(mode)))])
  {
    hide ReadBits;
  }

  lemma MaskedReadServed(d: Device, mask: seq<bool>, mode: uint8)
    requires d.conn.Ok() && Typed(mode) && 0 < |mask| == d.conn.NbPins()
    ensures var m, n, values := Request(ReadValueMask(mask, mode)), GetTypeBitsNb(mode), Gather(d.conn.vals, mask);
      && Serviceable(d, m) && StateAfter(d, m) == d.conn
      && Bits(ReplyData(d, m)) == ValuesReply(values, n, d.nextId)
  {
    var call, bytes := ReadValueMask(mask, mode), Bits2Bytes(|mask|);
    assert RequestBits(call) == MaskRequest(mask, bytes);
    RequestParts(call, CMD_READ, mode, USE_MASK);
    assert |mask| <= 8 * bytes <= 4352;
    hide *;
    MaskRequestLayout(mask, bytes);
    MaskedRead(d.conn, Request(call).header, MaskRequest(mask, bytes), mask, d.nextId);
    ServesRead(d, Request(call));
  }

  /** The values that the driver reads for the pins of a mask. */
  function ReadBack(s: Conn, mask: seq<bool>, n: nat): (r: seq<uint16>)
    requires s.Ok() && |mask| == s.NbPins()
    ensures |r| == CountOn(mask)
  {
    Arrived(8, Gather(s.vals, mask), n)
  }

  lemma ReadValueMaskCarried(sys: System, mask: seq<bool>, mode: uint8)
    requires Ready(sys) && Safe(ReadValueMask(mask, mode), sys.device.conn)
    ensures var call, n, values := ReadValueMask(mask, mode), GetTypeBitsNb(mode), Gather(sys.device.conn.vals, mask);
      && Carried(call, sys) && DeviceAfter(call, sys) == sys.device.conn
      && 8 + Span(CountOn(mask), n) <= |ReplyBits(call, sys)|
      && MirrorOf(call, sys)
         == sys.mirror.(vals := Scatter(sys.mirror.vals, mask, ReadList(ReplyBits(call, sys), 8, CountOn(mask), n)))
      && ReplyBits(call, sys) == ValuesReply(values, n, sys.device.nextId)
  {
    var call := ReadValueMask(mask, mode);
    MaskedFacts(sys, call);
    hide Ready, Request, Serviceable, StateAfter, ReplyData, Carried, ReplyBits, MirrorOf, DeviceAfter;
    hide ValuesReply, ReadList, Bits, Gather, Scatter, Span, Rank;
    MaskedReadServed(sys.device, mask, mode);
    Assemble(call, sys, sys.device.conn, Bits(ReplyData(sys.device, Request(call))));
  }

  /** Each value that is read is the one of the device modulo 2^n, as long as no value behind it spills on it. */
  predicate ReadsModulo(r: seq<uint16>, values: seq<uint16>, n: nat)
    requires |r| == |values| && n <= 16
  {
    && (forall k :: 0 <= k < |values| ==> (r[k] == Truncated(values[k], n) <==> Spared(8, values, n, k)))
    && (n > 1 ==> forall k :: 0 <= k < |values| ==> r[k] == Truncated(values[k], n))
  }

  lemma ReadValueMaskExchange(sys: System, mask: seq<bool>, mode: uint8)
    requires Ready(sys) && Safe(ReadValueMask(mask, mode), sys.device.conn)
    ensures var call, n, s := ReadValueMask(mask, mode), GetTypeBitsNb(mode), sys.device.conn;
      && Carried(call, sys) && |mask| == s.NbPins() == |s.vals|
      && DeviceAfter(call, sys) == s
      && MirrorOf(call, sys) == sys.mirror.(vals := Scatter(sys.mirror.vals, mask, ReadBack(s, mask, n)))
      && ReadsModulo(ReadBack(s, mask, n), Gather(s.vals, mask), n)
  {
    var n, s := GetTypeBitsNb(mode), sys.device.conn;
    MaskedFacts(sys, ReadValueMask(mask, mode));
    assert |s.vals| == |mask| && Typed(mode) && ReadBack(s, mask, n) == Arrived(8, Gather(s.vals, mask), n);
    hide *;
    ReadValueMaskCarried(sys, mask, mode);
    ValuesReplyReads(Gather(s.vals, mask), n, sys.device.nextId);
    ArrivesModulo(Gather(s.vals, mask), mode);
  }

  lemma ValuesReplyReads(values: seq<uint16>, n: nat, id: uint8)
    ensures 8 + Span(|values|, n) <= |ValuesReply(values, n, id)|
    ensures ReadList(ValuesReply(values, n, id), 8, |values|, n) == Arrived(8, values, n)
  {
    hide WriteList, StampId, ReadList, Arrived, Span;
    ListReplyReads(Bits2Bytes(8 + Span(|values|, n)), values, n, id);
  }

  /** Values of one of the five types, from a byte boundary on. */
  lemma ArrivesModulo(values: seq<uint16>, mode: uint8)
    requires Typed(mode)
    ensures ReadsModulo(Arrived(8, values, GetTypeBitsNb(mode)), values, GetTypeBitsNb(mode))
  {
    hide Arrived, Spared, Truncated, Low, GetTypeBitsNb;
    var n := GetTypeBitsNb(mode);
    WidthIs(mode);
    if n > 1 {
      AlignedListIsSpillFree(8, values, n);
      SpillFreeSpares(8, values, n);
    }
    forall k | 0 <= k < |values|
      ensures Arrived(8, values, n)[k] == Truncated(values[k], n) <==> Spared(8, values, n, k)
    {
      if n == 1 {
        ArrivedLowIff(8, values, n, k);
      } else {
        SpanOfBytes(k, n);
        AddBytes(8, Span(k, n));
        ArrivedLowIff(8, values, n, k);
      }
    }
  }

  // ---- writing values ----

  lemma WriteServed(d: Device, pin: uint8, mode: uint8, val: int16)
    requires d.conn.Ok() && Typed(mode) && pin < d.conn.NbPins()
    ensures var m, n, s := Request(GenericWrite(pin, mode, val)), GetTypeBitsNb(mode), d.conn;
      && Serviceable(d, m) && ReplyData(d, m) == [d.nextId]
      && StateAfter(d, m) == PinWritten(s, pin, mode, Truncated(ToUInt16(val), n))
  {
    var call, n := GenericWrite(pin, mode, val), GetTypeBitsNb(mode);
    var b := ValueRequest(pin, val, n);
    assert RequestBits(call) == b;
    RequestParts(call, CMD_WRITE, mode, USE_PIN_ID);
    hide *;
    ValueRequestLayout(pin, val, n);
    EncOfWord(val, n);
    SingleWrite(d.conn, Request(call).header, b, pin, ToUInt16(val));
    ServesWrite(d, Request(call));
  }

  /** A single write truncates the value to the width of its type and sets the type of the pin. */
  lemma GenericWriteExchange(sys: System, pin: uint8, mode: uint8, val: int16)
    requires Ready(sys) && Safe(GenericWrite(pin, mode, val), sys.device.conn)
    ensures var call, n, s := GenericWrite(pin, mode, val), GetTypeBitsNb(mode), sys.device.conn;
      && Carried(call, sys)
      && DeviceAfter(call, sys) == PinWritten(s, pin, mode, Truncated(ToUInt16(val), n))
      && MirrorOf(call, sys) == sys.mirror.(vals := sys.mirror.vals[pin := ToUInt16(val)])
  {
    var call := GenericWrite(pin, mode, val);
    PinFacts(sys, call);
    hide Ready, Request, Serviceable, StateAfter, ReplyData, Carried, ReplyBits, MirrorOf, DeviceAfter, Bits, Truncated;
    WriteServed(sys.device, pin, mode, val);
    Assemble(call, sys, StateAfter(sys.device, Request(call)), Bits([sys.device.nextId]));
  }

  lemma MaskedWriteServed(d: Device, mask: seq<bool>, mode: uint8, values: seq<uint16>)
    requires d.conn.Ok() && Typed(mode) && |mask| == d.conn.NbPins() && Listed(mask, values)
    requires FoundFits(|mask|, mask, values, GetTypeBitsNb(mode))
    ensures var m, n, s := Request(WriteValueMask(mask, mode, values)), GetTypeBitsNb(mode), d.conn;
      && Serviceable(d, m) && ReplyData(d, m) == [d.nextId] && |s.vals| == |mask|
      && StateAfter(d, m) == s.(vals := Scatter(s.vals, MaskFound(|mask|, mask, values, n),
           Widened(LowBytes(ListReceived(|mask|, mask, values, n)))))
  {
    hide *;
    var call, n := WriteValueMask(mask, mode, values), GetTypeBitsNb(mode);
    WriteMaskParts(mask, mode, values);
    ListRequestHolds(mask, values, n);
    MaskedWrite(d.conn, Request(call).header, ListRequest(mask, values, n), MaskFound(|mask|, mask, values, n),
      ListReceived(|mask|, mask, values, n));
    ServesWrite(d, Request(call));
  }

  lemma WriteMaskParts(mask: seq<bool>, mode: uint8, values: seq<uint16>)
    requires Typed(mode) && Listed(mask, values)
    ensures Sound(WriteValueMask(mask, mode, values))
    ensures var m, n := Request(WriteValueMask(mask, mode, values)), GetTypeBitsNb(mode);
      && 1 <= n <= 16 && (n <= 8 || n == 16) && 0 < |mask| && |values| == CountOn(mask)
      && m.Sized() && Valid(m) && Bits(m.data) == ListRequest(mask, values, n)
      && CmdOf(m.header) == CMD_WRITE && UsesMask(m.header)
      && TypeOf(m.header) == mode <= PIN_TYPE_PWM16 && ValueBits(m.header) == n
  {
    hide Valid, ListRequest, Bits, Request, HeaderOf, CmdOf, UsesMask, TypeOf, ValueBits, Rank;
    RequestParts(WriteValueMask(mask, mode, values), CMD_WRITE, mode, USE_MASK);
  }

  /** Each value of a list is stored modulo 2^n and 256 exactly when the ones behind it spare its field. */
  lemma StoredModulo(off: nat, values: seq<uint16>, n: nat)
    requires 1 <= n <= 8 || n == 16
    ensures forall k :: 0 <= k < |values| ==>
      (ToUInt8(Arrived(off, values, n)[k]) == Low(values[k], if n < 8 then n else 8) <==> Spared(off, values, n, k))
  {
    hide Arrived, Spared, Low, ToUInt8;
    forall k | 0 <= k < |values|
      ensures ToUInt8(Arrived(off, values, n)[k]) == Low(values[k], if n < 8 then n else 8)
        <==> Spared(off, values, n, k)
    {
      ArrivedLowByteIff(off, values, n, k);
    }
  }

  /** A masked write goes through a `uint8_t`, along the mask that the device finds, and leaves the types alone. */
  lemma WriteValueMaskExchange(sys: System, mask: seq<bool>, mode: uint8, values: seq<uint16>)
    requires Ready(sys) && Safe(WriteValueMask(mask, mode, values), sys.device.conn)
    ensures var call, n, s := WriteValueMask(mask, mode, values), GetTypeBitsNb(mode), sys.device.conn;
      && Carried(call, sys)
      && DeviceAfter(call, sys) == s.(vals := Scatter(s.vals, MaskFound(|mask|, mask, values, n),
           Widened(LowBytes(ListReceived(|mask|, mask, values, n)))))
      && (forall k :: 0 <= k < |values| ==>
           (ToUInt8(Arrived(|mask|, values, n)[k]) == Low(values[k], if n < 8 then n else 8)
            <==> Spared(|mask|, values, n, k)))
      && MirrorOf(call, sys) == sys.mirror.(vals := Scatter(sys.mirror.vals, mask, values))
  {
    hide *;
    var call := WriteValueMask(mask, mode, values);
    MaskedFacts(sys, call);
    WriteMaskFacts(sys, mask, mode, values);
    WriteMaskParts(mask, mode, values);
    StoredModulo(|mask|, values, GetTypeBitsNb(mode));
    MaskedWriteServed(sys.device, mask, mode, values);
    MirrorsValues(sys.mirror, mask, mode, values, sys.device.nextId);
    Assemble(call, sys, StateAfter(sys.device, Request(call)), Bits([sys.device.nextId]));
  }

  lemma WriteMaskFacts(sys: System, mask: seq<bool>, mode: uint8, values: seq<uint16>)
    requires Ready(sys) && Safe(WriteValueMask(mask, mode, values), sys.device.conn)
    ensures Typed(mode) && Listed(mask, values) && |values| == CountOn(mask) && 0 < |mask|
    ensures |sys.mirror.vals| == |mask| == |sys.device.conn.vals|
    ensures FoundFits(|mask|, mask, values, GetTypeBitsNb(mode))
  {
    hide AllStorable, FoundFits, Rank;
  }

  lemma MirrorsValues(s: Conn, mask: seq<bool>, mode: uint8, values: seq<uint16>, id: uint8)
    requires var call := WriteValueMask(mask, mode, values);
      Sound(call) && Addresses(call, s) && |mask| == |s.vals| && |values| == CountOn(mask)
    ensures var call := WriteValueMask(mask, mode, values);
      && ReplyOk(call, Bits([id])) && MirrorAfter(call, s, Bits([id])) == s.(vals := Scatter(s.vals, mask, values))
  {
    hide Scatter, Rank;
  }

  lemma GetTypeServed(d: Device, pin: uint8)
    requires d.conn.Ok() && pin < d.conn.NbPins()
    ensures var m := Request(GetType(pin));
      && Serviceable(d, m) && StateAfter(d, m) == d.conn
      && Bits(ReplyData(d, m)) == TypeReply(d.conn.types[pin], d.nextId)
  {
    hide *;
    var call := GetType(pin);
    GetTypeParts(pin);
    PinRequestLayout(pin);
    SingleGetType(d.conn, Request(call).header, PinRequest(pin), pin, d.nextId);
    ServesGetType(d, Request(call));
  }

  lemma GetTypeParts(pin: uint8)
    ensures var call := GetType(pin); var m := Request(call);
      && Sound(call) && m.Sized() && Valid(m) && Bits(m.data) == PinRequest(pin) && 8 <= |PinRequest(pin)|
      && CmdOf(m.header) == CMD_GET_TYPE && !UsesMask(m.header)
  {
    hide Valid, PinRequest, Bits, Request, CmdOf, UsesMask;
    RequestParts(GetType(pin), CMD_GET_TYPE, 0, USE_PIN_ID);
  }

  lemma GetTypeExchange(sys: System, pin: uint8)
    requires Ready(sys) && Safe(GetType(pin), sys.device.conn)
    ensures var call := GetType(pin);
      && Carried(call, sys)
      && DeviceAfter(call, sys) == sys.device.conn
      && MirrorOf(call, sys) == sys.mirror.(types := sys.mirror.types[pin := sys.device.conn.types[pin]])
  {
    var call, t := GetType(pin), sys.device.conn.types[pin];
    PinFacts(sys, call);
    assert t < 8;
    hide Ready, Request, Serviceable, StateAfter, ReplyData, Carried, ReplyBits, MirrorOf, DeviceAfter;
    hide TypeReply, ReadBits, Bits, ToUInt8;
    GetTypeServed(sys.device, pin);
    TypeReplyReads(t, sys.device.nextId);
    Assemble(call, sys, sys.device.conn, Bits(ReplyData(sys.device, Request(call))));
  }

  lemma TypeReplyReads(t: uint8, id: uint8)
    requires t < 8
    ensures ToUInt8(ReadBits(TypeReply(t, id), 8, 3)) == t
  {
    hide WriteBits, StampId, ReadBits, Enc, Transported, Carries, SpillFree, ToUInt8, ToUInt16;
    var r := TypeReply(t, id);
    ValueReplyLayout(2, t, 3, id);
    ReadIsTransported(r, 8, 3, t);
    TransportedIff(8, 3, t);
    TypeIsSpillFree(8, t);
    ByteOfWord(ReadBits(r, 8, 3));
    ByteIsByte(t);
  }

  lemma ByteIsByte(t: uint8)
    ensures ToUInt8(t) == t
  {
  }

  /** Only the last pin of a request is missing, and the padding says that it is not used. */
  lemma GetTypeMaskLayout(mask: seq<bool>)
    requires 2 <= |mask| < 0x100 && (|mask| - 1) % 8 != 0
    ensures var b := MaskRequest(mask[..|mask| - 1], Bits2Bytes(|mask| - 1));
      |mask| <= |b| && b[0..|mask|] == Sent(mask)
  {
    hide MaskRequest;
    var last := |mask| - 1;
    var b := MaskRequest(mask[..last], Bits2Bytes(last));
    MaskRequestLayout(mask[..last], Bits2Bytes(last));
    assert b[0..|mask|] == b[0..last] + [b[last]];
    assert Sent(mask) == mask[..last] + [false];
  }

  lemma MaskedGetTypeServed(d: Device, mask: seq<bool>)
    requires d.conn.Ok() && 2 <= |mask| == d.conn.NbPins() && (|mask| - 1) % 8 != 0 && CountOn(Sent(mask)) > 0
    ensures var m, values := Request(GetTypeMask(mask)), Gather(Widened(d.conn.types), Sent(mask));
      && Serviceable(d, m) && StateAfter(d, m) == d.conn
      && Bits(ReplyData(d, m)) == TypesReply(values, d.nextId)
  {
    hide Request, Serviceable, StateAfter, ReplyData, Bits, Gather, TypesReply, MaskRequest, Widened, Rank, Sent,
      GetTypeOk, TypeAnswer, StampId, CmdOf, UsesMask, Bits2Bytes, Valid;
    GetTypeMaskParts(mask);
    GetTypeMaskLayout(mask);
    var call, last := GetTypeMask(mask), |mask| - 1;
    var b := MaskRequest(mask[..last], Bits2Bytes(last));
    MaskedGetType(d.conn, Request(call).header, b, Sent(mask), d.nextId);
    ServesGetType(d, Request(call));
  }

  lemma GetTypeMaskParts(mask: seq<bool>)
    requires Sound(GetTypeMask(mask))
    ensures var m, last := Request(GetTypeMask(mask)), |mask| - 1;
      && 0 < Bits2Bytes(last) <= 544
      && m.Sized() && Valid(m) && Bits(m.data) == MaskRequest(mask[..last], Bits2Bytes(last))
      && CmdOf(m.header) == CMD_GET_TYPE && UsesMask(m.header)
  {
    hide Valid, MaskRequest, Bits, Request, CmdOf, UsesMask, Rank;
    RequestParts(GetTypeMask(mask), CMD_GET_TYPE, 0, USE_MASK);
  }

  lemma TypesCarry(types: seq<uint8>, mask: seq<bool>)
    requires |types| == |mask| && forall p :: 0 <= p < |types| ==> types[p] < 8
    ensures ListSpillFree(8, Gather(Widened(types), mask), 3) && ListCarries(8, Gather(Widened(types), mask), 3)
  {
    var values := Gather(Widened(types), mask);
    PinsAreRanked(mask, |mask|);
    forall v | v in values
      ensures Fits(v, 3)
    {
      Pow2Values();
      var k :| 0 <= k < |values| && values[k] == v;
      assert values[k] == types[Pins(mask)[k]];
    }
    ListDomains(8, values, 3);
  }

  lemma LowBytesOfWidened(types: seq<uint8>, mask: seq<bool>)
    requires |types| == |mask|
    ensures LowBytes(Gather(Widened(types), mask)) == Gather(types, mask)
  {
    PinsAreRanked(mask, |mask|);
    var l := LowBytes(Gather(Widened(types), mask));
    forall k | 0 <= k < CountOn(mask)
      ensures l[k] == Gather(types, mask)[k]
    {
      assert Gather(Widened(types), mask)[k] == types[Pins(mask)[k]];
    }
  }

  /** The types as a driver sees them that asks for the last pin, too. */
  function Seen(types: seq<uint8>): (r: seq<uint8>)
    requires types != []
    ensures |r| == |types|
  {
    types[|types| - 1 := PIN_TYPE_DIGITAL]
  }

  lemma GetTypeMaskCarried(sys: System, mask: seq<bool>)
    requires Ready(sys) && Safe(GetTypeMask(mask), sys.device.conn)
    ensures var call, values := GetTypeMask(mask), Gather(Widened(sys.device.conn.types), Sent(mask));
      && Carried(call, sys) && DeviceAfter(call, sys) == sys.device.conn
      && 8 + Span(CountOn(mask), 3) <= |ReplyBits(call, sys)|
      && MirrorOf(call, sys)
         == sys.mirror.(types := Scatter(sys.mirror.types, mask,
              LowBytes(ReadList(ReplyBits(call, sys), 8, CountOn(mask), 3))))
      && ReplyBits(call, sys) == TypesReply(values, sys.device.nextId)
  {
    hide Ready, Safe, Sound, Request, Serviceable, StateAfter, ReplyData, Carried, ReplyBits, MirrorOf, DeviceAfter,
      Addresses, TypesReply, ReadList, Bits, Gather, Scatter, Span, Rank, Widened, LowBytes, Sent, RoomForLast,
      Bits2Bytes;
    var call := GetTypeMask(mask);
    MaskedFacts(sys, call);
    TypesFacts(sys, mask);
    MaskedGetTypeServed(sys.device, mask);
    TypesReplyRoomIff(mask);
    Assemble(call, sys, sys.device.conn, Bits(ReplyData(sys.device, Request(call))));
  }

  /** The last pin of a mask has the last rank. */
  lemma SentPins(mask: seq<bool>)
    requires mask != []
    ensures var last := |mask| - 1;
      && CountOn(mask) == CountOn(Sent(mask)) + (if mask[last] then 1 else 0)
      && Pins(mask) == Pins(Sent(mask)) + (if mask[last] then [last] else [])
  {
    SamePrefix(mask, Sent(mask), |mask| - 1);
  }

  /** k types leave room for one more in the last byte of a reply. */
  lemma RoomIff(k: nat)
    requires k > 0
    ensures 3 * k <= 8 * Bits2Bytes(3 * k)
    ensures 3 * k + 3 <= 8 * Bits2Bytes(3 * k) <==> RoomForLast(k)
  {
    var q, r := (3 * k - 1) / 8, (3 * k - 1) % 8;
    assert 3 * k - 1 == 8 * q + r;
    if r == 7 {
      DivModUnique(3 * k, 8, q + 1, 0);
    } else {
      DivModUnique(3 * k, 8, q, r + 1);
    }
  }

  /**
   What the driver reads is inside the reply exactly when it asks for no type that is not sent, or the
   padding has room for it.
   */
  lemma TypesReplyRoomIff(mask: seq<bool>)
    requires mask != [] && CountOn(Sent(mask)) > 0
    ensures var k := CountOn(Sent(mask));
      && Span(k, 3) > 0
      && (8 + Span(CountOn(mask), 3) <= 8 * (1 + Bits2Bytes(Span(k, 3))) <==> (mask[|mask| - 1] ==> RoomForLast(k)))
  {
    hide Rank, Sent, Span, RoomForLast, Bits2Bytes;
    SentPins(mask);
    SpanIsProduct(CountOn(Sent(mask)), 3);
    SpanIsProduct(CountOn(mask), 3);
    RoomIff(CountOn(Sent(mask)));
  }

  lemma GetTypeMaskExchange(sys: System, mask: seq<bool>)
    requires Ready(sys) && Safe(GetTypeMask(mask), sys.device.conn)
    ensures var call := GetTypeMask(mask);
      && Carried(call, sys) && |mask| == |sys.device.conn.types| > 0
      && DeviceAfter(call, sys) == sys.device.conn
      && MirrorOf(call, sys)
         == sys.mirror.(types := Scatter(sys.mirror.types, mask, Gather(Seen(sys.device.conn.types), mask)))
  {
    hide *;
    MaskedFacts(sys, GetTypeMask(mask));
    TypesFacts(sys, mask);
    GetTypeMaskCarried(sys, mask);
    TypesReplyReads(sys.device.conn.types, mask, sys.device.nextId);
  }

  lemma TypesFacts(sys: System, mask: seq<bool>)
    requires Ready(sys) && Safe(GetTypeMask(mask), sys.device.conn)
    ensures 2 <= |mask| == |sys.device.conn.types| && (|mask| - 1) % 8 != 0 && CountOn(Sent(mask)) > 0
    ensures mask[|mask| - 1] ==> RoomForLast(CountOn(Sent(mask)))
    ensures forall p :: 0 <= p < |sys.device.conn.types| ==> sys.device.conn.types[p] < 8
  {
    hide Sent, Rank, AllStorable;
  }

  /** The field of the last pin is read from the padding. */
  lemma PaddingRead(values: seq<uint16>, id: uint8)
    requires values != [] && 8 + Span(|values|, 3) + 3 <= 8 * (1 + Bits2Bytes(Span(|values|, 3)))
    ensures ReadField(TypesReply(values, id), 8, 3, |values|) == 0
  {
    hide WriteList, StampId, ReadBits, Span;
    var r, o := TypesReply(values, id), 8 + Span(|values|, 3);
    forall i | o <= i < o + 3
      ensures !r[i]
    {
      ListReplyPadding(1 + Bits2Bytes(Span(|values|, 3)), values, 3, id, i);
    }
    BlankRead(r, o, 3);
  }

  lemma GatherSeen(types: seq<uint8>, mask: seq<bool>)
    requires |types| == |mask| > 0
    ensures Gather(Widened(Seen(types)), mask)
         == Gather(Widened(types), Sent(mask)) + (if mask[|mask| - 1] then [0] else [])
  {
    hide Rank, PinsBelow;
    SentPins(mask);
    PinsAreRanked(mask, |mask|);
    PinsAreRanked(Sent(mask), |mask|);
    var g, h := Gather(Widened(Seen(types)), mask), Gather(Widened(types), Sent(mask));
    forall k | 0 <= k < |h|
      ensures g[k] == h[k]
    {
      assert Pins(mask)[k] == Pins(Sent(mask))[k];
      assert Sent(mask)[Pins(Sent(mask))[k]];
    }
  }

  lemma SentTypesRead(types: seq<uint8>, mask: seq<bool>, id: uint8)
    requires |types| == |mask| > 0 && CountOn(Sent(mask)) > 0 && forall p :: 0 <= p < |types| ==> types[p] < 8
    ensures var values := Gather(Widened(types), Sent(mask));
      && 8 + Span(|values|, 3) <= |TypesReply(values, id)|
      && ReadList(TypesReply(values, id), 8, |values|, 3) == values
  {
    hide WriteList, StampId, ReadList, ListSpillFree, ListCarries, Arrived, Span, Gather, Widened, Rank, Sent;
    var values := Gather(Widened(types), Sent(mask));
    TypesCarry(types, Sent(mask));
    FieldInside(0, |values|, 3);
    ListReplyReads(1 + Bits2Bytes(Span(|values|, 3)), values, 3, id);
    CarriedArrive(8, values, 3);
  }

  lemma CarriedArrive(off: nat, values: seq<uint16>, n: nat)
    requires 1 <= n <= 16 && ListSpillFree(off, values, n) && ListCarries(off, values, n)
    ensures Arrived(off, values, n) == values
  {
    hide Arrived, Spared, CarriesAt, ListSpillFree;
    SpillFreeSpares(off, values, n);
    forall k | 0 <= k < |values|
      ensures Arrived(off, values, n)[k] == values[k]
    {
      ArrivedIff(off, values, n, k);
    }
  }

  lemma TypesReplyReads(types: seq<uint8>, mask: seq<bool>, id: uint8)
    requires |types| == |mask| > 0 && CountOn(Sent(mask)) > 0 && forall p :: 0 <= p < |types| ==> types[p] < 8
    requires mask[|mask| - 1] ==> RoomForLast(CountOn(Sent(mask)))
    ensures var r := TypesReply(Gather(Widened(types), Sent(mask)), id);
      && 8 + Span(CountOn(mask), 3) <= |r|
      && ReadList(r, 8, CountOn(mask), 3) == Gather(Widened(Seen(types)), mask)
      && LowBytes(ReadList(r, 8, CountOn(mask), 3)) == Gather(Seen(types), mask)
  {
    hide TypesReply, ReadField, Gather, Widened, LowBytes, Rank, Sent, Seen, RoomForLast;
    var values := Gather(Widened(types), Sent(mask));
    SentPins(mask);
    TypesReplyRoomIff(mask);
    GatherSeen(types, mask);
    SentTypesRead(types, mask, id);
    LowBytesOfWidened(Seen(types), mask);
    if mask[|mask| - 1] {
      PaddingRead(values, id);
    }
  }

  lemma SetTypeServed(d: Device, pin: uint8, newType: uint8)
    requires d.conn.Ok() && pin < d.conn.NbPins()
    ensures var m, s := Request(SetType(pin, newType)), d.conn;
      && Serviceable(d, m) && ReplyData(d, m) == [d.nextId]
      && StateAfter(d, m) == s.(types := s.types[pin := newType % 8])
  {
    var call := SetType(pin, newType);
    var b := ValueRequest(pin, newType, 3);
    assert RequestBits(call) == b;
    RequestParts(call, CMD_SET_TYPE, 0, USE_PIN_ID);
    hide *;
    ValueRequestLayout(pin, newType, 3);
    SingleSetType(d.conn, Request(call).header, b, pin, newType);
    ServesSetType(d, Request(call));
  }

  lemma SetTypeExchange(sys: System, pin: uint8, newType: uint8)
    requires Ready(sys) && Safe(SetType(pin, newType), sys.device.conn)
    ensures var call, s := SetType(pin, newType), sys.device.conn;
      && Carried(call, sys)
      && DeviceAfter(call, sys) == s.(types := s.types[pin := newType % 8])
      && MirrorOf(call, sys) == sys.mirror.(types := sys.mirror.types[pin := newType])
  {
    var call := SetType(pin, newType);
    PinFacts(sys, call);
    hide Ready, Request, Serviceable, StateAfter, ReplyData, Carried, ReplyBits, MirrorOf, DeviceAfter, Bits;
    SetTypeServed(sys.device, pin, newType);
    Assemble(call, sys, StateAfter(sys.device, Request(call)), Bits([sys.device.nextId]));
  }

  lemma MaskedSetTypeServed(d: Device, mask: seq<bool>, newTypes: seq<uint16>)
    requires d.conn.Ok() && |mask| == d.conn.NbPins() && Listed(mask, newTypes) && FoundFits(|mask|, mask, newTypes, 3)
    ensures var m, s := Request(SetTypeMask(mask, newTypes)), d.conn;
      && Serviceable(d, m) && ReplyData(d, m) == [d.nextId] && |s.types| == |mask|
      && StateAfter(d, m) == s.(types := Scatter(s.types, MaskFound(|mask|, mask, newTypes, 3),
           LowBytes(ListReceived(|mask|, mask, newTypes, 3))))
  {
    assert PIN_TYPE_BITS_NB == 3;
    hide *;
    var call := SetTypeMask(mask, newTypes);
    SetTypeMaskParts(mask, newTypes);
    ListRequestHolds(mask, newTypes, 3);
    MaskedSetType(d.conn, Request(call).header, ListRequest(mask, newTypes, 3), MaskFound(|mask|, mask, newTypes, 3),
      ListReceived(|mask|, mask, newTypes, 3));
    ServesSetType(d, Request(call));
  }

  lemma SetTypeMaskParts(mask: seq<bool>, newTypes: seq<uint16>)
    requires Listed(mask, newTypes)
    ensures Sound(SetTypeMask(mask, newTypes))
    ensures var m := Request(SetTypeMask(mask, newTypes));
      && 0 < |mask| && |newTypes| == CountOn(mask)
      && m.Sized() && Valid(m) && Bits(m.data) == ListRequest(mask, newTypes, 3)
      && CmdOf(m.header) == CMD_SET_TYPE && UsesMask(m.header)
  {
    hide Valid, ListRequest, Bits, Request, HeaderOf, CmdOf, UsesMask, Rank;
    RequestParts(SetTypeMask(mask, newTypes), CMD_SET_TYPE, 0, USE_MASK);
  }

  lemma SetTypeMaskExchange(sys: System, mask: seq<bool>, newTypes: seq<uint16>)
    requires Ready(sys) && Safe(SetTypeMask(mask, newTypes), sys.device.conn)
    ensures var call, s := SetTypeMask(mask, newTypes), sys.device.conn;
      && Carried(call, sys)
      && DeviceAfter(call, sys) == s.(types := Scatter(s.types, MaskFound(|mask|, mask, newTypes, 3),
           LowBytes(ListReceived(|mask|, mask, newTypes, 3))))
      && (forall k :: 0 <= k < |newTypes| ==>
           (ToUInt8(Arrived(|mask|, newTypes, 3)[k]) == Low(newTypes[k], 3) <==> Spared(|mask|, newTypes, 3, k)))
      && MirrorOf(call, sys) == sys.mirror.(types := Scatter(sys.mirror.types, mask, LowBytes(newTypes)))
  {
    hide *;
    var call := SetTypeMask(mask, newTypes);
    MaskedFacts(sys, call);
    SetTypesFacts(sys, mask, newTypes);
    StoredModulo(|mask|, newTypes, 3);
    MaskedSetTypeServed(sys.device, mask, newTypes);
    MirrorsTypes(sys.mirror, mask, newTypes, sys.device.nextId);
    Assemble(call, sys, StateAfter(sys.device, Request(call)), Bits([sys.device.nextId]));
  }

  lemma SetTypesFacts(sys: System, mask: seq<bool>, types: seq<uint16>)
    requires Ready(sys) && Safe(SetTypeMask(mask, types), sys.device.conn)
    ensures Listed(mask, types) && |types| == CountOn(mask) && 0 < |mask|
    ensures |sys.mirror.types| == |mask| == |sys.device.conn.types|
    ensures FoundFits(|mask|, mask, types, 3)
  {
    hide AllStorable, FoundFits, Rank;
  }

  lemma MirrorsTypes(s: Conn, mask: seq<bool>, newTypes: seq<uint16>, id: uint8)
    requires var call := SetTypeMask(mask, newTypes);
      Sound(call) && Addresses(call, s) && |mask| == |s.types| && |newTypes| == CountOn(mask)
    ensures var call := SetTypeMask(mask, newTypes);
      && ReplyOk(call, Bits([id]))
      && MirrorAfter(call, s, Bits([id])) == s.(types := Scatter(s.types, mask, LowBytes(newTypes)))
  {
    hide Scatter, LowBytes, Rank;
  }

  // ---- failsafes ----

  lemma GetFailsafeServed(d: Device, pin: uint8)
    requires d.conn.Ok() && pin < d.conn.NbPins() && Storable(d.conn.failsafe[pin])
    ensures var m, f := Request(GetFailsafe(pin)), d.conn.failsafe[pin];
      && Serviceable(d, m) && StateAfter(d, m) == d.conn
      && Bits(ReplyData(d, m)) == EntryReply(f, d.nextId, d.conn.timeout)
      && EntryIsRead(Bits(ReplyData(d, m)), f)
  {
    var call, f := GetFailsafe(pin), d.conn.failsafe[pin];
    assert RequestBits(call) == PinRequest(pin) && Sendable(f);
    RequestParts(call, CMD_GET_FAILSAFE, 0, USE_PIN_ID);
    PinRequestLayout(pin);
    EntryReplyReads(f, d.nextId, d.conn.timeout);
    hide *;
    SingleGetFailsafe(d.conn, Request(call).header, PinRequest(pin), pin, d.nextId);
    ServesGetFailsafe(d, Request(call));
  }

  /**
   What the driver of one pin reads back: a disabled pin where a 16-bit value of 0x8000 or more
   hides the type, and otherwise the type, with the value unless it is a 16-bit value of 2048 or more.
   */
  lemma GetFailsafeExchange(sys: System, pin: uint8)
    requires Ready(sys) && Safe(GetFailsafe(pin), sys.device.conn)
    ensures var call := GetFailsafe(pin);
      && Carried(call, sys) && pin < |sys.device.conn.failsafe|
      && DeviceAfter(call, sys) == sys.device.conn && MirrorOf(call, sys) == sys.mirror
      && EntryIsRead(ReplyBits(call, sys), sys.device.conn.failsafe[pin])
  {
    var call := GetFailsafe(pin);
    PinFacts(sys, call);
    assert Storable(sys.device.conn.failsafe[pin]);
    hide Ready, Request, Serviceable, StateAfter, ReplyData, Carried, ReplyBits, MirrorOf, DeviceAfter, Bits;
    hide TypeAt, PinAt, Storable, HidesType;
    GetFailsafeServed(sys.device, pin);
    Assemble(call, sys, sys.device.conn, Bits(ReplyData(sys.device, Request(call))));
  }

  /** The reply to a masked request: the timeout at bit 8 and the stream of the selected pins from bit 24. */
  lemma MaskedGetFailsafeServed(d: Device, mask: seq<bool>)
    requires d.conn.Ok() && Sound(GetFailsafeMask(mask)) && |mask| == d.conn.NbPins()
    requires var sub := Gather(d.conn.failsafe, mask);
      AllSendable(sub) && 3 + Bits2Bytes(NbBits(sub)) < 0x100
    ensures var m, sub := Request(GetFailsafeMask(mask)), Gather(d.conn.failsafe, mask);
      && Serviceable(d, m) && StateAfter(d, m) == d.conn
      && Bits(ReplyData(d, m)) == StreamReply(sub, d.nextId, d.conn.timeout)
  {
    hide MaskRequest, Request, Serviceable, StateAfter, ReplyData, Bits, Gather, AllSendable, NbBits, Rank,
      GetFailsafeOk, FailsafeReply, StreamReply, CmdOf, UsesMask, Bits2Bytes;
    var call := GetFailsafeMask(mask);
    var bytes := Bits2Bytes(3 * CountOn(mask));
    GetFailsafeMaskParts(mask);
    MaskRequestLayout(mask, bytes);
    MaskedGetFailsafe(d.conn, Request(call).header, MaskRequest(mask, bytes), mask, d.nextId);
    ServesGetFailsafe(d, Request(call));
  }

  lemma GetFailsafeMaskParts(mask: seq<bool>)
    requires Sound(GetFailsafeMask(mask))
    ensures var m, bytes := Request(GetFailsafeMask(mask)), Bits2Bytes(3 * CountOn(mask));
      && 0 < bytes <= 544 && |mask| <= 8 * bytes
      && m.Sized() && Valid(m) && Bits(m.data) == MaskRequest(mask, bytes)
      && CmdOf(m.header) == CMD_GET_FAILSAFE && UsesMask(m.header)
  {
    hide Valid, MaskRequest, Bits, Request, CmdOf, UsesMask, Rank;
    RequestParts(GetFailsafeMask(mask), CMD_GET_FAILSAFE, 0, USE_MASK);
  }

  /** The stream of a reply is read as it was written, and comes back as said; the timeout always comes back. */
  lemma StreamReplyReads(sub: seq<PinFailsafe>, id: uint8, timeout: uint16)
    requires AllSendable(sub) && Readable(TableAnswer(sub), 24, |sub|)
    ensures var r := StreamReply(sub, id, timeout);
      && 24 <= |r| && Readable(r, 24, |sub|)
      && (ReadTable(r, 24, |sub|) == sub <==> NoneDisabled(sub) && TableCarries(24, sub))
      && EntriesReturn(ReadTable(r, 24, |sub|), 24, sub)
      && ToUInt16(ReadBits(r, 8, 16)) == timeout
  {
    hide EntriesReturn, WriteTable, WriteBits, ReadBits, StampId, Enc, EncFailsafe, AllSendable, NoneDisabled,
      TableCarries, Readable, ReadTable, ToInt16, Width;
    var z := Zeros(8 * (3 + Bits2Bytes(NbBits(sub))));
    var a, r := TableAnswer(sub), StreamReply(sub, id, timeout);
    forall i | 8 <= i < 24
      ensures !a[i]
    {
      TableFrame(z, 24, sub, i);
    }
    FailsafeReplyLayout(a, id, timeout);
    forall i | 24 <= i < |a|
      ensures r[i] == a[i]
    {
      TailAt(r, a, i);
    }
    SameReading(r, a, 24, |sub|);
    StreamStaysInReply(sub);
    StreamRoundTripIff(z, 24, sub);
    TableEntriesReturn(z, 24, sub);
    TimeoutFound(r, 8, timeout);
  }

  lemma TailAt(r: seq<bool>, a: seq<bool>, i: nat)
    requires 24 <= i < |a| == |r| && r[24..] == a[24..]
    ensures r[i] == a[i]
  {
    assert r[24..][i - 24] == a[24..][i - 24];
  }

  lemma GatheredSendable(pins: seq<PinFailsafe>, mask: seq<bool>)
    requires |pins| == |mask| && AllStorable(pins)
    ensures AllSendable(Gather(pins, mask))
  {
    PinsAreRanked(mask, |mask|);
    forall k | 0 <= k < CountOn(mask)
      ensures Sendable(Gather(pins, mask)[k])
    {
      assert Storable(pins[Pins(mask)[k]]);
    }
  }

  /**
   The whole table of the selected pins comes back exactly when none is disabled and every value
   survives its place; an entry that the reader reaches comes back exactly when the values spare it.
   */
  lemma GetFailsafeMaskExchange(sys: System, mask: seq<bool>)
    requires Ready(sys) && Safe(GetFailsafeMask(mask), sys.device.conn)
    ensures var call, sub := GetFailsafeMask(mask), Gather(sys.device.conn.failsafe, mask);
      && Carried(call, sys)
      && DeviceAfter(call, sys) == sys.device.conn
      && 24 <= |ReplyBits(call, sys)| && Readable(ReplyBits(call, sys), 24, |sub|)
      && MirrorOf(call, sys)
         == sys.mirror.(failsafe := Scatter(sys.mirror.failsafe, mask, ReadTable(ReplyBits(call, sys), 24, |sub|)))
      && (ReadTable(ReplyBits(call, sys), 24, |sub|) == sub <==> NoneDisabled(sub) && TableCarries(24, sub))
      && EntriesReturn(ReadTable(ReplyBits(call, sys), 24, |sub|), 24, sub)
      && ToUInt16(ReadBits(ReplyBits(call, sys), 8, 16)) == sys.device.conn.timeout
  {
    var call, sub := GetFailsafeMask(mask), Gather(sys.device.conn.failsafe, mask);
    MaskedFacts(sys, call);
    GatheredSendable(sys.device.conn.failsafe, mask);
    hide Ready, Request, Serviceable, StateAfter, ReplyData, Carried, ReplyBits, MirrorOf, DeviceAfter, Bits;
    hide Gather, Scatter, ReadTable, TableCarries, Readable, EncFailsafe, ReadBits, TableAnswer, StreamReply;
    hide AllSendable, NoneDisabled, EntriesReturn, Rank;
    MaskedGetFailsafeServed(sys.device, mask);
    StreamReplyReads(sub, sys.device.nextId, sys.device.conn.timeout);
    Assemble(call, sys, sys.device.conn, Bits(ReplyData(sys.device, Request(call))));
  }

  lemma SetFailsafeServed(d: Device, pin: uint8, timeout: uint16, f: PinFailsafe)
    requires d.conn.Ok() && pin < d.conn.NbPins() && Sound(SetFailsafe(pin, timeout, f))
    ensures var m, s, n := Request(SetFailsafe(pin, timeout, f)), d.conn, GetTypeBitsNb(f.pinState);
      && Serviceable(d, m) && ReplyData(d, m) == [d.nextId]
      && StateAfter(d, m) == s.(timeout := timeout,
           failsafe := s.failsafe[pin := PinFailsafe(f.pinState, Truncated(f.pinValue, n))])
  {
    var call, n, v := SetFailsafe(pin, timeout, f), GetTypeBitsNb(f.pinState), f.pinValue;
    var b := FailsafeRequest(timeout, pin, v, n);
    assert RequestBits(call) == b && (n == 8 || n == 16);
    RequestParts(call, CMD_SET_FAILSAFE, f.pinState, USE_PIN_ID);
    hide *;
    FailsafeRequestLayout(timeout, pin, v, n);
    SingleSetFailsafe(d.conn, Request(call).header, b, timeout, pin, v);
    ServesSetFailsafe(d, Request(call));
  }

  lemma SetFailsafeExchange(sys: System, pin: uint8, timeout: uint16, f: PinFailsafe)
    requires Ready(sys) && Safe(SetFailsafe(pin, timeout, f), sys.device.conn)
    ensures var call, s, n := SetFailsafe(pin, timeout, f), sys.device.conn, GetTypeBitsNb(f.pinState);
      && Carried(call, sys)
      && DeviceAfter(call, sys) == s.(timeout := timeout,
           failsafe := s.failsafe[pin := PinFailsafe(f.pinState, Truncated(f.pinValue, n))])
      && MirrorOf(call, sys) == sys.mirror.(timeout := timeout, failsafe := sys.mirror.failsafe[pin := f])
  {
    var call := SetFailsafe(pin, timeout, f);
    PinFacts(sys, call);
    hide Ready, Request, Serviceable, StateAfter, ReplyData, Carried, ReplyBits, MirrorOf, DeviceAfter, Bits, Truncated;
    SetFailsafeServed(sys.device, pin, timeout, f);
    Assemble(call, sys, StateAfter(sys.device, Request(call)), Bits([sys.device.nextId]));
  }

  lemma MaskedSetFailsafeServed(d: Device, mask: seq<bool>, mode: uint8, timeout: uint16, values: seq<uint16>)
    requires d.conn.Ok() && Typed(mode) && |mask| == d.conn.NbPins() && Listed(mask, values)
    requires FoundFits(16 + |mask|, mask, values, GetTypeBitsNb(mode))
    ensures var m, s, n := Request(SetFailsafeMask(mask, mode, timeout, values)), d.conn, GetTypeBitsNb(mode);
      && Serviceable(d, m) && ReplyData(d, m) == [d.nextId] && |s.failsafe| == |mask|
      && StateAfter(d, m) == s.(timeout := timeout,
           failsafe := Scatter(s.failsafe, MaskFound(16 + |mask|, mask, values, n),
             Entries(mode, ListReceived(16 + |mask|, mask, values, n))))
  {
    hide *;
    var call, n := SetFailsafeMask(mask, mode, timeout, values), GetTypeBitsNb(mode);
    SetFailsafeMaskParts(mask, mode, timeout, values);
    FailsafeListHolds(timeout, mask, values, n);
    MaskedSetFailsafe(d.conn, Request(call).header, FailsafeListRequest(timeout, mask, values, n), timeout,
      MaskFound(16 + |mask|, mask, values, n), ListReceived(16 + |mask|, mask, values, n));
    ServesSetFailsafe(d, Request(call));
  }

  lemma SetFailsafeMaskParts(mask: seq<bool>, mode: uint8, timeout: uint16, values: seq<uint16>)
    requires Typed(mode) && Listed(mask, values)
    ensures Sound(SetFailsafeMask(mask, mode, timeout, values))
    ensures var m, n := Request(SetFailsafeMask(mask, mode, timeout, values)), GetTypeBitsNb(mode);
      && 1 <= n <= 16 && 0 < |mask| && |values| == CountOn(mask)
      && m.Sized() && Valid(m) && Bits(m.data) == FailsafeListRequest(timeout, mask, values, n)
      && CmdOf(m.header) == CMD_SET_FAILSAFE && UsesMask(m.header)
      && TypeOf(m.header) == mode <= PIN_TYPE_PWM16 && ValueBits(m.header) == n
  {
    hide Valid, FailsafeListRequest, Bits, Request, HeaderOf, CmdOf, UsesMask, TypeOf, ValueBits, Rank;
    RequestParts(SetFailsafeMask(mask, mode, timeout, values), CMD_SET_FAILSAFE, mode, USE_MASK);
  }

  lemma SparedArrives(off: nat, values: seq<uint16>, n: nat, k: nat)
    requires n <= 16 && k < |values| && Spared(off, values, n, k)
    ensures Arrived(off, values, n)[k] == Transported(off + Span(k, n), n, values[k])
  {
    hide Arrived, Transported, Span, Spared, WriteList, ReadBits, Enc, ToUInt16;
    var z := Zeros(off + Span(|values|, n));
    ArrivedField(off, values, n, k);
    FieldHoldsIff(z, off, values, n, k);
    ReadIsTransported(WriteList(z, off, values, n), off + Span(k, n), n, values[k]);
  }

  /** A value that is read over three bytes keeps its low byte. */
  lemma TransportedByte(off: nat, n: nat, u: uint16)
    requires n <= 16 && 16 < off % 8 + n
    ensures ToUInt8(Transported(off, n, u)) == ToUInt8(u)
  {
    hide ReadBits, Enc, Low, ToUInt8, ToUInt16;
    var b := Zeros(off) + Enc(u, n);
    assert b[off..off + n] == Enc(u, n);
    LowByteIsRead(b, off, u, n);
    LowByteIs(ReadBits(b, off, n));
    LowByteIs(u);
  }

  /** A value arrives as a lone field would be read exactly when the later values spare it. */
  lemma ArrivedTransportedIff(off: nat, values: seq<uint16>, n: nat, k: nat)
    requires 1 <= n <= 16 && k < |values|
    ensures Arrived(off, values, n)[k] == Transported(off + Span(k, n), n, values[k]) <==> Spared(off, values, n, k)
  {
    hide Arrived, Transported, Span, Spared, Low, Fits, ToUInt8;
    var o := off + Span(k, n);
    if Spared(off, values, n, k) {
      SparedArrives(off, values, n, k);
    } else if Arrived(off, values, n)[k] == Transported(o, n, values[k]) {
      if o % 8 + n <= 16 {
        ArrivedLowIff(off, values, n, k);
        TransportedLow(o, n, values[k]);
      } else {
        TransportedByte(o, n, values[k]);
        ArrivedByteSpares(off, values, n, k);
      }
    }
  }

  /**
   Each value of a list is stored as its place transports it exactly when the ones behind it spare
   its field, and as it is exactly when moreover its place carries it.
   */
  lemma StoredTransported(off: nat, values: seq<uint16>, n: nat)
    requires 1 <= n <= 16
    ensures forall k :: 0 <= k < |values| ==>
      && (Arrived(off, values, n)[k] == Transported(off + Span(k, n), n, values[k]) <==> Spared(off, values, n, k))
      && (Arrived(off, values, n)[k] == values[k] <==> CarriesAt(off, values, n, k) && Spared(off, values, n, k))
  {
    hide Arrived, Transported, Spared, CarriesAt, Span;
    forall k | 0 <= k < |values|
      ensures Arrived(off, values, n)[k] == Transported(off + Span(k, n), n, values[k]) <==> Spared(off, values, n, k)
      ensures Arrived(off, values, n)[k] == values[k] <==> CarriesAt(off, values, n, k) && Spared(off, values, n, k)
    {
      ArrivedTransportedIff(off, values, n, k);
      ArrivedIff(off, values, n, k);
    }
  }

  lemma SetFailsafeMaskExchange(sys: System, mask: seq<bool>, mode: uint8, timeout: uint16, values: seq<uint16>)
    requires Ready(sys) && Safe(SetFailsafeMask(mask, mode, timeout, values), sys.device.conn)
    ensures var call, s, n := SetFailsafeMask(mask, mode, timeout, values), sys.device.conn, GetTypeBitsNb(mode);
      && Carried(call, sys)
      && DeviceAfter(call, sys) == s.(timeout := timeout,
           failsafe := Scatter(s.failsafe, MaskFound(16 + |mask|, mask, values, n),
             Entries(mode, ListReceived(16 + |mask|, mask, values, n))))
      && (forall k :: 0 <= k < |values| ==> var off := 16 + |mask|;
           && (Arrived(off, values, n)[k] == Transported(off + Span(k, n), n, values[k]) <==> Spared(off, values, n, k))
           && (Arrived(off, values, n)[k] == values[k] <==> CarriesAt(off, values, n, k) && Spared(off, values, n, k)))
      && MirrorOf(call, sys) == sys.mirror.(timeout := timeout,
           failsafe := Scatter(sys.mirror.failsafe, mask, Entries(mode, values)))
  {
    hide *;
    var call := SetFailsafeMask(mask, mode, timeout, values);
    MaskedFacts(sys, call);
    SetFailsafesFacts(sys, mask, mode, timeout, values);
    StoredTransported(16 + |mask|, values, GetTypeBitsNb(mode));
    MaskedSetFailsafeServed(sys.device, mask, mode, timeout, values);
    MirrorsEntries(sys.mirror, mask, mode, timeout, values, sys.device.nextId);
    Assemble(call, sys, StateAfter(sys.device, Request(call)), Bits([sys.device.nextId]));
  }

  lemma SetFailsafesFacts(sys: System, mask: seq<bool>, mode: uint8, timeout: uint16, values: seq<uint16>)
    requires Ready(sys) && Safe(SetFailsafeMask(mask, mode, timeout, values), sys.device.conn)
    ensures Typed(mode) && 1 <= GetTypeBitsNb(mode) <= 16 && Listed(mask, values) && |values| == CountOn(mask)
    ensures |mask| == sys.device.conn.NbPins() == |sys.device.conn.failsafe| == |sys.mirror.failsafe|
    ensures 0 < |mask| && FoundFits(16 + |mask|, mask, values, GetTypeBitsNb(mode))
  {
    hide AllStorable, FoundFits, Rank;
  }

  lemma MirrorsEntries(s: Conn, mask: seq<bool>, mode: uint8, timeout: uint16, values: seq<uint16>, id: uint8)
    requires var call := SetFailsafeMask(mask, mode, timeout, values);
      Sound(call) && Addresses(call, s) && |mask| == |s.failsafe| && |values| == CountOn(mask)
    ensures var call := SetFailsafeMask(mask, mode, timeout, values);
      && ReplyOk(call, Bits([id]))
      && MirrorAfter(call, s, Bits([id]))
         == s.(timeout := timeout, failsafe := Scatter(s.failsafe, mask, Entries(mode, values)))
  {
    hide Scatter, Entries, Rank;
  }

  // ---- the lists that the device can serve ----

  lemma FoundNeedsRoom(s: Conn, b: seq<bool>, off: nat, mask: seq<bool>, values: seq<uint16>, n: nat)
    requires |mask| == s.NbPins() && |values| == CountOn(mask) && FindsList(b, off, mask, values, n)
    requires NamesPins(s, b, off, n)
    ensures off + |mask| + Span(CountOn(MaskFound(off + |mask|, mask, values, n)), n) <= |b|
  {
    hide MaskFound, HoldsList, HoldsField, ListReceived, Spared, Span, CountOn, Rank;
  }

  lemma ServedNamesPins(d: Device, m: Message)
    requires Serviceable(d, m) && UsesMask(m.header)
    ensures CmdOf(m.header) == CMD_WRITE ==> NamesPins(d.conn, Bits(m.data), 0, ValueBits(m.header))
    ensures CmdOf(m.header) == CMD_SET_TYPE ==> NamesPins(d.conn, Bits(m.data), 0, PIN_TYPE_BITS_NB)
    ensures CmdOf(m.header) == CMD_SET_FAILSAFE ==> NamesPins(d.conn, Bits(m.data), 16, ValueBits(m.header))
  {
    hide NamesPins, Valid, Bits, ReadOk, GetTypeOk, GetFailsafeOk;
  }

  lemma ListRoom(mask: seq<bool>, values: seq<uint16>, n: nat)
    requires Listed(mask, values) && n <= 16
    requires |mask| + Span(CountOn(MaskFound(|mask|, mask, values, n)), n) <= |ListRequest(mask, values, n)|
    ensures FoundFits(|mask|, mask, values, n)
  {
    hide ListRequest, MaskFound, Span, CountOn, Rank;
  }

  lemma FailsafeListRoom(timeout: uint16, mask: seq<bool>, values: seq<uint16>, n: nat)
    requires Listed(mask, values) && n <= 16
    requires 16 + |mask| + Span(CountOn(MaskFound(16 + |mask|, mask, values, n)), n)
      <= |FailsafeListRequest(timeout, mask, values, n)|
    ensures FoundFits(16 + |mask|, mask, values, n)
  {
    hide FailsafeListRequest, MaskFound, Span, CountOn, Rank;
  }

  lemma WriteServedIff(d: Device, mask: seq<bool>, mode: uint8, values: seq<uint16>)
    requires d.conn.Ok() && Typed(mode) && Listed(mask, values) && 0 < |mask| == d.conn.NbPins()
    ensures Sound(WriteValueMask(mask, mode, values))
    ensures Serviceable(d, Request(WriteValueMask(mask, mode, values)))
      <==> FoundFits(|mask|, mask, values, GetTypeBitsNb(mode))
  {
    hide *;
    var call, n := WriteValueMask(mask, mode, values), GetTypeBitsNb(mode);
    WriteMaskParts(mask, mode, values);
    if FoundFits(|mask|, mask, values, n) {
      MaskedWriteServed(d, mask, mode, values);
    } else if Serviceable(d, Request(call)) {
      ServedNamesPins(d, Request(call));
      ListRequestLayout(mask, values, n);
      FoundNeedsRoom(d.conn, ListRequest(mask, values, n), 0, mask, values, n);
      ListRoom(mask, values, n);
    }
  }

  lemma SetTypeServedIff(d: Device, mask: seq<bool>, types: seq<uint16>)
    requires d.conn.Ok() && Listed(mask, types) && 0 < |mask| == d.conn.NbPins()
    ensures Sound(SetTypeMask(mask, types))
    ensures Serviceable(d, Request(SetTypeMask(mask, types))) <==> FoundFits(|mask|, mask, types, PIN_TYPE_BITS_NB)
  {
    assert PIN_TYPE_BITS_NB == 3;
    hide *;
    var call := SetTypeMask(mask, types);
    SetTypeMaskParts(mask, types);
    if FoundFits(|mask|, mask, types, 3) {
      MaskedSetTypeServed(d, mask, types);
    } else if Serviceable(d, Request(call)) {
      ServedNamesPins(d, Request(call));
      ListRequestLayout(mask, types, 3);
      FoundNeedsRoom(d.conn, ListRequest(mask, types, 3), 0, mask, types, 3);
      ListRoom(mask, types, 3);
    }
  }

  lemma SetFailsafeServedIff(d: Device, mask: seq<bool>, mode: uint8, timeout: uint16, values: seq<uint16>)
    requires d.conn.Ok() && Typed(mode) && Listed(mask, values) && 0 < |mask| == d.conn.NbPins()
    ensures Sound(SetFailsafeMask(mask, mode, timeout, values))
    ensures Serviceable(d, Request(SetFailsafeMask(mask, mode, timeout, values)))
      <==> FoundFits(16 + |mask|, mask, values, GetTypeBitsNb(mode))
  {
    hide *;
    var call, n := SetFailsafeMask(mask, mode, timeout, values), GetTypeBitsNb(mode);
    SetFailsafeMaskParts(mask, mode, timeout, values);
    if FoundFits(16 + |mask|, mask, values, n) {
      MaskedSetFailsafeServed(d, mask, mode, timeout, values);
    } else if Serviceable(d, Request(call)) {
      ServedNamesPins(d, Request(call));
      FailsafeListLayout(timeout, mask, values, n);
      FoundNeedsRoom(d.conn, FailsafeListRequest(timeout, mask, values, n), 16, mask, values, n);
      FailsafeListRoom(timeout, mask, values, n);
    }
  }

  /**
   The device serves the request of a list exactly when the values along the mask that it finds are
   inside the request.
   */
  lemma ListServedIff(d: Device, call: Call)
    requires call.WriteValueMask? || call.SetTypeMask? || call.SetFailsafeMask?
    requires d.conn.Ok() && Sound(call) && |call.mask| == d.conn.NbPins()
    ensures Serviceable(d, Request(call)) <==> Safe(call, d.conn)
  {
    hide Request, Serviceable, FoundFits, Rank, GetTypeBitsNb;
    match call
    case WriteValueMask(mask, mode, values) => WriteServedIff(d, mask, mode, values);
    case SetTypeMask(mask, types) => SetTypeServedIff(d, mask, types);
    case SetFailsafeMask(mask, mode, timeout, values) => SetFailsafeServedIff(d, mask, mode, timeout, values);
  }

  /**
   A digital value of 2 for one of 9 pins is served, but sets the bit of the last pin: the device
   sets that pin to 0, and the pin that was meant as well.
   */
  lemma DisturbedMask(mask: seq<bool>)
    requires |mask| == 9 && CountOn(mask) == 1 && !mask[8]
    ensures MaskFound(9, mask, [2], 1) == mask[8 := true] && FoundFits(9, mask, [2], 1)
    ensures ListReceived(9, mask, [2], 1) == [0, 0]
  {
    hide Rank, Arrived;
    SentPins(mask[8 := true]);
    assert Sent(mask[8 := true]) == mask;
    SetsLastPin(mask);
    assert Span(1, 1) == 1 && Span(2, 1) == 2 && Span(0, 1) == 0;
    assert Low(2, 1) == 0;
    ArrivedLowIff(9, [2], 1, 0);
  }

  lemma SetsLastPin(mask: seq<bool>)
    requires |mask| == 9
    ensures MaskFound(9, mask, [2], 1) == mask[8 := true]
  {
    var found := MaskFound(9, mask, [2], 1);
    assert Span(0, 1) == 0;
    assert TestBit(2, 1) == TestBit(1, 0) && ToInt16(2) == 2;
    assert Sets(9, [2], 1, 0, 8);
    forall p: nat | p < 9
      ensures found[p] == mask[8 := true][p]
    {
      assert SetBySome(9, [2], 1, p) <==> Sets(9, [2], 1, 0, p);
    }
  }
}
