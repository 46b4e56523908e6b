/** firmware/firmware.c and firmware/src/firmware_packet_process.c: the device. */
module Firmwares {
  import opened Words
  import opened BitStrings
  import opened BitUtils
  import opened ValueLists
  import opened Masks
  import opened HeaderFields
  import opened Protocol
  import opened DeviceState
  import opened Failsafes
  import opened Connections
  import opened FirmwareSteps

  const NB_PINS: uint8 := 16
  /** One bit for each of the five pin types. */
  const ALL_TYPES: uint8 := 0x1F

  lemma BitsOfZeros(s: seq<uint8>)
    requires forall i :: 0 <= i < |s| ==> s[i] == 0
    ensures Bits(s) == Zeros(8 * |s|)
  {
    forall k | 0 <= k < 8 * |s|
      ensures !Bits(s)[k]
    {
      TestBitZero(7 - k % 8);
    }
  }

  lemma BitsOfStamp(s: seq<uint8>, id: uint8)
    requires |s| > 0
    ensures Bits(s[0 := id]) == StampId(Bits(s), id)
  {
    var t := Bits(s[0 := id]);
    forall k | 0 <= k < |t|
      ensures t[k] == StampId(Bits(s), id)[k]
    {
      if k >= 8 {
        assert k / 8 > 0;
      }
    }
  }

  lemma SuccessHeader(cmd: uint8)
    requires cmd < 0x10
    ensures ToUInt8(0x10 * (cmd as int) + REP_CODE_SUCCESS) == 0x10 * (cmd as int)
  {
  }

  /** What a device starts with. */
  function FreshConn(nbPins: uint8): (s: Conn)
    ensures s.Ok() && s.NbPins() == nbPins
  {
    Conn(seq(nbPins, _ => ALL_TYPES), seq(nbPins, _ => PIN_TYPE_DIGITAL), seq(nbPins, _ => 0), 0,
         seq(nbPins, _ => DISABLED_PIN))
  }

  /** Where the value of pin p lies in a request: behind the mask and the values of the pins used below p. */
  function Place(start: nat, m: seq<bool>, p: nat, n: nat): nat
    requires p <= |m|
  {
    start + |m| + Span(Rank(m, p), n)
  }

  lemma FirstPlace(start: nat, m: seq<bool>, n: nat)
    ensures Place(start, m, 0, n) == start + |m|
  {
  }

  lemma NextPlace(start: nat, m: seq<bool>, p: nat, q: nat, n: nat)
    requires p <= q < |m| && m[q] && forall k :: p <= k < q ==> !m[k]
    ensures Place(start, m, q + 1, n) == Place(start, m, p, n) + n && Place(start, m, q, n) == Place(start, m, p, n)
  {
    RankSkip(m, p, q);
  }

  lemma NextInNumbers(id: uint8)
    ensures NextId(id) == if id == 255 then 16 else id + 1
  {
  }

  /** A whole packet with a correct checksum has come in. */
  predicate Accepts(incoming: seq<uint8>)
    requires |incoming| >= OVERHEAD_SIZE ==> Framed(Received(incoming))
  {
    |incoming| >= OVERHEAD_SIZE && Protocol.Valid(Parse(Received(incoming)))
  }

  /** It is accepted exactly when it is at least 4 bytes long and the bytes of the packet sum to 255 modulo 256. */
  lemma AcceptsIff(incoming: seq<uint8>)
    requires |incoming| >= 4 ==> Framed(Received(incoming))
    ensures Accepts(incoming) <==> |incoming| >= 4 && Sum(Parse(Received(incoming)).Wire()) % 0x100 == 0xFF
  {
  }

  class Firmware {
    const c: Connection
    const ids: ReplyIds

    /** `init_device_content` */
    constructor ()
      ensures c.Valid() && fresh(c) && fresh(c.failsafe) && fresh(ids)
      ensures c.nbPins == 16 && c.protocolVersion == 1 && ids.next == 0 && c.failsafe.timeout == 0
      ensures forall p :: 0 <= p < 16 ==>
        c.pinsMaskType[p] == 0x1F && c.pinsState[p] == PinState(0, 0) && c.failsafe.pins[p] == PinFailsafe(7, 0)
      ensures View() == Device(FreshConn(NB_PINS), 0, 1)
    {
      c := new Connection(1);
      ids := new ReplyIds();
      new;
      c.nbPins := NB_PINS;
      c.InitResources();
      for i := 0 to NB_PINS
        invariant c.Valid() && fresh(c.failsafe) && c.nbPins == NB_PINS && c.protocolVersion == 1 && ids.next == 0
        invariant c.failsafe.timeout == 0 && forall p :: 0 <= p < NB_PINS ==> c.failsafe.pins[p] == DISABLED_PIN
        invariant forall p :: 0 <= p < i ==> c.pinsMaskType[p] == ALL_TYPES
        invariant forall p :: 0 <= p < i ==> c.pinsState[p] == PinState(PIN_TYPE_DIGITAL, 0)
      {
        c.pinsMaskType := c.pinsMaskType[i := ALL_TYPES];
        c.pinsState := c.pinsState[i := PinState(PIN_TYPE_DIGITAL, 0)];
      }
      assert c.View() == FreshConn(NB_PINS);
    }

    function View(): (d: Device)
      requires c.Valid()
      reads c, c.failsafe, ids
      ensures d.conn.Ok()
    {
      Device(c.View(), ids.next, c.protocolVersion)
    }

    /** The last lines of the handlers: number the reply and send it. */
    method SendReply(cmd: uint8, data: array<uint8>) returns (wire: seq<uint8>)
      requires 0 < data.Length <= 511 && cmd < 0x10
      modifies ids, data
      ensures ids.next == NextId(old(ids.next))
      ensures Bits(data[..]) == StampId(old(Bits(data[..])), old(ids.next))
      ensures wire == Seal(0x10 * (cmd as int), data[..]).Wire()
    {
      hide Seal, Bits, StampId, NextId, ToUInt8;
      SuccessHeader(cmd);
      var rep := new Packet();
      rep.data := data;
      rep.SetHeader(cmd, REP_CODE_SUCCESS, data.Length);
      var id := ids.GetReplyId();
      BitsOfStamp(data[..], id);
      data[0] := id;
      wire := SendPacket(rep);
      assert rep.data[..rep.size] == data[..];
    }

    /** A reply that holds only its identifier. */
    method SendEmptyReply(cmd: uint8) returns (wire: seq<uint8>)
      requires cmd < 0x10
      modifies ids
      ensures ids.next == NextId(old(ids.next))
      ensures wire == Seal(0x10 * (cmd as int), [old(ids.next)]).Wire()
    {
      hide Seal, NextId, ToUInt8;
      SuccessHeader(cmd);
      var rep := new Packet();
      rep.SetHeader(cmd, REP_CODE_SUCCESS, 1);
      rep.data := new uint8[1];
      var id := ids.GetReplyId();
      rep.data[0] := id;
      assert rep.data[..1] == [id];
      wire := SendPacket(rep);
    }

    method NewReply(dataBytes: nat) returns (data: array<uint8>)
      ensures fresh(data) && data.Length == dataBytes && Bits(data[..]) == Zeros(8 * dataBytes)
    {
      data := new uint8[dataBytes];
      InitPacket(data, dataBytes);
      BitsOfZeros(data[..]);
    }

    method ReadRequestMask(p: Packet, offset: uint16) returns (m: seq<bool>)
      requires c.Valid() && p.size == p.data.Length && offset + c.nbPins <= 8 * p.size && offset <= 16
      ensures m == MaskAt(c.View(), Bits(p.data[..]), offset)
    {
      var buffer := NewMask(c.nbPins);
      var _ := ReadMask(p.data, offset, buffer, c.nbPins);
      m := buffer[..];
    }

    method HeaderType(p: Packet) returns (pinType: uint8)
      ensures pinType == TypeOf(p.header)
    {
      var h := p.HeaderBuffer();
      var param := ReadParam(h);
      pinType := param / 2;
    }

    /** The loop of the masked `reply_read` and `reply_get_type`. */
    method WriteMasked(data: array<uint8>, m: seq<bool>, column: seq<uint16>, valBits: uint8)
      requires |m| == |column| == c.nbPins && 1 <= valBits <= 16
      requires 8 + Span(CountOn(m), valBits) <= 8 * data.Length
      modifies data
      ensures Bits(data[..]) == WriteList(old(Bits(data[..])), 8, Gather(column, m), valBits)
    {
      hide Bits, WriteBits, WriteList, Gather, ToInt16;
      ghost var b, values := Bits(data[..]), Gather(column, m);
      SpanLimit(|values|, valBits);
      var offset: nat := 8;
      var pinIndex := 0;
      WriteListStarts(b, 8, values, valBits);
      while true
        invariant 0 <= pinIndex <= |m| && Rank(m, pinIndex) <= |values|
        invariant offset == 8 + Span(Rank(m, pinIndex), valBits)
        invariant Bits(data[..]) == WriteList(b, 8, values[..Rank(m, pinIndex)], valBits)
        decreases |m| - pinIndex
      {
        var next := MaskNextPinUsed(m, pinIndex, c.nbPins);
        if next == -1 {
          RankSkip(m, pinIndex, |m|);
          break;
        }
        ghost var k := Rank(m, pinIndex);
        ScatterStep(column, m, values, pinIndex, next);
        GatherAt(column, m, next);
        FieldByte(8, k, |values|, valBits, data.Length);
        FieldInside(k, |values|, valBits);
        WriteListStep(b, 8, values, valBits, k);
        WriteBitValue(data, 0, offset, ToInt16(column[next]), valBits);
        offset := offset + valBits;
        pinIndex := next + 1;
      }
      assert values[..|values|] == values;
    }

    method AnswerRead(p: Packet) returns (data: array<uint8>)
      requires c.Valid() && p.size == p.data.Length && ReadOk(c.View(), p.header, Bits(p.data[..]))
      ensures fresh(data) && Bits(data[..]) == ReadAnswer(c.View(), p.header, Bits(p.data[..]))
    {
      hide Bits, ReadBits, WriteBits, WriteList, Gather;
      var pinType := HeaderType(p);
      var valBits := GetTypeBitsNb(pinType);
      if !UsesMask(p.header) {
        var v := ReadBitValue(p.data, 0, 0, 8);
        var val := c.pinsState[ToUInt8(v)].pinsVal;
        data := NewReply(Bits2Bytes(8 + valBits));
        WriteBitValue(data, 0, 8, ToInt16(val), valBits);
      } else {
        var m := ReadRequestMask(p, 0);
        var nbPinsUsed := MaskNbPinsUsed(m, c.nbPins);
        SpanIsProduct(nbPinsUsed, valBits);
        data := NewReply(Bits2Bytes(8 + nbPinsUsed * valBits));
        WriteMasked(data, m, ValsOf(c.pinsState), valBits);
      }
    }

    method ReplyRead(p: Packet) returns (wire: seq<uint8>)
      requires c.Valid() && p.size == p.data.Length && ReadOk(c.View(), p.header, Bits(p.data[..]))
      modifies ids
      ensures ids.next == NextId(old(ids.next))
      ensures wire == Seal(0x10 * CMD_READ,
        Pack(StampId(ReadAnswer(c.View(), p.header, Bits(p.data[..])), old(ids.next)))).Wire()
    {
      hide Bits, ReadOk, ReadAnswer, StampId, Seal, NextId;
      var data := AnswerRead(p);
      wire := SendReply(CMD_READ, data);
      PackOfBits(data[..]);
    }

    method AnswerType(p: Packet) returns (data: array<uint8>)
      requires c.Valid() && p.size == p.data.Length && GetTypeOk(c.View(), p.header, Bits(p.data[..]))
      ensures fresh(data) && Bits(data[..]) == TypeAnswer(c.View(), p.header, Bits(p.data[..]))
    {
      hide Bits, ReadBits, WriteBits, WriteList, Gather;
      if !UsesMask(p.header) {
        var v := ReadBitValue(p.data, 0, 0, 8);
        data := NewReply(2);
        WriteBitValue(data, 0, 8, c.pinsState[ToUInt8(v)].pinsType, PIN_TYPE_BITS_NB);
      } else {
        var m := ReadRequestMask(p, 0);
        var nbPinsUsed := MaskNbPinsUsed(m, c.nbPins);
        SpanIsProduct(nbPinsUsed, PIN_TYPE_BITS_NB);
        data := NewReply(1 + Bits2Bytes(nbPinsUsed * PIN_TYPE_BITS_NB));
        WriteMasked(data, m, Widened(TypesOf(c.pinsState)), PIN_TYPE_BITS_NB);
      }
    }

    method ReplyGetType(p: Packet) returns (wire: seq<uint8>)
      requires c.Valid() && p.size == p.data.Length && GetTypeOk(c.View(), p.header, Bits(p.data[..]))
      modifies ids
      ensures ids.next == NextId(old(ids.next))
      ensures wire == Seal(0x10 * CMD_SET_TYPE,
        Pack(StampId(TypeAnswer(c.View(), p.header, Bits(p.data[..])), old(ids.next)))).Wire()
    {
      hide Bits, GetTypeOk, TypeAnswer, StampId, Seal, NextId;
      var data := AnswerType(p);
      wire := SendReply(CMD_SET_TYPE, data);
      PackOfBits(data[..]);
    }

    /** The value of a pin behind the mask of a request, at the offset that the loops have reached. */
    method ReadListed(p: Packet, ghost s: Conn, ghost b: seq<bool>, ghost start: nat, ghost pin: nat, offset: nat,
        valBits: uint8) returns (v: int16)
      requires p.size == p.data.Length && Bits(p.data[..]) == b && s.Ok() && 1 <= valBits <= 16 && start <= 16
      requires NamesPins(s, b, start, valBits) && pin < s.NbPins() && MaskAt(s, b, start)[pin]
      requires offset == Place(start, MaskAt(s, b, start), pin, valBits)
      ensures var k := Rank(MaskAt(s, b, start), pin);
        && k < |ListAt(s, b, start, valBits)| && ToUInt16(v) == ListAt(s, b, start, valBits)[k]
        && ToUInt8(v) == LowBytes(ListAt(s, b, start, valBits))[k]
    {
      hide Bits, ReadBits, Span, ListAt, LowBytes, Rank;
      ghost var m := MaskAt(s, b, start);
      ghost var count, k := CountOn(m), Rank(m, pin);
      RankOfUsed(m, pin);
      SpanLimit(count, valBits);
      FieldByte(start + s.NbPins(), k, count, valBits, p.data.Length);
      FieldInside(k, count, valBits);
      ListEntry(s, b, start, valBits, k);
      v := ReadBitValue(p.data, 0, offset, valBits);
    }

    /** The loop of the masked `treat_write`. */
    method StoreValues(p: Packet, m: seq<bool>, valBits: uint8, ghost s: Conn, ghost b: seq<bool>)
      requires c.Valid() && p.size == p.data.Length && 1 <= valBits <= 16
      requires s == c.View() && b == Bits(p.data[..]) && NamesPins(s, b, 0, valBits) && m == MaskAt(s, b, 0)
      modifies c`pinsState
      ensures c.Valid() && c.View() == s.(vals := Scatter(s.vals, m, Widened(LowBytes(ListAt(s, b, 0, valBits)))))
    {
      hide Bits, Scatter, ListAt, LowBytes, ScatterBelow, Rank, Place, MaskAt, NamesPins, Connection.View;
      ghost var values := Widened(LowBytes(ListAt(s, b, 0, valBits)));
      var offset: nat := c.nbPins;
      var pinIndex := 0;
      ScatterStarts(s.vals, m, values);
      FirstPlace(0, m, valBits);
      while true
        invariant 0 <= pinIndex <= |m| && offset == Place(0, m, pinIndex, valBits)
        invariant c.Valid() && c.View() == s.(vals := ScatterBelow(s.vals, m, values, pinIndex))
        decreases |m| - pinIndex
      {
        var next := MaskNextPinUsed(m, pinIndex, c.nbPins);
        if next == -1 {
          ScatterEnds(s.vals, m, values, pinIndex);
          break;
        }
        ScatterStep(s.vals, m, values, pinIndex, next);
        NextPlace(0, m, pinIndex, next, valBits);
        var val := ReadListed(p, s, b, 0, next, offset, valBits);
        c.StoreValue(next, ToUInt8(val));
        offset := offset + valBits;
        pinIndex := next + 1;
      }
    }

    method TreatWrite(p: Packet)
      requires c.Valid() && p.size == p.data.Length && WriteOk(c.View(), p.header, Bits(p.data[..]))
      modifies c`pinsState
      ensures c.Valid()
      ensures c.View() == WriteStep(old(c.View()), p.header, Bits(p.data[..]))
    {
      hide Bits, ReadBits, Scatter, ReadList;
      var pinType := HeaderType(p);
      var valBitsNb := GetTypeBitsNb(pinType);
      if !UsesMask(p.header) {
        var v := ReadBitValue(p.data, 0, 0, 8);
        var pinId := ToUInt8(v);
        var val := ReadBitValue(p.data, 0, 8, valBitsNb);
        c.StoreType(pinId, pinType);
        c.StoreValue(pinId, ToUInt16(val));
      } else {
        var m := ReadRequestMask(p, 0);
        StoreValues(p, m, valBitsNb, c.View(), Bits(p.data[..]));
      }
    }

    method ReplyWrite(p: Packet) returns (wire: seq<uint8>)
      requires c.Valid() && p.size == p.data.Length && WriteOk(c.View(), p.header, Bits(p.data[..]))
      modifies c`pinsState, ids
      ensures c.Valid() && ids.next == NextId(old(ids.next))
      ensures c.View() == WriteStep(old(c.View()), p.header, Bits(p.data[..]))
      ensures wire == Seal(0x10 * CMD_WRITE, [old(ids.next)]).Wire()
    {
      hide Bits, WriteOk, WriteStep, Seal, NextId;
      TreatWrite(p);
      wire := SendEmptyReply(CMD_WRITE);
    }

    /** The loop of the masked `treat_set_type`. */
    method StoreTypes(p: Packet, m: seq<bool>, ghost s: Conn, ghost b: seq<bool>)
      requires c.Valid() && p.size == p.data.Length
      requires s == c.View() && b == Bits(p.data[..]) && NamesPins(s, b, 0, PIN_TYPE_BITS_NB) && m == MaskAt(s, b, 0)
      modifies c`pinsState
      ensures c.Valid() && c.View() == s.(types := Scatter(s.types, m, LowBytes(ListAt(s, b, 0, PIN_TYPE_BITS_NB))))
    {
      hide Bits, Scatter, ListAt, LowBytes, ScatterBelow, Rank, Place, MaskAt, NamesPins, Connection.View;
      ghost var types := LowBytes(ListAt(s, b, 0, PIN_TYPE_BITS_NB));
      var offset: nat := c.nbPins;
      var pinId := 0;
      ScatterStarts(s.types, m, types);
      FirstPlace(0, m, PIN_TYPE_BITS_NB);
      while true
        invariant 0 <= pinId <= |m| && offset == Place(0, m, pinId, PIN_TYPE_BITS_NB)
        invariant c.Valid() && c.View() == s.(types := ScatterBelow(s.types, m, types, pinId))
        decreases |m| - pinId
      {
        var next := MaskNextPinUsed(m, pinId, c.nbPins);
        if next == -1 {
          ScatterEnds(s.types, m, types, pinId);
          break;
        }
        ScatterStep(s.types, m, types, pinId, next);
        NextPlace(0, m, pinId, next, PIN_TYPE_BITS_NB);
        var pinType := ReadListed(p, s, b, 0, next, offset, PIN_TYPE_BITS_NB);
        c.StoreType(next, ToUInt8(pinType));
        offset := offset + PIN_TYPE_BITS_NB;
        pinId := next + 1;
      }
    }

    method TreatSetType(p: Packet)
      requires c.Valid() && p.size == p.data.Length && SetTypeOk(c.View(), p.header, Bits(p.data[..]))
      modifies c`pinsState
      ensures c.Valid()
      ensures c.View() == SetTypeStep(old(c.View()), p.header, Bits(p.data[..]))
    {
      hide Bits, ReadBits, Scatter, ReadList;
      if !UsesMask(p.header) {
        var v := ReadBitValue(p.data, 0, 0, 8);
        var pinId := ToUInt8(v);
        var pinType := ReadBitValue(p.data, 0, 8, PIN_TYPE_BITS_NB);
        c.StoreType(pinId, ToUInt8(pinType));
      } else {
        var m := ReadRequestMask(p, 0);
        StoreTypes(p, m, c.View(), Bits(p.data[..]));
      }
    }

    method ReplySetType(p: Packet) returns (wire: seq<uint8>)
      requires c.Valid() && p.size == p.data.Length && SetTypeOk(c.View(), p.header, Bits(p.data[..]))
      modifies c`pinsState, ids
      ensures c.Valid() && ids.next == NextId(old(ids.next))
      ensures c.View() == SetTypeStep(old(c.View()), p.header, Bits(p.data[..]))
      ensures wire == Seal(0x10 * CMD_SET_TYPE, [old(ids.next)]).Wire()
    {
      hide Bits, SetTypeOk, SetTypeStep, Seal, NextId;
      TreatSetType(p);
      wire := SendEmptyReply(CMD_SET_TYPE);
    }

    method AnswerFailsafe(p: Packet) returns (data: array<uint8>)
      requires c.Valid() && p.size == p.data.Length && GetFailsafeOk(c.View(), p.header, Bits(p.data[..]))
      ensures fresh(data) && Bits(data[..]) == FailsafeAnswer(c.View(), p.header, Bits(p.data[..]))
    {
      hide Bits, ReadBits, WriteBits, WriteTable, Gather, EncFailsafe, ToInt16;
      if !UsesMask(p.header) {
        var v := ReadBitValue(p.data, 0, 0, 8);
        var f := c.failsafe.pins[ToUInt8(v)];
        var valBits := GetTypeBitsNb(f.pinState);
        data := NewReply(3 + Bits2Bytes(PIN_TYPE_BITS_NB + valBits));
        WriteBitValue(data, 0, 24, f.pinState, PIN_TYPE_BITS_NB);
        WriteBitValue(data, 0, 27, ToInt16(f.pinValue), valBits);
      } else {
        var m := ReadRequestMask(p, 0);
        var nbPinsUsed := MaskNbPinsUsed(m, c.nbPins);
        var masked := c.failsafe.SubFailsafe(m);
        var additionalBits := masked.NbBitsOf(nbPinsUsed);
        var dataBytes: uint8 := 3 + Bits2Bytes(additionalBits);
        data := NewReply(dataBytes);
        StreamStaysInReply(masked.pins);
        masked.WriteFailsafe(data, 24);
      }
    }

    method ReplyGetFailsafe(p: Packet) returns (wire: seq<uint8>)
      requires c.Valid() && p.size == p.data.Length && GetFailsafeOk(c.View(), p.header, Bits(p.data[..]))
      modifies ids
      ensures ids.next == NextId(old(ids.next))
      ensures wire == Seal(0x10 * CMD_SET_TYPE,
        Pack(FailsafeReply(c.View(), p.header, Bits(p.data[..]), old(ids.next)))).Wire()
    {
      hide Bits, GetFailsafeOk, FailsafeAnswer, StampId, WriteBits, ToInt16, Seal, NextId;
      var data := AnswerFailsafe(p);
      var rep := new Packet();
      rep.data := data;
      rep.SetHeader(CMD_SET_TYPE, REP_CODE_SUCCESS, data.Length);
      var id := ids.GetReplyId();
      BitsOfStamp(data[..], id);
      data[0] := id;
      WriteBitValue(data, 0, 8, ToInt16(c.failsafe.timeout), 16);
      wire := SendPacket(rep);
      assert rep.data[..rep.size] == data[..];
      PackOfBits(data[..]);
    }

    /** The loop of the masked `reply_set_failsafe`. */
    method StoreFailsafes(p: Packet, m: seq<bool>, pinType: uint8, valBits: uint8, ghost s: Conn, ghost b: seq<bool>)
      requires c.Valid() && p.size == p.data.Length && 1 <= valBits <= 16
      requires s == c.View() && b == Bits(p.data[..]) && NamesPins(s, b, 16, valBits) && m == MaskAt(s, b, 16)
      modifies c.failsafe`pins
      ensures c.Valid()
      ensures c.View() == s.(failsafe := Scatter(s.failsafe, m, Entries(pinType, ListAt(s, b, 16, valBits))))
    {
      hide Bits, Scatter, ListAt, ScatterBelow, Rank, Place, MaskAt, LowBytes, NamesPins, Connection.View;
      ghost var entries := Entries(pinType, ListAt(s, b, 16, valBits));
      var offset: nat := 16 + (c.nbPins as int);
      var pinIndex := 0;
      ScatterStarts(s.failsafe, m, entries);
      FirstPlace(16, m, valBits);
      while true
        invariant 0 <= pinIndex <= |m| && offset == Place(16, m, pinIndex, valBits)
        invariant c.Valid() && c.View() == s.(failsafe := ScatterBelow(s.failsafe, m, entries, pinIndex))
        decreases |m| - pinIndex
      {
        var next := MaskNextPinUsed(m, pinIndex, c.nbPins);
        if next == -1 {
          ScatterEnds(s.failsafe, m, entries, pinIndex);
          break;
        }
        ScatterStep(s.failsafe, m, entries, pinIndex, next);
        NextPlace(16, m, pinIndex, next, valBits);
        var val := ReadListed(p, s, b, 16, next, offset, valBits);
        offset := offset + valBits;
        c.StoreEntry(next, PinFailsafe(pinType, ToUInt16(val)));
        pinIndex := next + 1;
      }
    }

    method TreatSetFailsafe(p: Packet)
      requires c.Valid() && p.size == p.data.Length && SetFailsafeOk(c.View(), p.header, Bits(p.data[..]))
      modifies c.failsafe
      ensures c.Valid()
      ensures c.View() == SetFailsafeStep(old(c.View()), p.header, Bits(p.data[..]))
    {
      hide Bits, ReadBits, Scatter, ReadList;
      var pinType := HeaderType(p);
      var valBits := GetTypeBitsNb(pinType);
      var timeout := ReadBitValue(p.data, 0, 0, 16);
      c.failsafe.timeout := ToUInt16(timeout);
      if !UsesMask(p.header) {
        var v := ReadBitValue(p.data, 0, 16, 8);
        var pinId := ToUInt8(v);
        var val := ReadBitValue(p.data, 0, 24, valBits);
        c.failsafe.pins := c.failsafe.pins[pinId := PinFailsafe(pinType, ToUInt16(val))];
      } else {
        var m := ReadRequestMask(p, 16);
        StoreFailsafes(p, m, pinType, valBits, c.View(), Bits(p.data[..]));
      }
    }

    method ReplySetFailsafe(p: Packet) returns (wire: seq<uint8>)
      requires c.Valid() && p.size == p.data.Length && SetFailsafeOk(c.View(), p.header, Bits(p.data[..]))
      modifies c.failsafe, ids
      ensures c.Valid() && ids.next == NextId(old(ids.next))
      ensures c.View() == SetFailsafeStep(old(c.View()), p.header, Bits(p.data[..]))
      ensures wire == Seal(0x10 * CMD_SET_TYPE, [old(ids.next)]).Wire()
    {
      hide Bits, SetFailsafeOk, SetFailsafeStep, Seal, NextId;
      TreatSetFailsafe(p);
      wire := SendEmptyReply(CMD_SET_TYPE);
    }

    method ReplyGetCaps() returns (wire: seq<uint8>)
      requires c.Valid()
      modifies ids
      ensures ids.next == NextId(old(ids.next))
      ensures wire == Seal(0x10 * CMD_GET_CAPS, [old(ids.next), c.nbPins] + c.pinsMaskType).Wire()
    {
      hide Seal, NextId;
      var rep := new Packet();
      rep.SetHeader(CMD_GET_CAPS, REP_CODE_SUCCESS, (c.nbPins as int) + 2);
      rep.data := new uint8[(c.nbPins as int) + 2];
      InitPacket(rep.data, (c.nbPins as int) + 2);
      var id := ids.GetReplyId();
      rep.data[0] := id;
      rep.data[1] := c.nbPins;
      forall i | 0 <= i < c.nbPins {
        rep.data[2 + i] := c.pinsMaskType[i];
      }
      assert rep.data[..rep.size] == [id, c.nbPins] + c.pinsMaskType;
      wire := SendPacket(rep);
    }

    method ReplyPing() returns (wire: seq<uint8>)
      requires c.Valid()
      modifies ids
      ensures ids.next == NextId(old(ids.next))
      ensures wire == Seal(0x10 * CMD_GET_CAPS, [old(ids.next), c.protocolVersion]).Wire()
    {
      hide Seal, NextId;
      var rep := new Packet();
      rep.SetHeader(CMD_GET_CAPS, REP_CODE_SUCCESS, 2);
      rep.data := new uint8[2];
      InitPacket(rep.data, 2);
      var id := ids.GetReplyId();
      rep.data[0] := id;
      rep.data[1] := c.protocolVersion;
      assert rep.data[..rep.size] == [id, c.protocolVersion];
      wire := SendPacket(rep);
    }

    /** One turn of `mainloop` on one packet; `running` is false where the loop returns. */
    method Serve(incoming: seq<uint8>) returns (running: bool, wire: seq<uint8>)
      requires c.Valid()
      requires |incoming| >= OVERHEAD_SIZE ==> Framed(Received(incoming))
      requires Accepts(incoming) && Answered(CmdOf(Parse(Received(incoming)).header)) ==>
        Serviceable(View(), Parse(Received(incoming)))
      modifies c`pinsState, c.failsafe, ids
      ensures c.Valid()
      ensures running <==> Accepts(incoming)
      ensures !running ==> View() == old(View()) && wire == []
      ensures running && !Answered(CmdOf(Parse(Received(incoming)).header)) ==> View() == old(View()) && wire == []
      ensures running && Answered(CmdOf(Parse(Received(incoming)).header)) ==>
        View() == Step(old(View()), Parse(Received(incoming)))
      ensures running && Answered(CmdOf(Parse(Received(incoming)).header)) ==>
        wire == ReplyTo(old(View()), Parse(Received(incoming))).Wire()
      ensures running && Parse(Received(incoming)).header / 0x10 == 2 ==>
        && c.View() == old(c.View()) && ids.next == (if old(ids.next) == 255 then 16 else old(ids.next) + 1)
        && wire == Seal(0, [old(ids.next), c.protocolVersion]).Wire()
      ensures running && Parse(Received(incoming)).header / 0x10 in {1, 9, 10, 11, 12, 13, 14, 15} ==> wire == []
    {
      hide Bits, Received, Protocol.Valid, Seal, NextId, Pack, StampId;
      hide ReadOk, WriteOk, GetTypeOk, SetTypeOk, GetFailsafeOk, SetFailsafeOk;
      hide WriteStep, SetTypeStep, SetFailsafeStep, ReadAnswer, TypeAnswer, FailsafeReply;
      wire := [];
      var p := new Packet();
      var n := ConnectionRead(incoming, p);
      if n == -1 {
        return false, [];
      }
      var valid := p.PacketValid();
      if !valid {
        return false, [];
      }
      running := true;
      assert p.View().data == p.data[..];
      NextInNumbers(ids.next);
      var h := p.HeaderBuffer();
      var cmd := ReadCmd(h);
      if cmd == CMD_GET_CAPS {
        wire := ReplyGetCaps();
      } else if cmd == CMD_PING {
        wire := ReplyPing();
      } else if cmd == CMD_READ {
        wire := ReplyRead(p);
      } else if cmd == CMD_WRITE {
        wire := ReplyWrite(p);
      } else if cmd == CMD_GET_TYPE {
        wire := ReplyGetType(p);
      } else if cmd == CMD_SET_TYPE {
        wire := ReplySetType(p);
      } else if cmd == CMD_GET_FAILSAFE {
        wire := ReplyGetFailsafe(p);
      } else if cmd == CMD_SET_FAILSAFE {
        wire := ReplySetFailsafe(p);
      }
    }
  }
}
