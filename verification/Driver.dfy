/** driver/driver.c: the calls of the driver, from their buffers to what they store in the connection. */
module Drivers {
  import opened Words
  import opened BitStrings
  import opened BitUtils
  import ByteFields
  import opened ValueLists
  import opened Masks
  import opened HeaderFields
  import opened Protocol
  import opened DeviceState
  import opened Failsafes
  import opened Connections
  import opened FirmwareSteps
  import opened Firmwares
  import opened DriverCalls
  import opened Exchanges
  import opened Outcomes
  import opened Answers
  import opened ReplyBytes
  import Runs

  lemma ServedIsAnswered(d: Device, m: Message)
    requires Serviceable(d, m)
    ensures m.Sized() && Protocol.Valid(m) && Answered(CmdOf(m.header))
  {
  }

  /** What each call leaves behind, in terms of the packets. */
  lemma ExecBy(call: Call, sys: System, mirror: Conn, device: Device)
    requires Ready(sys) && Safe(call, sys.device.conn)
    requires Sound(call) && Carried(call, sys) && mirror == MirrorOf(call, sys)
    requires device == Step(sys.device, Request(call))
    ensures System(mirror, device) == Exec(call, sys)
  {
    hide Exec, Ready, Safe, Sound, Request, MirrorOf, NextId, Seal, Serviceable;
    ExecIs(call, sys);
  }

  lemma RequestIs(call: Call, header: uint8, data: seq<uint8>)
    requires Sound(call) && header == RequestHeader(call) && Bits(data) == RequestBits(call)
    ensures |data| < 0x1_0000 && Seal(header, data) == Request(call)
    ensures Request(call).Sized() && |Request(call).Wire()| <= BUFF_SIZE
  {
    hide Bits, RequestBits, RequestHeader, Sound, Seal;
    PackOfBits(data);
  }

  lemma RequestArrives(m: Message, wire: seq<uint8>)
    requires m.Sized() && |m.Wire()| <= BUFF_SIZE && wire == m.Wire()
    ensures |wire| >= OVERHEAD_SIZE && Framed(Received(wire)) && Parse(Received(wire)) == m
  {
    ReceivedWire(m);
  }

  // ---- what each call sends, and what it stores ----

  lemma GenericReadSends(sys: System, pin: uint8, mode: uint8)
    requires Ready(sys) && Safe(Call.GenericRead(pin, mode), sys.device.conn)
    ensures var call := Call.GenericRead(pin, mode);
      && Sound(call) && Typed(mode) && pin < sys.mirror.NbPins()
      && RequestHeader(call) == HeaderOf(CMD_READ, ToUInt8(2 * (mode as int) + USE_PIN_ID))
      && RequestBits(call) == PinRequest(pin)
  {
    hide HeaderOf, ToUInt8;
  }

  lemma GenericReadStores(sys: System, pin: uint8, mode: uint8, r: seq<bool>)
    requires Sound(Call.GenericRead(pin, mode)) && Carried(Call.GenericRead(pin, mode), sys)
    requires r == ReplyBits(Call.GenericRead(pin, mode), sys)
    ensures var call, s, n := Call.GenericRead(pin, mode), sys.mirror, GetTypeBitsNb(mode);
      && 1 <= n <= 16 && 8 + n <= |r| && s.Ok() && pin < |s.vals|
      && MirrorOf(call, sys) == s.(vals := s.vals[pin := ToUInt16(ReadBits(r, 8, n))])
  {
    hide Carried, ReplyBits, MirrorOf, ReadBits;
    ReplyIsLongEnough(Call.GenericRead(pin, mode), sys);
  }

  lemma GenericWriteSends(sys: System, pin: uint8, mode: uint8, val: int16)
    requires Ready(sys) && Safe(Call.GenericWrite(pin, mode, val), sys.device.conn)
    ensures var call, n := Call.GenericWrite(pin, mode, val), GetTypeBitsNb(mode);
      && Sound(call) && Typed(mode) && pin < sys.mirror.NbPins() && 1 <= n <= 16
      && RequestHeader(call) == HeaderOf(CMD_WRITE, ToUInt8(2 * (mode as int) + USE_PIN_ID))
      && RequestBits(call) == ValueRequest(pin, val, n)
  {
    hide HeaderOf, ToUInt8, ValueRequest;
  }

  lemma GenericWriteStores(sys: System, pin: uint8, mode: uint8, val: int16)
    requires Sound(Call.GenericWrite(pin, mode, val)) && Carried(Call.GenericWrite(pin, mode, val), sys)
    ensures var call, s := Call.GenericWrite(pin, mode, val), sys.mirror;
      s.Ok() && pin < |s.vals| && MirrorOf(call, sys) == s.(vals := s.vals[pin := ToUInt16(val)])
  {
    hide Carried, ReplyBits, MirrorOf;
    ReplyIsLongEnough(Call.GenericWrite(pin, mode, val), sys);
  }

  lemma GetTypeSends(sys: System, pin: uint8)
    requires Ready(sys) && Safe(Call.GetType(pin), sys.device.conn)
    ensures var call := Call.GetType(pin);
      && Sound(call) && pin < sys.mirror.NbPins()
      && RequestHeader(call) == HeaderOf(CMD_GET_TYPE, USE_PIN_ID) && RequestBits(call) == PinRequest(pin)
  {
    hide HeaderOf;
  }

  lemma GetTypeStores(sys: System, pin: uint8, r: seq<bool>)
    requires Sound(Call.GetType(pin)) && Carried(Call.GetType(pin), sys) && r == ReplyBits(Call.GetType(pin), sys)
    ensures var call, s := Call.GetType(pin), sys.mirror;
      && 8 + 3 <= |r| && pin < |s.types|
      && MirrorOf(call, sys) == s.(types := s.types[pin := ToUInt8(ReadBits(r, 8, 3))])
  {
    hide Carried, ReplyBits, MirrorOf, ReadBits;
    ReplyIsLongEnough(Call.GetType(pin), sys);
  }

  lemma SetTypeSends(sys: System, pin: uint8, newType: uint8)
    requires Ready(sys) && Safe(Call.SetType(pin, newType), sys.device.conn)
    ensures var call := Call.SetType(pin, newType);
      && Sound(call) && pin < sys.mirror.NbPins()
      && RequestHeader(call) == HeaderOf(CMD_SET_TYPE, USE_PIN_ID) && RequestBits(call) == ValueRequest(pin, newType, 3)
  {
    hide HeaderOf;
  }

  lemma SetTypeStores(sys: System, pin: uint8, newType: uint8)
    requires Sound(Call.SetType(pin, newType)) && Carried(Call.SetType(pin, newType), sys)
    ensures var call, s := Call.SetType(pin, newType), sys.mirror;
      pin < |s.types| && MirrorOf(call, sys) == s.(types := s.types[pin := newType])
  {
    hide Carried, ReplyBits, MirrorOf;
    ReplyIsLongEnough(Call.SetType(pin, newType), sys);
  }

  lemma GetFailsafeSends(sys: System, pin: uint8)
    requires Ready(sys) && Safe(Call.GetFailsafe(pin), sys.device.conn)
    ensures var call := Call.GetFailsafe(pin);
      && Sound(call)
      && RequestHeader(call) == HeaderOf(CMD_GET_FAILSAFE, USE_PIN_ID) && RequestBits(call) == PinRequest(pin)
  {
    hide HeaderOf;
  }

  predicate HoldsEntry(r: seq<bool>) {
    27 <= |r| && 27 + GetTypeBitsNb(TypeAt(r, 24)) <= |r|
  }

  lemma GetFailsafeReturns(sys: System, pin: uint8, r: seq<bool>)
    requires Ready(sys) && Safe(Call.GetFailsafe(pin), sys.device.conn)
    requires Sound(Call.GetFailsafe(pin)) && Carried(Call.GetFailsafe(pin), sys)
    requires r == ReplyBits(Call.GetFailsafe(pin), sys)
    ensures MirrorOf(Call.GetFailsafe(pin), sys) == sys.mirror
    ensures HoldsEntry(r) && PinAt(r, 24) == EntryRead(pin, sys)
  {
    hide Ready, Safe, Carried, MirrorOf, DeviceAfter, ReplyBits, TypeAt, PinAt;
    GetFailsafeExchange(sys, pin);
  }

  lemma SetFailsafeSends(sys: System, pin: uint8, timeout: uint16, f: PinFailsafe)
    requires Ready(sys) && Safe(Call.SetFailsafe(pin, timeout, f), sys.device.conn)
    ensures var call, n := Call.SetFailsafe(pin, timeout, f), GetTypeBitsNb(f.pinState);
      && Sound(call) && pin < sys.mirror.NbPins() && (n == 8 || n == 16)
      && RequestHeader(call) == HeaderOf(CMD_SET_FAILSAFE, ToUInt8(2 * (f.pinState as int) + USE_PIN_ID))
      && RequestBits(call) == FailsafeRequest(timeout, pin, f.pinValue, n)
  {
    hide HeaderOf, ToUInt8, FailsafeRequest;
  }

  lemma SetFailsafeStores(sys: System, pin: uint8, timeout: uint16, f: PinFailsafe)
    requires Sound(Call.SetFailsafe(pin, timeout, f)) && Carried(Call.SetFailsafe(pin, timeout, f), sys)
    ensures var call, s := Call.SetFailsafe(pin, timeout, f), sys.mirror;
      && s.Ok() && pin < |s.failsafe|
      && MirrorOf(call, sys) == s.(timeout := timeout, failsafe := s.failsafe[pin := f])
  {
    hide Carried, ReplyBits, MirrorOf;
    ReplyIsLongEnough(Call.SetFailsafe(pin, timeout, f), sys);
  }

  lemma ReadValueMaskSends(sys: System, mask: seq<bool>, mode: uint8)
    requires Ready(sys) && Safe(Call.ReadValueMask(mask, mode), sys.device.conn)
    ensures var call := Call.ReadValueMask(mask, mode);
      && Sound(call) && Typed(mode) && 0 < |mask| == sys.mirror.NbPins() < 0x100
      && RequestHeader(call) == HeaderOf(CMD_READ, ToUInt8(2 * (mode as int) + USE_MASK))
      && RequestBits(call) == MaskRequest(mask, Bits2Bytes(|mask|))
  {
    hide HeaderOf, ToUInt8, MaskRequest;
  }

  lemma ReadValueMaskReturns(sys: System, mask: seq<bool>, mode: uint8, r: seq<bool>)
    requires Ready(sys) && Safe(Call.ReadValueMask(mask, mode), sys.device.conn)
    requires Sound(Call.ReadValueMask(mask, mode)) && Carried(Call.ReadValueMask(mask, mode), sys)
    requires r == ReplyBits(Call.ReadValueMask(mask, mode), sys)
    ensures var call, s, n := Call.ReadValueMask(mask, mode), sys.mirror, GetTypeBitsNb(mode);
      && 1 <= n <= 16 && 8 + Span(CountOn(mask), n) <= |r| && s.Ok() && |mask| == |s.vals|
      && MirrorOf(call, sys) == s.(vals := Scatter(s.vals, mask, ValuesRead(mask, mode, sys)))
      && ValuesRead(mask, mode, sys) == ReadList(r, 8, CountOn(mask), n)
  {
    hide Carried, ReplyBits, MirrorOf, ReadList, Span, Rank, Scatter, Ready, Safe;
    ReplyIsLongEnough(Call.ReadValueMask(mask, mode), sys);
  }

  lemma WriteValueMaskSends(sys: System, mask: seq<bool>, mode: uint8, values: seq<uint16>)
    requires Ready(sys) && Safe(Call.WriteValueMask(mask, mode, values), sys.device.conn)
    ensures var call, n := Call.WriteValueMask(mask, mode, values), GetTypeBitsNb(mode);
      && Sound(call) && Listed(mask, values) && |mask| == sys.mirror.NbPins() && 1 <= n <= 16
      && RequestHeader(call) == HeaderOf(CMD_WRITE, ToUInt8(2 * (mode as int) + USE_MASK))
      && RequestBits(call) == ListRequest(mask, values, n)
  {
    hide HeaderOf, ToUInt8, ListRequest, FoundFits, Rank;
  }

  lemma WriteValueMaskStores(sys: System, mask: seq<bool>, mode: uint8, values: seq<uint16>)
    requires Sound(Call.WriteValueMask(mask, mode, values)) && Carried(Call.WriteValueMask(mask, mode, values), sys)
    ensures var call, s := Call.WriteValueMask(mask, mode, values), sys.mirror;
      && s.Ok() && |mask| == |s.vals| && |values| == CountOn(mask)
      && MirrorOf(call, sys) == s.(vals := Scatter(s.vals, mask, values))
  {
    hide Carried, ReplyBits, MirrorOf, Scatter, Rank;
    ReplyIsLongEnough(Call.WriteValueMask(mask, mode, values), sys);
  }

  lemma GetTypeMaskSends(sys: System, mask: seq<bool>)
    requires Ready(sys) && Safe(Call.GetTypeMask(mask), sys.device.conn)
    ensures var call := Call.GetTypeMask(mask);
      && Sound(call) && 2 <= |mask| == sys.mirror.NbPins() < 0x100
      && RequestHeader(call) == HeaderOf(CMD_GET_TYPE, USE_MASK)
      && RequestBits(call) == MaskRequest(mask[..|mask| - 1], Bits2Bytes(|mask| - 1))
  {
    hide HeaderOf, MaskRequest, Rank;
  }

  lemma GetTypeMaskStores(sys: System, mask: seq<bool>, r: seq<bool>)
    requires Ready(sys) && Safe(Call.GetTypeMask(mask), sys.device.conn)
    requires Sound(Call.GetTypeMask(mask)) && Carried(Call.GetTypeMask(mask), sys)
    requires r == ReplyBits(Call.GetTypeMask(mask), sys)
    ensures var call, s := Call.GetTypeMask(mask), sys.mirror;
      && 8 + Span(CountOn(mask), 3) <= |r| && |mask| == |s.types|
      && MirrorOf(call, sys) == s.(types := Scatter(s.types, mask, LowBytes(TypesRead(mask, sys))))
      && TypesRead(mask, sys) == ReadList(r, 8, CountOn(mask), 3)
  {
    hide Carried, ReplyBits, MirrorOf, ReadList, Span, Rank, Scatter, Ready, Safe, LowBytes;
    ReplyIsLongEnough(Call.GetTypeMask(mask), sys);
  }

  lemma SetTypeMaskSends(sys: System, mask: seq<bool>, types: seq<uint16>)
    requires Ready(sys) && Safe(Call.SetTypeMask(mask, types), sys.device.conn)
    ensures var call := Call.SetTypeMask(mask, types);
      && Sound(call) && Listed(mask, types) && |mask| == sys.mirror.NbPins()
      && RequestHeader(call) == HeaderOf(CMD_SET_TYPE, USE_MASK) && RequestBits(call) == ListRequest(mask, types, 3)
  {
    hide HeaderOf, ListRequest, FoundFits, Rank;
  }

  lemma SetTypeMaskStores(sys: System, mask: seq<bool>, types: seq<uint16>)
    requires Sound(Call.SetTypeMask(mask, types)) && Carried(Call.SetTypeMask(mask, types), sys)
    ensures var call, s := Call.SetTypeMask(mask, types), sys.mirror;
      && |mask| == |s.types| && |types| == CountOn(mask)
      && MirrorOf(call, sys) == s.(types := Scatter(s.types, mask, LowBytes(types)))
  {
    hide Carried, ReplyBits, MirrorOf, Scatter, Rank, LowBytes;
    ReplyIsLongEnough(Call.SetTypeMask(mask, types), sys);
  }

  lemma GetFailsafeMaskSends(sys: System, mask: seq<bool>)
    requires Ready(sys) && Safe(Call.GetFailsafeMask(mask), sys.device.conn)
    ensures var call := Call.GetFailsafeMask(mask);
      && Sound(call) && |mask| == sys.mirror.NbPins() < 0x100
      && 0 < CountOn(mask) <= |mask| <= 8 * Bits2Bytes(3 * CountOn(mask))
      && RequestHeader(call) == HeaderOf(CMD_GET_FAILSAFE, USE_MASK)
      && RequestBits(call) == MaskRequest(mask, Bits2Bytes(3 * CountOn(mask)))
  {
    hide HeaderOf, MaskRequest, Rank, Gather, Readable, TableAnswer, NbBits;
  }

  lemma GetFailsafeMaskReturns(sys: System, mask: seq<bool>, r: seq<bool>)
    requires Ready(sys) && Safe(Call.GetFailsafeMask(mask), sys.device.conn)
    requires Sound(Call.GetFailsafeMask(mask)) && Carried(Call.GetFailsafeMask(mask), sys)
    requires r == ReplyBits(Call.GetFailsafeMask(mask), sys)
    ensures var call, s := Call.GetFailsafeMask(mask), sys.mirror;
      && 24 <= |r| <= 4096 && Readable(r, 24, CountOn(mask)) && s.Ok() && |mask| == |s.failsafe|
      && MirrorOf(call, sys) == s.(failsafe := Scatter(s.failsafe, mask, TableRead(mask, sys)))
      && TableRead(mask, sys) == ReadTable(r, 24, CountOn(mask))
      && TimeoutRead(mask, sys) == ToUInt16(ReadBits(r, 8, 16))
  {
    hide Carried, MirrorOf, Scatter, Rank, Readable, ReadTable, ReplyData, Request, Serviceable, Ready, Safe, ReadBits;
    ReplyIsLongEnough(Call.GetFailsafeMask(mask), sys);
    ReplyIsShort(Call.GetFailsafeMask(mask), sys);
  }

  lemma ReplyIsShort(call: Call, sys: System)
    requires Sound(call) && Carried(call, sys)
    ensures |ReplyBits(call, sys)| <= 4096
  {
    hide Bits, ReplyData;
  }

  lemma SetFailsafeMaskSends(sys: System, mask: seq<bool>, mode: uint8, timeout: uint16, values: seq<uint16>)
    requires Ready(sys) && Safe(Call.SetFailsafeMask(mask, mode, timeout, values), sys.device.conn)
    ensures var call, n := Call.SetFailsafeMask(mask, mode, timeout, values), GetTypeBitsNb(mode);
      && Sound(call) && Listed(mask, values) && |mask| == sys.mirror.NbPins() && 1 <= n <= 16
      && RequestHeader(call) == HeaderOf(CMD_SET_FAILSAFE, ToUInt8(2 * (mode as int) + USE_MASK))
      && RequestBits(call) == FailsafeListRequest(timeout, mask, values, n)
  {
    hide HeaderOf, ToUInt8, FailsafeListRequest, FoundFits, Rank;
  }

  lemma SetFailsafeMaskStores(sys: System, mask: seq<bool>, mode: uint8, timeout: uint16, values: seq<uint16>)
    requires Sound(Call.SetFailsafeMask(mask, mode, timeout, values))
    requires Carried(Call.SetFailsafeMask(mask, mode, timeout, values), sys)
    ensures var call, s := Call.SetFailsafeMask(mask, mode, timeout, values), sys.mirror;
      && s.Ok() && |mask| == |s.failsafe| && |values| == CountOn(mask)
      && MirrorOf(call, sys) == s.(timeout := timeout, failsafe := Scatter(s.failsafe, mask, Entries(mode, values)))
  {
    hide Carried, ReplyBits, MirrorOf, Scatter, Rank, Entries;
    ReplyIsLongEnough(Call.SetFailsafeMask(mask, mode, timeout, values), sys);
  }

  // ---- the loop of `read_value_mask` ----

  /** The list of the caller and the connection once the pins below p have been handled. */
  predicate ReadSoFar(view: Conn, values: seq<uint16>, s: Conn, before: seq<uint16>, mask: seq<bool>,
      list: seq<uint16>, p: nat)
    requires |s.vals| == |mask| && |list| == CountOn(mask) <= |before| && p <= |mask|
  {
    && Rank(mask, p) <= |list|
    && values == list[..Rank(mask, p)] + before[Rank(mask, p)..]
    && view == s.(vals := ScatterBelow(s.vals, mask, list, p))
  }

  lemma NothingReadYet(s: Conn, before: seq<uint16>, mask: seq<bool>, list: seq<uint16>)
    requires |s.vals| == |mask| && |list| == CountOn(mask) <= |before|
    ensures ReadSoFar(s, before, s, before, mask, list, 0)
  {
    hide ScatterBelow;
    ScatterStarts(s.vals, mask, list);
  }

  lemma OneMoreRead(view: Conn, values: seq<uint16>, s: Conn, before: seq<uint16>, mask: seq<bool>, list: seq<uint16>,
      p: nat, next: nat)
    requires |s.vals| == |mask| && |list| == CountOn(mask) <= |before| && p <= next < |mask|
    requires ReadSoFar(view, values, s, before, mask, list, p) && mask[next] && forall k :: p <= k < next ==> !mask[k]
    ensures var i := Rank(mask, p);
      && i < |list| && i < |values| && next < |view.vals| && Rank(mask, next + 1) == i + 1
      && ReadSoFar(view.(vals := view.vals[next := list[i]]), values[i := list[i]], s, before, mask, list, next + 1)
  {
    hide ScatterBelow;
    ScatterStep(s.vals, mask, list, p, next);
  }

  lemma AllRead(view: Conn, values: seq<uint16>, s: Conn, before: seq<uint16>, mask: seq<bool>, list: seq<uint16>,
      p: nat)
    requires |s.vals| == |mask| && |list| == CountOn(mask) <= |before| && p <= |mask|
    requires ReadSoFar(view, values, s, before, mask, list, p) && forall k :: p <= k < |mask| ==> !mask[k]
    ensures values == list + before[|list|..] && view == s.(vals := Scatter(s.vals, mask, list))
  {
    hide ScatterBelow, Scatter;
    ScatterEnds(s.vals, mask, list, p);
  }

  // ---- the first call ----

  /** A connection after `get_caps`: the pins of the device, disabled, with whatever values the tables had. */
  function Announced(device: Conn, uninitialised: seq<uint16>): Conn {
    Conn(device.caps, seq(|device.caps|, _ => PIN_TYPE_DISABLED), uninitialised, 0,
         seq(|device.caps|, _ => DISABLED_PIN))
  }

  /** On a new device, that is where runs start. */
  lemma RunsStartHere(nbPins: uint8, version: uint8, uninitialised: seq<uint16>)
    requires |uninitialised| == nbPins
    ensures Runs.AfterCaps(nbPins, version, uninitialised)
      == System(Announced(FreshConn(nbPins), uninitialised), Device(FreshConn(nbPins), NextId(0), version))
  {
  }

  lemma AskingForCaps(d: Device, header: uint8, data: seq<uint8>)
    requires d.conn.Ok() && header == 0 && data == []
    ensures var m := Seal(header, data);
      && Serviceable(d, m) && Step(d, m) == d.(nextId := NextId(d.nextId))
      && ReplyData(d, m) == [d.nextId, d.conn.NbPins()] + d.conn.caps
  {
    hide Protocol.Valid, Bits, NextId;
  }

  /** A driver, and the device at the other end of its two files. */
  class Driver {
    const c: Connection
    const device: Firmware

    constructor (device: Firmware)
      ensures c.nbPins == 0 && c.protocolVersion == 0 && fresh(c) && fresh(c.failsafe) && this.device == device
    {
      c := new Connection(0);
      this.device := device;
    }

    predicate Linked()
      reads c, c.failsafe, device.c, device.c.failsafe
    {
      c.Valid() && device.c.Valid() && c != device.c && c.failsafe != device.c.failsafe
    }

    function Sys(): System
      requires Linked()
      reads c, c.failsafe, device.c, device.c.failsafe, device.ids
    {
      System(c.View(), device.View())
    }

    lemma SysIs()
      requires Linked()
      ensures Sys() == System(c.View(), device.View())
      ensures c.nbPins == c.View().NbPins()
    {
    }

    /** `send_packet` and `read_reply`, with a turn of the device in between. */
    method Transact(p: Packet) returns (reply: Packet)
      requires device.c.Valid() && p.Allocated() && p.size + OVERHEAD_SIZE <= BUFF_SIZE
      requires Serviceable(device.View(), Seal(p.header, p.data[..p.size]))
      modifies p, device.c`pinsState, device.c.failsafe, device.ids
      ensures device.c.Valid() && fresh(reply) && fresh(reply.data)
      ensures device.View() == Step(old(device.View()), old(Seal(p.header, p.data[..p.size])))
      ensures reply.data[..] == ReplyData(old(device.View()), old(Seal(p.header, p.data[..p.size])))
    {
      hide Seal, Serviceable, Received, Protocol.Valid, Step, ReplyData, Answered, CmdOf;
      ghost var m, d := Seal(p.header, p.data[..p.size]), device.View();
      ServedIsAnswered(d, m);
      var wire := SendPacket(p);
      RequestArrives(m, wire);
      var running, answer := device.Serve(wire);
      RequestArrives(ReplyTo(d, m), answer);
      reply := new Packet();
      var n := ConnectionRead(answer, reply);
      assert reply.data[..reply.size] == reply.data[..];
    }

    /** A request in a buffer, sent under its header. */
    method Ask(ghost call: Call, cmd: uint8, param: uint8, buffer: array<uint8>) returns (reply: Packet)
      requires Linked() && Ready(Sys()) && Safe(call, Sys().device.conn)
      requires HeaderOf(cmd, param) == RequestHeader(call) && Sound(call) && Bits(buffer[..]) == RequestBits(call)
      modifies device.c`pinsState, device.c.failsafe, device.ids
      ensures Linked() && c.View() == old(c.View()) && fresh(reply) && fresh(reply.data)
      ensures Carried(call, old(Sys())) && Bits(reply.data[..]) == ReplyBits(call, old(Sys()))
      ensures device.View() == Step(old(device.View()), Request(call))
    {
      hide Bits, Seal, Serviceable, Step, ReplyData, Ready, Safe, Sound, RequestBits, RequestHeader, ReplyOk, Addresses;
      var p := new Packet();
      p.SetHeader(cmd, param, buffer.Length);
      p.data := buffer;
      assert p.data[..p.size] == buffer[..];
      SafeIsCarried(call, Sys());
      RequestIs(call, p.header, buffer[..]);
      reply := Transact(p);
    }

    /** The tables are allocated for the pins that the device announces; their values are not initialised. */
    method GetCaps()
      requires c != device.c && device.c.Valid()
      modifies c, device.c`pinsState, device.c.failsafe, device.ids
      ensures Linked()
      ensures device.View() == old(device.View()).(nextId := NextId(old(device.View()).nextId))
      ensures c.View() == Announced(old(device.View()).conn, c.View().vals)
      ensures c.nbPins == old(device.c.nbPins) && c.pinsMaskType == old(device.c.pinsMaskType)
      ensures forall p :: 0 <= p < c.nbPins ==> c.pinsState[p].pinsType == 7 && c.failsafe.pins[p] == PinFailsafe(7, 0)
      ensures c.failsafe.timeout == 0
    {
      hide Bits, ReadBits, Protocol.Valid, NextId;
      ghost var d := device.View();
      var p := new Packet();
      p.SetHeader(CMD_GET_CAPS, 0, 0);
      AskingForCaps(d, p.header, p.data[..p.size]);
      var reply := Transact(p);
      var nbPins := ReadNbPins(reply.data);
      c.nbPins := nbPins;
      c.InitResources();
      ReadDeviceCaps(reply.data, d.conn);
      assert c.View().types == seq(nbPins, _ => PIN_TYPE_DISABLED);
    }

    /** The device answers with its version and takes an identifier. */
    method Ping() returns (deviceProtocolVersion: uint8)
      requires c != device.c && device.c.Valid()
      modifies device.c`pinsState, device.c.failsafe, device.ids
      ensures device.c.Valid() && device.c.View() == old(device.c.View())
      ensures deviceProtocolVersion == device.c.protocolVersion
      ensures device.ids.next == if old(device.ids.next) == 255 then 16 else old(device.ids.next) + 1
    {
      hide Bits, ReadBits, WriteBits, Protocol.Valid, NextId;
      ghost var d := device.View();
      NextInNumbers(d.nextId);
      var p := new Packet();
      p.SetHeader(CMD_PING, 0, 1);
      p.data := NewBuffer(1);
      WriteBitValue(p.data, 0, 0, c.protocolVersion, 8);
      PingServed(d, Seal(p.header, p.data[..p.size]));
      var reply := Transact(p);
      var v := ReadBitValue(reply.data, 1, 0, 8);
      ByteFields.ReadOfByte(reply.data[..], 1);
      deviceProtocolVersion := ToUInt8(v);
    }

    method ReadNbPins(data: array<uint8>) returns (nbPins: uint8)
      requires data.Length >= 2
      ensures nbPins == data[1]
    {
      hide Bits, ReadBits;
      var v := ReadBitValue(data, 0, REPLY_ID_BITS_NB, 8);
      ByteFields.ReadOfByte(data[..], 1);
      nbPins := ToUInt8(v);
    }

    /** `read_device_caps` */
    method ReadDeviceCaps(data: array<uint8>, ghost announced: Conn)
      requires c.Valid() && data.Length >= 2 && data[..][1..] == [c.nbPins] + announced.caps
      requires |announced.caps| == c.nbPins
      modifies c`pinsMaskType
      ensures c.Valid() && c.pinsMaskType == announced.caps
    {
      var nbPins := ReadNbPins(data);
      var caps: seq<uint8> := [];
      for i := 0 to nbPins
        invariant caps == announced.caps[..i]
      {
        assert data[i + 2] == data[..][1..][i + 1] == announced.caps[i];
        caps := caps + [data[i + 2]];
      }
      c.pinsMaskType := caps;
    }

    method NewBuffer(dataBytes: nat) returns (buffer: array<uint8>)
      ensures fresh(buffer) && buffer.Length == dataBytes && Bits(buffer[..]) == Zeros(8 * dataBytes)
    {
      buffer := new uint8[dataBytes];
      InitPacket(buffer, dataBytes);
      BitsOfZeros(buffer[..]);
    }

    // Storing in the connection does not touch the device.

    method StoreValue(pinId: nat, val: uint16)
      requires Linked() && pinId < c.nbPins
      modifies c`pinsState
      ensures Linked() && device.View() == old(device.View())
      ensures c.View() == old(c.View()).(vals := old(c.View()).vals[pinId := val])
      ensures c.pinsState[pinId].pinsVal == val
    {
      c.StoreValue(pinId, val);
    }

    method StoreType(pinId: nat, pinType: uint8)
      requires Linked() && pinId < c.nbPins
      modifies c`pinsState
      ensures Linked() && device.View() == old(device.View())
      ensures c.View() == old(c.View()).(types := old(c.View()).types[pinId := pinType])
      ensures c.pinsState[pinId].pinsType == pinType
    {
      c.StoreType(pinId, pinType);
    }

    method StoreFailsafe(pinNo: nat, timeout: uint16, f: PinFailsafe)
      requires Linked() && pinNo < c.nbPins
      modifies c.failsafe
      ensures Linked() && device.View() == old(device.View()) && pinNo < |old(c.View()).failsafe|
      ensures c.View() == old(c.View()).(timeout := timeout, failsafe := old(c.View()).failsafe[pinNo := f])
    {
      c.failsafe.timeout := timeout;
      c.failsafe.pins := c.failsafe.pins[pinNo := f];
    }

    /** The value that follows the identifier of a reply. */
    method ReadAnswerField(data: array<uint8>, valSize: uint8) returns (v: int16)
      requires 1 <= valSize <= 16 && 8 + valSize <= |Bits(data[..])|
      ensures v == ReadBits(Bits(data[..]), 8, valSize)
    {
      hide ReadBits;
      v := ReadBitValue(data, 0, REPLY_ID_BITS_NB, valSize);
    }

    lemma Conclude(call: Call, sys: System)
      requires Linked() && Ready(sys) && Safe(call, sys.device.conn) && Sound(call) && Carried(call, sys)
      requires c.View() == MirrorOf(call, sys) && device.View() == Step(sys.device, Request(call))
      ensures Sys() == Exec(call, sys)
    {
      SysIs();
      hide *;
      ExecBy(call, sys, c.View(), device.View());
    }

    method PinBuffer(pinId: uint8) returns (buffer: array<uint8>)
      ensures fresh(buffer) && Bits(buffer[..]) == PinRequest(pinId)
    {
      hide Bits, WriteBits;
      buffer := NewBuffer(1);
      WriteBitValue(buffer, 0, 0, pinId, 8);
    }

    method PinValueBuffer(pinId: uint8, val: int16, valSize: uint8) returns (buffer: array<uint8>)
      requires 1 <= valSize <= 16
      ensures fresh(buffer) && Bits(buffer[..]) == ValueRequest(pinId, val, valSize)
    {
      hide Bits, WriteBits;
      buffer := NewBuffer(Bits2Bytes(8 + (valSize as int)));
      WriteBitValue(buffer, 0, 0, pinId, 8);
      WriteBitValue(buffer, 0, 8, val, valSize);
    }

    method GenericRead(pinId: uint8, pinMode: uint8) returns (val: uint16)
      requires Linked() && Ready(Sys()) && Safe(Call.GenericRead(pinId, pinMode), Sys().device.conn)
      modifies c`pinsState, device.c`pinsState, device.c.failsafe, device.ids
      ensures Linked() && Sys() == Exec(Call.GenericRead(pinId, pinMode), old(Sys()))
      ensures pinId < c.nbPins && val == c.pinsState[pinId].pinsVal
    {
      hide *;
      ghost var call, sys := Call.GenericRead(pinId, pinMode), Sys();
      SysIs();
      GenericReadSends(sys, pinId, pinMode);
      var buffer := PinBuffer(pinId);
      var reply := Ask(call, CMD_READ, ToUInt8(2 * (pinMode as int) + USE_PIN_ID), buffer);
      var typeBitsNb := GetTypeBitsNb(pinMode);
      GenericReadStores(sys, pinId, pinMode, Bits(reply.data[..]));
      var v := ReadAnswerField(reply.data, typeBitsNb);
      val := ToUInt16(v);
      StoreValue(pinId, val);
      Conclude(call, sys);
    }

    method GenericWrite(pinId: uint8, pinMode: uint8, val: int16)
      requires Linked() && Ready(Sys()) && Safe(Call.GenericWrite(pinId, pinMode, val), Sys().device.conn)
      modifies c`pinsState, device.c`pinsState, device.c.failsafe, device.ids
      ensures Linked() && Sys() == Exec(Call.GenericWrite(pinId, pinMode, val), old(Sys()))
    {
      hide *;
      ghost var call, sys := Call.GenericWrite(pinId, pinMode, val), Sys();
      SysIs();
      GenericWriteSends(sys, pinId, pinMode, val);
      var buffer := PinValueBuffer(pinId, val, GetTypeBitsNb(pinMode));
      var _ := Ask(call, CMD_WRITE, ToUInt8(2 * (pinMode as int) + USE_PIN_ID), buffer);
      GenericWriteStores(sys, pinId, pinMode, val);
      StoreValue(pinId, ToUInt16(val));
      Conclude(call, sys);
    }

    method GetType(pinId: uint8) returns (pinType: uint8)
      requires Linked() && Ready(Sys()) && Safe(Call.GetType(pinId), Sys().device.conn)
      modifies c`pinsState, device.c`pinsState, device.c.failsafe, device.ids
      ensures Linked() && Sys() == Exec(Call.GetType(pinId), old(Sys()))
      ensures pinId < c.nbPins && pinType == c.pinsState[pinId].pinsType
    {
      assert PIN_TYPE_BITS_NB == 3;
      hide *;
      ghost var call, sys := Call.GetType(pinId), Sys();
      SysIs();
      GetTypeSends(sys, pinId);
      var buffer := PinBuffer(pinId);
      var reply := Ask(call, CMD_GET_TYPE, USE_PIN_ID, buffer);
      GetTypeStores(sys, pinId, Bits(reply.data[..]));
      var v := ReadAnswerField(reply.data, PIN_TYPE_BITS_NB);
      pinType := ToUInt8(v);
      StoreType(pinId, pinType);
      Conclude(call, sys);
    }

    method SetType(pinId: uint8, pinType: uint8)
      requires Linked() && Ready(Sys()) && Safe(Call.SetType(pinId, pinType), Sys().device.conn)
      modifies c`pinsState, device.c`pinsState, device.c.failsafe, device.ids
      ensures Linked() && Sys() == Exec(Call.SetType(pinId, pinType), old(Sys()))
    {
      assert PIN_TYPE_BITS_NB == 3;
      hide *;
      ghost var call, sys := Call.SetType(pinId, pinType), Sys();
      SysIs();
      SetTypeSends(sys, pinId, pinType);
      var buffer := PinValueBuffer(pinId, pinType, PIN_TYPE_BITS_NB);
      var _ := Ask(call, CMD_SET_TYPE, USE_PIN_ID, buffer);
      SetTypeStores(sys, pinId, pinType);
      StoreType(pinId, pinType);
      Conclude(call, sys);
    }

    /** The entry of a reply, behind its identifier and the timeout. */
    method ReadEntry(data: array<uint8>) returns (f: PinFailsafe)
      requires HoldsEntry(Bits(data[..]))
      ensures f == PinAt(Bits(data[..]), 24)
    {
      hide Bits, ReadBits;
      var offset: nat := 24;
      var pinState := ReadBitValue(data, 0, offset, PIN_TYPE_BITS_NB);
      offset := offset + PIN_TYPE_BITS_NB;
      var pinValue := ReadBitValue(data, 0, offset, GetTypeBitsNb(ToUInt8(pinState)));
      f := PinFailsafe(ToUInt8(pinState), ToUInt16(pinValue));
    }

    method GetFailsafe(pinId: uint8) returns (f: PinFailsafe)
      requires Linked() && Ready(Sys()) && Safe(Call.GetFailsafe(pinId), Sys().device.conn)
      modifies device.c`pinsState, device.c.failsafe, device.ids
      ensures Linked() && Sys() == Exec(Call.GetFailsafe(pinId), old(Sys()))
      ensures f == EntryRead(pinId, old(Sys()))
    {
      hide *;
      ghost var call, sys := Call.GetFailsafe(pinId), Sys();
      SysIs();
      GetFailsafeSends(sys, pinId);
      var buffer := PinBuffer(pinId);
      var reply := Ask(call, CMD_GET_FAILSAFE, USE_PIN_ID, buffer);
      GetFailsafeReturns(sys, pinId, Bits(reply.data[..]));
      f := ReadEntry(reply.data);
      Conclude(call, sys);
    }

    method FailsafeBuffer(timeout: uint16, pinNo: uint8, pinValue: uint16,
        typeBits: uint8) returns (buffer: array<uint8>)
      requires typeBits == 8 || typeBits == 16
      ensures fresh(buffer) && Bits(buffer[..]) == FailsafeRequest(timeout, pinNo, pinValue, typeBits)
    {
      hide Bits, WriteBits, ToInt16;
      buffer := NewBuffer(Bits2Bytes(16 + 1 + (typeBits as int)));
      WriteBitValue(buffer, 0, 0, ToInt16(timeout), 16);
      WriteBitValue(buffer, 0, 16, pinNo, 8);
      WriteBitValue(buffer, 0, 24, ToInt16(pinValue), typeBits);
    }

    method SetFailsafe(pinNo: uint8, timeout: uint16, f: PinFailsafe)
      requires Linked() && Ready(Sys()) && Safe(Call.SetFailsafe(pinNo, timeout, f), Sys().device.conn)
      modifies c.failsafe, device.c`pinsState, device.c.failsafe, device.ids
      ensures Linked() && Sys() == Exec(Call.SetFailsafe(pinNo, timeout, f), old(Sys()))
    {
      hide *;
      ghost var call, sys := Call.SetFailsafe(pinNo, timeout, f), Sys();
      SysIs();
      SetFailsafeSends(sys, pinNo, timeout, f);
      var buffer := FailsafeBuffer(timeout, pinNo, f.pinValue, GetTypeBitsNb(f.pinState));
      var _ := Ask(call, CMD_SET_FAILSAFE, ToUInt8(2 * (f.pinState as int) + USE_PIN_ID), buffer);
      SetFailsafeStores(sys, pinNo, timeout, f);
      StoreFailsafe(pinNo, timeout, f);
      Conclude(call, sys);
    }

    // ---- masked calls ----

    /** A buffer that starts with the first maskLength pins of a mask. */
    method MaskBuffer(mask: seq<bool>, maskLength: nat, dataBytes: nat) returns (buffer: array<uint8>)
      requires maskLength <= |mask| < 0x100 && maskLength <= 8 * dataBytes && 0 < dataBytes <= 544
      ensures fresh(buffer) && Bits(buffer[..]) == MaskRequest(mask[..maskLength], dataBytes)
    {
      hide Bits, OrMask, Zeros;
      buffer := NewBuffer(dataBytes);
      var _ := WriteMask(buffer, 0, mask, maskLength);
    }

    /** A buffer that holds a mask and a value for each of its pins. */
    method ListBuffer(mask: seq<bool>, values: seq<uint16>, valSize: uint8) returns (buffer: array<uint8>)
      requires Listed(mask, values) && 1 <= valSize <= 16
      ensures fresh(buffer) && Bits(buffer[..]) == ListRequest(mask, values, valSize)
    {
      hide Bits, OrMask, Zeros, WriteList, Rank, Span;
      var nbPins := |mask|;
      var nbPinsUsed := MaskNbPinsUsed(mask, nbPins);
      SpanIsProduct(nbPinsUsed, valSize);
      SpanLimit(nbPinsUsed, valSize);
      var dataBits := nbPins + nbPinsUsed * (valSize as int);
      buffer := NewBuffer(Bits2Bytes(dataBits));
      var _ := WriteMask(buffer, 0, mask, nbPins);
      if nbPinsUsed > 0 {
        FieldByte(nbPins, nbPinsUsed - 1, nbPinsUsed, valSize, buffer.Length);
        FieldInside(nbPinsUsed - 1, nbPinsUsed, valSize);
      }
      assert mask[..nbPins] == mask && values[..nbPinsUsed] == values;
      WriteValueList(buffer, nbPins, values, nbPinsUsed, valSize);
    }

    /** A buffer that holds a timeout, a mask and a value for each of its pins. */
    method FailsafeListBuffer(timeout: uint16, mask: seq<bool>, values: seq<uint16>, valSize: uint8)
      returns (buffer: array<uint8>)
      requires Listed(mask, values) && 1 <= valSize <= 16
      ensures fresh(buffer) && Bits(buffer[..]) == FailsafeListRequest(timeout, mask, values, valSize)
    {
      hide Bits, OrMask, Zeros, WriteList, WriteBits, Rank, Span, ToInt16;
      var nbPins := |mask|;
      var nbPinsUsed := MaskNbPinsUsed(mask, nbPins);
      SpanIsProduct(nbPinsUsed, valSize);
      SpanLimit(nbPinsUsed, valSize);
      var dataBits := 16 + nbPins + nbPinsUsed * (valSize as int);
      buffer := NewBuffer(Bits2Bytes(dataBits));
      WriteBitValue(buffer, 0, 0, ToInt16(timeout), 16);
      var _ := WriteMask(buffer, 2, mask, nbPins);
      if nbPinsUsed > 0 {
        FieldByte(16 + nbPins, nbPinsUsed - 1, nbPinsUsed, valSize, buffer.Length);
        FieldInside(nbPinsUsed - 1, nbPinsUsed, valSize);
      }
      assert mask[..nbPins] == mask && values[..nbPinsUsed] == values;
      WriteValueList(buffer, 16 + nbPins, values, nbPinsUsed, valSize);
    }

    /** The loop of `write_value_mask` over the pins of its mask. */
    method StoreValues(mask: seq<bool>, values: seq<uint16>)
      requires Linked() && |mask| == c.nbPins && |values| == CountOn(mask)
      modifies c`pinsState
      ensures Linked() && device.View() == old(device.View()) && |old(c.View()).vals| == |mask|
      ensures c.View() == old(c.View()).(vals := Scatter(old(c.View()).vals, mask, values))
    {
      ghost var s := c.View();
      assert |s.vals| == |mask|;
      hide Scatter, ScatterBelow, Rank, Connection.View;
      var pinIndex, index := 0, 0;
      ScatterStarts(s.vals, mask, values);
      while true
        invariant Linked() && device.View() == old(device.View())
        invariant 0 <= pinIndex <= |mask| && index == Rank(mask, pinIndex)
        invariant c.View() == s.(vals := ScatterBelow(s.vals, mask, values, pinIndex))
        decreases |mask| - pinIndex
      {
        var next := MaskNextPinUsed(mask, pinIndex, |mask|);
        if next == -1 {
          ScatterEnds(s.vals, mask, values, pinIndex);
          break;
        }
        ScatterStep(s.vals, mask, values, pinIndex, next);
        StoreValue(next, values[index]);
        index := index + 1;
        pinIndex := next + 1;
      }
    }

    /** The loop of `get_type_mask` and of `set_type_mask`. */
    method StoreTypes(mask: seq<bool>, types: seq<uint16>)
      requires Linked() && |mask| == c.nbPins && |types| == CountOn(mask)
      modifies c`pinsState
      ensures Linked() && device.View() == old(device.View()) && |old(c.View()).types| == |mask|
      ensures c.View() == old(c.View()).(types := Scatter(old(c.View()).types, mask, LowBytes(types)))
    {
      ghost var s := c.View();
      assert |s.types| == |mask|;
      hide Scatter, ScatterBelow, Rank, Connection.View;
      var pinIndex, index := 0, 0;
      ScatterStarts(s.types, mask, LowBytes(types));
      while true
        invariant Linked() && device.View() == old(device.View())
        invariant 0 <= pinIndex <= |mask| && index == Rank(mask, pinIndex)
        invariant c.View() == s.(types := ScatterBelow(s.types, mask, LowBytes(types), pinIndex))
        decreases |mask| - pinIndex
      {
        var next := MaskNextPinUsed(mask, pinIndex, |mask|);
        if next == -1 {
          ScatterEnds(s.types, mask, LowBytes(types), pinIndex);
          break;
        }
        ScatterStep(s.types, mask, LowBytes(types), pinIndex, next);
        StoreType(next, ToUInt8(types[index]));
        index := index + 1;
        pinIndex := next + 1;
      }
    }

    /** The loop of `get_failsafe_mask` and of `set_failsafe_mask`. */
    method StoreEntries(mask: seq<bool>, entries: seq<PinFailsafe>)
      requires Linked() && |mask| == c.nbPins && |entries| == CountOn(mask)
      modifies c.failsafe`pins
      ensures Linked() && device.View() == old(device.View()) && |old(c.View()).failsafe| == |mask|
      ensures c.View() == old(c.View()).(failsafe := Scatter(old(c.View()).failsafe, mask, entries))
    {
      ghost var s := c.View();
      hide Scatter, ScatterBelow, Rank;
      var pinIndex, index := 0, 0;
      ScatterStarts(s.failsafe, mask, entries);
      while true
        invariant Linked() && device.View() == old(device.View())
        invariant 0 <= pinIndex <= |mask| && index == Rank(mask, pinIndex)
        invariant c.failsafe.pins == ScatterBelow(s.failsafe, mask, entries, pinIndex)
        decreases |mask| - pinIndex
      {
        var next := MaskNextPinUsed(mask, pinIndex, |mask|);
        if next == -1 {
          ScatterEnds(s.failsafe, mask, entries, pinIndex);
          break;
        }
        ScatterStep(s.failsafe, mask, entries, pinIndex, next);
        c.failsafe.pins := c.failsafe.pins[next := entries[index]];
        index := index + 1;
        pinIndex := next + 1;
      }
    }

    /** The k-th value of a reply, at the offset that the loop has reached. */
    method ReadListedValue(data: array<uint8>, offset: nat, ghost k: nat, ghost count: nat, valBits: uint8)
      returns (v: uint16)
      requires 1 <= valBits <= 16 && k < count < 0x100 && offset == 8 + Span(k, valBits)
      requires 8 + Span(count, valBits) <= |Bits(data[..])|
      ensures v == ReadList(Bits(data[..]), 8, count, valBits)[k]
    {
      hide Span, Bits, ReadBits, ReadList;
      SpanLimit(count, valBits);
      FieldByte(8, k, count, valBits, data.Length);
      FieldInside(k, count, valBits);
      ReadListField(Bits(data[..]), 8, count, valBits, k);
      var w := ReadBitValue(data, 0, offset, valBits);
      v := ToUInt16(w);
    }

    /** One turn of the loop of `read_value_mask`: a value goes to the list of the caller and to the connection. */
    method ReadValue(data: array<uint8>, offset: nat, valBits: uint8, pinIndex: nat, values: array<uint16>, index: nat,
        ghost count: nat)
      requires Linked() && pinIndex < c.nbPins && index < count <= values.Length && count < 0x100
      requires 1 <= valBits <= 16 && offset == 8 + Span(index, valBits) && 8 + Span(count, valBits) <= |Bits(data[..])|
      modifies c`pinsState, values
      ensures Linked() && device.View() == old(device.View()) && pinIndex < |old(c.View()).vals|
      ensures values[..] == old(values[..])[index := ReadList(Bits(data[..]), 8, count, valBits)[index]]
      ensures c.View() == old(c.View()).(vals := old(c.View()).vals[pinIndex := values[index]])
    {
      hide Bits, ReadList, Span, Connection.View;
      values[index] := ReadListedValue(data, offset, index, count, valBits);
      StoreValue(pinIndex, values[index]);
    }

    lemma TablesAreSized()
      requires Linked()
      ensures |c.View().vals| == c.nbPins < 0x100
    {
    }

    method ReadValues(data: array<uint8>, mask: seq<bool>, valBits: uint8, values: array<uint16>)
      requires Linked() && |mask| == c.nbPins && CountOn(mask) <= values.Length && 1 <= valBits <= 16
      requires 8 + Span(CountOn(mask), valBits) <= |Bits(data[..])|
      modifies c`pinsState, values
      ensures Linked() && device.View() == old(device.View()) && |old(c.View()).vals| == |mask|
      ensures values[..] == ReadList(Bits(data[..]), 8, CountOn(mask), valBits) + old(values[CountOn(mask)..])
      ensures c.View() == old(c.View()).(vals := Scatter(old(c.View()).vals, mask, values[..CountOn(mask)]))
    {
      hide Rank, CountOn, Span, Bits, ReadList, Scatter, Connection.View, Connection.Valid, Firmware.View, ReadSoFar;
      ghost var s, bytes, count, before := c.View(), data[..], CountOn(mask), values[..];
      ghost var list := ReadList(Bits(bytes), 8, count, valBits);
      TablesAreSized();
      CountIs(mask);
      var pinIndex, index, offset: nat := 0, 0, REPLY_ID_BITS_NB;
      NothingReadYet(s, before, mask, list);
      RankStarts(mask, valBits);
      while true
        invariant data[..] == bytes && Linked() && device.View() == old(device.View())
        invariant 0 <= pinIndex <= |mask| && index == Rank(mask, pinIndex) <= count
        invariant offset == 8 + Span(index, valBits)
        invariant ReadSoFar(c.View(), values[..], s, before, mask, list, pinIndex)
        decreases |mask| - pinIndex
      {
        var next := MaskNextPinUsed(mask, pinIndex, |mask|);
        if next == -1 {
          AllRead(c.View(), values[..], s, before, mask, list, pinIndex);
          break;
        }
        OneMoreRead(c.View(), values[..], s, before, mask, list, pinIndex, next);
        SpanStep(index, valBits);
        ReadValue(data, offset, valBits, next, values, index, count);
        offset := offset + valBits;
        index := index + 1;
        pinIndex := next + 1;
      }
    }

    method ReadValueMask(mask: seq<bool>, mode: uint8, values: array<uint16>)
      requires Linked() && Ready(Sys()) && Safe(Call.ReadValueMask(mask, mode), Sys().device.conn)
      requires CountOn(mask) <= values.Length
      modifies c`pinsState, values, device.c`pinsState, device.c.failsafe, device.ids
      ensures Linked() && Sys() == Exec(Call.ReadValueMask(mask, mode), old(Sys()))
      ensures values[..CountOn(mask)] == ValuesRead(mask, mode, old(Sys()))
      ensures values[CountOn(mask)..] == old(values[CountOn(mask)..])
    {
      hide *;
      ghost var call, sys := Call.ReadValueMask(mask, mode), Sys();
      SysIs();
      ReadValueMaskSends(sys, mask, mode);
      BytesOf(|mask|);
      var buffer := MaskBuffer(mask, c.nbPins, Bits2Bytes(c.nbPins));
      assert mask[..|mask|] == mask;
      var reply := Ask(call, CMD_READ, ToUInt8(2 * (mode as int) + USE_MASK), buffer);
      ReadValueMaskReturns(sys, mask, mode, Bits(reply.data[..]));
      ReadValues(reply.data, mask, GetTypeBitsNb(mode), values);
      Conclude(call, sys);
    }

    method WriteValueMask(mask: seq<bool>, mode: uint8, values: seq<uint16>)
      requires Linked() && Ready(Sys()) && Safe(Call.WriteValueMask(mask, mode, values), Sys().device.conn)
      modifies c`pinsState, device.c`pinsState, device.c.failsafe, device.ids
      ensures Linked() && Sys() == Exec(Call.WriteValueMask(mask, mode, values), old(Sys()))
    {
      hide *;
      ghost var call, sys := Call.WriteValueMask(mask, mode, values), Sys();
      SysIs();
      WriteValueMaskSends(sys, mask, mode, values);
      var buffer := ListBuffer(mask, values, GetTypeBitsNb(mode));
      var _ := Ask(call, CMD_WRITE, ToUInt8(2 * (mode as int) + USE_MASK), buffer);
      WriteValueMaskStores(sys, mask, mode, values);
      StoreValues(mask, values);
      Conclude(call, sys);
    }

    method GetTypeMask(mask: seq<bool>, types: array<uint16>)
      requires Linked() && Ready(Sys()) && Safe(Call.GetTypeMask(mask), Sys().device.conn)
      requires CountOn(mask) <= types.Length
      modifies c`pinsState, types, device.c`pinsState, device.c.failsafe, device.ids
      ensures Linked() && Sys() == Exec(Call.GetTypeMask(mask), old(Sys()))
      ensures types[..CountOn(mask)] == TypesRead(mask, old(Sys()))
      ensures types[CountOn(mask)..] == old(types[CountOn(mask)..])
    {
      assert PIN_TYPE_BITS_NB == 3 && REPLY_ID_BITS_NB == 8;
      hide *;
      ghost var call, sys := Call.GetTypeMask(mask), Sys();
      SysIs();
      GetTypeMaskSends(sys, mask);
      BytesOf(|mask| - 1);
      var buffer := MaskBuffer(mask, |mask| - 1, Bits2Bytes(|mask| - 1));
      var reply := Ask(call, CMD_GET_TYPE, USE_MASK, buffer);
      GetTypeMaskStores(sys, mask, Bits(reply.data[..]));
      var nbPinsUsed := MaskNbPinsUsed(mask, |mask|);
      CountIs(mask);
      SpanLimit(nbPinsUsed, 3);
      ReadValueList(reply.data, REPLY_ID_BITS_NB, types, nbPinsUsed, PIN_TYPE_BITS_NB);
      StoreTypes(mask, types[..nbPinsUsed]);
      Conclude(call, sys);
    }

    method SetTypeMask(mask: seq<bool>, values: seq<uint16>)
      requires Linked() && Ready(Sys()) && Safe(Call.SetTypeMask(mask, values), Sys().device.conn)
      modifies c`pinsState, device.c`pinsState, device.c.failsafe, device.ids
      ensures Linked() && Sys() == Exec(Call.SetTypeMask(mask, values), old(Sys()))
    {
      assert PIN_TYPE_BITS_NB == 3;
      hide *;
      ghost var call, sys := Call.SetTypeMask(mask, values), Sys();
      SysIs();
      SetTypeMaskSends(sys, mask, values);
      var buffer := ListBuffer(mask, values, PIN_TYPE_BITS_NB);
      var _ := Ask(call, CMD_SET_TYPE, USE_MASK, buffer);
      SetTypeMaskStores(sys, mask, values);
      StoreTypes(mask, values);
      Conclude(call, sys);
    }

    method GetFailsafeMask(mask: seq<bool>, f: Failsafe)
      requires Linked() && Ready(Sys()) && Safe(Call.GetFailsafeMask(mask), Sys().device.conn)
      requires f != c.failsafe && f != device.c.failsafe && |f.pins| == CountOn(mask)
      modifies c.failsafe, f, device.c`pinsState, device.c.failsafe, device.ids
      ensures Linked() && Sys() == Exec(Call.GetFailsafeMask(mask), old(Sys()))
      ensures f.timeout == TimeoutRead(mask, old(Sys())) && f.pins == TableRead(mask, old(Sys()))
    {
      hide *;
      ghost var call, sys := Call.GetFailsafeMask(mask), Sys();
      SysIs();
      GetFailsafeMaskSends(sys, mask);
      var nbPinsUsed := MaskNbPinsUsed(mask, |mask|);
      CountIs(mask);
      BytesOf(3 * nbPinsUsed);
      var buffer := MaskBuffer(mask, c.nbPins, Bits2Bytes(nbPinsUsed * 3));
      assert mask[..|mask|] == mask;
      var reply := Ask(call, CMD_GET_FAILSAFE, USE_MASK, buffer);
      GetFailsafeMaskReturns(sys, mask, Bits(reply.data[..]));
      var timeout := ReadAnswerField(reply.data, 16);
      f.timeout := ToUInt16(timeout);
      f.ReadFailsafe(reply.data, 24);
      StoreEntries(mask, f.pins);
      Conclude(call, sys);
    }

    method SetFailsafeMask(mask: seq<bool>, mode: uint8, timeout: uint16, values: seq<uint16>)
      requires Linked() && Ready(Sys()) && Safe(Call.SetFailsafeMask(mask, mode, timeout, values), Sys().device.conn)
      modifies c.failsafe, device.c`pinsState, device.c.failsafe, device.ids
      ensures Linked() && Sys() == Exec(Call.SetFailsafeMask(mask, mode, timeout, values), old(Sys()))
    {
      hide *;
      ghost var call, sys := Call.SetFailsafeMask(mask, mode, timeout, values), Sys();
      SysIs();
      SetFailsafeMaskSends(sys, mask, mode, timeout, values);
      var buffer := FailsafeListBuffer(timeout, mask, values, GetTypeBitsNb(mode));
      var _ := Ask(call, CMD_SET_FAILSAFE, ToUInt8(2 * (mode as int) + USE_MASK), buffer);
      SetFailsafeMaskStores(sys, mask, mode, timeout, values);
      StoreTimeout(timeout);
      StoreEntries(mask, Entries(mode, values));
      Conclude(call, sys);
    }

    method StoreTimeout(timeout: uint16)
      requires Linked()
      modifies c.failsafe`timeout
      ensures Linked() && device.View() == old(device.View()) && c.View() == old(c.View()).(timeout := timeout)
    {
      c.failsafe.timeout := timeout;
    }
  }

  lemma ReplyIsLongEnough(call: Call, sys: System)
    requires Sound(call) && Carried(call, sys)
    ensures Addresses(call, sys.mirror) && ReplyOk(call, ReplyBits(call, sys))
    ensures MirrorOf(call, sys) == MirrorAfter(call, sys.mirror, ReplyBits(call, sys))
  {
    hide Sound, Serviceable, Addresses, ReplyOk, Request;
  }

  lemma RankStarts(m: seq<bool>, n: nat)
    ensures Rank(m, 0) == 0 && REPLY_ID_BITS_NB == 8 + Span(0, n)
  {
  }

  lemma SpanStep(k: nat, n: nat)
    ensures Span(k + 1, n) == Span(k, n) + n
  {
  }

  lemma CountIs(mask: seq<bool>)
    ensures CountOn(mask) == Rank(mask, |mask|) <= |mask|
  {
  }

  lemma BytesOf(bits: nat)
    requires 0 < bits <= 4352
    ensures 0 < Bits2Bytes(bits) <= 544 && bits <= 8 * Bits2Bytes(bits)
  {
  }
}
