/** src/connection.c: the connection both peers keep, and the packets going through it. */
module Connections {
  import opened Words
  import opened HeaderFields
  import opened Protocol
  import opened DeviceState
  import opened Failsafes

  /** Size of the receive buffer of the driver and of the local firmware. */
  const BUFF_SIZE: nat := 612

  /** The value of a connection: the type and the value of each pin, and its failsafe table. */
  datatype Conn = Conn(caps: seq<uint8>, types: seq<uint8>, vals: seq<uint16>, timeout: uint16,
      failsafe: seq<PinFailsafe>) {
    function NbPins(): nat {
      |types|
    }

    predicate Ok() {
      |caps| == |vals| == |failsafe| == |types| < 0x100
    }
  }

  function TypesOf(pins: seq<PinState>): (r: seq<uint8>)
    ensures |r| == |pins|
  {
    seq(|pins|, p requires 0 <= p < |pins| => pins[p].pinsType)
  }

  function ValsOf(pins: seq<PinState>): (r: seq<uint16>)
    ensures |r| == |pins|
  {
    seq(|pins|, p requires 0 <= p < |pins| => pins[p].pinsVal)
  }

  /** Storing the type or the value of a pin changes one column of the table. */
  lemma ColumnUpdates(pins: seq<PinState>, p: nat, t: uint8, v: uint16)
    requires p < |pins|
    ensures TypesOf(pins[p := pins[p].(pinsType := t)]) == TypesOf(pins)[p := t]
    ensures ValsOf(pins[p := pins[p].(pinsType := t)]) == ValsOf(pins)
    ensures TypesOf(pins[p := pins[p].(pinsVal := v)]) == TypesOf(pins)
    ensures ValsOf(pins[p := pins[p].(pinsVal := v)]) == ValsOf(pins)[p := v]
  {
    assert forall u: PinState :: u.pinsVal == pins[p].pinsVal ==> ValsOf(pins[p := u]) == ValsOf(pins);
  }

  /** `struct connection`, without the file descriptors. */
  class Connection {
    var protocolVersion: uint8
    var nbPins: uint8
    var pinsMaskType: seq<uint8>
    var pinsState: seq<PinState>
    var failsafe: Failsafe

    constructor (protocolVersion: uint8)
      ensures this.protocolVersion == protocolVersion && nbPins == 0 && fresh(failsafe)
    {
      this.protocolVersion := protocolVersion;
      nbPins := 0;
      pinsMaskType := [];
      pinsState := [];
      failsafe := new Failsafe(0);
    }

    predicate Valid()
      reads this, failsafe
    {
      |pinsMaskType| == nbPins && |pinsState| == nbPins && |failsafe.pins| == nbPins
    }

    function View(): (s: Conn)
      requires Valid()
      reads this, failsafe
      ensures s.Ok() && s.NbPins() == nbPins
    {
      Conn(pinsMaskType, TypesOf(pinsState), ValsOf(pinsState), failsafe.timeout, failsafe.pins)
    }

    /** The value of a connection, field by field. */
    lemma ViewIs()
      requires Valid()
      ensures View().caps == pinsMaskType && View().timeout == failsafe.timeout && View().failsafe == failsafe.pins
      ensures forall p :: 0 <= p < nbPins ==>
        View().types[p] == pinsState[p].pinsType && View().vals[p] == pinsState[p].pinsVal
    {
    }

    /** `c->state.pins_state[pin].pins_val = val` */
    method StoreValue(pin: nat, val: uint16)
      requires Valid() && pin < nbPins
      modifies `pinsState
      ensures Valid() && View() == old(View()).(vals := old(View()).vals[pin := val])
      ensures pinsState[pin].pinsVal == val
    {
      ColumnUpdates(pinsState, pin, 0, val);
      pinsState := pinsState[pin := pinsState[pin].(pinsVal := val)];
    }

    /** `c->state.pins_state[pin].pins_type = type` */
    method StoreType(pin: nat, pinType: uint8)
      requires Valid() && pin < nbPins
      modifies `pinsState
      ensures Valid() && View() == old(View()).(types := old(View()).types[pin := pinType])
      ensures pinsState[pin].pinsType == pinType
    {
      ColumnUpdates(pinsState, pin, pinType, 0);
      pinsState := pinsState[pin := pinsState[pin].(pinsType := pinType)];
    }

    /** `c->failsafe->pins_failsafe[pin] = f` */
    method StoreEntry(pin: nat, f: PinFailsafe)
      requires Valid() && pin < nbPins
      modifies failsafe`pins
      ensures Valid() && View() == old(View()).(failsafe := old(View()).failsafe[pin := f])
    {
      failsafe.pins := failsafe.pins[pin := f];
    }

    /** The values of the pins are not initialised: they are whatever the allocator returned. */
    method InitResources()
      modifies this
      ensures Valid() && fresh(failsafe)
      ensures nbPins == old(nbPins) && protocolVersion == old(protocolVersion)
      ensures forall p :: 0 <= p < nbPins ==>
        pinsMaskType[p] == 0 && pinsState[p].pinsType == 7 && failsafe.pins[p] == PinFailsafe(7, 0)
      ensures failsafe.timeout == 0
    {
      assert |seq(nbPins, _ => PinState(0, 0))| == nbPins;
      var uninitialised: seq<PinState> :| |uninitialised| == nbPins;
      pinsMaskType := seq(nbPins, _ => 0);
      pinsState := uninitialised;
      failsafe := new Failsafe(nbPins);
      for pinNo := 0 to nbPins
        invariant Valid() && fresh(failsafe)
        invariant nbPins == old(nbPins) && protocolVersion == old(protocolVersion)
        invariant forall p :: 0 <= p < nbPins ==> failsafe.pins[p] == DISABLED_PIN
        invariant failsafe.timeout == 0
        invariant forall p :: 0 <= p < pinNo ==>
          pinsMaskType[p] == 0 && pinsState[p].pinsType == PIN_TYPE_DISABLED
      {
        pinsMaskType := pinsMaskType[pinNo := 0];
        pinsState := pinsState[pinNo := pinsState[pinNo].(pinsType := PIN_TYPE_DISABLED)];
      }
    }
  }

  /** What a receive buffer holds after one `read` of the given bytes. */
  function Received(incoming: seq<uint8>): (b: seq<uint8>)
    ensures |b| == BUFF_SIZE == 612
  {
    if |incoming| >= BUFF_SIZE then incoming[..BUFF_SIZE]
    else incoming + seq(BUFF_SIZE - |incoming|, _ => 0)
  }

  /** A whole packet of at most BUFF_SIZE bytes is received as it was sent. */
  lemma ReceivedWire(m: Message)
    requires m.Sized() && |m.Wire()| <= BUFF_SIZE
    ensures Framed(Received(m.Wire())) && Parse(Received(m.Wire())) == m
  {
    var rest := seq(BUFF_SIZE - |m.Wire()|, _ => 0);
    assert Received(m.Wire()) == m.Wire() + rest;
    ParseOfWire(m, rest);
  }

  /** `send_packet` and `connection_write`: the bytes handed to the channel. */
  method SendPacket(p: Packet) returns (wire: seq<uint8>)
    requires p.Allocated() && p.size + OVERHEAD_SIZE < 0x1_0000
    modifies p
    ensures p.header == old(p.header) && p.size == old(p.size) && p.data == old(p.data)
    ensures wire == Seal(p.header, p.data[..p.size]).Wire()
  {
    var c := p.ComputeChecksum();
    ghost var m := Seal(p.header, p.data[..p.size]);
    assert Protocol.Valid(p.View().(checksum := m.checksum)) by {
      assert p.View().(checksum := m.checksum) == m;
    }
    p.checksum := c;
    var buffSize := p.size + OVERHEAD_SIZE;
    var buffer := new uint8[buffSize];
    InitPacket(buffer, buffSize);
    p.PacketWrite(buffer);
    wire := buffer[..];
    assert p.View() == m;
  }

  /** `connection_read`, with the bytes that `read` delivers. */
  method ConnectionRead(incoming: seq<uint8>, p: Packet) returns (nbBytes: int)
    requires |incoming| >= OVERHEAD_SIZE ==> Framed(Received(incoming))
    modifies p
    ensures nbBytes == -1 <==> |incoming| < OVERHEAD_SIZE
    ensures nbBytes != -1 ==> p.size == p.data.Length && fresh(p.data) && p.View() == Parse(Received(incoming))
  {
    var buffer := new uint8[BUFF_SIZE](_ => 0);
    var n := if |incoming| < BUFF_SIZE then |incoming| else BUFF_SIZE;
    for i := 0 to n
      invariant buffer[..i] == incoming[..i]
      invariant forall j :: n <= j < BUFF_SIZE ==> buffer[j] == 0
    {
      buffer[i] := incoming[i];
    }
    assert buffer[..] == Received(incoming);
    if n < OVERHEAD_SIZE {
      return -1;
    }
    p.PacketRead(buffer);
    nbBytes := n;
  }
}
