/** The largest packets, against the receive buffers of both peers. */
module Limits {
  import opened Words
  import opened BitStrings
  import opened BitUtils
  import opened ValueLists
  import opened Masks
  import opened Protocol
  import opened Failsafes
  import opened Connections
  import opened FirmwareSteps
  import opened DriverCalls
  import opened Exchanges
  import opened Outcomes

  /** The call is one of a driver that knows nbPins pins. */
  predicate Concerns(call: Call, nbPins: nat) {
    match call
    case ReadValueMask(mask, _) => |mask| == nbPins
    case WriteValueMask(mask, _, _) => |mask| == nbPins
    case GetTypeMask(mask) => |mask| == nbPins
    case SetTypeMask(mask, _) => |mask| == nbPins
    case GetFailsafeMask(mask) => |mask| == nbPins
    case SetFailsafeMask(mask, _, _, _) => |mask| == nbPins
    case _ => true
  }

  /** The size of the largest request: a timeout, a mask, and 16 bits for each pin. */
  function LargestRequest(nbPins: nat): nat {
    OVERHEAD_SIZE + Bits2Bytes(16 + nbPins + 16 * nbPins)
  }

  lemma ListBits(mask: seq<bool>, values: seq<uint16>, n: nat)
    requires Listed(mask, values) && n <= 16
    ensures Span(|values|, n) <= 16 * |mask|
  {
    SpanAtMost(|values|, n, 16);
    SpanIsProduct(|values|, 16);
  }

  lemma RequestAtMost(call: Call, nbPins: nat)
    requires 0 < nbPins && Sound(call) && Concerns(call, nbPins)
    ensures |Request(call).Wire()| <= LargestRequest(nbPins)
  {
    hide Pack, Seal, Span, Rank, Zeros;
    assert |Request(call).data| == |RequestBits(call)| / 8;
    match call
    case WriteValueMask(mask, mode, values) => ListBits(mask, values, GetTypeBitsNb(mode));
    case SetTypeMask(mask, types) => ListBits(mask, types, PIN_TYPE_BITS_NB);
    case SetFailsafeMask(mask, mode, _, values) => ListBits(mask, values, GetTypeBitsNb(mode));
    case _ =>
  }

  lemma {:induction false} AllUsed(n: nat, p: nat)
    requires p <= n
    ensures Rank(seq(n, _ => true), p) == p
  {
    if p > 0 {
      AllUsed(n, p - 1);
    }
  }

  /** A failsafe for all pins is a request of the largest size. */
  lemma LargestIsReached(nbPins: nat) returns (call: Call)
    requires 0 < nbPins < 0x100
    ensures Sound(call) && Concerns(call, nbPins) && |Request(call).Wire()| == LargestRequest(nbPins)
  {
    call := SetFailsafeMask(seq(nbPins, _ => true), PIN_TYPE_PWM16, 0, seq(nbPins, _ => 0));
    AllUsed(nbPins, nbPins);
    SpanIsProduct(nbPins, 16);
    assert |Request(call).data| == |RequestBits(call)| / 8;
  }

  /** Every call that a driver can make of a device is one for the pins that it has. */
  lemma SafeConcerns(call: Call, s: Conn)
    requires Safe(call, s)
    ensures Concerns(call, |s.types|)
  {
    hide FoundFits, Readable, NbBits, Gather, Sent, RoomForLast, Rank;
  }

  /** Every request fits in the 42 bytes of the device exactly when the driver knows few enough pins. */
  lemma EmbeddedBufferIff(nbPins: nat)
    requires 0 < nbPins < 0x100
    ensures (forall call: Call ::
        Sound(call) && Concerns(call, nbPins) ==> |Request(call).Wire()| <= 42)
      <==> nbPins <= 16
  {
    hide Sound, Concerns, Request;
    if nbPins <= 16 {
      forall call: Call | Sound(call) && Concerns(call, nbPins)
        ensures |Request(call).Wire()| <= 42
      {
        RequestAtMost(call, nbPins);
      }
    } else {
      var call := LargestIsReached(nbPins);
    }
  }

  /** With any number of pins, requests and replies fit in the receive buffer of a full-size peer. */
  lemma PacketsFit(call: Call, d: Device)
    requires Sound(call) && Serviceable(d, Request(call))
    ensures |Request(call).Wire()| <= 612 && |ReplyTo(d, Request(call)).Wire()| <= 612
  {
    hide Serviceable, Sound, RequestBits, ReplyData, Valid, Pack, Seal;
  }

  // ---- calls left out of the domain because they leave their buffers ----

  /**
   A value behind a pin number stays in its buffer exactly for the five types: a field of width 0
   touches one more byte.
   */
  lemma ValueBufferIff(mode: uint8)
    ensures var n := GetTypeBitsNb(mode);
      LastByte(8, n) < Bits2Bytes(8 + (n as int)) <==> Typed(mode)
  {
  }

  /**
   `set_failsafe` counts one bit for the pin number: its buffer is large enough exactly for 8-bit and
   16-bit types.
   */
  lemma FailsafeBufferIff(mode: uint8)
    ensures var n := GetTypeBitsNb(mode);
      LastByte(24, n) < Bits2Bytes(16 + 1 + (n as int)) <==> Typed(mode) && mode != PIN_TYPE_DIGITAL
  {
  }

  /** `get_type_mask` does not send whether the last pin is used. */
  lemma LastPinIsNotSent(mask: seq<bool>)
    requires 2 <= |mask| < 0x100
    ensures RequestBits(GetTypeMask(mask)) == RequestBits(GetTypeMask(mask[|mask| - 1 := !mask[|mask| - 1]]))
  {
    var last := |mask| - 1;
    assert mask[..last] == mask[last := !mask[last]][..last];
  }

  /**
   The mask that the device reads is inside such a request exactly when the last pin does not start
   a byte, and the types that the driver reads are inside the reply exactly when it leaves the last
   pin alone or the last byte of the reply has room for one more type.
   */
  lemma TypeMaskBuffersIff(mask: seq<bool>)
    requires 2 <= |mask| < 0x100 && CountOn(Sent(mask)) > 0
    ensures |mask| <= 8 * Bits2Bytes(|mask| - 1) <==> (|mask| - 1) % 8 != 0
    ensures var k := CountOn(Sent(mask));
      && Span(k, PIN_TYPE_BITS_NB) > 0
      && (REPLY_ID_BITS_NB + Span(CountOn(mask), PIN_TYPE_BITS_NB) <= 8 * (1 + Bits2Bytes(Span(k, PIN_TYPE_BITS_NB)))
          <==> (mask[|mask| - 1] ==> 1 <= 3 * k % 8 <= 5))
  {
    hide Rank, Sent, Span;
    TypesReplyRoomIff(mask);
  }

  /**
   Where there is room, the driver takes the padding for the type of the last pin: it is right exactly
   when that is digital.
   */
  lemma LastPinReadsDigital(sys: System, mask: seq<bool>)
    requires Ready(sys) && Safe(GetTypeMask(mask), sys.device.conn) && mask[|mask| - 1]
    ensures var sys', last := Exec(GetTypeMask(mask), sys), |mask| - 1;
      && last < |sys'.mirror.types| && sys'.mirror.types[last] == PIN_TYPE_DIGITAL
      && sys'.device.conn == sys.device.conn
      && (SameType(sys'.mirror, sys'.device.conn, last) <==> sys.device.conn.types[last] == PIN_TYPE_DIGITAL)
  {
    hide Exec, Carried, MirrorOf, DeviceAfter, Sent, Rank, RoomForLast, AllStorable;
    var call := GetTypeMask(mask);
    ExecIs(call, sys);
    GetTypeMaskType(sys, mask, |mask| - 1);
  }
}
