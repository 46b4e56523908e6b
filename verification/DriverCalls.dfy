/** The calls of driver/driver.h as functions: the request each one sends and what it stores afterwards. */
module DriverCalls {
  import opened Words
  import opened BitStrings
  import opened BitUtils
  import opened ValueLists
  import opened Spills
  import opened Masks
  import opened Protocol
  import opened Failsafes
  import opened Connections
  import opened FirmwareSteps

  datatype Call =
    | GenericRead(pin: uint8, mode: uint8)
    | ReadValueMask(mask: seq<bool>, mode: uint8)
    | GenericWrite(pin: uint8, mode: uint8, val: int16)
    | WriteValueMask(mask: seq<bool>, mode: uint8, values: seq<uint16>)
    | GetType(pin: uint8)
    | GetTypeMask(mask: seq<bool>)
    | SetType(pin: uint8, newType: uint8)
    | SetTypeMask(mask: seq<bool>, newTypes: seq<uint16>)
    | GetFailsafe(pin: uint8)
    | GetFailsafeMask(mask: seq<bool>)
    | SetFailsafe(pin: uint8, timeout: uint16, entry: PinFailsafe)
    | SetFailsafeMask(mask: seq<bool>, mode: uint8, timeout: uint16, values: seq<uint16>)

  /** The driver's mirror, the device, and nothing on its way between them. */
  datatype System = System(mirror: Conn, device: Device)

  // ---- requests ----

  /** A mask with a value for each of its pins. */
  predicate Listed(mask: seq<bool>, values: seq<uint16>) {
    0 < |mask| < 0x100 && |values| == CountOn(mask)
  }

  function HeaderOf(cmd: uint8, param: uint8): uint8 {
    ToUInt8(0x10 * (cmd as int) + param)
  }

  /** A whole number of bytes, at least one, that leaves room for the largest request. */
  predicate Packable(r: seq<bool>) {
    |r| % 8 == 0 && 0 < |r| <= 4352
  }

  function PinRequest(pin: uint8): (r: seq<bool>)
    ensures |r| == 8 && Packable(r)
  {
    WriteBits(Zeros(8), 0, pin, 8)
  }

  function ValueRequest(pin: uint8, val: int16, n: nat): (r: seq<bool>)
    requires n <= 16
    ensures |r| == 8 * Bits2Bytes(8 + n) && Packable(r)
  {
    WriteBits(WriteBits(Zeros(8 * Bits2Bytes(8 + n)), 0, pin, 8), 8, val, n)
  }

  function MaskRequest(mask: seq<bool>, bytes: nat): (r: seq<bool>)
    requires 0 < bytes <= 544
    ensures |r| == 8 * bytes && Packable(r)
  {
    OrMask(Zeros(8 * bytes), 0, mask)
  }

  function ListRequest(mask: seq<bool>, values: seq<uint16>, n: nat): (r: seq<bool>)
    requires Listed(mask, values) && n <= 16
    ensures |r| == 8 * Bits2Bytes(|mask| + Span(|values|, n)) && Packable(r)
  {
    SpanLimit(|values|, n);
    var bits := |mask| + Span(|values|, n);
    WriteList(OrMask(Zeros(8 * Bits2Bytes(bits)), 0, mask), |mask|, values, n)
  }

  /** The buffer is sized with the number of bytes of a pin number, 1, instead of its bits. */
  function FailsafeRequest(timeout: uint16, pin: uint8, val: uint16, n: nat): (r: seq<bool>)
    requires n <= 16
    ensures |r| == 8 * Bits2Bytes(16 + 1 + n) && Packable(r)
  {
    var zeros := Zeros(8 * Bits2Bytes(16 + 1 + n));
    WriteBits(WriteBits(WriteBits(zeros, 0, ToInt16(timeout), 16), 16, pin, 8), 24, ToInt16(val), n)
  }

  function FailsafeListRequest(timeout: uint16, mask: seq<bool>, values: seq<uint16>, n: nat): (r: seq<bool>)
    requires Listed(mask, values) && n <= 16
    ensures |r| == 8 * Bits2Bytes(16 + |mask| + Span(|values|, n)) && Packable(r)
  {
    SpanLimit(|values|, n);
    var bits := 16 + |mask| + Span(|values|, n);
    var b := WriteBits(Zeros(8 * Bits2Bytes(bits)), 0, ToInt16(timeout), 16);
    WriteList(OrMask(b, 16, mask), 16 + |mask|, values, n)
  }

  function RequestBits(call: Call): (r: seq<bool>)
    requires Sound(call)
    ensures Packable(r)
  {
    match call
    case GenericRead(pin, _) => PinRequest(pin)
    case ReadValueMask(mask, _) => MaskRequest(mask, Bits2Bytes(|mask|))
    case GenericWrite(pin, mode, val) => ValueRequest(pin, val, GetTypeBitsNb(mode))
    case WriteValueMask(mask, mode, values) =>
      ListRequest(mask, values, GetTypeBitsNb(mode))
    case GetType(pin) => PinRequest(pin)
    case GetTypeMask(mask) => MaskRequest(mask[..|mask| - 1], Bits2Bytes(|mask| - 1))
    case SetType(pin, t) => ValueRequest(pin, t, PIN_TYPE_BITS_NB)
    case SetTypeMask(mask, types) =>
      ListRequest(mask, types, PIN_TYPE_BITS_NB)
    case GetFailsafe(pin) => PinRequest(pin)
    case GetFailsafeMask(mask) => MaskRequest(mask, Bits2Bytes(3 * CountOn(mask)))
    case SetFailsafe(pin, timeout, f) => FailsafeRequest(timeout, pin, f.pinValue, GetTypeBitsNb(f.pinState))
    case SetFailsafeMask(mask, mode, timeout, values) =>
      FailsafeListRequest(timeout, mask, values, GetTypeBitsNb(mode))
  }

  function RequestHeader(call: Call): uint8 {
    match call
    case GenericRead(_, mode) => HeaderOf(CMD_READ, ToUInt8(2 * (mode as int) + USE_PIN_ID))
    case ReadValueMask(_, mode) => HeaderOf(CMD_READ, ToUInt8(2 * (mode as int) + USE_MASK))
    case GenericWrite(_, mode, _) => HeaderOf(CMD_WRITE, ToUInt8(2 * (mode as int) + USE_PIN_ID))
    case WriteValueMask(_, mode, _) => HeaderOf(CMD_WRITE, ToUInt8(2 * (mode as int) + USE_MASK))
    case GetType(_) => HeaderOf(CMD_GET_TYPE, USE_PIN_ID)
    case GetTypeMask(_) => HeaderOf(CMD_GET_TYPE, USE_MASK)
    case SetType(_, _) => HeaderOf(CMD_SET_TYPE, USE_PIN_ID)
    case SetTypeMask(_, _) => HeaderOf(CMD_SET_TYPE, USE_MASK)
    case GetFailsafe(_) => HeaderOf(CMD_GET_FAILSAFE, USE_PIN_ID)
    case GetFailsafeMask(_) => HeaderOf(CMD_GET_FAILSAFE, USE_MASK)
    case SetFailsafe(_, _, f) => HeaderOf(CMD_SET_FAILSAFE, ToUInt8(2 * (f.pinState as int) + USE_PIN_ID))
    case SetFailsafeMask(_, mode, _, _) => HeaderOf(CMD_SET_FAILSAFE, ToUInt8(2 * (mode as int) + USE_MASK))
  }

  function Request(call: Call): (m: Message)
    requires Sound(call)
    ensures m.Sized() && Valid(m) && Bits(m.data) == RequestBits(call) && |m.data| <= 544
  {
    BitsOfPack(RequestBits(call));
    Seal(RequestHeader(call), Pack(RequestBits(call)))
  }

  // ---- the domain of the calls ----

  predicate Typed(mode: uint8) {
    mode <= PIN_TYPE_PWM16
  }

  lemma WidthIs(mode: uint8)
    requires Typed(mode)
    ensures GetTypeBitsNb(mode) == 1 || GetTypeBitsNb(mode) == 8 || GetTypeBitsNb(mode) == 16
  {
  }

  /** The calls that keep to the buffers they allocate. */
  predicate Sound(call: Call) {
    match call
    case GenericRead(_, mode) => Typed(mode)
    case ReadValueMask(mask, mode) => Typed(mode) && 0 < |mask| < 0x100
    case GenericWrite(_, mode, _) => Typed(mode)
    case WriteValueMask(mask, mode, values) => Typed(mode) && Listed(mask, values)
    case GetType(_) => true
    case GetTypeMask(mask) => 2 <= |mask| < 0x100
    case SetType(_, _) => true
    case SetTypeMask(mask, types) => Listed(mask, types)
    case GetFailsafe(_) => true
    case GetFailsafeMask(mask) => 0 < CountOn(mask) && |mask| < 0x100 && |mask| <= 8 * Bits2Bytes(3 * CountOn(mask))
    case SetFailsafe(_, _, f) => Typed(f.pinState) && f.pinState != PIN_TYPE_DIGITAL
    case SetFailsafeMask(mask, mode, _, values) => Typed(mode) && Listed(mask, values)
  }

  /** The mask that the device finds in a `get_type_mask` request: its last bit is not sent. */
  function Sent(mask: seq<bool>): (r: seq<bool>)
    requires mask != []
    ensures |r| == |mask|
  {
    mask[|mask| - 1 := false]
  }

  /** A reply with k types has room for one more, in the padding of its last byte. */
  predicate RoomForLast(k: nat) {
    1 <= 3 * k % 8 <= 5
  }

  /**
   The mask that the device finds in front of a list at bit off names no more values than the request
   has room for.
   */
  predicate FoundFits(off: nat, mask: seq<bool>, values: seq<uint16>, n: nat)
    requires 0 < |mask| <= off
  {
    off + Span(CountOn(MaskFound(off, mask, values, n)), n) <= 8 * Bits2Bytes(off + Span(|values|, n))
  }

  /**
   The calls that both peers can carry out without leaving a buffer. The values of a list may set
   bits of the mask in front of them, so that the device finds another mask, whose values must be
   inside the request; the types and the failsafe entries that a driver reads must be inside the
   reply.
   */
  predicate Safe(call: Call, device: Conn)
  {
    Sound(call) &&
    match call
    case GenericRead(pin, _) => pin < device.NbPins()
    case ReadValueMask(mask, _) => |mask| == device.NbPins()
    case GenericWrite(pin, _, _) => pin < device.NbPins()
    case WriteValueMask(mask, mode, values) =>
      |mask| == device.NbPins() && FoundFits(|mask|, mask, values, GetTypeBitsNb(mode))
    case GetType(pin) => pin < device.NbPins()
    case GetTypeMask(mask) =>
      && |mask| == device.NbPins() && (|mask| - 1) % 8 != 0 && CountOn(Sent(mask)) > 0
      && (mask[|mask| - 1] ==> RoomForLast(CountOn(Sent(mask))))
    case SetType(pin, _) => pin < device.NbPins()
    case SetTypeMask(mask, types) => |mask| == device.NbPins() && FoundFits(|mask|, mask, types, PIN_TYPE_BITS_NB)
    case GetFailsafe(pin) => pin < device.NbPins()
    case GetFailsafeMask(mask) =>
      && |mask| == device.NbPins() == |device.failsafe|
      && var sub := Gather(device.failsafe, mask);
      && 3 + Bits2Bytes(NbBits(sub)) < 0x100 && Readable(TableAnswer(sub), 24, |sub|)
    case SetFailsafe(pin, _, _) => pin < device.NbPins()
    case SetFailsafeMask(mask, mode, _, values) =>
      |mask| == device.NbPins() && FoundFits(16 + |mask|, mask, values, GetTypeBitsNb(mode))
  }

  // ---- replies ----

  /** The reply is long enough for what the call reads from it. */
  predicate ReplyOk(call: Call, r: seq<bool>) {
    8 <= |r| &&
    match call
    case GenericRead(_, mode) => 8 + GetTypeBitsNb(mode) <= |r|
    case ReadValueMask(mask, mode) => 8 + Span(CountOn(mask), GetTypeBitsNb(mode)) <= |r|
    case GetType(_) => 8 + PIN_TYPE_BITS_NB <= |r|
    case GetTypeMask(mask) => 8 + Span(CountOn(mask), PIN_TYPE_BITS_NB) <= |r|
    case GetFailsafe(_) => 27 <= |r| && 27 + GetTypeBitsNb(TypeAt(r, 24)) <= |r|
    case GetFailsafeMask(mask) => 24 <= |r| && Readable(r, 24, CountOn(mask))
    case _ => true
  }

  /** The call concerns pins of the mirror. */
  predicate Addresses(call: Call, s: Conn) {
    s.Ok() &&
    match call
    case GenericRead(pin, _) => pin < s.NbPins()
    case ReadValueMask(mask, _) => |mask| == s.NbPins()
    case GenericWrite(pin, _, _) => pin < s.NbPins()
    case WriteValueMask(mask, _, _) => |mask| == s.NbPins()
    case GetType(pin) => pin < s.NbPins()
    case GetTypeMask(mask) => |mask| == s.NbPins()
    case SetType(pin, _) => pin < s.NbPins()
    case SetTypeMask(mask, _) => |mask| == s.NbPins()
    case GetFailsafe(pin) => pin < s.NbPins()
    case GetFailsafeMask(mask) => |mask| == s.NbPins()
    case SetFailsafe(pin, _, _) => pin < s.NbPins()
    case SetFailsafeMask(mask, _, _, _) => |mask| == s.NbPins()
  }

  /** What the call stores in the connection once it has the reply. */
  function MirrorAfter(call: Call, s: Conn, r: seq<bool>): (s': Conn)
    requires Sound(call) && Addresses(call, s) && ReplyOk(call, r)
    ensures s'.Ok() && s'.NbPins() == s.NbPins()
  {
    match call
    case GenericRead(pin, mode) => s.(vals := s.vals[pin := ToUInt16(ReadBits(r, 8, GetTypeBitsNb(mode)))])
    case ReadValueMask(mask, mode) =>
      s.(vals := Scatter(s.vals, mask, ReadList(r, 8, CountOn(mask), GetTypeBitsNb(mode))))
    case GenericWrite(pin, _, val) => s.(vals := s.vals[pin := ToUInt16(val)])
    case WriteValueMask(mask, _, values) => s.(vals := Scatter(s.vals, mask, values))
    case GetType(pin) => s.(types := s.types[pin := ToUInt8(ReadBits(r, 8, PIN_TYPE_BITS_NB))])
    case GetTypeMask(mask) =>
      s.(types := Scatter(s.types, mask, LowBytes(ReadList(r, 8, CountOn(mask), PIN_TYPE_BITS_NB))))
    case SetType(pin, t) => s.(types := s.types[pin := t])
    case SetTypeMask(mask, types) => s.(types := Scatter(s.types, mask, LowBytes(types)))
    case GetFailsafe(_) => s
    case GetFailsafeMask(mask) => s.(failsafe := Scatter(s.failsafe, mask, ReadTable(r, 24, CountOn(mask))))
    case SetFailsafe(pin, timeout, f) => s.(timeout := timeout, failsafe := s.failsafe[pin := f])
    case SetFailsafeMask(mask, mode, timeout, values) =>
      s.(timeout := timeout, failsafe := Scatter(s.failsafe, mask, Entries(mode, values)))
  }
}
