/** The firmware as a step function on whole packets: what the handlers compute from the request bytes. */
module FirmwareSteps {
  import opened Words
  import opened BitStrings
  import opened BitUtils
  import opened BitFields
  import opened ValueLists
  import opened Masks
  import opened Protocol
  import opened DeviceState
  import opened Failsafes
  import opened Connections

  datatype Device = Device(conn: Conn, nextId: uint8, version: uint8)

  predicate UsesMask(header: uint8) {
    header % 2 == USE_MASK
  }

  /** The pin type of a request, in the three high bits of its parameter. */
  function TypeOf(header: uint8): uint8 {
    header % 0x10 / 2
  }

  function ValueBits(header: uint8): nat {
    GetTypeBitsNb(TypeOf(header))
  }

  function PinOf(b: seq<bool>, off: nat): uint8
    requires off + 8 <= |b|
  {
    ToUInt8(ReadBits(b, off, 8))
  }

  function LowBytes(values: seq<uint16>): (r: seq<uint8>)
    ensures |r| == |values|
  {
    seq(|values|, k requires 0 <= k < |values| => ToUInt8(values[k]))
  }

  function Widened(values: seq<uint8>): (r: seq<uint16>)
    ensures |r| == |values|
  {
    seq(|values|, k requires 0 <= k < |values| => values[k])
  }

  /** The request names an existing pin. */
  predicate NamesPin(s: Conn, b: seq<bool>, off: nat) {
    off + 8 <= |b| && PinOf(b, off) < s.NbPins()
  }

  /** The request holds a mask and a value of n bits for each pin of the mask. */
  predicate NamesPins(s: Conn, b: seq<bool>, off: nat, n: nat) {
    && off + s.NbPins() <= |b|
    && off + s.NbPins() + Span(CountOn(b[off..off + s.NbPins()]), n) <= |b|
  }

  function MaskAt(s: Conn, b: seq<bool>, off: nat): (m: seq<bool>)
    requires off + s.NbPins() <= |b|
    ensures |m| == s.NbPins()
  {
    b[off..off + s.NbPins()]
  }

  /** The values that follow a mask. */
  function ListAt(s: Conn, b: seq<bool>, off: nat, n: nat): (values: seq<uint16>)
    requires NamesPins(s, b, off, n)
    ensures |values| == CountOn(MaskAt(s, b, off))
  {
    ReadList(b, off + s.NbPins(), CountOn(MaskAt(s, b, off)), n)
  }

  /** The k-th value of a request, at the offset that the loops have reached by then. */
  lemma ListEntry(s: Conn, b: seq<bool>, off: nat, n: nat, k: nat)
    requires NamesPins(s, b, off, n) && k < CountOn(MaskAt(s, b, off))
    ensures off + s.NbPins() + Span(k, n) + n <= |b|
    ensures ListAt(s, b, off, n)[k] == ToUInt16(ReadBits(b, off + s.NbPins() + Span(k, n), n))
    ensures LowBytes(ListAt(s, b, off, n))[k] == ToUInt8(ReadBits(b, off + s.NbPins() + Span(k, n), n))
  {
    hide ReadBits;
    ReadListField(b, off + s.NbPins(), CountOn(MaskAt(s, b, off)), n, k);
    ByteOfWord(ReadBits(b, off + s.NbPins() + Span(k, n), n));
  }

  /** `rep.data[0] = id` */
  function StampId(b: seq<bool>, id: uint8): (r: seq<bool>)
    requires 8 <= |b|
    ensures |r| == |b|
  {
    Splice(b, 0, Enc(id, 8))
  }

  // ---- read ----

  predicate ReadOk(s: Conn, header: uint8, b: seq<bool>) {
    && s.Ok() && TypeOf(header) <= PIN_TYPE_PWM16
    && if UsesMask(header) then s.NbPins() <= |b| else NamesPin(s, b, 0)
  }

  /** The reply to a read request, before its identifier is stored. */
  function ReadAnswer(s: Conn, header: uint8, b: seq<bool>): (r: seq<bool>)
    requires ReadOk(s, header, b)
    ensures |r| % 8 == 0 && 8 <= |r| <= 4088
  {
    var n := ValueBits(header);
    if UsesMask(header) then
      var values := Gather(s.vals, MaskAt(s, b, 0));
      SpanLimit(|values|, n);
      WriteList(Zeros(8 * Bits2Bytes(8 + Span(|values|, n))), 8, values, n)
    else
      WriteBits(Zeros(8 * Bits2Bytes(8 + n)), 8, ToInt16(s.vals[PinOf(b, 0)]), n)
  }

  // ---- write ----

  predicate WriteOk(s: Conn, header: uint8, b: seq<bool>) {
    && s.Ok() && TypeOf(header) <= PIN_TYPE_PWM16
    && if UsesMask(header) then NamesPins(s, b, 0, ValueBits(header))
       else NamesPin(s, b, 0) && 8 + ValueBits(header) <= |b|
  }

  /** A single write sets the type of the pin as well; a masked one goes through a `uint8_t`. */
  function WriteStep(s: Conn, header: uint8, b: seq<bool>): (s': Conn)
    requires WriteOk(s, header, b)
    ensures s'.Ok() && s'.NbPins() == s.NbPins()
  {
    var n := ValueBits(header);
    if UsesMask(header) then
      s.(vals := Scatter(s.vals, MaskAt(s, b, 0), Widened(LowBytes(ListAt(s, b, 0, n)))))
    else
      var pin := PinOf(b, 0);
      s.(types := s.types[pin := TypeOf(header)], vals := s.vals[pin := ToUInt16(ReadBits(b, 8, n))])
  }

  /** A pin with another type and another value. */
  function PinWritten(s: Conn, pin: nat, t: uint8, v: uint16): (s': Conn)
    requires s.Ok() && pin < s.NbPins()
    ensures s'.Ok() && s'.NbPins() == s.NbPins()
  {
    s.(types := s.types[pin := t], vals := s.vals[pin := v])
  }

  // ---- get type ----

  predicate GetTypeOk(s: Conn, header: uint8, b: seq<bool>) {
    && s.Ok()
    && if UsesMask(header) then s.NbPins() <= |b| && CountOn(MaskAt(s, b, 0)) > 0 else NamesPin(s, b, 0)
  }

  function TypeAnswer(s: Conn, header: uint8, b: seq<bool>): (r: seq<bool>)
    requires GetTypeOk(s, header, b)
    ensures |r| % 8 == 0 && 8 <= |r| <= 4088
  {
    if UsesMask(header) then
      var values := Gather(Widened(s.types), MaskAt(s, b, 0));
      SpanLimit(|values|, PIN_TYPE_BITS_NB);
      WriteList(Zeros(8 * (1 + Bits2Bytes(Span(|values|, PIN_TYPE_BITS_NB)))), 8, values, PIN_TYPE_BITS_NB)
    else
      WriteBits(Zeros(16), 8, s.types[PinOf(b, 0)], PIN_TYPE_BITS_NB)
  }

  // ---- set type ----

  predicate SetTypeOk(s: Conn, header: uint8, b: seq<bool>) {
    && s.Ok()
    && if UsesMask(header) then NamesPins(s, b, 0, PIN_TYPE_BITS_NB)
       else NamesPin(s, b, 0) && 8 + PIN_TYPE_BITS_NB <= |b|
  }

  function SetTypeStep(s: Conn, header: uint8, b: seq<bool>): (s': Conn)
    requires SetTypeOk(s, header, b)
    ensures s'.Ok() && s'.NbPins() == s.NbPins()
  {
    if UsesMask(header) then
      s.(types := Scatter(s.types, MaskAt(s, b, 0), LowBytes(ListAt(s, b, 0, PIN_TYPE_BITS_NB))))
    else
      s.(types := s.types[PinOf(b, 0) := ToUInt8(ReadBits(b, 8, PIN_TYPE_BITS_NB))])
  }

  // ---- get failsafe ----

  predicate GetFailsafeOk(s: Conn, header: uint8, b: seq<bool>) {
    && s.Ok()
    && if UsesMask(header) then
         && s.NbPins() <= |b|
         && AllSendable(Gather(s.failsafe, MaskAt(s, b, 0)))
         && 3 + Bits2Bytes(NbBits(Gather(s.failsafe, MaskAt(s, b, 0)))) < 0x100
       else NamesPin(s, b, 0) && Sendable(s.failsafe[PinOf(b, 0)])
  }

  /** The entries of a failsafe reply; its first three bytes are written last. */
  function FailsafeAnswer(s: Conn, header: uint8, b: seq<bool>): (r: seq<bool>)
    requires GetFailsafeOk(s, header, b)
    ensures |r| % 8 == 0 && 24 <= |r| <= 4088
  {
    hide Gather, AllSendable, NbBits, TableAnswer, EntryAnswer;
    if UsesMask(header) then TableAnswer(Gather(s.failsafe, MaskAt(s, b, 0)))
    else EntryAnswer(s.failsafe[PinOf(b, 0)])
  }

  function FailsafeReply(s: Conn, header: uint8, b: seq<bool>, id: uint8): (r: seq<bool>)
    requires GetFailsafeOk(s, header, b)
    ensures |r| % 8 == 0 && 24 <= |r| <= 4088
  {
    WriteBits(StampId(FailsafeAnswer(s, header, b), id), 8, ToInt16(s.timeout), 16)
  }

  // ---- set failsafe ----

  predicate SetFailsafeOk(s: Conn, header: uint8, b: seq<bool>) {
    && s.Ok() && TypeOf(header) <= PIN_TYPE_PWM16
    && if UsesMask(header) then NamesPins(s, b, 16, ValueBits(header))
       else NamesPin(s, b, 16) && 24 + ValueBits(header) <= |b|
  }

  function Entries(t: uint8, values: seq<uint16>): (r: seq<PinFailsafe>)
    ensures |r| == |values|
  {
    seq(|values|, k requires 0 <= k < |values| => PinFailsafe(t, values[k]))
  }

  function SetFailsafeStep(s: Conn, header: uint8, b: seq<bool>): (s': Conn)
    requires SetFailsafeOk(s, header, b)
    ensures s'.Ok() && s'.NbPins() == s.NbPins()
  {
    var t := TypeOf(header);
    var n := ValueBits(header);
    var timeout := ToUInt16(ReadBits(b, 0, 16));
    if UsesMask(header) then
      s.(timeout := timeout, failsafe := Scatter(s.failsafe, MaskAt(s, b, 16), Entries(t, ListAt(s, b, 16, n))))
    else
      s.(timeout := timeout, failsafe := s.failsafe[PinOf(b, 16) := PinFailsafe(t, ToUInt16(ReadBits(b, 24, n)))])
  }

  // ---- dispatch ----

  function CmdOf(header: uint8): uint8 {
    header / 0x10
  }

  /** The commands that have a handler which replies; `reply_reset` is empty. */
  predicate Answered(cmd: uint8) {
    cmd != CMD_RESET && cmd <= CMD_SET_FAILSAFE
  }

  /** The requests that the handlers can serve without leaving their buffers and tables. */
  predicate Serviceable(d: Device, m: Message) {
    var s, b, cmd := d.conn, Bits(m.data), CmdOf(m.header);
    && m.Sized() && Valid(m) && s.Ok()
    && Answered(cmd)
    && (cmd == CMD_READ ==> ReadOk(s, m.header, b))
    && (cmd == CMD_WRITE ==> WriteOk(s, m.header, b))
    && (cmd == CMD_GET_TYPE ==> GetTypeOk(s, m.header, b))
    && (cmd == CMD_SET_TYPE ==> SetTypeOk(s, m.header, b))
    && (cmd == CMD_GET_FAILSAFE ==> GetFailsafeOk(s, m.header, b))
    && (cmd == CMD_SET_FAILSAFE ==> SetFailsafeOk(s, m.header, b))
  }

  function StateAfter(d: Device, m: Message): (s': Conn)
    requires Serviceable(d, m)
    ensures s'.Ok() && s'.NbPins() == d.conn.NbPins()
  {
    var b, cmd := Bits(m.data), CmdOf(m.header);
    if cmd == CMD_WRITE then WriteStep(d.conn, m.header, b)
    else if cmd == CMD_SET_TYPE then SetTypeStep(d.conn, m.header, b)
    else if cmd == CMD_SET_FAILSAFE then SetFailsafeStep(d.conn, m.header, b)
    else d.conn
  }

  /** The header of a reply: some replies carry the number of another command. */
  function ReplyHeader(cmd: uint8): uint8
    requires cmd < 0x10
  {
    if cmd == CMD_READ then 0x10 * CMD_READ
    else if cmd == CMD_WRITE then 0x10 * CMD_WRITE
    else if cmd == CMD_GET_CAPS || cmd == CMD_PING then 0x10 * CMD_GET_CAPS
    else 0x10 * CMD_SET_TYPE
  }

  function ReplyData(d: Device, m: Message): (data: seq<uint8>)
    requires Serviceable(d, m)
    ensures |data| <= 511
  {
    var s, b, id, cmd := d.conn, Bits(m.data), d.nextId, CmdOf(m.header);
    if cmd == CMD_GET_CAPS then [id, s.NbPins()] + s.caps
    else if cmd == CMD_PING then [id, d.version]
    else if cmd == CMD_READ then Pack(StampId(ReadAnswer(s, m.header, b), id))
    else if cmd == CMD_GET_TYPE then Pack(StampId(TypeAnswer(s, m.header, b), id))
    else if cmd == CMD_GET_FAILSAFE then Pack(FailsafeReply(s, m.header, b, id))
    else [id]
  }

  function ReplyTo(d: Device, m: Message): (r: Message)
    requires Serviceable(d, m)
    ensures r.Sized() && Valid(r)
  {
    Seal(ReplyHeader(CmdOf(m.header)), ReplyData(d, m))
  }

  /** One turn of `mainloop`: every served request gets the next identifier. */
  function Step(d: Device, m: Message): (d': Device)
    requires Serviceable(d, m)
  {
    d.(conn := StateAfter(d, m), nextId := NextId(d.nextId))
  }

  // ---- one command at a time ----

  lemma ServesRead(d: Device, m: Message)
    requires m.Sized() && Valid(m) && CmdOf(m.header) == CMD_READ && ReadOk(d.conn, m.header, Bits(m.data))
    ensures Serviceable(d, m) && StateAfter(d, m) == d.conn
    ensures Bits(ReplyData(d, m)) == StampId(ReadAnswer(d.conn, m.header, Bits(m.data)), d.nextId)
  {
    hide Bits, ReadAnswer, StampId, Valid;
    BitsOfPack(StampId(ReadAnswer(d.conn, m.header, Bits(m.data)), d.nextId));
  }

  lemma ServesWrite(d: Device, m: Message)
    requires m.Sized() && Valid(m) && CmdOf(m.header) == CMD_WRITE && WriteOk(d.conn, m.header, Bits(m.data))
    ensures Serviceable(d, m) && StateAfter(d, m) == WriteStep(d.conn, m.header, Bits(m.data))
    ensures ReplyData(d, m) == [d.nextId]
  {
    hide Bits, WriteStep, Valid;
  }

  lemma ServesGetType(d: Device, m: Message)
    requires m.Sized() && Valid(m) && CmdOf(m.header) == CMD_GET_TYPE && GetTypeOk(d.conn, m.header, Bits(m.data))
    ensures Serviceable(d, m) && StateAfter(d, m) == d.conn
    ensures Bits(ReplyData(d, m)) == StampId(TypeAnswer(d.conn, m.header, Bits(m.data)), d.nextId)
  {
    hide Bits, TypeAnswer, StampId, Valid;
    BitsOfPack(StampId(TypeAnswer(d.conn, m.header, Bits(m.data)), d.nextId));
  }

  lemma ServesSetType(d: Device, m: Message)
    requires m.Sized() && Valid(m) && CmdOf(m.header) == CMD_SET_TYPE && SetTypeOk(d.conn, m.header, Bits(m.data))
    ensures Serviceable(d, m) && StateAfter(d, m) == SetTypeStep(d.conn, m.header, Bits(m.data))
    ensures ReplyData(d, m) == [d.nextId]
  {
    hide Bits, SetTypeStep, Valid;
  }

  lemma ServesGetFailsafe(d: Device, m: Message)
    requires m.Sized() && Valid(m) && CmdOf(m.header) == CMD_GET_FAILSAFE
    requires GetFailsafeOk(d.conn, m.header, Bits(m.data))
    ensures Serviceable(d, m) && StateAfter(d, m) == d.conn
    ensures Bits(ReplyData(d, m)) == FailsafeReply(d.conn, m.header, Bits(m.data), d.nextId)
  {
    hide Bits, FailsafeReply, Valid;
    BitsOfPack(FailsafeReply(d.conn, m.header, Bits(m.data), d.nextId));
  }

  lemma ServesSetFailsafe(d: Device, m: Message)
    requires m.Sized() && Valid(m) && CmdOf(m.header) == CMD_SET_FAILSAFE
    requires SetFailsafeOk(d.conn, m.header, Bits(m.data))
    ensures Serviceable(d, m) && StateAfter(d, m) == SetFailsafeStep(d.conn, m.header, Bits(m.data))
    ensures ReplyData(d, m) == [d.nextId]
  {
    hide Bits, SetFailsafeStep, Valid;
  }
}
