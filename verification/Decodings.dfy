/** What the handlers of the firmware do with a request whose fields are in place. */
module Decodings {
  import opened Words
  import opened BitStrings
  import opened BitUtils
  import BitFields
  import opened ValueLists
  import opened Masks
  import opened Protocol
  import opened Failsafes
  import opened Connections
  import opened FirmwareSteps
  import opened Layouts

  lemma ListFound(s: Conn, b: seq<bool>, off: nat, mask: seq<bool>, list: seq<uint16>, n: nat)
    requires |mask| == s.NbPins() && HoldsList(b, off, mask, list, n)
    ensures NamesPins(s, b, off, n) && MaskAt(s, b, off) == mask && ListAt(s, b, off, n) == list
  {
    hide ReadList, Span, Rank;
  }

  lemma MaskedWrite(s: Conn, header: uint8, b: seq<bool>, mask: seq<bool>, list: seq<uint16>)
    requires s.Ok() && UsesMask(header) && TypeOf(header) <= PIN_TYPE_PWM16
    requires |mask| == s.NbPins() && HoldsList(b, 0, mask, list, ValueBits(header))
    ensures WriteOk(s, header, b) && |s.vals| == |mask| && |list| == CountOn(mask)
    ensures WriteStep(s, header, b) == s.(vals := Scatter(s.vals, mask, Widened(LowBytes(list))))
  {
    hide HoldsList, NamesPins, ListAt, Scatter, MaskAt, LowBytes, Widened;
    ListFound(s, b, 0, mask, list, ValueBits(header));
  }

  lemma MaskedSetType(s: Conn, header: uint8, b: seq<bool>, mask: seq<bool>, list: seq<uint16>)
    requires s.Ok() && UsesMask(header)
    requires |mask| == s.NbPins() && HoldsList(b, 0, mask, list, PIN_TYPE_BITS_NB)
    ensures SetTypeOk(s, header, b) && |s.types| == |mask| && |list| == CountOn(mask)
    ensures SetTypeStep(s, header, b) == s.(types := Scatter(s.types, mask, LowBytes(list)))
  {
    hide HoldsList, NamesPins, ListAt, Scatter, MaskAt, LowBytes;
    ListFound(s, b, 0, mask, list, PIN_TYPE_BITS_NB);
  }

  lemma MaskedSetFailsafe(s: Conn, header: uint8, b: seq<bool>, timeout: uint16, mask: seq<bool>, list: seq<uint16>)
    requires s.Ok() && UsesMask(header) && TypeOf(header) <= PIN_TYPE_PWM16
    requires |mask| == s.NbPins() && HoldsList(b, 16, mask, list, ValueBits(header))
    requires 16 <= |b| && b[0..16] == Enc(timeout, 16)
    ensures SetFailsafeOk(s, header, b) && |s.failsafe| == |mask| && |list| == CountOn(mask)
    ensures SetFailsafeStep(s, header, b)
      == s.(timeout := timeout, failsafe := Scatter(s.failsafe, mask, Entries(TypeOf(header), list)))
  {
    hide HoldsList, NamesPins, ListAt, Scatter, MaskAt, Entries, ReadBits, Enc;
    ListFound(s, b, 16, mask, list, ValueBits(header));
    TimeoutFound(b, 0, timeout);
  }

  /** A timeout at a byte boundary is exact, whatever its value. */
  lemma TimeoutFound(b: seq<bool>, off: nat, timeout: uint16)
    requires off % 8 == 0 && off + 16 <= |b| && b[off..off + 16] == Enc(timeout, 16)
    ensures ToUInt16(ReadBits(b, off, 16)) == timeout
  {
    hide ReadBits, Enc;
    BitFields.ReadFieldIff(b, off, timeout, 16) by {
      Pow2Values();
    }
    Pow2Values();
  }

  lemma SingleWrite(s: Conn, header: uint8, b: seq<bool>, pin: uint8, v: uint16)
    requires s.Ok() && !UsesMask(header) && TypeOf(header) <= PIN_TYPE_PWM16 && pin < s.NbPins()
    requires 8 + ValueBits(header) <= |b| && PinOf(b, 0) == pin
    requires b[8..8 + ValueBits(header)] == Enc(v, ValueBits(header))
    ensures WriteOk(s, header, b)
    ensures WriteStep(s, header, b) == PinWritten(s, pin, TypeOf(header), Truncated(v, ValueBits(header)))
  {
    hide ReadBits, Enc, PinOf, Truncated, Transported;
    ReadIsTransported(b, 8, ValueBits(header), v);
    TransportedLow(8, ValueBits(header), v);
  }

  lemma SingleSetType(s: Conn, header: uint8, b: seq<bool>, pin: uint8, t: uint8)
    requires s.Ok() && !UsesMask(header) && pin < s.NbPins()
    requires 11 <= |b| && PinOf(b, 0) == pin && b[8..11] == Enc(t, 3)
    ensures SetTypeOk(s, header, b)
    ensures SetTypeStep(s, header, b) == s.(types := s.types[pin := t % 8])
  {
    hide ReadBits, Enc, PinOf, Truncated, Transported;
    ReadIsTransported(b, 8, 3, t);
    TransportedLow(8, 3, t);
    Pow2Values();
    LowIsRemainder(t, 3, 8);
    ByteOfSmallWord(ReadBits(b, 8, 3), t % 8);
  }

  lemma SingleSetFailsafe(s: Conn, header: uint8, b: seq<bool>, timeout: uint16, pin: uint8, v: uint16)
    requires s.Ok() && !UsesMask(header) && TypeOf(header) <= PIN_TYPE_PWM16 && pin < s.NbPins()
    requires 24 + ValueBits(header) <= |b| && b[0..16] == Enc(timeout, 16) && PinOf(b, 16) == pin
    requires b[24..24 + ValueBits(header)] == Enc(v, ValueBits(header))
    ensures SetFailsafeOk(s, header, b)
    ensures SetFailsafeStep(s, header, b) == s.(timeout := timeout,
      failsafe := s.failsafe[pin := PinFailsafe(TypeOf(header), Truncated(v, ValueBits(header)))])
  {
    hide ReadBits, Enc, PinOf, Truncated, Transported;
    TimeoutFound(b, 0, timeout);
    ReadIsTransported(b, 24, ValueBits(header), v);
    TransportedLow(24, ValueBits(header), v);
  }

  lemma SingleRead(s: Conn, header: uint8, b: seq<bool>, pin: uint8, id: uint8)
    requires s.Ok() && !UsesMask(header) && TypeOf(header) <= PIN_TYPE_PWM16 && pin < s.NbPins()
    requires 8 <= |b| && PinOf(b, 0) == pin
    ensures ReadOk(s, header, b)
    ensures StampId(ReadAnswer(s, header, b), id) == ValueReply(s.vals[pin], ValueBits(header), id)
  {
    hide WriteBits, StampId, PinOf, ToInt16;
  }

  lemma MaskedRead(s: Conn, header: uint8, b: seq<bool>, mask: seq<bool>, id: uint8)
    requires s.Ok() && UsesMask(header) && TypeOf(header) <= PIN_TYPE_PWM16
    requires |mask| == s.NbPins() <= |b| && b[0..|mask|] == mask
    ensures ReadOk(s, header, b)
    ensures StampId(ReadAnswer(s, header, b), id) == ValuesReply(Gather(s.vals, mask), ValueBits(header), id)
  {
    hide WriteList, Gather, Span, StampId;
  }

  lemma SingleGetType(s: Conn, header: uint8, b: seq<bool>, pin: uint8, id: uint8)
    requires s.Ok() && !UsesMask(header) && pin < s.NbPins() && 8 <= |b| && PinOf(b, 0) == pin
    ensures GetTypeOk(s, header, b)
    ensures StampId(TypeAnswer(s, header, b), id) == TypeReply(s.types[pin], id)
  {
    hide WriteBits, StampId, PinOf;
  }

  lemma MaskedGetType(s: Conn, header: uint8, b: seq<bool>, mask: seq<bool>, id: uint8)
    requires s.Ok() && UsesMask(header) && |mask| == s.NbPins() <= |b| && b[0..|mask|] == mask && CountOn(mask) > 0
    ensures GetTypeOk(s, header, b)
    ensures StampId(TypeAnswer(s, header, b), id) == TypesReply(Gather(Widened(s.types), mask), id)
  {
    hide WriteList, Gather, Span, Widened, StampId;
  }

  lemma SingleGetFailsafe(s: Conn, header: uint8, b: seq<bool>, pin: uint8, id: uint8)
    requires s.Ok() && !UsesMask(header) && pin < s.NbPins() && 8 <= |b| && PinOf(b, 0) == pin
    requires Sendable(s.failsafe[pin])
    ensures GetFailsafeOk(s, header, b)
    ensures FailsafeReply(s, header, b, id) == EntryReply(s.failsafe[pin], id, s.timeout)
  {
    hide WriteBits, StampId, PinOf, ToInt16;
  }

  lemma MaskedGetFailsafe(s: Conn, header: uint8, b: seq<bool>, mask: seq<bool>, id: uint8)
    requires s.Ok() && UsesMask(header) && |mask| == s.NbPins() <= |b| && b[0..|mask|] == mask
    requires AllSendable(Gather(s.failsafe, mask)) && 3 + Bits2Bytes(NbBits(Gather(s.failsafe, mask))) < 0x100
    ensures GetFailsafeOk(s, header, b)
    ensures FailsafeReply(s, header, b, id) == StreamReply(Gather(s.failsafe, mask), id, s.timeout)
  {
    hide WriteTable, Gather, AllSendable, EncFailsafe, WriteBits, StampId, ToInt16;
  }
}
