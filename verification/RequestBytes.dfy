/** The requests in numbers: header, size and data bytes. */
module RequestBytes {
  import opened Words
  import opened BitStrings
  import opened BitUtils
  import opened BitFields
  import opened ValueLists
  import opened Spills
  import opened Masks
  import opened Protocol
  import opened Failsafes
  import opened FirmwareSteps
  import opened DriverCalls
  import opened Layouts
  import opened Exchanges

  // ---- bytes and the fields in them ----

  lemma LowOfByte(v: int)
    ensures Low(v, 8) == v % 0x100
  {
    Pow2Values();
    LowIsRemainder(v, 8, 0x100);
  }

  /** A byte that is one field. */
  lemma ByteIs(s: seq<uint8>, i: nat, v: int)
    requires i < |s| && Bits(s)[8 * i..8 * i + 8] == Enc(v, 8)
    ensures s[i] == v % 0x100
  {
    hide Bits, Enc, Dec, Low;
    BitsOfByte(s, i);
    DecEnc(v, 8);
    DecEnc(s[i], 8);
    LowOfByte(v);
    LowOfByte(s[i]);
  }

  lemma ZerosDecode(n: nat)
    ensures Dec(Zeros(n)) == 0
  {
    if n > 0 {
      assert Zeros(n)[..n - 1] == Zeros(n - 1);
      ZerosDecode(n - 1);
    }
  }

  /** A byte that starts with a field of n bits and ends with zeros. */
  lemma ByteOfField(s: seq<uint8>, i: nat, n: nat, v: int)
    requires i < |s| && n <= 8 && Bits(s)[8 * i..8 * i + n] == Enc(v, n) && Blank(Bits(s), 8 * i + n, 8 * i + 8)
    ensures s[i] == Low(v, n) * Pow2(8 - n)
  {
    hide Bits, Enc, Dec, Low, Pow2, Shl;
    var b := Bits(s);
    assert b[8 * i..8 * i + 8] == b[8 * i..8 * i + n] + b[8 * i + n..8 * i + 8];
    assert b[8 * i + n..8 * i + 8] == Zeros(8 - n);
    BitsOfByte(s, i);
    DecConcat(Enc(v, n), Zeros(8 - n));
    ZerosDecode(8 - n);
    DecEnc(v, n);
    DecEnc(s[i], 8);
    LowOfByte(s[i]);
    ShlIsProduct(Low(v, n), 8 - n);
  }

  /** Two bytes that are one field, high byte first. */
  lemma WordIs(s: seq<uint8>, i: nat, v: int)
    requires i + 1 < |s| && Bits(s)[8 * i..8 * i + 16] == Enc(v, 16)
    ensures s[i] == v % 0x1_0000 / 0x100 && s[i + 1] == v % 0x100
  {
    hide Bits, Enc, Dec, Low, Shl, Pow2;
    var b := Bits(s);
    assert b[8 * i..8 * i + 16] == b[8 * i..8 * i + 8] + b[8 * i + 8..8 * i + 16];
    BitsOfByte(s, i);
    BitsOfByte(s, i + 1);
    DecConcat(Enc(s[i], 8), Enc(s[i + 1], 8));
    DecEnc(s[i], 8);
    DecEnc(s[i + 1], 8);
    DecEnc(v, 16);
    LowOfByte(s[i]);
    LowOfByte(s[i + 1]);
    ShlIsProduct(s[i], 8);
    Pow2Values();
    LowIsRemainder(v, 16, 0x1_0000);
    HighAndLow(v, s[i], s[i + 1]);
  }

  lemma HighAndLow(v: int, hi: uint8, lo: uint8)
    requires v % 0x1_0000 == 0x100 * (hi as int) + lo
    ensures hi == v % 0x1_0000 / 0x100 && lo == v % 0x100
  {
    DivModUnique(v % 0x1_0000, 0x100, hi, lo);
    DivModUnique(v, 0x100, 0x100 * (v / 0x1_0000) + hi, lo);
  }

  lemma PowersOfTwo()
    ensures Pow2(5) == 0x20 && Pow2(7) == 0x80
  {
  }

  lemma LowOfBit(v: int)
    ensures Low(v, 1) == v % 2
  {
  }

  lemma LowOfType(v: int)
    ensures Low(v, 3) == v % 8
  {
    Pow2Values();
    LowIsRemainder(v, 3, 8);
  }

  /** A byte and a field of one of the four widths; fields of 1 and 3 bits are the highest bits of their byte. */
  lemma ByteAndField(data: seq<uint8>, first: uint8, v: int, n: nat)
    requires (n == 1 || n == 3 || n == 8 || n == 16) && |data| == if n == 16 then 3 else 2
    requires Bits(data)[0..8] == Enc(first, 8) && Bits(data)[8..8 + n] == Enc(v, n)
    requires Blank(Bits(data), 8 + n, 8 * |data|)
    ensures data ==
      if n == 1 then [first, 0x80 * (v % 2)]
      else if n == 3 then [first, 0x20 * (v % 8)]
      else if n == 8 then [first, v % 0x100]
      else [first, v % 0x1_0000 / 0x100, v % 0x100]
  {
    hide Bits, Enc, Low, Pow2, Blank;
    ByteIs(data, 0, first);
    PowersOfTwo();
    LowOfBit(v);
    LowOfType(v);
    if n == 16 {
      WordIs(data, 1, v);
    } else if n == 8 {
      ByteIs(data, 1, v);
    } else {
      ByteOfField(data, 1, n, v);
    }
  }

  // ---- requests ----

  /** The bytes of any packet. */
  lemma WireOf(m: Message)
    requires m.Sized()
    ensures m.Wire() == [m.header, |m.data| / 0x100, |m.data| % 0x100] + m.data + [m.checksum]
  {
  }

  lemma HeaderNumber(cmd: uint8, param: int)
    requires cmd < 0x10 && 0 <= param < 0x10
    ensures ToUInt8(param) == param && HeaderOf(cmd, param) == 0x10 * cmd as int + param
  {
  }

  lemma HeaderIs(call: Call)
    requires Sound(call)
    ensures RequestHeader(call) ==
      match call
      case GenericRead(_, mode) => 0x30 + 2 * mode as int
      case ReadValueMask(_, mode) => 0x31 + 2 * mode as int
      case GenericWrite(_, mode, _) => 0x40 + 2 * mode as int
      case WriteValueMask(_, mode, _) => 0x41 + 2 * mode as int
      case GetType(_) => 0x50
      case GetTypeMask(_) => 0x51
      case SetType(_, _) => 0x60
      case SetTypeMask(_, _) => 0x61
      case GetFailsafe(_) => 0x70
      case GetFailsafeMask(_) => 0x71
      case SetFailsafe(_, _, f) => 0x80 + 2 * f.pinState as int
      case SetFailsafeMask(_, mode, _, _) => 0x81 + 2 * mode as int
  {
    hide HeaderOf, ToUInt8, Rank;
    match call
    case GenericRead(_, mode) => HeaderNumber(3, 2 * mode as int);
    case ReadValueMask(_, mode) => HeaderNumber(3, 2 * mode as int + 1);
    case GenericWrite(_, mode, _) => HeaderNumber(4, 2 * mode as int);
    case WriteValueMask(_, mode, _) => HeaderNumber(4, 2 * mode as int + 1);
    case GetType(_) => HeaderNumber(5, 0);
    case GetTypeMask(_) => HeaderNumber(5, 1);
    case SetType(_, _) => HeaderNumber(6, 0);
    case SetTypeMask(_, _) => HeaderNumber(6, 1);
    case GetFailsafe(_) => HeaderNumber(7, 0);
    case GetFailsafeMask(_) => HeaderNumber(7, 1);
    case SetFailsafe(_, _, f) => HeaderNumber(8, 2 * f.pinState as int);
    case SetFailsafeMask(_, mode, _, _) => HeaderNumber(8, 2 * mode as int + 1);
  }

  lemma StartsWithHeader(call: Call)
    requires Sound(call)
    ensures Request(call).Sized() && Request(call).Wire()[0] == RequestHeader(call)
  {
    hide RequestBits, RequestHeader, Pack, Bits, Sound;
  }

  /** The first byte of each request: the command, the type where there is one, and whether a mask follows. */
  lemma FirstByte(call: Call)
    requires Sound(call)
    ensures Request(call).Sized() && Request(call).Wire()[0] ==
      match call
      case GenericRead(_, mode) => 0x30 + 2 * mode as int
      case ReadValueMask(_, mode) => 0x31 + 2 * mode as int
      case GenericWrite(_, mode, _) => 0x40 + 2 * mode as int
      case WriteValueMask(_, mode, _) => 0x41 + 2 * mode as int
      case GetType(_) => 0x50
      case GetTypeMask(_) => 0x51
      case SetType(_, _) => 0x60
      case SetTypeMask(_, _) => 0x61
      case GetFailsafe(_) => 0x70
      case GetFailsafeMask(_) => 0x71
      case SetFailsafe(_, _, f) => 0x80 + 2 * f.pinState as int
      case SetFailsafeMask(_, mode, _, _) => 0x81 + 2 * mode as int
  {
    hide *;
    StartsWithHeader(call);
    HeaderIs(call);
  }

  /** The number of data bytes of each request; it follows the first byte, high byte first. */
  lemma RequestSize(call: Call)
    requires Sound(call)
    ensures Request(call).Sized() && Request(call).Wire()[1] == 0x100 * 0 + |Request(call).data| / 0x100
    ensures Request(call).Wire()[2] == |Request(call).data| % 0x100
    ensures |Request(call).data| ==
      match call
      case GenericRead(_, _) => 1
      case ReadValueMask(mask, _) => (|mask| + 7) / 8
      case GenericWrite(_, mode, _) => if mode == 2 || mode == 4 then 3 else 2
      case WriteValueMask(mask, mode, values) => (|mask| + |values| * GetTypeBitsNb(mode) as int + 7) / 8
      case GetType(_) => 1
      case GetTypeMask(mask) => (|mask| - 1 + 7) / 8
      case SetType(_, _) => 2
      case SetTypeMask(mask, types) => (|mask| + |types| * 3 + 7) / 8
      case GetFailsafe(_) => 1
      case GetFailsafeMask(mask) => (3 * CountOn(mask) + 7) / 8
      case SetFailsafe(_, _, f) => if f.pinState == 2 || f.pinState == 4 then 5 else 4
      case SetFailsafeMask(mask, mode, _, values) => (16 + |mask| + |values| * GetTypeBitsNb(mode) as int + 7) / 8
  {
    hide Pack, Bits, Span, Rank;
    WireOf(Request(call));
    match call
    case WriteValueMask(_, mode, values) => SpanIsProduct(|values|, GetTypeBitsNb(mode));
    case SetTypeMask(_, types) => SpanIsProduct(|types|, 3);
    case SetFailsafeMask(_, mode, _, values) => SpanIsProduct(|values|, GetTypeBitsNb(mode));
    case _ =>
  }

  lemma PinData(call: Call, pin: uint8)
    requires Sound(call) && RequestBits(call) == PinRequest(pin)
    ensures Request(call).data == [pin]
  {
    hide WriteBits, Enc, Bits, Request, RequestBits, Sound;
    WriteAligned(Zeros(8), 0, pin, 8);
    ByteIs(Request(call).data, 0, pin);
  }

  /** The data of the requests that only name a pin. */
  lemma PinBytes(pin: uint8, mode: uint8)
    requires Typed(mode)
    ensures Request(GenericRead(pin, mode)).data == [pin]
    ensures Request(GetType(pin)).data == [pin]
    ensures Request(GetFailsafe(pin)).data == [pin]
  {
    hide PinRequest, Request;
    PinData(GenericRead(pin, mode), pin);
    PinData(GetType(pin), pin);
    PinData(GetFailsafe(pin), pin);
  }

  lemma WriteData(pin: uint8, mode: uint8, val: int16)
    requires Typed(mode)
    ensures var call, n := GenericWrite(pin, mode, val), GetTypeBitsNb(mode);
      && Sound(call) && n <= 16 && Bits(Request(call).data) == ValueRequest(pin, val, n)
      && |Request(call).data| == (if n == 16 then 3 else 2)
  {
    hide Bits, ValueRequest, Request;
  }

  /**
   The data of a single write: one byte for the pin, then the value, high byte first; a digital value
   is the highest bit.
   */
  lemma WriteBytes(pin: uint8, mode: uint8, val: int16)
    requires Typed(mode)
    ensures var data := Request(GenericWrite(pin, mode, val)).data;
      && (mode == 0 ==> data == [pin, 0x80 * (val % 2)])
      && (mode == 1 || mode == 3 ==> data == [pin, val % 0x100])
      && (mode == 2 || mode == 4 ==> data == [pin, val % 0x1_0000 / 0x100, val % 0x100])
  {
    hide Enc, Bits, ValueRequest, Request, PinOf, Blank;
    Widths(mode);
    WriteData(pin, mode, val);
    ValueRequestLayout(pin, val, GetTypeBitsNb(mode));
    ByteAndField(Request(GenericWrite(pin, mode, val)).data, pin, val, GetTypeBitsNb(mode));
  }

  /** The data of `set_type`: the type is in the three highest bits of its byte. */
  lemma SetTypeBytes(pin: uint8, t: uint8)
    ensures Request(SetType(pin, t)).data == [pin, 0x20 * (t % 8)]
  {
    hide Enc, Bits, ValueRequest, Request, PinOf, Blank;
    SetTypeData(pin, t);
    ValueRequestLayout(pin, t, 3);
    ByteAndField(Request(SetType(pin, t)).data, pin, t, 3);
  }

  lemma SetTypeData(pin: uint8, t: uint8)
    ensures var m := Request(SetType(pin, t));
      |m.data| == 2 && Bits(m.data) == ValueRequest(pin, t, 3)
  {
    hide Bits, ValueRequest, Request;
  }

  lemma SetFailsafeData(pin: uint8, timeout: uint16, f: PinFailsafe)
    requires Typed(f.pinState) && f.pinState != 0
    ensures var call, n := SetFailsafe(pin, timeout, f), GetTypeBitsNb(f.pinState);
      && (n == 8 || n == 16) && Sound(call) && Bits(Request(call).data) == FailsafeRequest(timeout, pin, f.pinValue, n)
  {
    hide Bits, FailsafeRequest, Request;
  }

  /** The data of `set_failsafe`: timeout, pin and value, high bytes first. */
  lemma SetFailsafeBytes(pin: uint8, timeout: uint16, f: PinFailsafe)
    requires Typed(f.pinState) && f.pinState != 0
    ensures var data := Request(SetFailsafe(pin, timeout, f)).data;
      && (f.pinState == 1 || f.pinState == 3 ==>
           data == [timeout / 0x100, timeout % 0x100, pin, f.pinValue % 0x100])
      && (f.pinState == 2 || f.pinState == 4 ==>
           data == [timeout / 0x100, timeout % 0x100, pin, f.pinValue / 0x100, f.pinValue % 0x100])
  {
    hide Enc, Bits, FailsafeRequest, Request, PinOf;
    SetFailsafeData(pin, timeout, f);
    var n, data := GetTypeBitsNb(f.pinState), Request(SetFailsafe(pin, timeout, f)).data;
    FailsafeRequestLayout(timeout, pin, f.pinValue, n);
    WordIs(data, 0, timeout);
    ByteIs(data, 2, pin);
    if n == 8 {
      ByteIs(data, 3, f.pinValue);
    } else {
      WordIs(data, 3, f.pinValue);
    }
  }

  // ---- requests with a mask ----

  lemma BitOfByte(s: seq<uint8>, i: nat)
    requires i < 8 * |s|
    ensures Bits(s)[i] == TestBit(s[i / 8], 7 - i % 8)
  {
  }

  /** Bit p of the data, the highest bit of each byte first, says whether pin p is used. */
  predicate ShowsMask(data: seq<uint8>, bytes: nat, mask: seq<bool>) {
    && 8 * bytes + |mask| <= 8 * |data|
    && forall p :: 0 <= p < |mask| ==> (TestBit(data[bytes + p / 8], 7 - p % 8) <==> mask[p])
  }

  lemma MaskShown(data: seq<uint8>, bytes: nat, mask: seq<bool>)
    requires 8 * bytes + |mask| <= 8 * |data| && Bits(data)[8 * bytes..8 * bytes + |mask|] == mask
    ensures ShowsMask(data, bytes, mask)
  {
    hide Bits, TestBit;
    forall p | 0 <= p < |mask|
      ensures TestBit(data[bytes + p / 8], 7 - p % 8) <==> mask[p]
    {
      BitOfByte(data, 8 * bytes + p);
      SliceAt(Bits(data), 8 * bytes, 8 * bytes + |mask|, 8 * bytes + p);
      DivModUnique(8 * bytes + p, 8, bytes + p / 8, p % 8);
    }
  }

  /** The bytes say everything about a mask of known length. */
  lemma MaskIsDetermined(data: seq<uint8>, bytes: nat, mask: seq<bool>, mask': seq<bool>)
    requires ShowsMask(data, bytes, mask) && ShowsMask(data, bytes, mask') && |mask| == |mask'|
    ensures mask == mask'
  {
    hide TestBit;
  }

  lemma ReadMaskBytes(mask: seq<bool>, mode: uint8)
    requires Sound(ReadValueMask(mask, mode))
    ensures ShowsMask(Request(ReadValueMask(mask, mode)).data, 0, mask)
  {
    hide Bits, MaskRequest, ShowsMask, Request, Bits2Bytes;
    var m := Request(ReadValueMask(mask, mode));
    MaskBytesFit(|mask|);
    assert Bits(m.data) == MaskRequest(mask, Bits2Bytes(|mask|));
    MaskRequestLayout(mask, Bits2Bytes(|mask|));
    MaskShown(m.data, 0, mask);
  }

  lemma MaskBytesFit(bits: nat)
    requires 0 < bits < 0x100
    ensures 0 < Bits2Bytes(bits) <= 544 && bits <= 8 * Bits2Bytes(bits)
  {
  }

  lemma GetTypeMaskBytes(mask: seq<bool>)
    requires Sound(GetTypeMask(mask))
    ensures ShowsMask(Request(GetTypeMask(mask)).data, 0, mask[..|mask| - 1])
  {
    hide Bits, MaskRequest, ShowsMask, Request, Bits2Bytes, CmdOf, UsesMask, Valid;
    var last := |mask| - 1;
    GetTypeMaskParts(mask);
    MaskBytesFit(last);
    MaskRequestLayout(mask[..last], Bits2Bytes(last));
    MaskShown(Request(GetTypeMask(mask)).data, 0, mask[..last]);
  }

  lemma GetFailsafeMaskBytes(mask: seq<bool>)
    requires Sound(GetFailsafeMask(mask))
    ensures ShowsMask(Request(GetFailsafeMask(mask)).data, 0, mask)
  {
    hide Bits, MaskRequest, ShowsMask, Request, Bits2Bytes, CmdOf, UsesMask, Valid, Rank;
    GetFailsafeMaskParts(mask);
    MaskRequestLayout(mask, Bits2Bytes(3 * CountOn(mask)));
    MaskShown(Request(GetFailsafeMask(mask)).data, 0, mask);
  }

  /** Values of 8 or 16 bits from a byte boundary on, high bytes first. */
  predicate ShowsValues(data: seq<uint8>, bytes: nat, values: seq<uint16>, n: nat) {
    && bytes + n / 8 * |values| <= |data|
    && (n == 8 ==> forall k :: 0 <= k < |values| ==> data[bytes + k] == values[k] % 0x100)
    && (n == 16 ==> forall k :: 0 <= k < |values| ==> WordAt(data, bytes + 2 * k, values[k]))
  }

  /** The bytes say everything about a list of known length of 16-bit values, and of 8-bit ones modulo 256. */
  lemma ValuesAreDetermined(data: seq<uint8>, bytes: nat, values: seq<uint16>, values': seq<uint16>, n: nat)
    requires n == 8 || n == 16
    requires ShowsValues(data, bytes, values, n) && ShowsValues(data, bytes, values', n) && |values| == |values'|
    ensures n == 16 ==> values == values'
    ensures forall k :: 0 <= k < |values| ==> values[k] % 0x100 == values'[k] % 0x100
  {
  }

  predicate WordAt(data: seq<uint8>, i: nat, v: uint16) {
    i + 1 < |data| && data[i] == v / 0x100 && data[i + 1] == v % 0x100
  }

  lemma ValuesShown(data: seq<uint8>, bytes: nat, values: seq<uint16>, n: nat)
    requires (n == 8 || n == 16)
    requires 8 * bytes + Span(|values|, n) <= 8 * |data|
    requires forall k :: 0 <= k < |values| ==> HoldsField(Bits(data), 8 * bytes, values, n, k)
    ensures ShowsValues(data, bytes, values, n)
  {
    hide Bits, Enc, Span, HoldsField;
    SpanIsProduct(|values|, n);
    forall k | 0 <= k < |values|
      ensures n == 8 ==> bytes + k < |data| && data[bytes + k] == values[k] % 0x100
      ensures n == 16 ==> WordAt(data, bytes + 2 * k, values[k])
    {
      ValueShown(data, bytes, values, n, k);
    }
  }

  lemma ValueShown(data: seq<uint8>, bytes: nat, values: seq<uint16>, n: nat, k: nat)
    requires (n == 8 || n == 16) && k < |values| && HoldsField(Bits(data), 8 * bytes, values, n, k)
    ensures n == 8 ==> bytes + k < |data| && data[bytes + k] == values[k] % 0x100
    ensures n == 16 ==> WordAt(data, bytes + 2 * k, values[k])
  {
    hide Bits, Enc, Span;
    SpanIsProduct(k, n);
    if n == 8 {
      ByteIs(data, bytes + k, values[k]);
    } else {
      WordIs(data, bytes + 2 * k, values[k]);
    }
  }

  /** A masked write on a multiple of 8 pins: the mask, then the values of 8 or 16 bits. */
  lemma WriteMaskBytes(mask: seq<bool>, mode: uint8, values: seq<uint16>)
    requires Typed(mode) && mode != 0 && Listed(mask, values) && |mask| % 8 == 0
    ensures var data, n := Request(WriteValueMask(mask, mode, values)).data, if mode == 1 || mode == 3 then 8 else 16;
      ShowsMask(data, 0, mask) && ShowsValues(data, |mask| / 8, values, n)
  {
    hide Bits, ListRequest, Request, ShowsMask, ShowsValues, HoldsList, HoldsField, MaskFound, MaskSpared, ListReceived,
      Spared, ListSpillFree, CmdOf, UsesMask, Valid, Span, Rank;
    var n, data := GetTypeBitsNb(mode), Request(WriteValueMask(mask, mode, values)).data;
    WriteMaskParts(mask, mode, values);
    AlignedListIsSpillFree(|mask|, values, n);
    SpillFreeSpares(|mask|, values, n);
    SpillFreeSparesMask(|mask|, mask, values, n);
    ListRequestLayout(mask, values, n);
    MaskShown(data, 0, mask);
    ListInside(mask, values, n);
    ValuesShown(data, |mask| / 8, values, n);
  }

  lemma ListInside(mask: seq<bool>, values: seq<uint16>, n: nat)
    requires Listed(mask, values) && n <= 16
    ensures |mask| + Span(|values|, n) <= |ListRequest(mask, values, n)|
  {
    hide Span, Rank;
  }

  /** The same for `set_failsafe_mask`, behind two bytes of timeout. */
  lemma SetFailsafeMaskBytes(mask: seq<bool>, mode: uint8, timeout: uint16, values: seq<uint16>)
    requires Typed(mode) && mode != 0 && Listed(mask, values) && |mask| % 8 == 0
    ensures var data := Request(SetFailsafeMask(mask, mode, timeout, values)).data;
      var n := if mode == 1 || mode == 3 then 8 else 16;
      && 2 <= |data| && data[0] == timeout / 0x100 && data[1] == timeout % 0x100
      && ShowsMask(data, 2, mask) && ShowsValues(data, 2 + |mask| / 8, values, n)
  {
    hide Bits, FailsafeListRequest, Request, ShowsMask, ShowsValues, HoldsList, HoldsField, MaskFound, MaskSpared,
      ListReceived, Spared, ListSpillFree, CmdOf, UsesMask, Valid, Span, Rank, Enc;
    var n, data := GetTypeBitsNb(mode), Request(SetFailsafeMask(mask, mode, timeout, values)).data;
    SetFailsafeMaskParts(mask, mode, timeout, values);
    AlignedListIsSpillFree(16 + |mask|, values, n);
    SpillFreeSpares(16 + |mask|, values, n);
    SpillFreeSparesMask(16 + |mask|, mask, values, n);
    FailsafeListLayout(timeout, mask, values, n);
    FailsafeListInside(timeout, mask, values, n);
    WordIs(data, 0, timeout);
    MaskShown(data, 2, mask);
    ValuesShown(data, 2 + |mask| / 8, values, n);
  }

  lemma FailsafeListInside(timeout: uint16, mask: seq<bool>, values: seq<uint16>, n: nat)
    requires Listed(mask, values) && n <= 16
    ensures 16 + |mask| + Span(|values|, n) <= |FailsafeListRequest(timeout, mask, values, n)|
  {
    hide Span, Rank;
  }

  /** The types of `set_type_mask` are 3 bits each, right behind the mask. */
  lemma SetTypeMaskBytes(mask: seq<bool>, types: seq<uint16>)
    requires Listed(mask, types) && forall k :: 0 <= k < |types| ==> types[k] < 8
    ensures var data := Request(SetTypeMask(mask, types)).data;
      && ShowsMask(data, 0, mask) && |mask| + 3 * |types| <= 8 * |data|
      && forall k :: 0 <= k < |types| ==>
           Bits(data)[|mask| + 3 * k..|mask| + 3 * k + 3] == Enc(types[k], 3)
  {
    hide Bits, ListRequest, Request, ShowsMask, HoldsList, MaskFound, MaskSpared, ListReceived, Spared, ListSpillFree,
      ListCarries, CmdOf, UsesMask, Valid, Span, Rank, Enc, Pow2;
    var data := Request(SetTypeMask(mask, types)).data;
    Pow2Values();
    SetTypeMaskParts(mask, types);
    ListDomains(|mask|, types, 3);
    SpillFreeSpares(|mask|, types, 3);
    SpillFreeSparesMask(|mask|, mask, types, 3);
    ListRequestLayout(mask, types, 3);
    MaskShown(data, 0, mask);
    ListInside(mask, types, 3);
    SpanIsProduct(|types|, 3);
    forall k | 0 <= k < |types|
      ensures Bits(data)[|mask| + 3 * k..|mask| + 3 * k + 3] == Enc(types[k], 3)
    {
      SpanIsProduct(k, 3);
      assert HoldsField(ListRequest(mask, types, 3), |mask|, types, 3, k);
    }
  }

  // ---- requests without a pin ----

  /** The request for the capabilities: an empty packet under header 0. */
  lemma CapsRequestBytes()
    ensures Seal(0, []).Wire() == [0, 0, 0, 0xFF]
  {
  }

  /** A ping: header 0x20 and the version of the driver. */
  lemma PingRequestBytes(version: uint8)
    ensures Seal(0x20, [version]).Wire() == [0x20, 0, 1, version, 0xFF - (0x21 + version) % 0x100]
  {
    SumOfOne(version);
  }
}
