/** One call of the driver through the bytes on the channel: exactly which pins both peers agree on afterwards. */
module Outcomes {
  import opened Words
  import opened BitStrings
  import opened BitFields
  import opened ValueLists
  import opened Spills
  import opened Masks
  import opened Protocol
  import opened DeviceState
  import opened Failsafes
  import opened TableSpills
  import opened Connections
  import opened FirmwareSteps
  import opened DriverCalls
  import opened Layouts
  import opened Exchanges

  lemma SafeIsCarried(call: Call, sys: System)
    requires Ready(sys) && Safe(call, sys.device.conn)
    ensures Sound(call) && Carried(call, sys)
  {
    assert Sound(call);
    hide Ready, Safe, Carried, Sound;
    match call
    case GenericRead(pin, mode) => GenericReadExchange(sys, pin, mode);
    case ReadValueMask(mask, mode) => ReadValueMaskCarried(sys, mask, mode);
    case GenericWrite(pin, mode, val) => GenericWriteExchange(sys, pin, mode, val);
    case WriteValueMask(mask, mode, values) => WriteValueMaskExchange(sys, mask, mode, values);
    case GetType(pin) => GetTypeExchange(sys, pin);
    case GetTypeMask(mask) => GetTypeMaskExchange(sys, mask);
    case SetType(pin, t) => SetTypeExchange(sys, pin, t);
    case SetTypeMask(mask, types) => SetTypeMaskExchange(sys, mask, types);
    case GetFailsafe(pin) => GetFailsafeExchange(sys, pin);
    case GetFailsafeMask(mask) => GetFailsafeMaskExchange(sys, mask);
    case SetFailsafe(pin, timeout, f) => SetFailsafeExchange(sys, pin, timeout, f);
    case SetFailsafeMask(mask, mode, timeout, values) => SetFailsafeMaskExchange(sys, mask, mode, timeout, values);
  }

  /**
   One call over the lossless channel: the device receives the bytes of the request and serves
   them, the driver receives the bytes of the reply and updates its mirror.
   */
  function Exec(call: Call, sys: System): System
    requires Ready(sys) && Safe(call, sys.device.conn)
  {
    SafeIsCarried(call, sys);
    var request := Delivered(Request(call));
    var reply := Delivered(ReplyTo(sys.device, request));
    System(MirrorAfter(call, sys.mirror, Bits(reply.data)), Step(sys.device, request))
  }

  lemma ExecIs(call: Call, sys: System)
    requires Ready(sys) && Safe(call, sys.device.conn)
    ensures Sound(call) && Carried(call, sys)
    ensures Exec(call, sys) == System(MirrorOf(call, sys),
      sys.device.(conn := DeviceAfter(call, sys), nextId := NextId(sys.device.nextId)))
  {
    hide Ready, Safe, Request, Serviceable, Addresses, ReplyOk, StateAfter, ReplyData, MirrorAfter, Bits, NextId,
      Sound, Seal;
    SafeIsCarried(call, sys);
  }

  // ---- what a call settles ----

  function Used(mask: seq<bool>): set<nat> {
    set p: nat | p < |mask| && mask[p]
  }

  /** The pins whose value the call changes on either side; values may have set bits of the mask in front of them. */
  function ValuesTouched(call: Call): set<nat> {
    match call
    case GenericRead(pin, _) => {pin as nat}
    case ReadValueMask(mask, _) => Used(mask)
    case GenericWrite(pin, _, _) => {pin as nat}
    case WriteValueMask(mask, mode, values) => Used(MaskFound(|mask|, mask, values, GetTypeBitsNb(mode)))
    case _ => {}
  }

  function TypesTouched(call: Call): set<nat> {
    match call
    case GenericWrite(pin, _, _) => {pin as nat}
    case GetType(pin) => {pin as nat}
    case GetTypeMask(mask) => Used(mask)
    case SetType(pin, _) => {pin as nat}
    case SetTypeMask(mask, types) => Used(MaskFound(|mask|, mask, types, PIN_TYPE_BITS_NB))
    case _ => {}
  }

  function FailsafesTouched(call: Call): set<nat> {
    match call
    case GetFailsafeMask(mask) => Used(mask)
    case SetFailsafe(pin, _, _) => {pin as nat}
    case SetFailsafeMask(mask, mode, _, values) => Used(MaskFound(16 + |mask|, mask, values, GetTypeBitsNb(mode)))
    case _ => {}
  }

  /** The value given to pin p by a list. */
  function ValueFor(mask: seq<bool>, values: seq<uint16>, p: nat): uint16
    requires |values| == CountOn(mask) && p in Used(mask)
  {
    RankOfUsed(mask, p);
    values[Rank(mask, p)]
  }

  /** No later value of the list behind a mask sets a zero bit in the field of pin p. */
  predicate SparedPin(off: nat, mask: seq<bool>, values: seq<uint16>, n: nat, p: nat)
    requires |values| == CountOn(mask) && p in Used(mask)
  {
    RankOfUsed(mask, p);
    Spared(off, values, n, Rank(mask, p))
  }

  /** What the device takes for pin p from a list behind a mask, of which the values may have set bits. */
  function TakenFor(off: nat, mask: seq<bool>, values: seq<uint16>, n: nat, p: nat): uint16
    requires |mask| <= off && |values| == CountOn(mask) && p in Used(MaskFound(off, mask, values, n))
  {
    ValueFor(MaskFound(off, mask, values, n), ListReceived(off, mask, values, n), p)
  }

  /** Both peers hold the same value of pin p after the call; v is the value in the mirror before it. */
  predicate ValueSettles(call: Call, s: Conn, v: uint16, p: nat)
    requires s.Ok() && Safe(call, s) && p in ValuesTouched(call)
  {
    match call
    case GenericRead(_, mode) => Fits(s.vals[p], GetTypeBitsNb(mode))
    case ReadValueMask(mask, mode) =>
      Fits(s.vals[p], GetTypeBitsNb(mode)) && SparedPin(8, mask, Gather(s.vals, mask), GetTypeBitsNb(mode), p)
    case GenericWrite(_, mode, val) => Fits(ToUInt16(val), GetTypeBitsNb(mode))
    case WriteValueMask(mask, mode, values) =>
      var n := GetTypeBitsNb(mode);
      if MaskSpared(|mask|, mask, values, n) then
        FoundIffSpared(|mask|, mask, values, n);
        ValueFor(mask, values, p) < 0x100 && Fits(ValueFor(mask, values, p), n) && SparedPin(|mask|, mask, values, n, p)
      else
        ToUInt8(TakenFor(|mask|, mask, values, n, p)) == if mask[p] then ValueFor(mask, values, p) else v
  }

  /** Both peers hold the same type of pin p after the call; t is the type in the mirror before it. */
  predicate TypeSettles(call: Call, s: Conn, t: uint8, p: nat)
    requires s.Ok() && Safe(call, s) && p in TypesTouched(call)
  {
    match call
    case GenericWrite(_, mode, _) => t == mode
    case GetType(_) => true
    case GetTypeMask(mask) => p == |mask| - 1 ==> s.types[p] == PIN_TYPE_DIGITAL
    case SetType(_, newType) => newType < 8
    case SetTypeMask(mask, types) =>
      if MaskSpared(|mask|, mask, types, 3) then
        FoundIffSpared(|mask|, mask, types, 3);
        ToUInt8(ValueFor(mask, types, p)) < 8 && SparedPin(|mask|, mask, types, 3, p)
      else
        ToUInt8(TakenFor(|mask|, mask, types, 3, p)) == if mask[p] then ToUInt8(ValueFor(mask, types, p)) else t
  }

  /** A failsafe value that survives its place behind a timeout and a mask of nbPins bits. */
  predicate EntrySettles(nbPins: nat, n: nat, v: uint16) {
    Fits(v, n) && (n == 16 ==> nbPins % 8 == 0 || Fits(v, 8 + nbPins % 8))
  }

  /** The reader of the reply to a masked request reaches the entry of pin p. */
  predicate EntryReached(s: Conn, mask: seq<bool>, p: nat)
    requires |mask| == |s.failsafe| && p in Used(mask)
  {
    RankOfUsed(mask, p);
    Reached(24, Gather(s.failsafe, mask), Rank(mask, p))
  }

  /** Both peers hold the same failsafe entry of pin p after the call; g is the entry in the mirror before it. */
  predicate FailsafeSettles(call: Call, s: Conn, g: PinFailsafe, p: nat)
    requires s.Ok() && Safe(call, s) && p in FailsafesTouched(call)
  {
    match call
    case GetFailsafeMask(mask) =>
      EntryReached(s, mask, p) && (RankOfUsed(mask, p); EntrySpared(24, Gather(s.failsafe, mask), Rank(mask, p)))
    case SetFailsafe(_, _, f) => Fits(f.pinValue, GetTypeBitsNb(f.pinState))
    case SetFailsafeMask(mask, mode, _, values) =>
      var n := GetTypeBitsNb(mode);
      if MaskSpared(16 + |mask|, mask, values, n) then
        FoundIffSpared(16 + |mask|, mask, values, n);
        EntrySettles(|mask|, n, ValueFor(mask, values, p)) && SparedPin(16 + |mask|, mask, values, n, p)
      else
        PinFailsafe(mode, TakenFor(16 + |mask|, mask, values, n, p))
          == if mask[p] then PinFailsafe(mode, ValueFor(mask, values, p)) else g
  }

  // ---- one field at a time ----

  lemma WideTransportIff(off: nat, n: nat, v: uint16)
    requires n == 1 || n == 8 || n == 16
    ensures Transported(off, n, v) == v <==> Fits(v, n) && (n == 16 ==> off % 8 == 0 || Fits(v, 8 + off % 8))
  {
    hide Transported;
    TransportedIff(off, n, v);
  }

  lemma SmallTypeIff(t: uint16)
    ensures ToUInt8(t) == t % 8 <==> ToUInt8(t) < 8
  {
  }

  // ---- one value of a list at a time ----

  /** What goes through a list and a byte is the value exactly when it fits both and the later values spare it. */
  lemma ArrivedByteIff(off: nat, values: seq<uint16>, mode: uint8, k: nat)
    requires Typed(mode) && k < |values|
    ensures var n := GetTypeBitsNb(mode);
      ToUInt8(Arrived(off, values, n)[k]) == values[k] <==>
        values[k] < 0x100 && Fits(values[k], n) && Spared(off, values, n, k)
  {
    hide Arrived, Span, Spared, GetTypeBitsNb, Low, Pow2;
    var n, v := GetTypeBitsNb(mode), values[k];
    WidthIs(mode);
    Pow2Values();
    ArrivedLowByteIff(off, values, n, k);
    LowIsIdentityIff(v, if n < 8 then n else 8);
    if n == 1 {
      ArrivedLowIff(off, values, n, k);
      FittingByte(Arrived(off, values, n)[k], n);
    }
  }

  /** The same for types, which both sides store in a byte. */
  lemma ArrivedTypeIff(off: nat, types: seq<uint16>, k: nat)
    requires k < |types|
    ensures Arrived(off, types, 3)[k] < 8
    ensures ToUInt8(Arrived(off, types, 3)[k]) == ToUInt8(types[k])
      <==> ToUInt8(types[k]) < 8 && Spared(off, types, 3, k)
  {
    hide Arrived, Span, Spared, Low, Pow2;
    var v := types[k];
    ArrivedLowIff(off, types, 3, k);
    Pow2Values();
    LowIsRemainder(v, 3, 8);
    SmallTypeIff(v);
  }

  lemma ArrivedEntryIff(nbPins: nat, values: seq<uint16>, mode: uint8, k: nat)
    requires Typed(mode) && k < |values|
    ensures var n := GetTypeBitsNb(mode);
      Arrived(16 + nbPins, values, n)[k] == values[k] <==>
        EntrySettles(nbPins, n, values[k]) && Spared(16 + nbPins, values, n, k)
  {
    hide Arrived, Span, Spared, Carries, EntrySettles, GetTypeBitsNb, Transported;
    var n := GetTypeBitsNb(mode);
    WidthIs(mode);
    ArrivedIff(16 + nbPins, values, n, k);
    EntryFieldIff(nbPins, mode, values[k], k);
    TransportedIff(16 + nbPins + Span(k, n), n, values[k]);
  }

  /** From a byte boundary on, a value arrives exactly when it fits its width and is spared. */
  lemma ArrivedAlignedIff(off: nat, values: seq<uint16>, mode: uint8, k: nat)
    requires off % 8 == 0 && Typed(mode) && k < |values|
    ensures var n := GetTypeBitsNb(mode);
      Arrived(off, values, n)[k] == values[k] <==> Fits(values[k], n) && Spared(off, values, n, k)
  {
    hide Arrived, Span, Spared, Fits, GetTypeBitsNb, Transported;
    var n := GetTypeBitsNb(mode);
    WidthIs(mode);
    ArrivedIff(off, values, n, k);
    if n > 1 {
      SpanOfBytes(k, n);
      AddBytes(off, Span(k, n));
    }
  }

  // ---- values ----

  predicate TouchesValues(call: Call) {
    call.GenericRead? || call.ReadValueMask? || call.GenericWrite? || call.WriteValueMask?
  }

  lemma ValuesKept(call: Call, sys: System)
    requires Ready(sys) && Safe(call, sys.device.conn) && !TouchesValues(call)
    ensures Sound(call) && Carried(call, sys)
    ensures MirrorOf(call, sys).vals == sys.mirror.vals && DeviceAfter(call, sys).vals == sys.device.conn.vals
  {
    assert Sound(call) && !(call.GenericRead? || call.ReadValueMask? || call.GenericWrite? || call.WriteValueMask?);
    hide *;
    match call
    case GetType(pin) => GetTypeExchange(sys, pin);
    case GetTypeMask(mask) => GetTypeMaskExchange(sys, mask);
    case SetType(pin, t) => SetTypeExchange(sys, pin, t);
    case SetTypeMask(mask, types) => SetTypeMaskExchange(sys, mask, types);
    case GetFailsafe(pin) => GetFailsafeExchange(sys, pin);
    case GetFailsafeMask(mask) => GetFailsafeMaskExchange(sys, mask);
    case SetFailsafe(pin, timeout, f) => SetFailsafeExchange(sys, pin, timeout, f);
    case SetFailsafeMask(mask, mode, timeout, values) => SetFailsafeMaskExchange(sys, mask, mode, timeout, values);
  }

  lemma ReadValueMaskValue(sys: System, mask: seq<bool>, mode: uint8, p: nat)
    requires Ready(sys) && Safe(ReadValueMask(mask, mode), sys.device.conn) && p < |mask|
    ensures var call, s, n := ReadValueMask(mask, mode), sys.device.conn, GetTypeBitsNb(mode);
      && Sound(call) && Carried(call, sys) && DeviceAfter(call, sys) == s && |mask| == s.NbPins() == |s.vals|
      && (!mask[p] ==> MirrorOf(call, sys).vals[p] == sys.mirror.vals[p])
      && (mask[p] ==> Rank(mask, p) < CountOn(mask))
      && (mask[p] ==> (MirrorOf(call, sys).vals[p] == s.vals[p]
          <==> Fits(s.vals[p], n) && Spared(8, Gather(s.vals, mask), n, Rank(mask, p))))
  {
    hide *;
    var call, n, s := ReadValueMask(mask, mode), GetTypeBitsNb(mode), sys.device.conn;
    MaskedFacts(sys, call);
    ReadMaskFacts(sys, mask, mode);
    ReadValueMaskExchange(sys, mask, mode);
    ScatterAt(sys.mirror.vals, mask, ReadBack(s, mask, n), p);
    if mask[p] {
      GatherAt(s.vals, mask, p);
      ArrivedAlignedIff(8, Gather(s.vals, mask), mode, Rank(mask, p));
    }
  }

  lemma ReadMaskFacts(sys: System, mask: seq<bool>, mode: uint8)
    requires Ready(sys) && Safe(ReadValueMask(mask, mode), sys.device.conn)
    ensures Typed(mode) && |sys.mirror.vals| == |mask| == |sys.device.conn.vals|
    ensures ReadBack(sys.device.conn, mask, GetTypeBitsNb(mode))
         == Arrived(8, Gather(sys.device.conn.vals, mask), GetTypeBitsNb(mode))
  {
    hide AllStorable, Arrived, Gather, Rank, GetTypeBitsNb;
  }

  lemma StoredValue(mask: seq<bool>, list: seq<uint16>, p: nat)
    requires |list| == CountOn(mask) && p in Used(mask)
    ensures Rank(mask, p) < |list| && Widened(LowBytes(list))[Rank(mask, p)] == ToUInt8(ValueFor(mask, list, p))
    ensures list[Rank(mask, p)] == ValueFor(mask, list, p)
  {
    hide Rank;
    RankOfUsed(mask, p);
  }

  lemma InUsed(mask: seq<bool>, p: nat)
    ensures p in Used(mask) <==> p < |mask| && mask[p]
  {
  }

  /** Pin p after a masked write: the mirror has what was given, the device what it has taken. */
  lemma WriteValueMaskValue(sys: System, mask: seq<bool>, mode: uint8, values: seq<uint16>, p: nat)
    requires Ready(sys) && Safe(WriteValueMask(mask, mode, values), sys.device.conn) && p < |mask|
    ensures var call, s, n := WriteValueMask(mask, mode, values), sys.device.conn, GetTypeBitsNb(mode);
      && Sound(call) && Carried(call, sys) && |mask| == s.NbPins() == |s.vals| && |values| == CountOn(mask)
      && MirrorOf(call, sys).vals[p] == (if p in Used(mask) then ValueFor(mask, values, p) else sys.mirror.vals[p])
      && DeviceAfter(call, sys).vals[p] == (if p in Used(MaskFound(|mask|, mask, values, n))
           then ToUInt8(TakenFor(|mask|, mask, values, n, p)) else s.vals[p])
      && (p in Used(mask) ==> p in Used(MaskFound(|mask|, mask, values, n)))
  {
    hide *;
    var call, n, s := WriteValueMask(mask, mode, values), GetTypeBitsNb(mode), sys.device.conn;
    MaskedFacts(sys, call);
    WriteMaskFacts(sys, mask, mode, values);
    WriteValueMaskExchange(sys, mask, mode, values);
    var found, list := MaskFound(|mask|, mask, values, n), ListReceived(|mask|, mask, values, n);
    ScatterAt(sys.mirror.vals, mask, values, p);
    ScatterAt(s.vals, found, Widened(LowBytes(list)), p);
    FoundGrows(|mask|, mask, values, n);
    InUsed(mask, p);
    InUsed(found, p);
    if found[p] {
      StoredValue(found, list, p);
      TakenIs(|mask|, mask, values, n, p);
    }
    if mask[p] {
      StoredValue(mask, values, p);
    }
  }

  lemma TakenIs(off: nat, mask: seq<bool>, values: seq<uint16>, n: nat, p: nat)
    requires |mask| <= off && |values| == CountOn(mask) && p in Used(MaskFound(off, mask, values, n))
    ensures TakenFor(off, mask, values, n, p)
         == ValueFor(MaskFound(off, mask, values, n), ListReceived(off, mask, values, n), p)
  {
  }

  /** The device takes what was given, or the mirror has it by chance, exactly as said. */
  lemma WrittenSettlesIff(s: Conn, mask: seq<bool>, mode: uint8, values: seq<uint16>, v: uint16, p: nat)
    requires s.Ok() && Safe(WriteValueMask(mask, mode, values), s)
    requires p in Used(MaskFound(|mask|, mask, values, GetTypeBitsNb(mode)))
    ensures |values| == CountOn(mask) && p < |mask|
    ensures ValueSettles(WriteValueMask(mask, mode, values), s, v, p) <==>
      ToUInt8(TakenFor(|mask|, mask, values, GetTypeBitsNb(mode), p))
        == if p in Used(mask) then ValueFor(mask, values, p) else v
  {
    hide FoundFits, MaskFound, MaskSpared, Spared, Arrived, Fits, GetTypeBitsNb, Rank, ToUInt8;
    var n := GetTypeBitsNb(mode);
    if MaskSpared(|mask|, mask, values, n) {
      WholeListReceived(|mask|, mask, values, n);
      RankOfUsed(mask, p);
      ArrivedByteIff(|mask|, values, mode, Rank(mask, p));
    }
  }

  predicate SameValue(m: Conn, d: Conn, p: nat) {
    p < |m.vals| && p < |d.vals| && m.vals[p] == d.vals[p]
  }

  predicate KeepsValue(s: Conn, s': Conn, p: nat) {
    p < |s.vals| && p < |s'.vals| && s'.vals[p] == s.vals[p]
  }

  /** The value of pin p once the peers hold m and d: settled exactly as said, or left alone. */
  predicate ValueOutcome(call: Call, sys: System, m: Conn, d: Conn, p: nat)
    requires Ready(sys) && Safe(call, sys.device.conn)
  {
    && (p !in ValuesTouched(call) ==> KeepsValue(sys.mirror, m, p) && KeepsValue(sys.device.conn, d, p))
    && (p in ValuesTouched(call) && p < |sys.mirror.vals|
        ==> (SameValue(m, d, p) <==> ValueSettles(call, sys.device.conn, sys.mirror.vals[p], p)))
  }

  lemma GenericReadValue(sys: System, pin: uint8, mode: uint8, p: nat)
    requires Ready(sys) && Safe(GenericRead(pin, mode), sys.device.conn) && p < sys.device.conn.NbPins()
    ensures var call := GenericRead(pin, mode);
      && Sound(call) && Carried(call, sys)
      && ValueOutcome(call, sys, MirrorOf(call, sys), DeviceAfter(call, sys), p)
  {
    hide Carried, MirrorOf, DeviceAfter, Truncated, Low, Fits, GetTypeBitsNb;
    GenericReadExchange(sys, pin, mode);
    LowIsIdentityIff(sys.device.conn.vals[pin], GetTypeBitsNb(mode));
  }

  lemma GenericWriteValue(sys: System, pin: uint8, mode: uint8, val: int16, p: nat)
    requires Ready(sys) && Safe(GenericWrite(pin, mode, val), sys.device.conn) && p < sys.device.conn.NbPins()
    ensures var call := GenericWrite(pin, mode, val);
      && Sound(call) && Carried(call, sys)
      && ValueOutcome(call, sys, MirrorOf(call, sys), DeviceAfter(call, sys), p)
  {
    hide Carried, MirrorOf, DeviceAfter, Truncated, Low, Fits, GetTypeBitsNb;
    GenericWriteExchange(sys, pin, mode, val);
    LowIsIdentityIff(ToUInt16(val), GetTypeBitsNb(mode));
  }

  lemma MaskedValue(call: Call, sys: System, p: nat)
    requires call.ReadValueMask? || call.WriteValueMask?
    requires Ready(sys) && Safe(call, sys.device.conn) && p < sys.device.conn.NbPins()
    ensures Sound(call) && Carried(call, sys)
    ensures ValueOutcome(call, sys, MirrorOf(call, sys), DeviceAfter(call, sys), p)
  {
    hide Carried, MirrorOf, DeviceAfter, FoundFits, MaskFound, MaskSpared, TakenFor, Spared, AllStorable, Fits,
      Gather, Rank, Span, GetTypeBitsNb, ToUInt8;
    match call
    case ReadValueMask(mask, mode) =>
      ReadValueMaskValue(sys, mask, mode, p);
    case WriteValueMask(mask, mode, values) =>
      WriteValueMaskValue(sys, mask, mode, values, p);
      if p in ValuesTouched(call) {
        WrittenSettlesIff(sys.device.conn, mask, mode, values, sys.mirror.vals[p], p);
      }
  }

  lemma UnchangedValues(call: Call, sys: System, m: Conn, d: Conn, p: nat)
    requires Ready(sys) && Safe(call, sys.device.conn) && p < sys.device.conn.NbPins()
    requires !TouchesValues(call) && m.vals == sys.mirror.vals && d.vals == sys.device.conn.vals
    ensures ValueOutcome(call, sys, m, d, p)
  {
    hide Safe, AllStorable;
    assert ValuesTouched(call) == {};
    hide ValuesTouched, ValueSettles;
  }

  lemma KeptValue(call: Call, sys: System, p: nat)
    requires !TouchesValues(call) && Ready(sys) && Safe(call, sys.device.conn) && p < sys.device.conn.NbPins()
    ensures Sound(call) && Carried(call, sys)
    ensures ValueOutcome(call, sys, MirrorOf(call, sys), DeviceAfter(call, sys), p)
  {
    hide *;
    ValuesKept(call, sys);
    UnchangedValues(call, sys, MirrorOf(call, sys), DeviceAfter(call, sys), p);
  }

  lemma ValuesAfter(call: Call, sys: System, p: nat)
    requires Ready(sys) && Safe(call, sys.device.conn) && p < sys.device.conn.NbPins()
    ensures ValueOutcome(call, sys, Exec(call, sys).mirror, Exec(call, sys).device.conn, p)
  {
    hide Exec, Carried, MirrorOf, DeviceAfter, Ready, Safe, Sound, ValueOutcome;
    ExecIs(call, sys);
    match call
    case GenericRead(pin, mode) => GenericReadValue(sys, pin, mode, p);
    case GenericWrite(pin, mode, val) => GenericWriteValue(sys, pin, mode, val, p);
    case ReadValueMask(_, _) => MaskedValue(call, sys, p);
    case WriteValueMask(_, _, _) => MaskedValue(call, sys, p);
    case _ => KeptValue(call, sys, p);
  }

  // ---- types ----

  predicate TouchesTypes(call: Call) {
    call.GenericWrite? || call.GetType? || call.GetTypeMask? || call.SetType? || call.SetTypeMask?
  }

  lemma TypesKept(call: Call, sys: System)
    requires Ready(sys) && Safe(call, sys.device.conn) && !TouchesTypes(call)
    ensures Sound(call) && Carried(call, sys)
    ensures MirrorOf(call, sys).types == sys.mirror.types && DeviceAfter(call, sys).types == sys.device.conn.types
  {
    assert Sound(call);
    assert !(call.GenericWrite? || call.GetType? || call.GetTypeMask? || call.SetType? || call.SetTypeMask?);
    hide *;
    match call
    case GenericRead(pin, mode) => GenericReadExchange(sys, pin, mode);
    case ReadValueMask(mask, mode) => ReadValueMaskCarried(sys, mask, mode);
    case WriteValueMask(mask, mode, values) => WriteValueMaskExchange(sys, mask, mode, values);
    case GetFailsafe(pin) => GetFailsafeExchange(sys, pin);
    case GetFailsafeMask(mask) => GetFailsafeMaskExchange(sys, mask);
    case SetFailsafe(pin, timeout, f) => SetFailsafeExchange(sys, pin, timeout, f);
    case SetFailsafeMask(mask, mode, timeout, values) => SetFailsafeMaskExchange(sys, mask, mode, timeout, values);
  }

  predicate SameType(m: Conn, d: Conn, p: nat) {
    p < |m.types| && p < |d.types| && m.types[p] == d.types[p]
  }

  predicate KeepsType(s: Conn, s': Conn, p: nat) {
    p < |s.types| && p < |s'.types| && s'.types[p] == s.types[p]
  }

  /** The type of pin p once the peers hold m and d: settled exactly as said, or left alone. */
  predicate TypeOutcome(call: Call, sys: System, m: Conn, d: Conn, p: nat)
    requires Ready(sys) && Safe(call, sys.device.conn) && p < sys.device.conn.NbPins()
  {
    && (p !in TypesTouched(call) ==> KeepsType(sys.mirror, m, p) && KeepsType(sys.device.conn, d, p))
    && (p in TypesTouched(call) ==> (SameType(m, d, p) <==> TypeSettles(call, sys.device.conn, sys.mirror.types[p], p)))
  }

  lemma UnchangedTypes(call: Call, sys: System, m: Conn, d: Conn, p: nat)
    requires Ready(sys) && Safe(call, sys.device.conn) && p < sys.device.conn.NbPins()
    requires !TouchesTypes(call) && m.types == sys.mirror.types && d.types == sys.device.conn.types
    ensures TypeOutcome(call, sys, m, d, p)
  {
    hide Safe, AllStorable;
    assert TypesTouched(call) == {};
    hide TypesTouched, TypeSettles;
  }

  lemma KeptType(call: Call, sys: System, p: nat)
    requires !TouchesTypes(call) && Ready(sys) && Safe(call, sys.device.conn) && p < sys.device.conn.NbPins()
    ensures Sound(call) && Carried(call, sys)
    ensures TypeOutcome(call, sys, MirrorOf(call, sys), DeviceAfter(call, sys), p)
  {
    hide *;
    TypesKept(call, sys);
    UnchangedTypes(call, sys, MirrorOf(call, sys), DeviceAfter(call, sys), p);
  }

  lemma PinType(call: Call, sys: System, p: nat)
    requires call.GenericWrite? || call.GetType? || call.SetType?
    requires Ready(sys) && Safe(call, sys.device.conn) && p < sys.device.conn.NbPins()
    ensures Sound(call) && Carried(call, sys)
    ensures TypeOutcome(call, sys, MirrorOf(call, sys), DeviceAfter(call, sys), p)
  {
    hide Carried, MirrorOf, DeviceAfter, Truncated, GetTypeBitsNb;
    match call
    case GenericWrite(pin, mode, val) => GenericWriteExchange(sys, pin, mode, val);
    case GetType(pin) => GetTypeExchange(sys, pin);
    case SetType(pin, t) => SetTypeExchange(sys, pin, t);
  }

  lemma GetTypeMaskType(sys: System, mask: seq<bool>, p: nat)
    requires Ready(sys) && Safe(GetTypeMask(mask), sys.device.conn) && p < |mask|
    ensures var call, s := GetTypeMask(mask), sys.device.conn;
      && Sound(call) && Carried(call, sys) && DeviceAfter(call, sys) == s && 0 < |mask| == s.NbPins() == |s.types|
      && MirrorOf(call, sys).types[p] == if mask[p] then Seen(s.types)[p] else sys.mirror.types[p]
  {
    hide *;
    var call, s := GetTypeMask(mask), sys.device.conn;
    MaskedFacts(sys, call);
    TypeTables(sys, call);
    GetTypeMaskExchange(sys, mask);
    ScatterAt(sys.mirror.types, mask, Gather(Seen(s.types), mask), p);
    if mask[p] {
      GatherAt(Seen(s.types), mask, p);
    }
  }

  lemma TypeTables(sys: System, call: Call)
    requires Ready(sys)
    ensures |sys.mirror.types| == |sys.device.conn.types| == sys.device.conn.NbPins()
  {
    hide AllStorable;
  }

  lemma StoredType(mask: seq<bool>, list: seq<uint16>, p: nat)
    requires |list| == CountOn(mask) && p in Used(mask)
    ensures Rank(mask, p) < |list| && LowBytes(list)[Rank(mask, p)] == ToUInt8(ValueFor(mask, list, p))
  {
    hide Rank;
    RankOfUsed(mask, p);
  }

  /** Pin p after a masked write of types: the mirror has what was given, the device what it has taken. */
  lemma SetTypeMaskType(sys: System, mask: seq<bool>, types: seq<uint16>, p: nat)
    requires Ready(sys) && Safe(SetTypeMask(mask, types), sys.device.conn) && p < |mask|
    ensures var call, s := SetTypeMask(mask, types), sys.device.conn;
      && Sound(call) && Carried(call, sys) && |mask| == s.NbPins() == |s.types| && |types| == CountOn(mask)
      && MirrorOf(call, sys).types[p]
         == (if p in Used(mask) then ToUInt8(ValueFor(mask, types, p)) else sys.mirror.types[p])
      && DeviceAfter(call, sys).types[p] == (if p in Used(MaskFound(|mask|, mask, types, 3))
           then ToUInt8(TakenFor(|mask|, mask, types, 3, p)) else s.types[p])
      && (p in Used(mask) ==> p in Used(MaskFound(|mask|, mask, types, 3)))
  {
    hide *;
    var call, s := SetTypeMask(mask, types), sys.device.conn;
    MaskedFacts(sys, call);
    TypeTables(sys, call);
    SetTypesFacts(sys, mask, types);
    SetTypeMaskExchange(sys, mask, types);
    var found, list := MaskFound(|mask|, mask, types, 3), ListReceived(|mask|, mask, types, 3);
    ScatterAt(sys.mirror.types, mask, LowBytes(types), p);
    ScatterAt(s.types, found, LowBytes(list), p);
    FoundGrows(|mask|, mask, types, 3);
    InUsed(mask, p);
    InUsed(found, p);
    if found[p] {
      StoredType(found, list, p);
      TakenIs(|mask|, mask, types, 3, p);
    }
    if mask[p] {
      StoredType(mask, types, p);
    }
  }

  lemma SetTypeSettlesIff(s: Conn, mask: seq<bool>, types: seq<uint16>, t: uint8, p: nat)
    requires s.Ok() && Safe(SetTypeMask(mask, types), s) && p in Used(MaskFound(|mask|, mask, types, 3))
    ensures |types| == CountOn(mask) && p < |mask|
    ensures TypeSettles(SetTypeMask(mask, types), s, t, p) <==>
      ToUInt8(TakenFor(|mask|, mask, types, 3, p)) == if p in Used(mask) then ToUInt8(ValueFor(mask, types, p)) else t
  {
    hide FoundFits, MaskFound, MaskSpared, Spared, Arrived, Rank, ToUInt8;
    if MaskSpared(|mask|, mask, types, 3) {
      WholeListReceived(|mask|, mask, types, 3);
      RankOfUsed(mask, p);
      ArrivedTypeIff(|mask|, types, Rank(mask, p));
    }
  }

  lemma MaskedType(call: Call, sys: System, p: nat)
    requires call.GetTypeMask? || call.SetTypeMask?
    requires Ready(sys) && Safe(call, sys.device.conn) && p < sys.device.conn.NbPins()
    ensures Sound(call) && Carried(call, sys)
    ensures TypeOutcome(call, sys, MirrorOf(call, sys), DeviceAfter(call, sys), p)
  {
    hide Carried, MirrorOf, DeviceAfter, FoundFits, MaskFound, MaskSpared, TakenFor, Spared, AllStorable, Gather,
      Rank, Span, ToUInt8, RoomForLast, Sent;
    match call
    case GetTypeMask(mask) => GetTypeMaskType(sys, mask, p);
    case SetTypeMask(mask, types) =>
      SetTypeMaskType(sys, mask, types, p);
      if p in TypesTouched(call) {
        SetTypeSettlesIff(sys.device.conn, mask, types, sys.mirror.types[p], p);
      }
  }

  lemma TypesAfter(call: Call, sys: System, p: nat)
    requires Ready(sys) && Safe(call, sys.device.conn) && p < sys.device.conn.NbPins()
    ensures TypeOutcome(call, sys, Exec(call, sys).mirror, Exec(call, sys).device.conn, p)
  {
    hide Exec, Carried, MirrorOf, DeviceAfter, Ready, Safe, Sound, TypeOutcome;
    ExecIs(call, sys);
    match call
    case GenericWrite(_, _, _) => PinType(call, sys, p);
    case GetType(_) => PinType(call, sys, p);
    case SetType(_, _) => PinType(call, sys, p);
    case GetTypeMask(_) => MaskedType(call, sys, p);
    case SetTypeMask(_, _) => MaskedType(call, sys, p);
    case _ => KeptType(call, sys, p);
  }

  // ---- failsafes ----

  predicate TouchesFailsafes(call: Call) {
    call.GetFailsafeMask? || call.SetFailsafe? || call.SetFailsafeMask?
  }

  lemma FailsafesKept(call: Call, sys: System)
    requires Ready(sys) && Safe(call, sys.device.conn) && !TouchesFailsafes(call)
    ensures Sound(call) && Carried(call, sys)
    ensures var m, d := MirrorOf(call, sys), DeviceAfter(call, sys);
      && m.failsafe == sys.mirror.failsafe && d.failsafe == sys.device.conn.failsafe
      && m.timeout == sys.mirror.timeout && d.timeout == sys.device.conn.timeout
  {
    assert Sound(call);
    assert !(call.GetFailsafeMask? || call.SetFailsafe? || call.SetFailsafeMask?);
    hide *;
    match call
    case GenericRead(pin, mode) => GenericReadExchange(sys, pin, mode);
    case ReadValueMask(mask, mode) => ReadValueMaskCarried(sys, mask, mode);
    case GenericWrite(pin, mode, val) => GenericWriteExchange(sys, pin, mode, val);
    case WriteValueMask(mask, mode, values) => WriteValueMaskExchange(sys, mask, mode, values);
    case GetType(pin) => GetTypeExchange(sys, pin);
    case GetTypeMask(mask) => GetTypeMaskExchange(sys, mask);
    case SetType(pin, t) => SetTypeExchange(sys, pin, t);
    case SetTypeMask(mask, types) => SetTypeMaskExchange(sys, mask, types);
    case GetFailsafe(pin) => GetFailsafeExchange(sys, pin);
  }

  predicate SameFailsafe(m: Conn, d: Conn, p: nat) {
    p < |m.failsafe| && p < |d.failsafe| && m.failsafe[p] == d.failsafe[p]
  }

  predicate KeepsFailsafe(s: Conn, s': Conn, p: nat) {
    p < |s.failsafe| && p < |s'.failsafe| && s'.failsafe[p] == s.failsafe[p]
  }

  /** The outcome of the call for pin p is not left to chance. */
  predicate FailsafeKnown(call: Call, s: Conn, p: nat)
    requires s.Ok() && Safe(call, s) && p in FailsafesTouched(call)
  {
    call.GetFailsafeMask? ==> EntryReached(s, call.mask, p)
  }

  /**
   The failsafe entry of pin p once the peers hold m and d. Behind a disabled pin or a damaged type,
   a masked read may find the entry of the device by chance.
   */
  predicate FailsafeOutcome(call: Call, sys: System, m: Conn, d: Conn, p: nat)
    requires Ready(sys) && Safe(call, sys.device.conn) && p < sys.device.conn.NbPins()
  {
    && (p !in FailsafesTouched(call) ==> KeepsFailsafe(sys.mirror, m, p) && KeepsFailsafe(sys.device.conn, d, p))
    && (p in FailsafesTouched(call) && FailsafeSettles(call, sys.device.conn, sys.mirror.failsafe[p], p)
        ==> SameFailsafe(m, d, p))
    && (p in FailsafesTouched(call) && FailsafeKnown(call, sys.device.conn, p) && SameFailsafe(m, d, p)
        ==> FailsafeSettles(call, sys.device.conn, sys.mirror.failsafe[p], p))
  }

  lemma UnchangedFailsafes(call: Call, sys: System, m: Conn, d: Conn, p: nat)
    requires Ready(sys) && Safe(call, sys.device.conn) && p < sys.device.conn.NbPins()
    requires !TouchesFailsafes(call) && m.failsafe == sys.mirror.failsafe && d.failsafe == sys.device.conn.failsafe
    ensures FailsafeOutcome(call, sys, m, d, p)
  {
    hide Safe, AllStorable;
    assert FailsafesTouched(call) == {};
    hide FailsafesTouched, FailsafeSettles;
  }

  lemma KeptFailsafe(call: Call, sys: System, p: nat)
    requires !TouchesFailsafes(call) && Ready(sys) && Safe(call, sys.device.conn) && p < sys.device.conn.NbPins()
    ensures Sound(call) && Carried(call, sys)
    ensures FailsafeOutcome(call, sys, MirrorOf(call, sys), DeviceAfter(call, sys), p)
  {
    hide *;
    FailsafesKept(call, sys);
    UnchangedFailsafes(call, sys, MirrorOf(call, sys), DeviceAfter(call, sys), p);
  }

  lemma SetFailsafeEntry(sys: System, pin: uint8, timeout: uint16, f: PinFailsafe, p: nat)
    requires Ready(sys) && Safe(SetFailsafe(pin, timeout, f), sys.device.conn) && p < sys.device.conn.NbPins()
    ensures var call := SetFailsafe(pin, timeout, f);
      && Sound(call) && Carried(call, sys)
      && FailsafeOutcome(call, sys, MirrorOf(call, sys), DeviceAfter(call, sys), p)
  {
    hide Carried, MirrorOf, DeviceAfter, Truncated, Low, Fits, GetTypeBitsNb;
    SetFailsafeExchange(sys, pin, timeout, f);
    LowIsIdentityIff(f.pinValue, GetTypeBitsNb(f.pinState));
  }

  lemma GetFailsafeMaskEntry(sys: System, mask: seq<bool>, p: nat)
    requires Ready(sys) && Safe(GetFailsafeMask(mask), sys.device.conn) && p < |mask|
    ensures var call, s := GetFailsafeMask(mask), sys.device.conn;
      && Sound(call) && Carried(call, sys) && DeviceAfter(call, sys) == s && |mask| == s.NbPins() == |s.failsafe|
      && (!mask[p] ==> MirrorOf(call, sys).failsafe[p] == sys.mirror.failsafe[p])
      && (mask[p] ==> Rank(mask, p) < CountOn(mask))
      && (mask[p] && Reached(24, Gather(s.failsafe, mask), Rank(mask, p))
          ==> (MirrorOf(call, sys).failsafe[p] == s.failsafe[p]
               <==> EntrySpared(24, Gather(s.failsafe, mask), Rank(mask, p))))
  {
    hide *;
    var call, s := GetFailsafeMask(mask), sys.device.conn;
    MaskedFacts(sys, call);
    FailsafeTables(sys, mask);
    GetFailsafeMaskExchange(sys, mask);
    var sub := Gather(s.failsafe, mask);
    ScatterAt(sys.mirror.failsafe, mask, ReadTable(ReplyBits(call, sys), 24, |sub|), p);
    if mask[p] {
      GatherAt(s.failsafe, mask, p);
      EntryReturned(ReadTable(ReplyBits(call, sys), 24, |sub|), sub, Rank(mask, p));
    }
  }

  lemma FailsafeTables(sys: System, mask: seq<bool>)
    requires Ready(sys) && Safe(GetFailsafeMask(mask), sys.device.conn)
    ensures |sys.device.conn.failsafe| == |mask| == |sys.mirror.failsafe|
  {
    hide AllStorable, Gather, Readable, Rank;
  }

  lemma EntryReturned(got: seq<PinFailsafe>, sub: seq<PinFailsafe>, k: nat)
    requires |got| == |sub| && EntriesReturn(got, 24, sub) && k < |sub|
    ensures Reached(24, sub, k) ==> (got[k] == sub[k] <==> EntrySpared(24, sub, k))
  {
    hide Reached, EntrySpared;
  }

  lemma EntryFieldIff(nbPins: nat, mode: uint8, v: uint16, k: nat)
    requires Typed(mode)
    ensures var n := GetTypeBitsNb(mode);
      Transported(16 + nbPins + Span(k, n), n, v) == v <==> EntrySettles(nbPins, n, v)
  {
    hide Transported, Fits, Span, GetTypeBitsNb;
    var n := GetTypeBitsNb(mode);
    WidthIs(mode);
    WideTransportIff(16 + nbPins + Span(k, n), n, v);
    if n == 16 {
      SpanOfBytes(k, n);
      SameRemainder(nbPins, Span(k, n));
    }
  }

  lemma SameRemainder(x: nat, y: nat)
    requires y % 8 == 0
    ensures (16 + x + y) % 8 == x % 8
  {
    DivModUnique(16 + x + y, 8, 2 + x / 8 + y / 8, x % 8);
  }

  lemma StoredEntry(t: uint8, mask: seq<bool>, list: seq<uint16>, p: nat)
    requires |list| == CountOn(mask) && p in Used(mask)
    ensures Rank(mask, p) < |list| && Entries(t, list)[Rank(mask, p)] == PinFailsafe(t, ValueFor(mask, list, p))
  {
    hide Rank;
    RankOfUsed(mask, p);
  }

  /** The entry of pin p once a list has been stored along a mask. */
  function EntryFor(mask: seq<bool>, mode: uint8, list: seq<uint16>, before: PinFailsafe, p: nat): PinFailsafe
    requires |list| == CountOn(mask)
  {
    if p in Used(mask) then PinFailsafe(mode, ValueFor(mask, list, p)) else before
  }

  lemma EntryForIs(mask: seq<bool>, mode: uint8, list: seq<uint16>, before: PinFailsafe, p: nat)
    requires |list| == CountOn(mask)
    ensures p in Used(mask) ==> EntryFor(mask, mode, list, before, p) == PinFailsafe(mode, ValueFor(mask, list, p))
    ensures p !in Used(mask) ==> EntryFor(mask, mode, list, before, p) == before
  {
  }

  /** Pin p after a masked write of failsafes: the mirror has what was given, the device what it has taken. */
  lemma SetFailsafeMaskEntry(sys: System, mask: seq<bool>, mode: uint8, timeout: uint16, values: seq<uint16>, p: nat)
    requires Ready(sys) && Safe(SetFailsafeMask(mask, mode, timeout, values), sys.device.conn) && p < |mask|
    ensures var call, s, n := SetFailsafeMask(mask, mode, timeout, values), sys.device.conn, GetTypeBitsNb(mode);
      && Sound(call) && Carried(call, sys) && |mask| == s.NbPins() == |s.failsafe| && |values| == CountOn(mask)
      && MirrorOf(call, sys).failsafe[p] == EntryFor(mask, mode, values, sys.mirror.failsafe[p], p)
      && DeviceAfter(call, sys).failsafe[p] == EntryFor(MaskFound(16 + |mask|, mask, values, n), mode,
           ListReceived(16 + |mask|, mask, values, n), s.failsafe[p], p)
      && (p in Used(mask) ==> p in Used(MaskFound(16 + |mask|, mask, values, n)))
  {
    hide *;
    var call, n, s := SetFailsafeMask(mask, mode, timeout, values), GetTypeBitsNb(mode), sys.device.conn;
    MaskedFacts(sys, call);
    SetFailsafesFacts(sys, mask, mode, timeout, values);
    SetFailsafeMaskExchange(sys, mask, mode, timeout, values);
    var found, list := MaskFound(16 + |mask|, mask, values, n), ListReceived(16 + |mask|, mask, values, n);
    ScatterAt(sys.mirror.failsafe, mask, Entries(mode, values), p);
    ScatterAt(s.failsafe, found, Entries(mode, list), p);
    FoundGrows(16 + |mask|, mask, values, n);
    InUsed(mask, p);
    InUsed(found, p);
    EntryForIs(mask, mode, values, sys.mirror.failsafe[p], p);
    EntryForIs(found, mode, list, s.failsafe[p], p);
    if found[p] {
      StoredEntry(mode, found, list, p);
    }
    if mask[p] {
      StoredEntry(mode, mask, values, p);
    }
  }

  lemma SetFailsafeSettlesIff(s: Conn, mask: seq<bool>, mode: uint8, timeout: uint16, values: seq<uint16>,
      g: PinFailsafe, p: nat)
    requires s.Ok() && Safe(SetFailsafeMask(mask, mode, timeout, values), s)
    requires p in Used(MaskFound(16 + |mask|, mask, values, GetTypeBitsNb(mode)))
    ensures |values| == CountOn(mask) && p < |mask|
    ensures FailsafeSettles(SetFailsafeMask(mask, mode, timeout, values), s, g, p) <==>
      PinFailsafe(mode, TakenFor(16 + |mask|, mask, values, GetTypeBitsNb(mode), p))
        == if p in Used(mask) then PinFailsafe(mode, ValueFor(mask, values, p)) else g
  {
    hide FoundFits, MaskFound, MaskSpared, Spared, Arrived, EntrySettles, GetTypeBitsNb, Rank;
    var n := GetTypeBitsNb(mode);
    if MaskSpared(16 + |mask|, mask, values, n) {
      WholeListReceived(16 + |mask|, mask, values, n);
      RankOfUsed(mask, p);
      ArrivedEntryIff(|mask|, values, mode, Rank(mask, p));
    }
  }

  lemma MaskedFailsafe(call: Call, sys: System, p: nat)
    requires call.GetFailsafeMask? || call.SetFailsafeMask?
    requires Ready(sys) && Safe(call, sys.device.conn) && p < sys.device.conn.NbPins()
    ensures Sound(call) && Carried(call, sys)
    ensures FailsafeOutcome(call, sys, MirrorOf(call, sys), DeviceAfter(call, sys), p)
  {
    hide Carried, MirrorOf, DeviceAfter, FoundFits, MaskFound, MaskSpared, Spared, AllStorable, Readable,
      TableCarries, Gather, Rank, Span, Fits, GetTypeBitsNb, NbBits, Reached, EntrySpared, EntrySettles;
    match call
    case GetFailsafeMask(mask) => GetFailsafeMaskEntry(sys, mask, p);
    case SetFailsafeMask(mask, mode, timeout, values) =>
      SetFailsafeMaskEntry(sys, mask, mode, timeout, values, p);
      if p in FailsafesTouched(call) {
        SetFailsafeSettlesIff(sys.device.conn, mask, mode, timeout, values, sys.mirror.failsafe[p], p);
      }
  }

  lemma FailsafesAfter(call: Call, sys: System, p: nat)
    requires Ready(sys) && Safe(call, sys.device.conn) && p < sys.device.conn.NbPins()
    ensures FailsafeOutcome(call, sys, Exec(call, sys).mirror, Exec(call, sys).device.conn, p)
  {
    hide Exec, Carried, MirrorOf, DeviceAfter, Ready, Safe, Sound, FailsafeOutcome;
    ExecIs(call, sys);
    match call
    case SetFailsafe(pin, timeout, f) => SetFailsafeEntry(sys, pin, timeout, f, p);
    case GetFailsafeMask(_) => MaskedFailsafe(call, sys, p);
    case SetFailsafeMask(_, _, _, _) => MaskedFailsafe(call, sys, p);
    case _ => KeptFailsafe(call, sys, p);
  }

  /** Both timeouts take any value given to them, and nothing else changes them. */
  lemma TimeoutsAfter(call: Call, sys: System)
    requires Ready(sys) && Safe(call, sys.device.conn)
    ensures var sys' := Exec(call, sys);
      if call.SetFailsafe? || call.SetFailsafeMask? then
        sys'.mirror.timeout == sys'.device.conn.timeout == call.timeout
      else sys'.mirror.timeout == sys.mirror.timeout && sys'.device.conn.timeout == sys.device.conn.timeout
  {
    hide *;
    ExecIs(call, sys);
    match call
    case SetFailsafe(pin, timeout, f) => SetFailsafeExchange(sys, pin, timeout, f);
    case SetFailsafeMask(mask, mode, timeout, values) => SetFailsafeMaskExchange(sys, mask, mode, timeout, values);
    case GetFailsafeMask(mask) => GetFailsafeMaskExchange(sys, mask);
    case _ => TimeoutsKept(call, sys);
  }

  lemma TimeoutsKept(call: Call, sys: System)
    requires Ready(sys) && Safe(call, sys.device.conn)
    requires !call.GetFailsafeMask? && !call.SetFailsafe? && !call.SetFailsafeMask?
    ensures Sound(call) && Carried(call, sys)
    ensures MirrorOf(call, sys).timeout == sys.mirror.timeout
    ensures DeviceAfter(call, sys).timeout == sys.device.conn.timeout
  {
    assert !TouchesFailsafes(call);
    hide *;
    FailsafesKept(call, sys);
  }

  // ---- what the handlers need is kept ----

  /** Each value fits its width. */
  predicate FitAll(values: seq<uint16>, n: nat) {
    forall k :: 0 <= k < |values| ==> Fits(values[k], n)
  }

  /** What goes through fields of n bits fits them. */
  lemma ReceivedFit(off: nat, mask: seq<bool>, values: seq<uint16>, n: nat)
    requires 1 <= n <= 8 || n == 16
    requires |mask| <= off && |values| == CountOn(mask)
    ensures FitAll(ListReceived(off, mask, values, n), n)
  {
    hide Arrived, MaskFound, Span, Spared, Low, Pow2, Rank, CountOn;
    Pow2Values();
    forall k | 0 <= k < |ListReceived(off, mask, values, n)|
      ensures Fits(ListReceived(off, mask, values, n)[k], n)
    {
      if k < |values| && n < 16 {
        ArrivedLowIff(off, values, n, k);
      }
    }
  }

  lemma StoredTypesSmall(s: Conn, mask: seq<bool>, list: seq<uint16>)
    requires s.Ok() && |mask| == s.NbPins() == |s.types| && |list| == CountOn(mask)
    requires SmallTypes(s.types) && FitAll(list, 3)
    ensures SmallTypes(Scatter(s.types, mask, LowBytes(list)))
  {
    hide Scatter, ToUInt8, Rank, Pow2;
    Pow2Values();
    forall p | 0 <= p < |s.types|
      ensures Scatter(s.types, mask, LowBytes(list))[p] < 8
    {
      ScatterAt(s.types, mask, LowBytes(list), p);
      if mask[p] {
        assert Fits(list[Rank(mask, p)], 3);
        SmallByte(list[Rank(mask, p)]);
      }
    }
  }

  lemma SmallByte(t: uint16)
    requires t < 8
    ensures ToUInt8(t) == t
  {
  }

  predicate SmallTypes(types: seq<uint8>) {
    forall p :: 0 <= p < |types| ==> types[p] < 8
  }

  lemma TypesStaySmall(call: Call, sys: System)
    requires Ready(sys) && Safe(call, sys.device.conn)
    ensures Sound(call) && Carried(call, sys) && SmallTypes(DeviceAfter(call, sys).types)
  {
    var s := sys.device.conn;
    hide Carried, MirrorOf, DeviceAfter, Truncated, GetTypeBitsNb, Scatter, Rank, FoundFits, MaskFound, ListReceived,
      LowBytes, FitAll, AllStorable, Readable, NbBits, Gather, Sent, RoomForLast;
    match call
    case GenericWrite(pin, mode, val) => GenericWriteExchange(sys, pin, mode, val);
    case SetType(pin, t) => SetTypeExchange(sys, pin, t);
    case SetTypeMask(mask, types) =>
      SetTypeMaskExchange(sys, mask, types);
      ReceivedFit(|mask|, mask, types, 3);
      StoredTypesSmall(s, MaskFound(|mask|, mask, types, 3), ListReceived(|mask|, mask, types, 3));
    case GetType(pin) => GetTypeExchange(sys, pin);
    case GetTypeMask(mask) => GetTypeMaskExchange(sys, mask);
    case _ => TypesKept(call, sys);
  }

  lemma StoredEntriesStorable(s: Conn, mask: seq<bool>, mode: uint8, values: seq<uint16>)
    requires s.Ok() && |mask| == s.NbPins() == |s.failsafe| && |values| == CountOn(mask) && Typed(mode)
    requires AllStorable(s.failsafe) && FitAll(values, GetTypeBitsNb(mode))
    ensures AllStorable(Scatter(s.failsafe, mask, Entries(mode, values)))
  {
    hide Scatter, Rank, Fits, GetTypeBitsNb;
    var table := Scatter(s.failsafe, mask, Entries(mode, values));
    forall p | 0 <= p < |table|
      ensures Storable(table[p])
    {
      ScatterAt(s.failsafe, mask, Entries(mode, values), p);
      if mask[p] {
        assert Fits(values[Rank(mask, p)], GetTypeBitsNb(mode));
      }
    }
  }

  lemma EntriesStayStorable(call: Call, sys: System)
    requires Ready(sys) && Safe(call, sys.device.conn)
    ensures Sound(call) && Carried(call, sys) && AllStorable(DeviceAfter(call, sys).failsafe)
  {
    hide Carried, MirrorOf, DeviceAfter, Truncated, Scatter, Rank, FoundFits, MaskFound, ListReceived, Entries, Fits,
      Low, Readable, NbBits, Gather, Sent, RoomForLast, FitAll, Spared;
    var s := sys.device.conn;
    match call
    case SetFailsafe(pin, timeout, f) =>
      SetFailsafeExchange(sys, pin, timeout, f);
      LowFits(f.pinValue, GetTypeBitsNb(f.pinState));
    case SetFailsafeMask(mask, mode, timeout, values) =>
      SetFailsafeMaskExchange(sys, mask, mode, timeout, values);
      ReceivedFit(16 + |mask|, mask, values, GetTypeBitsNb(mode));
      StoredEntriesStorable(s, MaskFound(16 + |mask|, mask, values, GetTypeBitsNb(mode)), mode,
        ListReceived(16 + |mask|, mask, values, GetTypeBitsNb(mode)));
    case GetFailsafeMask(mask) => GetFailsafeMaskExchange(sys, mask);
    case _ => FailsafesKept(call, sys);
  }

  /** A safe call leaves both peers ready for the next one, on the same pins and with the next reply identifier. */
  lemma StaysReady(call: Call, sys: System)
    requires Ready(sys) && Safe(call, sys.device.conn)
    ensures var sys' := Exec(call, sys);
      && Ready(sys') && sys'.device.conn.NbPins() == sys.device.conn.NbPins()
      && sys'.device.nextId == NextId(sys.device.nextId)
  {
    assert sys.mirror.NbPins() == sys.device.conn.NbPins();
    hide Exec, Carried, MirrorOf, DeviceAfter, Safe, Sound, AllStorable, NextId;
    ExecIs(call, sys);
    TypesStaySmall(call, sys);
    EntriesStayStorable(call, sys);
  }
}
