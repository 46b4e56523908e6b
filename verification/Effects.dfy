/** What each call leaves behind on both sides, in numbers. */
module Effects {
  import opened Words
  import opened BitStrings
  import opened BitUtils
  import opened BitFields
  import opened ValueLists
  import opened Spills
  import opened Masks
  import opened Protocol
  import opened DeviceState
  import opened Failsafes
  import opened Connections
  import opened FirmwareSteps
  import opened DriverCalls
  import opened Layouts
  import opened Exchanges
  import opened ReplyBytes
  import opened Outcomes
  import opened Answers
  import opened Domains

  // ---- values of one pin ----

  /** A value cut to the width of one of the five types. */
  lemma CutTo(u: uint16, mode: uint8)
    requires mode <= 4
    ensures Typed(mode) && GetTypeBitsNb(mode) <= 16
    ensures Truncated(u, GetTypeBitsNb(mode)) ==
      if mode == 0 then u % 2 else if mode == 1 || mode == 3 then u % 0x100 else u
  {
    hide Low, Pow2;
    Pow2Values();
    Widths(mode);
    LowIsRemainder(u, GetTypeBitsNb(mode), Pow2(GetTypeBitsNb(mode)));
  }

  lemma NextNumber(id: uint8)
    ensures NextId(id) == if id == 255 then 16 else id + 1
  {
  }

  /** The tables of ready peers have an entry for each pin. */
  lemma Tables(sys: System)
    requires Ready(sys)
    ensures var s, m := sys.device.conn, sys.mirror;
      && |s.caps| == |s.types| == |s.vals| == |s.failsafe| < 0x100 && s.NbPins() == |s.types|
      && |m.caps| == |m.types| == |m.vals| == |m.failsafe| == |s.types|
  {
    hide AllStorable;
  }

  lemma ReadsAPin(pin: uint8, mode: uint8, s: Conn)
    ensures Safe(GenericRead(pin, mode), s) <==> mode <= 4 && pin < |s.types|
    ensures Safe(GetType(pin), s) <==> pin < |s.types|
    ensures Safe(GetFailsafe(pin), s) <==> pin < |s.types|
  {
  }

  lemma WritesAPin(pin: uint8, mode: uint8, val: int16, timeout: uint16, f: PinFailsafe, s: Conn)
    ensures Safe(GenericWrite(pin, mode, val), s) <==> mode <= 4 && pin < |s.types|
    ensures Safe(SetType(pin, mode), s) <==> pin < |s.types|
    ensures Safe(SetFailsafe(pin, timeout, f), s) <==> 1 <= f.pinState <= 4 && pin < |s.types|
  {
  }

  /** A read brings the value of the device, modulo 2, 256 or 65536, into the mirror. */
  lemma ReadEffect(sys: System, pin: uint8, mode: uint8)
    requires Ready(sys) && mode <= 4 && pin < |sys.device.conn.types|
    ensures Safe(GenericRead(pin, mode), sys.device.conn)
    ensures pin < |sys.device.conn.vals| == |sys.mirror.vals|
    ensures var d, u := sys.device, sys.device.conn.vals[pin];
      var v: uint16 := if mode == 0 then u % 2 else if mode == 1 || mode == 3 then u % 0x100 else u;
      Exec(GenericRead(pin, mode), sys) == System(
        sys.mirror.(vals := sys.mirror.vals[pin := v]),
        Device(d.conn, if d.nextId == 255 then 16 else d.nextId + 1, d.version))
  {
    hide *;
    Tables(sys);
    ReadsAPin(pin, mode, sys.device.conn);
    CutTo(sys.device.conn.vals[pin], mode);
    ExecIs(GenericRead(pin, mode), sys);
    GenericReadExchange(sys, pin, mode);
    NextNumber(sys.device.nextId);
  }

  lemma WordOf(val: int16, mode: uint8)
    requires mode <= 4
    ensures ToUInt16(val) == val % 0x1_0000
    ensures ToUInt16(val) % 2 == val % 2 && ToUInt16(val) % 0x100 == val % 0x100
  {
  }

  /**
   A write leaves the value modulo 2, 256 or 65536 on the device, with the type of the write, and the
   whole value in the mirror; every other pin keeps its value and its type.
   */
  lemma WriteEffect(sys: System, pin: uint8, mode: uint8, val: int16)
    requires Ready(sys) && mode <= 4 && pin < |sys.device.conn.types|
    ensures Safe(GenericWrite(pin, mode, val), sys.device.conn)
    ensures pin < |sys.device.conn.vals| == |sys.mirror.vals|
    ensures Exec(GenericWrite(pin, mode, val), sys).mirror
         == sys.mirror.(vals := sys.mirror.vals[pin := val % 0x1_0000])
    ensures var d, s := sys.device, sys.device.conn;
      Exec(GenericWrite(pin, mode, val), sys).device == Device(
        s.(types := s.types[pin := mode],
           vals := s.vals[pin := if mode == 0 then val % 2
                                 else if mode == 1 || mode == 3 then val % 0x100 else val % 0x1_0000]),
        if d.nextId == 255 then 16 else d.nextId + 1, d.version)
  {
    hide *;
    Tables(sys);
    WritesAPin(pin, mode, val, 0, DISABLED_PIN, sys.device.conn);
    WordOf(val, mode);
    CutTo(ToUInt16(val), mode);
    ExecIs(GenericWrite(pin, mode, val), sys);
    GenericWriteExchange(sys, pin, mode, val);
    PinWrittenIs(sys, pin, mode, Truncated(ToUInt16(val), GetTypeBitsNb(mode)));
    NextNumber(sys.device.nextId);
  }

  lemma PinWrittenIs(sys: System, pin: nat, t: uint8, v: uint16)
    requires Ready(sys) && pin < |sys.device.conn.types|
    ensures var s := sys.device.conn;
      && s.Ok() && pin < s.NbPins() && pin < |s.vals|
      && PinWritten(s, pin, t, v) == s.(types := s.types[pin := t], vals := s.vals[pin := v])
  {
    hide AllStorable;
  }

  // ---- the type of one pin ----

  lemma GetTypeEffect(sys: System, pin: uint8)
    requires Ready(sys) && pin < |sys.device.conn.types|
    ensures Safe(GetType(pin), sys.device.conn) && |sys.device.conn.types| == |sys.mirror.types|
    ensures var d := sys.device;
      Exec(GetType(pin), sys) == System(
        sys.mirror.(types := sys.mirror.types[pin := d.conn.types[pin]]),
        Device(d.conn, if d.nextId == 255 then 16 else d.nextId + 1, d.version))
  {
    hide *;
    Tables(sys);
    ReadsAPin(pin, 0, sys.device.conn);
    ExecIs(GetType(pin), sys);
    GetTypeExchange(sys, pin);
    NextNumber(sys.device.nextId);
  }

  /** The device keeps the three low bits of the type that the mirror keeps. */
  lemma SetTypeEffect(sys: System, pin: uint8, t: uint8)
    requires Ready(sys) && pin < |sys.device.conn.types|
    ensures Safe(SetType(pin, t), sys.device.conn) && |sys.device.conn.types| == |sys.mirror.types|
    ensures var d, s := sys.device, sys.device.conn;
      Exec(SetType(pin, t), sys) == System(
        sys.mirror.(types := sys.mirror.types[pin := t]),
        Device(s.(types := s.types[pin := t % 8]), if d.nextId == 255 then 16 else d.nextId + 1, d.version))
  {
    hide *;
    Tables(sys);
    WritesAPin(pin, t, 0, 0, DISABLED_PIN, sys.device.conn);
    ExecIs(SetType(pin, t), sys);
    SetTypeExchange(sys, pin, t);
    NextNumber(sys.device.nextId);
  }

  // ---- the failsafe of one pin ----

  /** The types in numbers, with the bits of their values. */
  lemma TypesInNumbers(f: PinFailsafe)
    ensures DISABLED_PIN == PinFailsafe(7, 0) && PIN_TYPE_DISABLED == 7
    ensures Storable(f) ==> f.pinState <= 4 || f.pinState == 7
    ensures GetTypeBitsNb(f.pinState) == 16 <==> f.pinState == 2 || f.pinState == 4
    ensures HidesType(f) <==> (f.pinState == 2 || f.pinState == 4) && f.pinValue >= 0x8000
  {
    hide Fits;
  }

  /** The entry that is returned is read from bit 24 of the reply. */
  lemma EntryReadFrom(sys: System, pin: uint8)
    requires Ready(sys) && Safe(GetFailsafe(pin), sys.device.conn) && pin < |sys.device.conn.failsafe|
    ensures var r := EntryReply(sys.device.conn.failsafe[pin], sys.device.nextId, sys.device.conn.timeout);
      && 27 <= |r| && 27 + GetTypeBitsNb(TypeAt(r, 24)) <= |r| && EntryRead(pin, sys) == PinAt(r, 24)
  {
    hide Ready, Carried, MirrorOf, DeviceAfter, Request, ReplyData, Serviceable, StateAfter, Bits, EntryReply, TypeAt,
      PinAt, ReadsAs, Storable;
    PinFacts(sys, GetFailsafe(pin));
    StorableEntry(sys, pin);
    GetFailsafeExchange(sys, pin);
    GetFailsafeServed(sys.device, pin);
  }

  /** A 16-bit value at bit 27 goes over three bytes: its five high bits count eight times. */
  lemma WideEntryRead(f: PinFailsafe, id: uint8, timeout: uint16)
    requires (f.pinState == 2 || f.pinState == 4) && f.pinValue < 0x8000
    ensures var r := EntryReply(f, id, timeout);
      && 27 <= |r| && 27 + GetTypeBitsNb(TypeAt(r, 24)) <= |r|
      && PinAt(r, 24) == PinFailsafe(f.pinState, (f.pinValue + f.pinValue / 0x800 * 0x3800) % 0x1_0000)
  {
    hide ReadBits, EntryReply, Enc, Pow2, Fits, PinCarries;
    Widths(f.pinState);
    WordsAreStorable(f);
    EntryReplyBits(f, id, timeout);
    var r := EntryReply(f, id, timeout);
    assert r[24..43] == r[24..27] + r[27..43];
    ReadPinIff(r, 24, f);
    PowersHere();
    MisreadIs(r, 27, f.pinValue, 16, 3);
  }

  lemma PowersHere()
    ensures Pow2(11) == 0x800 && Pow2(3) == 8
  {
    Pow2Values();
    assert Pow2(11) == 8 * Pow2(8);
  }

  lemma WordsAreStorable(f: PinFailsafe)
    requires f.pinState == 2 || f.pinState == 4
    ensures Storable(f) && Fits(f.pinValue, 16)
  {
    hide Pow2;
    Pow2Values();
  }

  /** Neither side changes; the entry returned is that of the device, or another one as said. */
  lemma GetFailsafeEffect(sys: System, pin: uint8)
    requires Ready(sys) && pin < |sys.device.conn.types|
    ensures Safe(GetFailsafe(pin), sys.device.conn) && pin < |sys.device.conn.failsafe|
    ensures var d := sys.device;
      Exec(GetFailsafe(pin), sys)
        == System(sys.mirror, Device(d.conn, if d.nextId == 255 then 16 else d.nextId + 1, d.version))
    ensures var f, got := sys.device.conn.failsafe[pin], EntryRead(pin, sys);
      && (f.pinState == 0 || f.pinState == 1 || f.pinState == 3 ==> got == f)
      && ((f.pinState == 2 || f.pinState == 4) && f.pinValue < 0x8000
          ==> got == PinFailsafe(f.pinState, (f.pinValue + f.pinValue / 0x800 * 0x3800) % 0x1_0000))
      && (f.pinState == 2 || f.pinState == 4 ==> (got == f <==> f.pinValue < 0x800))
      && (f.pinState == 7 || ((f.pinState == 2 || f.pinState == 4) && f.pinValue >= 0x8000)
          ==> got == PinFailsafe(7, 0))
      && (f.pinState <= 4 || f.pinState == 7)
  {
    hide *;
    Tables(sys);
    ReadsAPin(pin, 0, sys.device.conn);
    ExecIs(GetFailsafe(pin), sys);
    GetFailsafeExchange(sys, pin);
    NextNumber(sys.device.nextId);
    EntryReadIs(pin, sys);
    TypesInNumbers(sys.device.conn.failsafe[pin]);
    StorableEntry(sys, pin);
    ReadsInNumbers(sys.device.conn.failsafe[pin], EntryRead(pin, sys));
    EntryReadFrom(sys, pin);
    var f := sys.device.conn.failsafe[pin];
    if (f.pinState == 2 || f.pinState == 4) && f.pinValue < 0x8000 {
      WideEntryRead(f, sys.device.nextId, sys.device.conn.timeout);
    }
  }

  lemma StorableEntry(sys: System, pin: nat)
    requires Ready(sys) && pin < |sys.device.conn.failsafe|
    ensures Storable(sys.device.conn.failsafe[pin])
  {
    hide Storable;
  }

  lemma ReadsInNumbers(f: PinFailsafe, got: PinFailsafe)
    requires Storable(f) && ReadsAs(f, got)
    ensures f.pinState == 0 || f.pinState == 1 || f.pinState == 3 ==> got == f
    ensures f.pinState == 2 || f.pinState == 4 ==> (got == f <==> f.pinValue < 0x800)
    ensures f.pinState == 7 || ((f.pinState == 2 || f.pinState == 4) && f.pinValue >= 0x8000)
      ==> got == PinFailsafe(7, 0)
  {
    hide Fits;
  }

  /** Both timeouts become the given one; the device keeps the low byte of a value of an 8-bit type. */
  lemma SetFailsafeEffect(sys: System, pin: uint8, timeout: uint16, f: PinFailsafe)
    requires Ready(sys) && 1 <= f.pinState <= 4 && pin < |sys.device.conn.types|
    ensures Safe(SetFailsafe(pin, timeout, f), sys.device.conn)
    ensures pin < |sys.device.conn.failsafe| == |sys.mirror.failsafe|
    ensures var d, s := sys.device, sys.device.conn;
      var v: uint16 := if f.pinState == 1 || f.pinState == 3 then f.pinValue % 0x100 else f.pinValue;
      Exec(SetFailsafe(pin, timeout, f), sys) == System(
        sys.mirror.(timeout := timeout, failsafe := sys.mirror.failsafe[pin := f]),
        Device(s.(timeout := timeout, failsafe := s.failsafe[pin := PinFailsafe(f.pinState, v)]),
               if d.nextId == 255 then 16 else d.nextId + 1, d.version))
  {
    hide *;
    Tables(sys);
    WritesAPin(pin, 0, 0, timeout, f, sys.device.conn);
    CutTo(f.pinValue, f.pinState);
    ExecIs(SetFailsafe(pin, timeout, f), sys);
    SetFailsafeExchange(sys, pin, timeout, f);
    NextNumber(sys.device.nextId);
  }

  // ---- the values of a mask ----

  /** Values below 2 or 256 as their width asks, or any values of 8 or 16 bits on a multiple of 8 pins. */
  lemma NothingSpills(off: nat, mask: seq<bool>, mode: uint8, values: seq<uint16>)
    requires mode <= 4 && off % 8 == |mask| % 8
    requires (mode != 0 && |mask| % 8 == 0)
      || forall k :: 0 <= k < |values| ==> values[k] < if mode == 0 then 2 else 0x100
    ensures Typed(mode)
    ensures MaskSpared(off, mask, values, GetTypeBitsNb(mode)) && AllSpared(off, values, GetTypeBitsNb(mode))
  {
    hide MaskSpared, Spared, ListSpillFree, AllSpared, Pow2;
    Widths(mode);
    Pow2Values();
    var n := GetTypeBitsNb(mode);
    if mode != 0 && |mask| % 8 == 0 {
      AlignedListIsSpillFree(off, values, n);
      SpillFreeSpares(off, values, n);
      SpillFreeSparesMask(off, mask, values, n);
    } else {
      Pow2Monotone(8, 16);
      SmallValuesAreSpared(off, mask, values, n);
    }
  }

  /** What the device stores of the k-th value. */
  lemma StoredByte(off: nat, mask: seq<bool>, mode: uint8, values: seq<uint16>, k: nat)
    requires mode <= 4 && |mask| <= off && |values| == CountOn(mask) && k < |values|
    requires mode == 0 ==> values[k] < 2
    requires MaskSpared(off, mask, values, GetTypeBitsNb(mode)) && AllSpared(off, values, GetTypeBitsNb(mode))
    ensures MaskFound(off, mask, values, GetTypeBitsNb(mode)) == mask
    ensures ToUInt8(ListReceived(off, mask, values, GetTypeBitsNb(mode))[k]) == values[k] % 0x100
  {
    hide MaskFound, ListReceived, MaskSpared, Spared, Arrived, Low, Pow2, CountOn, Rank;
    var n := GetTypeBitsNb(mode);
    Widths(mode);
    WholeListReceived(off, mask, values, n);
    ArrivedLowByteIff(off, values, n, k);
    Pow2Values();
    LowIsRemainder(values[k], if n < 8 then n else 8, if n < 8 then 2 else 0x100);
  }

  lemma WriteMaskIsSafe(mask: seq<bool>, mode: uint8, values: seq<uint16>, s: Conn)
    requires mode <= 4 && 0 < |mask| == |s.types| < 0x100 && |values| == CountOn(mask)
    requires FoundFits(|mask|, mask, values, GetTypeBitsNb(mode))
    ensures Safe(WriteValueMask(mask, mode, values), s)
  {
    hide FoundFits, Rank;
  }

  /** Only one column of each table changes. */
  lemma WriteMaskKeeps(sys: System, mask: seq<bool>, mode: uint8, values: seq<uint16>)
    requires Ready(sys) && Safe(WriteValueMask(mask, mode, values), sys.device.conn)
    ensures var sys' := Exec(WriteValueMask(mask, mode, values), sys);
      && sys'.mirror == sys.mirror.(vals := sys'.mirror.vals)
      && sys'.device.conn == sys.device.conn.(vals := sys'.device.conn.vals)
  {
    hide Exec, Carried, MirrorOf, DeviceAfter, Ready, Safe, Sound, MaskFound, ListReceived, Scatter, Widened, LowBytes,
      GetTypeBitsNb, Rank;
    WriteMaskFacts(sys, mask, mode, values);
    ExecIs(WriteValueMask(mask, mode, values), sys);
    WriteValueMaskExchange(sys, mask, mode, values);
  }

  /** The identifier counter and the version of the device after any call. */
  lemma Counted(call: Call, sys: System)
    requires Ready(sys) && Safe(call, sys.device.conn)
    ensures var d, d' := sys.device, Exec(call, sys).device;
      d'.nextId == (if d.nextId == 255 then 16 else d.nextId + 1) && d'.version == d.version
  {
    hide *;
    ExecIs(call, sys);
    NextNumber(sys.device.nextId);
  }

  /**
   A masked write leaves the values modulo 256 on the device and the whole values in the mirror, at
   the pins of the mask in increasing order; everything else stays.
   */
  lemma WriteMaskEffect(sys: System, mask: seq<bool>, mode: uint8, values: seq<uint16>, p: nat)
    requires Ready(sys) && mode <= 4 && p < |mask| == |sys.device.conn.types| && |values| == CountOn(mask)
    requires (mode != 0 && |mask| % 8 == 0)
      || forall k :: 0 <= k < |values| ==> values[k] < if mode == 0 then 2 else 0x100
    ensures Safe(WriteValueMask(mask, mode, values), sys.device.conn)
    ensures var m, m' := sys.mirror, Exec(WriteValueMask(mask, mode, values), sys).mirror;
      && p < |m.vals| == |m'.vals| && m' == m.(vals := m'.vals)
      && if mask[p] then Rank(mask, p) < |values| && m'.vals[p] == values[Rank(mask, p)] else m'.vals[p] == m.vals[p]
    ensures var s, s' := sys.device.conn, Exec(WriteValueMask(mask, mode, values), sys).device.conn;
      && p < |s.vals| == |s'.vals| && s' == s.(vals := s'.vals)
      && if mask[p] then Rank(mask, p) < |values| && s'.vals[p] == values[Rank(mask, p)] % 0x100
         else s'.vals[p] == s.vals[p]
  {
    hide *;
    var call, n := WriteValueMask(mask, mode, values), GetTypeBitsNb(mode);
    Tables(sys);
    NothingSpills(|mask|, mask, mode, values);
    SparedFits(|mask|, mask, values, n);
    WriteMaskIsSafe(mask, mode, values, sys.device.conn);
    StaysReady(call, sys);
    Tables(Exec(call, sys));
    ExecIs(call, sys);
    WriteMaskKeeps(sys, mask, mode, values);
    WriteValueMaskValue(sys, mask, mode, values, p);
    InUsed(mask, p);
    if mask[p] {
      StoredValue(mask, values, p);
      StoredByte(|mask|, mask, mode, values, Rank(mask, p));
      TakenIs(|mask|, mask, values, n, p);
      StoredValue(mask, ListReceived(|mask|, mask, values, n), p);
    }
  }

  /** Every value that is read is the one of the device, cut to its width. */
  lemma ReadsCut(got: seq<uint16>, vals: seq<uint16>, mask: seq<bool>, mode: uint8, p: nat)
    requires mode <= 4 && p < |mask| == |vals| && mask[p] && |got| == CountOn(mask)
    requires mode == 0 ==> forall q :: 0 <= q < |mask| && mask[q] ==> vals[q] < 2
    requires ReadsModulo(got, Gather(vals, mask), GetTypeBitsNb(mode))
    ensures Rank(mask, p) < |got| && got[Rank(mask, p)] == Truncated(vals[p], GetTypeBitsNb(mode))
  {
    hide Gather, Spared, ListSpillFree, ListCarries, Truncated, Pow2, Rank;
    var values := Gather(vals, mask);
    Widths(mode);
    GatherAt(vals, mask, p);
    if mode == 0 {
      Pow2Values();
      forall k | 0 <= k < |values|
        ensures values[k] < 2
      {
        var q := PinOfRank(mask, k);
        GatherAt(vals, mask, q);
      }
      ListDomains(8, values, 1);
      SpillFreeSpares(8, values, 1);
    }
  }

  /**
   A masked read brings the values of the device, modulo 2, 256 or 65536, into the mirror and to the
   caller, in pin order; the device only takes an identifier.
   */
  lemma ReadMaskEffect(sys: System, mask: seq<bool>, mode: uint8, p: nat)
    requires Ready(sys) && mode <= 4 && p < |mask| == |sys.device.conn.types| == |sys.device.conn.vals|
    requires mode == 0 ==> forall q :: 0 <= q < |mask| && mask[q] ==> sys.device.conn.vals[q] < 2
    ensures Safe(ReadValueMask(mask, mode), sys.device.conn)
    ensures Exec(ReadValueMask(mask, mode), sys).device.conn == sys.device.conn
    ensures var m, m', u := sys.mirror, Exec(ReadValueMask(mask, mode), sys).mirror, sys.device.conn.vals[p];
      && p < |m.vals| == |m'.vals| && m' == m.(vals := m'.vals)
      && if mask[p] then
           && m'.vals[p] == (if mode == 1 || mode == 3 then u % 0x100 else u)
           && Rank(mask, p) < |ValuesRead(mask, mode, sys)| && ValuesRead(mask, mode, sys)[Rank(mask, p)] == m'.vals[p]
         else m'.vals[p] == m.vals[p]
  {
    hide *;
    var call, n, s := ReadValueMask(mask, mode), GetTypeBitsNb(mode), sys.device.conn;
    Tables(sys);
    ReadMaskIsSafe(mask, mode, s);
    StaysReady(call, sys);
    Tables(Exec(call, sys));
    ExecIs(call, sys);
    ReadValueMaskExchange(sys, mask, mode);
    ScatterAt(sys.mirror.vals, mask, ReadBack(s, mask, n), p);
    if mask[p] {
      ReadsCut(ReadBack(s, mask, n), s.vals, mask, mode, p);
      CutTo(s.vals[p], mode);
      ValuesReadAre(mask, mode, sys);
      ReadMaskFacts(sys, mask, mode);
    }
  }

  lemma ReadMaskIsSafe(mask: seq<bool>, mode: uint8, s: Conn)
    ensures Safe(ReadValueMask(mask, mode), s) <==> mode <= 4 && 0 < |mask| == |s.types| < 0x100
    ensures Safe(ReadValueMask(mask, mode), s) ==> s.NbPins() == |s.types|
  {
  }

  // ---- the types of a mask ----

  /**
   A masked write of types below 8 leaves them on both sides, at the pins of the mask in increasing
   order; everything else stays.
   */
  lemma SetTypeMaskEffect(sys: System, mask: seq<bool>, types: seq<uint16>, p: nat)
    requires Ready(sys) && p < |mask| == |sys.device.conn.types| && |types| == CountOn(mask)
    requires forall k :: 0 <= k < |types| ==> types[k] < 8
    ensures Safe(SetTypeMask(mask, types), sys.device.conn)
    ensures var m, m' := sys.mirror, Exec(SetTypeMask(mask, types), sys).mirror;
      && p < |m.types| == |m'.types| && m' == m.(types := m'.types)
      && if mask[p] then Rank(mask, p) < |types| && m'.types[p] == types[Rank(mask, p)] else m'.types[p] == m.types[p]
    ensures var s, s' := sys.device.conn, Exec(SetTypeMask(mask, types), sys).device.conn;
      && p < |s.types| == |s'.types| && s' == s.(types := s'.types)
      && if mask[p] then Rank(mask, p) < |types| && s'.types[p] == types[Rank(mask, p)] else s'.types[p] == s.types[p]
  {
    hide *;
    var call := SetTypeMask(mask, types);
    Tables(sys);
    SetTypeMaskDomain(sys, mask, types);
    StaysReady(call, sys);
    Tables(Exec(call, sys));
    ExecIs(call, sys);
    SetTypeMaskKeeps(sys, mask, types);
    SetTypeMaskType(sys, mask, types, p);
    ValidTypesAre(mask, types);
    InUsed(mask, p);
    if mask[p] {
      StoredType(mask, types, p);
      StoredValue(mask, types, p);
      TakenIs(|mask|, mask, types, 3, p);
      SmallByte(types[Rank(mask, p)]);
    }
  }

  lemma ValidTypesAre(mask: seq<bool>, types: seq<uint16>)
    requires |types| == CountOn(mask) && forall k :: 0 <= k < |types| ==> types[k] < 8
    ensures MaskFound(|mask|, mask, types, 3) == mask && ListReceived(|mask|, mask, types, 3) == types
  {
    hide MaskFound, ListReceived, Rank;
    ValidTypesArrive(mask, types);
  }

  lemma SetTypeMaskKeeps(sys: System, mask: seq<bool>, types: seq<uint16>)
    requires Ready(sys) && Safe(SetTypeMask(mask, types), sys.device.conn)
    ensures var sys' := Exec(SetTypeMask(mask, types), sys);
      && sys'.mirror == sys.mirror.(types := sys'.mirror.types)
      && sys'.device.conn == sys.device.conn.(types := sys'.device.conn.types)
  {
    hide Exec, Carried, MirrorOf, DeviceAfter, Ready, Safe, Sound, MaskFound, ListReceived, Scatter, LowBytes,
      Rank;
    SetTypesFacts(sys, mask, types);
    ExecIs(SetTypeMask(mask, types), sys);
    SetTypeMaskExchange(sys, mask, types);
  }

  /** A masked read of types brings them into the mirror, with 0 (digital) for a last pin that is asked for. */
  lemma GetTypeMaskEffect(sys: System, mask: seq<bool>, p: nat)
    requires Ready(sys) && Safe(GetTypeMask(mask), sys.device.conn) && p < |mask|
    ensures Exec(GetTypeMask(mask), sys).device.conn == sys.device.conn
    ensures var m, m', s := sys.mirror, Exec(GetTypeMask(mask), sys).mirror, sys.device.conn;
      && |mask| == |m.types| == |m'.types| == |s.types| && m' == m.(types := m'.types)
      && m'.types[p] == if !mask[p] then m.types[p] else if p == |mask| - 1 then 0 else s.types[p]
    ensures mask[p] ==> Rank(mask, p) < |TypesRead(mask, sys)|
    ensures mask[p] ==> TypesRead(mask, sys)[Rank(mask, p)] == Exec(GetTypeMask(mask), sys).mirror.types[p]
  {
    hide *;
    var call, s := GetTypeMask(mask), sys.device.conn;
    Tables(sys);
    StaysReady(call, sys);
    Tables(Exec(call, sys));
    MaskedFacts(sys, call);
    ExecIs(call, sys);
    GetTypeMaskExchange(sys, mask);
    GetTypeMaskType(sys, mask, p);
    TypesReadAre(mask, sys);
    if mask[p] {
      SeenAt(s.types, mask, p);
      SeenIs(s.types, p);
    }
  }

  lemma SeenIs(types: seq<uint8>, p: nat)
    requires p < |types|
    ensures PIN_TYPE_DIGITAL == 0 && Seen(types)[p] == if p == |types| - 1 then 0 else types[p]
  {
  }

  /** When the types of a mask can be asked for. */
  lemma GetTypeMaskIsSafe(mask: seq<bool>, s: Conn)
    requires mask != []
    ensures Safe(GetTypeMask(mask), s) <==>
      && 2 <= |mask| == |s.types| < 0x100 && (|mask| - 1) % 8 != 0
      && var k := Rank(mask, |mask| - 1);
      k > 0 && (mask[|mask| - 1] ==> 1 <= 3 * k % 8 <= 5)
  {
    hide Rank;
    SentCount(mask);
  }

  lemma SentCount(mask: seq<bool>)
    requires mask != []
    ensures CountOn(Sent(mask)) == Rank(mask, |mask| - 1)
  {
    SamePrefix(mask, Sent(mask), |mask| - 1);
  }

  // ---- the failsafes of a mask ----

  /** What the device stores of the k-th value. */
  lemma StoredEntryValue(mask: seq<bool>, mode: uint8, values: seq<uint16>, k: nat)
    requires mode <= 4 && |values| == CountOn(mask) && k < |values|
    requires (mode != 0 && |mask| % 8 == 0) || values[k] < if mode == 0 then 2 else 0x100
    requires var off, n := 16 + |mask|, GetTypeBitsNb(mode);
      MaskSpared(off, mask, values, n) && AllSpared(off, values, n)
    ensures var off, n := 16 + |mask|, GetTypeBitsNb(mode);
      && MaskFound(off, mask, values, n) == mask
      && ListReceived(off, mask, values, n)[k] == if mode == 1 || mode == 3 then values[k] % 0x100 else values[k]
  {
    hide MaskFound, ListReceived, MaskSpared, Spared, Arrived, Low, Pow2, CountOn, Rank, Span;
    var off, n := 16 + |mask|, GetTypeBitsNb(mode);
    Widths(mode);
    Pow2Values();
    WholeListReceived(off, mask, values, n);
    if n == 16 {
      Pow2Monotone(8, 8 + |mask| % 8);
      ArrivedEntryIff(|mask|, values, mode, k);
    } else {
      ArrivedLowIff(off, values, n, k);
      LowIsRemainder(values[k], n, if n == 1 then 2 else 0x100);
    }
  }

  lemma SetFailsafeMaskIsSafe(mask: seq<bool>, mode: uint8, timeout: uint16, values: seq<uint16>, s: Conn)
    requires mode <= 4 && 0 < |mask| == |s.types| < 0x100 && |values| == CountOn(mask)
    requires FoundFits(16 + |mask|, mask, values, GetTypeBitsNb(mode))
    ensures Safe(SetFailsafeMask(mask, mode, timeout, values), s)
  {
    hide FoundFits, Rank;
  }

  lemma SetFailsafeMaskKeeps(sys: System, mask: seq<bool>, mode: uint8, timeout: uint16, values: seq<uint16>)
    requires Ready(sys) && Safe(SetFailsafeMask(mask, mode, timeout, values), sys.device.conn)
    ensures var sys' := Exec(SetFailsafeMask(mask, mode, timeout, values), sys);
      && sys'.mirror == sys.mirror.(timeout := timeout, failsafe := sys'.mirror.failsafe)
      && sys'.device.conn == sys.device.conn.(timeout := timeout, failsafe := sys'.device.conn.failsafe)
  {
    hide Exec, Carried, MirrorOf, DeviceAfter, Ready, Safe, Sound, MaskFound, ListReceived, Scatter, Entries,
      GetTypeBitsNb, Rank;
    SetFailsafesFacts(sys, mask, mode, timeout, values);
    ExecIs(SetFailsafeMask(mask, mode, timeout, values), sys);
    SetFailsafeMaskExchange(sys, mask, mode, timeout, values);
  }

  /**
   A masked write of failsafes leaves the timeout on both sides and, at the pins of the mask in
   increasing order, the values with their type; the device keeps the low byte of 8-bit ones.
   */
  lemma SetFailsafeMaskEffect(sys: System, mask: seq<bool>, mode: uint8, timeout: uint16, values: seq<uint16>, p: nat)
    requires Ready(sys) && mode <= 4 && p < |mask| == |sys.device.conn.types| && |values| == CountOn(mask)
    requires (mode != 0 && |mask| % 8 == 0)
      || forall k :: 0 <= k < |values| ==> values[k] < if mode == 0 then 2 else 0x100
    ensures Safe(SetFailsafeMask(mask, mode, timeout, values), sys.device.conn)
    ensures var m, m' := sys.mirror, Exec(SetFailsafeMask(mask, mode, timeout, values), sys).mirror;
      && p < |m.failsafe| == |m'.failsafe| && m' == m.(timeout := timeout, failsafe := m'.failsafe)
      && if mask[p] then Rank(mask, p) < |values| && m'.failsafe[p] == PinFailsafe(mode, values[Rank(mask, p)])
         else m'.failsafe[p] == m.failsafe[p]
    ensures var s, s' := sys.device.conn, Exec(SetFailsafeMask(mask, mode, timeout, values), sys).device.conn;
      && p < |s.failsafe| == |s'.failsafe| && s' == s.(timeout := timeout, failsafe := s'.failsafe)
      && if mask[p] then
           && Rank(mask, p) < |values|
           && var v := values[Rank(mask, p)];
           s'.failsafe[p] == PinFailsafe(mode, if mode == 1 || mode == 3 then v % 0x100 else v)
         else s'.failsafe[p] == s.failsafe[p]
  {
    hide *;
    var call, n := SetFailsafeMask(mask, mode, timeout, values), GetTypeBitsNb(mode);
    Tables(sys);
    NothingSpills(16 + |mask|, mask, mode, values);
    SparedFits(16 + |mask|, mask, values, n);
    SetFailsafeMaskIsSafe(mask, mode, timeout, values, sys.device.conn);
    StaysReady(call, sys);
    Tables(Exec(call, sys));
    ExecIs(call, sys);
    SetFailsafeMaskKeeps(sys, mask, mode, timeout, values);
    SetFailsafeMaskEntry(sys, mask, mode, timeout, values, p);
    InUsed(mask, p);
    EntryForIs(mask, mode, values, sys.mirror.failsafe[p], p);
    EntryForIs(mask, mode, ListReceived(16 + |mask|, mask, values, n), sys.device.conn.failsafe[p], p);
    if mask[p] {
      StoredValue(mask, values, p);
      StoredEntryValue(mask, mode, values, Rank(mask, p));
      StoredValue(mask, ListReceived(16 + |mask|, mask, values, n), p);
    }
  }

  /** Entries that survive their place in the stream wherever they stand. */
  lemma {:induction false} SmallEntriesCarry(off: nat, pins: seq<PinFailsafe>)
    requires AllStorable(pins)
    requires forall k :: 0 <= k < |pins| ==>
      pins[k].pinState <= 4 && (pins[k].pinState == 2 || pins[k].pinState == 4 ==> pins[k].pinValue < 0x100)
    ensures StreamDomain(off, pins)
    decreases |pins|
  {
    if pins != [] {
      hide Pow2;
      var f, o := pins[0], (off + PIN_TYPE_BITS_NB) % 8;
      assert Storable(f);
      Widths(f.pinState);
      Pow2Values();
      Pow2Monotone(8, 8 + o);
      SmallEntriesCarry(off + Width(f), pins[1..]);
    }
  }

  lemma GetFailsafeMaskIsSound(mask: seq<bool>)
    requires 0 < CountOn(mask) && |mask| < 0x100
    ensures Sound(GetFailsafeMask(mask)) <==> |mask| <= 8 * ((3 * CountOn(mask) + 7) / 8)
  {
    hide Rank;
  }

  lemma SelectedEntries(sys: System, mask: seq<bool>)
    requires Ready(sys) && |mask| == |sys.device.conn.failsafe|
    requires forall q :: 0 <= q < |mask| && mask[q] ==>
      var f := sys.device.conn.failsafe[q];
      f.pinState <= 4 && (f.pinState == 2 || f.pinState == 4 ==> f.pinValue < 0x100)
    ensures StreamDomain(24, Gather(sys.device.conn.failsafe, mask))
  {
    hide Gather, StreamDomain, Storable, Rank;
    var table := sys.device.conn.failsafe;
    forall k | 0 <= k < CountOn(mask)
      ensures var f := Gather(table, mask)[k];
        Storable(f) && f.pinState <= 4 && (f.pinState == 2 || f.pinState == 4 ==> f.pinValue < 0x100)
    {
      var q := PinOfRank(mask, k);
      GatherAt(table, mask, q);
    }
    SmallEntriesCarry(24, Gather(table, mask));
  }

  /** The reply counts its bytes without wrapping: at most 100 pins. */
  lemma ReplyIsCounted(pins: seq<PinFailsafe>)
    requires |pins| <= 100
    ensures 3 + Bits2Bytes(NbBits(pins)) < 0x100
  {
    hide EncFailsafe;
    StreamLength(pins);
  }

  /**
   A masked read of failsafes brings the timeout to the caller, and the entries to the caller and into
   the mirror, of at most 100 pins that are not disabled and have 16-bit values below 256.
   */
  lemma GetFailsafeMaskEffect(sys: System, mask: seq<bool>, p: nat)
    requires Ready(sys) && p < |mask| == |sys.device.conn.types| == |sys.device.conn.failsafe| <= 100
    requires 0 < CountOn(mask) && |mask| <= 8 * ((3 * CountOn(mask) + 7) / 8)
    requires forall q :: 0 <= q < |mask| && mask[q] ==>
      var f := sys.device.conn.failsafe[q];
      f.pinState <= 4 && (f.pinState == 2 || f.pinState == 4 ==> f.pinValue < 0x100)
    ensures Safe(GetFailsafeMask(mask), sys.device.conn)
    ensures Exec(GetFailsafeMask(mask), sys).device.conn == sys.device.conn
    ensures TimeoutRead(mask, sys) == sys.device.conn.timeout
    ensures var m, m', s := sys.mirror, Exec(GetFailsafeMask(mask), sys).mirror, sys.device.conn;
      && p < |m.failsafe| == |m'.failsafe| && m' == m.(failsafe := m'.failsafe)
      && m'.failsafe[p] == if mask[p] then s.failsafe[p] else m.failsafe[p]
    ensures mask[p] ==> Rank(mask, p) < |TableRead(mask, sys)|
    ensures mask[p] ==> TableRead(mask, sys)[Rank(mask, p)] == sys.device.conn.failsafe[p]
  {
    hide *;
    var call, s := GetFailsafeMask(mask), sys.device.conn;
    var sub := Gather(s.failsafe, mask);
    Tables(sys);
    GetFailsafeMaskIsSound(mask);
    SelectedEntries(sys, mask);
    CountAtMost(mask);
    ReplyIsCounted(sub);
    GetFailsafeMaskDomain(sys, mask);
    StaysReady(call, sys);
    Tables(Exec(call, sys));
    ExecIs(call, sys);
    GetFailsafeMaskExchange(sys, mask);
    GatheredSendable(s.failsafe, mask) by {
      TableIsStorable(sys);
    }
    DomainIsReadable(sub);
    ScatterAt(sys.mirror.failsafe, mask, sub, p);
    if mask[p] {
      GatherAt(s.failsafe, mask, p);
    }
  }

  lemma CountAtMost(mask: seq<bool>)
    ensures CountOn(mask) <= |mask|
  {
  }

  lemma TableIsStorable(sys: System)
    requires Ready(sys)
    ensures AllStorable(sys.device.conn.failsafe)
  {
    hide AllStorable;
  }
}
