/** What the reading calls of the driver return, and that it is what the writing calls have stored. */
module Answers {
  import opened Words
  import opened BitUtils
  import opened BitFields
  import opened ValueLists
  import opened Spills
  import opened Masks
  import opened Protocol
  import opened Failsafes
  import opened TableSpills
  import opened Connections
  import opened FirmwareSteps
  import opened DriverCalls
  import opened Layouts
  import opened Exchanges
  import opened Outcomes

  /**
   The list that `read_value_mask` returns: the values of the device modulo 2^n in pin order, as
   long as no wider 1-bit value behind one spills on it.
   */
  function ValuesRead(mask: seq<bool>, mode: uint8, sys: System): (r: seq<uint16>)
    requires Ready(sys) && Safe(ReadValueMask(mask, mode), sys.device.conn)
    ensures |r| == CountOn(mask) && |mask| == |sys.device.conn.vals|
    ensures ReadsModulo(r, Gather(sys.device.conn.vals, mask), GetTypeBitsNb(mode))
  {
    hide *;
    ReadValueMaskCarried(sys, mask, mode);
    ValuesReadFacts(mask, mode, sys);
    ReadList(ReplyBits(ReadValueMask(mask, mode), sys), 8, CountOn(mask), GetTypeBitsNb(mode))
  }

  /** The list that `get_type_mask` returns. */
  function TypesRead(mask: seq<bool>, sys: System): (r: seq<uint16>)
    requires Ready(sys) && Safe(GetTypeMask(mask), sys.device.conn)
    ensures |r| == CountOn(mask)
  {
    GetTypeMaskCarried(sys, mask);
    ReadList(ReplyBits(GetTypeMask(mask), sys), 8, CountOn(mask), PIN_TYPE_BITS_NB)
  }

  /** The entry that `get_failsafe` returns. */
  function EntryRead(pin: uint8, sys: System): PinFailsafe
    requires Ready(sys) && Safe(GetFailsafe(pin), sys.device.conn)
  {
    GetFailsafeExchange(sys, pin);
    PinAt(ReplyBits(GetFailsafe(pin), sys), 24)
  }

  /** The timeout and the entries that `get_failsafe_mask` returns. */
  function TimeoutRead(mask: seq<bool>, sys: System): (t: uint16)
    requires Ready(sys) && Safe(GetFailsafeMask(mask), sys.device.conn)
    ensures t == sys.device.conn.timeout
  {
    hide *;
    MaskedFacts(sys, GetFailsafeMask(mask));
    GetFailsafeMaskExchange(sys, mask);
    ToUInt16(ReadBits(ReplyBits(GetFailsafeMask(mask), sys), 8, 16))
  }

  function TableRead(mask: seq<bool>, sys: System): (r: seq<PinFailsafe>)
    requires Ready(sys) && Safe(GetFailsafeMask(mask), sys.device.conn)
    ensures |r| == CountOn(mask) && |mask| == |sys.device.conn.failsafe|
    ensures var sub := Gather(sys.device.conn.failsafe, mask);
      && (r == sub <==> NoneDisabled(sub) && TableCarries(24, sub))
      && EntriesReturn(r, 24, sub)
  {
    hide *;
    MaskedFacts(sys, GetFailsafeMask(mask));
    FailsafeTables(sys, mask);
    GetFailsafeMaskExchange(sys, mask);
    ReadTable(ReplyBits(GetFailsafeMask(mask), sys), 24, CountOn(mask))
  }

  // ---- values ----

  /** The driver reads the values as they arrive. */
  lemma ValuesReadFacts(mask: seq<bool>, mode: uint8, sys: System)
    requires Ready(sys) && Safe(ReadValueMask(mask, mode), sys.device.conn)
    ensures var call, n, values := ReadValueMask(mask, mode), GetTypeBitsNb(mode), Gather(sys.device.conn.vals, mask);
      && Sound(call) && Carried(call, sys) && |mask| == |sys.device.conn.vals| && |values| == CountOn(mask)
      && 8 + Span(CountOn(mask), n) <= |ReplyBits(call, sys)|
      && ReadList(ReplyBits(call, sys), 8, CountOn(mask), n) == Arrived(8, values, n)
      && ReadsModulo(Arrived(8, values, n), values, n)
  {
    hide *;
    MaskedFacts(sys, ReadValueMask(mask, mode));
    ReadMaskFacts(sys, mask, mode);
    ReadValueMaskCarried(sys, mask, mode);
    ValuesReplyReads(Gather(sys.device.conn.vals, mask), GetTypeBitsNb(mode), sys.device.nextId);
    ArrivesModulo(Gather(sys.device.conn.vals, mask), mode);
  }

  lemma ValuesReadAre(mask: seq<bool>, mode: uint8, sys: System)
    requires Ready(sys) && Safe(ReadValueMask(mask, mode), sys.device.conn)
    ensures |mask| == |sys.device.conn.vals|
    ensures ValuesRead(mask, mode, sys) == Arrived(8, Gather(sys.device.conn.vals, mask), GetTypeBitsNb(mode))
  {
    hide Ready, Safe, Sound, Carried, ReplyBits, ReadList, Arrived, Gather, Rank, Span, ReadsModulo;
    ValuesReadFacts(mask, mode, sys);
  }

  /** Values that fit their type and a byte. */
  predicate AllWritable(values: seq<uint16>, mode: uint8) {
    forall k :: 0 <= k < |values| ==> values[k] < 0x100 && Fits(values[k], GetTypeBitsNb(mode))
  }

  lemma WritableIsSpillFree(off: nat, values: seq<uint16>, mode: uint8)
    requires AllWritable(values, mode)
    ensures ListSpillFree(off, values, GetTypeBitsNb(mode))
  {
    hide SpillFree, Fits, Span, ToInt16, GetTypeBitsNb;
    var n := GetTypeBitsNb(mode);
    forall k | 0 <= k < |values|
      ensures SpillFreeAt(off, values, n, k)
    {
      FittingIsSpillFree(off + Span(k, n), values[k], n);
    }
  }

  /** A list of writable values leaves its mask alone, is stored as it is and is read as it is. */
  lemma WritableIsStored(mask: seq<bool>, values: seq<uint16>, mode: uint8)
    requires Typed(mode) && AllWritable(values, mode) && |values| == CountOn(mask)
    ensures var n := GetTypeBitsNb(mode);
      && MaskFound(|mask|, mask, values, n) == mask
      && Widened(LowBytes(ListReceived(|mask|, mask, values, n))) == values && Arrived(8, values, n) == values
  {
    hide Arrived, MaskFound, MaskSpared, ListReceived, Spared, Fits, ListSpillFree, GetTypeBitsNb, Rank;
    var n := GetTypeBitsNb(mode);
    WritableIsSpillFree(|mask|, values, mode);
    WritableIsSpillFree(8, values, mode);
    SpillFreeSparesMask(|mask|, mask, values, n);
    WholeListReceived(|mask|, mask, values, n);
    SpillFreeSpares(|mask|, values, n);
    SpillFreeSpares(8, values, n);
    forall k | 0 <= k < |values|
      ensures Widened(LowBytes(Arrived(|mask|, values, n)))[k] == values[k] && Arrived(8, values, n)[k] == values[k]
    {
      ArrivedByteIff(|mask|, values, mode, k);
      ArrivedAlignedIff(8, values, mode, k);
    }
  }

  /** Whatever a masked write stores for the pins of the mask is a byte. */
  lemma StoredAreBytes(t: seq<uint16>, mask: seq<bool>, found: seq<bool>, list: seq<uint16>)
    requires |t| == |mask| == |found| && |list| == CountOn(found) && forall p :: 0 <= p < |mask| && mask[p] ==> found[p]
    ensures forall v :: v in Gather(Scatter(t, found, Widened(LowBytes(list))), mask) ==> v < 0x100
  {
    hide Scatter, Gather, Rank, LowBytes, Widened;
    var stored := Scatter(t, found, Widened(LowBytes(list)));
    forall k | 0 <= k < CountOn(mask)
      ensures Gather(stored, mask)[k] < 0x100
    {
      var p := PinOfRank(mask, k);
      GatherAt(stored, mask, p);
      ScatterAt(t, found, Widened(LowBytes(list)), p);
      WidenedAt(LowBytes(list), Rank(found, p));
    }
  }

  lemma WidenedAt(types: seq<uint8>, k: nat)
    requires k < |types|
    ensures Widened(types)[k] == types[k]
  {
  }

  /** Each entry of a list belongs to a pin. */
  lemma PinOfRank(mask: seq<bool>, k: nat) returns (p: nat)
    requires k < CountOn(mask)
    ensures p < |mask| && mask[p] && Rank(mask, p) == k
  {
    PinsAreRanked(mask, |mask|);
    p := Pins(mask)[k];
  }

  /** Whatever is read back after a masked write fits its type and a byte. */
  lemma ReadBackIsWritable(stored: seq<uint16>, mode: uint8)
    requires Typed(mode) && forall v :: v in stored ==> v < 0x100
    ensures AllWritable(Arrived(8, stored, GetTypeBitsNb(mode)), mode)
  {
    hide Arrived, Span, Spared, Low, Pow2, GetTypeBitsNb;
    var n := GetTypeBitsNb(mode);
    WidthIs(mode);
    Pow2Values();
    forall k | 0 <= k < |stored|
      ensures Arrived(8, stored, n)[k] < 0x100 && Fits(Arrived(8, stored, n)[k], n)
    {
      assert stored[k] in stored;
      if n < 16 {
        ArrivedLowIff(8, stored, n, k);
      } else {
        SpanOfBytes(k, n);
        AddBytes(8, Span(k, n));
        AlignedIsSpared(8, stored, n, k);
        ArrivedAlignedIff(8, stored, mode, k);
      }
    }
  }

  /** What the device holds after a masked write. */
  function Written(t: seq<uint16>, mask: seq<bool>, mode: uint8, values: seq<uint16>): (r: seq<uint16>)
    requires |t| == |mask| && |values| == CountOn(mask)
    ensures |r| == |mask|
  {
    var n := GetTypeBitsNb(mode);
    Scatter(t, MaskFound(|mask|, mask, values, n), Widened(LowBytes(ListReceived(|mask|, mask, values, n))))
  }

  lemma WrittenReadBackIff(t: seq<uint16>, mask: seq<bool>, mode: uint8, values: seq<uint16>)
    requires Typed(mode) && |t| == |mask| && |values| == CountOn(mask)
    ensures Arrived(8, Gather(Written(t, mask, mode, values), mask), GetTypeBitsNb(mode)) == values
      <==> AllWritable(values, mode)
  {
    hide Arrived, MaskFound, ListReceived, LowBytes, Widened, Scatter, Gather, AllWritable, GetTypeBitsNb, CountOn,
      Rank;
    var n := GetTypeBitsNb(mode);
    if AllWritable(values, mode) {
      WritableIsStored(mask, values, mode);
      GatherOfScatter(t, mask, values);
    } else {
      FoundGrows(|mask|, mask, values, n);
      StoredAreBytes(t, mask, MaskFound(|mask|, mask, values, n), ListReceived(|mask|, mask, values, n));
      ReadBackIsWritable(Gather(Written(t, mask, mode, values), mask), mode);
    }
  }

  lemma ReadAfterWriteIsSafe(mask: seq<bool>, mode: uint8, values: seq<uint16>, s: Conn, s': Conn)
    requires Safe(WriteValueMask(mask, mode, values), s) && s'.NbPins() == s.NbPins()
    ensures Typed(mode) && |values| == CountOn(mask) && Safe(ReadValueMask(mask, mode), s')
  {
    hide FoundFits, Rank;
  }

  /**
   A masked read returns what was given to a masked write of the same type exactly when every value
   fits its type and a byte, whatever the values are.
   */
  lemma WriteThenRead(mask: seq<bool>, mode: uint8, values: seq<uint16>, sys: System)
    requires Ready(sys) && Safe(WriteValueMask(mask, mode, values), sys.device.conn)
    ensures var sys' := Exec(WriteValueMask(mask, mode, values), sys);
      && Ready(sys') && Safe(ReadValueMask(mask, mode), sys'.device.conn)
      && (ValuesRead(mask, mode, sys') == values <==> AllWritable(values, mode))
  {
    hide *;
    var call := WriteValueMask(mask, mode, values);
    StaysReady(call, sys);
    ReadAfterWriteIsSafe(mask, mode, values, sys.device.conn, Exec(call, sys).device.conn);
    ValuesAreStored(mask, mode, values, sys);
    ValuesReadAre(mask, mode, Exec(call, sys));
    WrittenReadBackIff(sys.device.conn.vals, mask, mode, values);
  }

  lemma ValuesAreStored(mask: seq<bool>, mode: uint8, values: seq<uint16>, sys: System)
    requires Ready(sys) && Safe(WriteValueMask(mask, mode, values), sys.device.conn)
    ensures Typed(mode) && |values| == CountOn(mask) && |mask| == |sys.device.conn.vals|
    ensures Exec(WriteValueMask(mask, mode, values), sys).device.conn.vals
         == Written(sys.device.conn.vals, mask, mode, values)
  {
    hide Exec, Carried, MirrorOf, DeviceAfter, Ready, Safe, MaskFound, ListReceived, LowBytes, Widened, Scatter,
      GetTypeBitsNb, CountOn, Rank;
    var call := WriteValueMask(mask, mode, values);
    WriteMaskFacts(sys, mask, mode, values);
    ExecIs(call, sys);
    WriteValueMaskExchange(sys, mask, mode, values);
  }

  // ---- types ----

  lemma TypesReadAre(mask: seq<bool>, sys: System)
    requires Ready(sys) && Safe(GetTypeMask(mask), sys.device.conn)
    ensures |mask| == |sys.device.conn.types| > 0
    ensures TypesRead(mask, sys) == Gather(Widened(Seen(sys.device.conn.types)), mask)
  {
    hide Ready, Safe, Carried, ReplyBits, MirrorOf, DeviceAfter, ReadList, Span, Rank, Gather, Widened, LowBytes,
      Scatter, Sent, Seen, TypesReply, RoomForLast;
    TypesFacts(sys, mask);
    GetTypeMaskCarried(sys, mask);
    TypesReplyReads(sys.device.conn.types, mask, sys.device.nextId);
  }

  predicate ValidTypes(types: seq<uint16>) {
    forall k :: 0 <= k < |types| ==> types[k] < 8
  }

  /** Whether the types of a mask can be fetched does not depend on what the device holds. */
  lemma SafeGetTypes(mask: seq<bool>, s: Conn, s': Conn)
    requires s'.NbPins() == s.NbPins() && Safe(GetTypeMask(mask), s)
    ensures Safe(GetTypeMask(mask), s')
  {
    hide Sent, Rank, RoomForLast;
  }

  /** The types that a mask selects, the last pin being seen as digital. */
  lemma SeenAt(types: seq<uint8>, mask: seq<bool>, p: nat)
    requires |types| == |mask| && p < |mask| && mask[p]
    ensures Rank(mask, p) < CountOn(mask)
    ensures Gather(Widened(Seen(types)), mask)[Rank(mask, p)] == if p == |mask| - 1 then PIN_TYPE_DIGITAL else types[p]
  {
    hide Gather, Rank, Widened;
    GatherAt(Widened(Seen(types)), mask, p);
    WidenedAt(Seen(types), p);
  }

  /** A list that arrives in 3-bit fields and is then read back, with the last pin of the table missing. */
  predicate GivesBack(mask: seq<bool>, types: seq<uint16>)
    requires mask != [] && |types| == CountOn(mask)
  {
    ValidTypes(types) && (mask[|mask| - 1] ==> LastIsDigital(types))
  }

  predicate LastIsDigital(types: seq<uint16>) {
    types != [] && types[|types| - 1] == PIN_TYPE_DIGITAL
  }

  lemma LastRank(mask: seq<bool>)
    requires mask != [] && mask[|mask| - 1]
    ensures Rank(mask, |mask| - 1) == CountOn(mask) - 1
  {
  }

  /** A list of valid types leaves its mask alone and arrives as it is. */
  lemma ValidTypesArrive(mask: seq<bool>, types: seq<uint16>)
    requires ValidTypes(types) && |types| == CountOn(mask)
    ensures MaskFound(|mask|, mask, types, 3) == mask && ListReceived(|mask|, mask, types, 3) == types
  {
    hide Arrived, MaskFound, MaskSpared, ListReceived, ListSpillFree, ListCarries, Pow2, Rank;
    Pow2Values();
    ListDomains(|mask|, types, 3);
    SpillFreeSparesMask(|mask|, mask, types, 3);
    WholeListReceived(|mask|, mask, types, 3);
    CarriedArrive(|mask|, types, 3);
  }

  lemma LowByteOf(types: seq<uint16>, k: nat)
    requires k < |types|
    ensures LowBytes(types)[k] == ToUInt8(types[k])
  {
  }

  /** What the driver finds for a pin whose type it has set. */
  lemma TypeComesBack(t: seq<uint8>, mask: seq<bool>, found: seq<bool>, list: seq<uint16>, p: nat)
    requires |t| == |mask| == |found| && |list| == CountOn(found) && FitAll(list, 3) && p < |mask| && mask[p]
    requires found[p]
    ensures var stored := Scatter(t, found, LowBytes(list));
      && Rank(mask, p) < CountOn(mask) && Rank(found, p) < |list| && list[Rank(found, p)] < 8
      && Gather(Widened(Seen(stored)), mask)[Rank(mask, p)]
         == (if p == |mask| - 1 then PIN_TYPE_DIGITAL else list[Rank(found, p)] as int)
  {
    hide Scatter, LowBytes, Widened, Gather, Rank, Seen, ToUInt8, Pow2;
    var stored := Scatter(t, found, LowBytes(list));
    Pow2Values();
    SeenAt(stored, mask, p);
    ScatterAt(t, found, LowBytes(list), p);
    LowByteOf(list, Rank(found, p));
    assert Fits(list[Rank(found, p)], 3);
    SmallByte(list[Rank(found, p)]);
  }

  /** The types of the device after a masked write of types. */
  function Typified(t: seq<uint8>, mask: seq<bool>, types: seq<uint16>): (r: seq<uint8>)
    requires |t| == |mask| && |types| == CountOn(mask)
    ensures |r| == |mask|
  {
    Scatter(t, MaskFound(|mask|, mask, types, 3), LowBytes(ListReceived(|mask|, mask, types, 3)))
  }

  lemma TypesComeBackIff(t: seq<uint8>, mask: seq<bool>, types: seq<uint16>)
    requires |t| == |mask| > 0 && |types| == CountOn(mask)
    ensures Gather(Widened(Seen(Typified(t, mask, types))), mask) == types <==> GivesBack(mask, types)
  {
    hide Scatter, LowBytes, MaskFound, ListReceived, Widened, Gather, Rank, Seen, FitAll;
    var got := Gather(Widened(Seen(Typified(t, mask, types))), mask);
    var found, list := MaskFound(|mask|, mask, types, 3), ListReceived(|mask|, mask, types, 3);
    FoundGrows(|mask|, mask, types, 3);
    ReceivedFit(|mask|, mask, types, 3);
    if mask[|mask| - 1] {
      LastRank(mask);
    }
    if ValidTypes(types) {
      ValidTypesArrive(mask, types);
    }
    forall k | 0 <= k < |types|
      ensures got[k] < 8
      ensures ValidTypes(types) ==>
        (got[k] == types[k] <==> !(mask[|mask| - 1] && k == |types| - 1) || types[k] == PIN_TYPE_DIGITAL)
    {
      var p := PinOfRank(mask, k);
      TypeComesBack(t, mask, found, list, p);
      LastPinIff(mask, p);
    }
  }

  lemma LastPinIff(mask: seq<bool>, p: nat)
    requires p < |mask| && mask[p]
    ensures p == |mask| - 1 <==> mask[|mask| - 1] && Rank(mask, p) == CountOn(mask) - 1
  {
    if p < |mask| - 1 {
      RankMonotone(mask, p + 1, |mask| - 1);
    }
  }

  lemma TypesAreStored(mask: seq<bool>, types: seq<uint16>, sys: System)
    requires Ready(sys) && Safe(SetTypeMask(mask, types), sys.device.conn)
    ensures |types| == CountOn(mask) && |sys.device.conn.types| == |mask|
    ensures Exec(SetTypeMask(mask, types), sys).device.conn.types
         == Typified(sys.device.conn.types, mask, types)
  {
    hide Exec, Carried, MirrorOf, DeviceAfter, Ready, Safe, MaskFound, ListReceived, LowBytes, Scatter, CountOn, Rank;
    var call := SetTypeMask(mask, types);
    SetTypesFacts(sys, mask, types);
    ExecIs(call, sys);
    SetTypeMaskExchange(sys, mask, types);
  }

  /**
   `get_type_mask` returns the list that `set_type_mask` was given exactly when all types are below
   8 and, if the mask uses the last pin, the type of that pin is digital.
   */
  lemma SetThenGetTypes(mask: seq<bool>, types: seq<uint16>, sys: System)
    requires Ready(sys) && Safe(SetTypeMask(mask, types), sys.device.conn) && Safe(GetTypeMask(mask), sys.device.conn)
    ensures var sys' := Exec(SetTypeMask(mask, types), sys);
      && Ready(sys') && Safe(GetTypeMask(mask), sys'.device.conn) && mask != [] && |types| == CountOn(mask)
      && (TypesRead(mask, sys') == types <==> GivesBack(mask, types))
  {
    hide *;
    var call := SetTypeMask(mask, types);
    StaysReady(call, sys);
    SafeGetTypes(mask, sys.device.conn, Exec(call, sys).device.conn);
    TypesAreStored(mask, types, sys);
    TypesReadAre(mask, Exec(call, sys));
    TypesComeBackIff(sys.device.conn.types, mask, types);
  }

  // ---- failsafes ----

  /** s' is s with another entry for one pin. */
  predicate OneEntry(s: Conn, s': Conn, pin: uint8, f: PinFailsafe) {
    pin < |s.failsafe| && s'.failsafe == s.failsafe[pin := f]
  }

  /** An entry whose value is cut to the width of its type. */
  function Cut(f: PinFailsafe): PinFailsafe {
    PinFailsafe(f.pinState, Truncated(f.pinValue, GetTypeBitsNb(f.pinState)))
  }

  lemma EntryIsStored(pin: uint8, timeout: uint16, f: PinFailsafe, sys: System)
    requires Ready(sys) && Safe(SetFailsafe(pin, timeout, f), sys.device.conn)
    ensures f.pinState != PIN_TYPE_DISABLED && pin < sys.device.conn.NbPins()
    ensures OneEntry(sys.device.conn, Exec(SetFailsafe(pin, timeout, f), sys).device.conn, pin, Cut(f))
  {
    hide Exec, Carried, MirrorOf, DeviceAfter, Truncated, GetTypeBitsNb, AllStorable;
    var call := SetFailsafe(pin, timeout, f);
    PinFacts(sys, call);
    ExecIs(call, sys);
    SetFailsafeExchange(sys, pin, timeout, f);
  }

  /** What `get_failsafe` returns for an entry of the device. */
  lemma EntryReadIs(pin: uint8, sys: System)
    requires Ready(sys) && Safe(GetFailsafe(pin), sys.device.conn)
    ensures pin < |sys.device.conn.failsafe|
    ensures ReadsAs(sys.device.conn.failsafe[pin], EntryRead(pin, sys))
  {
    hide Ready, Safe, Carried, MirrorOf, DeviceAfter, ReplyBits, TypeAt, HidesType, GetTypeBitsNb;
    GetFailsafeExchange(sys, pin);
  }

  lemma CutIff(f: PinFailsafe)
    ensures Cut(f) == f <==> Fits(f.pinValue, GetTypeBitsNb(f.pinState))
    ensures Cut(f).pinState == f.pinState
  {
    hide GetTypeBitsNb, Low;
    LowIsIdentityIff(f.pinValue, GetTypeBitsNb(f.pinState));
  }

  /** An entry of a 16-bit type is not cut; one of an 8-bit type that is read whole is the one stored. */
  lemma ReadEntryIff(f: PinFailsafe, got: PinFailsafe)
    requires Typed(f.pinState)
    requires got == Cut(f) <==> (GetTypeBitsNb(f.pinState) == 16 ==> Cut(f).pinValue < 2048)
    ensures got == f
      <==> Fits(f.pinValue, GetTypeBitsNb(f.pinState)) && (GetTypeBitsNb(f.pinState) == 16 ==> f.pinValue < 2048)
  {
    CutIff(f);
    Pow2Values();
  }

  /**
   `get_failsafe` returns the entry that `set_failsafe` was given exactly when its value fits its
   type and, for 16-bit types, is below 2048, since the value of a reply starts at bit 27. No other
   entry is changed. From 0x8000 on, the reply says that the pin is disabled.
   */
  lemma SetThenGetFailsafe(pin: uint8, timeout: uint16, f: PinFailsafe, sys: System)
    requires Ready(sys) && Safe(SetFailsafe(pin, timeout, f), sys.device.conn)
    ensures var sys', n := Exec(SetFailsafe(pin, timeout, f), sys), GetTypeBitsNb(f.pinState);
      && Ready(sys') && Safe(GetFailsafe(pin), sys'.device.conn)
      && OneEntry(sys.device.conn, sys'.device.conn, pin, Cut(f))
      && (EntryRead(pin, sys') == f <==> Fits(f.pinValue, n) && (n == 16 ==> f.pinValue < 2048))
      && (n == 16 && f.pinValue >= 0x8000 ==> EntryRead(pin, sys') == DISABLED_PIN)
  {
    hide Ready, Exec, EntryRead, Cut, GetTypeBitsNb, Fits, AllStorable;
    var call := SetFailsafe(pin, timeout, f);
    StaysReady(call, sys);
    EntryIsStored(pin, timeout, f, sys);
    EntryReadIs(pin, Exec(call, sys));
    CutIff(f);
    ReadEntryIff(f, EntryRead(pin, Exec(call, sys)));
    WordsFit(f.pinValue);
  }
}
