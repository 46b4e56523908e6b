/** The ordinary domains of the masked calls and of `set_failsafe`: there, they are safe and settle all they touch. */
module Domains {
  import opened Words
  import opened BitStrings
  import opened BitFields
  import opened ValueLists
  import opened Spills
  import opened Masks
  import opened Protocol
  import opened Failsafes
  import opened TableSpills
  import opened DriverCalls
  import opened Exchanges
  import opened Outcomes
  import opened Runs

  predicate AllBytes(values: seq<uint16>) {
    forall k :: 0 <= k < |values| ==> values[k] < 0x100
  }

  /** Values that fit and are positive as `int16_t` do not spill, wherever the list starts. */
  lemma SmallValuesAreSpared(off: nat, mask: seq<bool>, values: seq<uint16>, n: nat)
    requires n <= 16 && FitAll(values, n) && forall k :: 0 <= k < |values| ==> values[k] < 0x8000
    ensures MaskSpared(off, mask, values, n) && AllSpared(off, values, n)
  {
    hide SpillFree, Fits, Span, ToInt16, Spared, MaskSpared;
    forall k | 0 <= k < |values|
      ensures SpillFreeAt(off, values, n, k)
    {
      FittingIsSpillFree(off + Span(k, n), values[k], n);
    }
    SpillFreeSpares(off, values, n);
    SpillFreeSparesMask(off, mask, values, n);
  }

  /** A mask that is left alone names the values that were sent. */
  lemma SparedFits(off: nat, mask: seq<bool>, values: seq<uint16>, n: nat)
    requires 0 < |mask| <= off && |values| == CountOn(mask) && MaskSpared(off, mask, values, n)
    ensures MaskFound(off, mask, values, n) == mask && FoundFits(off, mask, values, n)
  {
    hide MaskFound, MaskSpared, Span, CountOn, Rank;
    FoundIffSpared(off, mask, values, n);
  }

  lemma FittingBytes(values: seq<uint16>, n: nat)
    requires n <= 8 && FitAll(values, n)
    ensures AllBytes(values)
  {
    Pow2Monotone(n, 8);
    Pow2Values();
  }

  /** `write_value_mask` with values below 256 that fit their type. */
  lemma WriteValueMaskDomain(sys: System, mask: seq<bool>, mode: uint8, values: seq<uint16>)
    requires Ready(sys) && 0 < |mask| == sys.device.conn.NbPins() && |values| == CountOn(mask)
    requires Typed(mode) && FitAll(values, GetTypeBitsNb(mode)) && AllBytes(values)
    ensures Safe(WriteValueMask(mask, mode, values), sys.device.conn)
    ensures InDomain(WriteValueMask(mask, mode, values), sys)
  {
    var call, n := WriteValueMask(mask, mode, values), GetTypeBitsNb(mode);
    hide FoundFits, MaskFound, MaskSpared, Spared, Fits, Rank, AllStorable;
    SmallValuesAreSpared(|mask|, mask, values, n);
    SparedFits(|mask|, mask, values, n);
    forall p | p in Used(mask)
      ensures p < |sys.mirror.vals| && ValueSettles(call, sys.device.conn, sys.mirror.vals[p], p)
    {
      RankOfUsed(mask, p);
    }
  }

  /** `set_type_mask` with types below 8. */
  lemma SetTypeMaskDomain(sys: System, mask: seq<bool>, types: seq<uint16>)
    requires Ready(sys) && 0 < |mask| == sys.device.conn.NbPins() && |types| == CountOn(mask)
    requires forall k :: 0 <= k < |types| ==> types[k] < 8
    ensures Safe(SetTypeMask(mask, types), sys.device.conn)
    ensures InDomain(SetTypeMask(mask, types), sys)
  {
    var call := SetTypeMask(mask, types);
    hide FoundFits, MaskFound, MaskSpared, Spared, Rank, AllStorable, Pow2;
    Pow2Values();
    SmallValuesAreSpared(|mask|, mask, types, 3);
    SparedFits(|mask|, mask, types, 3);
    forall p | p in Used(mask)
      ensures p < |sys.mirror.types| && TypeSettles(call, sys.device.conn, sys.mirror.types[p], p)
    {
      RankOfUsed(mask, p);
    }
  }

  /** `set_failsafe_mask`: fitting 1-bit and 8-bit values with any number of pins, 16-bit ones with a multiple of 8. */
  lemma SetFailsafeMaskDomain(sys: System, mask: seq<bool>, mode: uint8, timeout: uint16, values: seq<uint16>)
    requires Ready(sys) && 0 < |mask| == sys.device.conn.NbPins() && |values| == CountOn(mask)
    requires Typed(mode) && FitAll(values, GetTypeBitsNb(mode)) && (GetTypeBitsNb(mode) == 16 ==> |mask| % 8 == 0)
    ensures Safe(SetFailsafeMask(mask, mode, timeout, values), sys.device.conn)
    ensures InDomain(SetFailsafeMask(mask, mode, timeout, values), sys)
  {
    var call, n := SetFailsafeMask(mask, mode, timeout, values), GetTypeBitsNb(mode);
    hide FoundFits, MaskFound, MaskSpared, Spared, Fits, Rank, AllStorable, ListSpillFree;
    if n == 16 {
      AlignedListIsSpillFree(16 + |mask|, values, n);
      SpillFreeSpares(16 + |mask|, values, n);
      SpillFreeSparesMask(16 + |mask|, mask, values, n);
    } else {
      FittingBytes(values, n);
      SmallValuesAreSpared(16 + |mask|, mask, values, n);
    }
    SparedFits(16 + |mask|, mask, values, n);
    forall p | p in Used(mask)
      ensures p < |sys.mirror.failsafe| && FailsafeSettles(call, sys.device.conn, sys.mirror.failsafe[p], p)
    {
      RankOfUsed(mask, p);
    }
  }

  /** `set_failsafe` with a fitting value of an 8-bit or 16-bit type. */
  lemma SetFailsafeDomain(sys: System, pin: uint8, timeout: uint16, f: PinFailsafe)
    requires Ready(sys) && pin < sys.device.conn.NbPins()
    requires Typed(f.pinState) && f.pinState != PIN_TYPE_DIGITAL && Fits(f.pinValue, GetTypeBitsNb(f.pinState))
    ensures Safe(SetFailsafe(pin, timeout, f), sys.device.conn)
    ensures InDomain(SetFailsafe(pin, timeout, f), sys)
  {
    hide Fits, AllStorable;
  }

  /** `read_value_mask` where the device holds values that fit the width asked for. */
  lemma ReadValueMaskDomain(sys: System, mask: seq<bool>, mode: uint8)
    requires Ready(sys) && 0 < |mask| == sys.device.conn.NbPins() == |sys.device.conn.vals| && Typed(mode)
    requires FitAll(Gather(sys.device.conn.vals, mask), GetTypeBitsNb(mode))
    ensures Safe(ReadValueMask(mask, mode), sys.device.conn)
    ensures InDomain(ReadValueMask(mask, mode), sys)
  {
    var call, n, values := ReadValueMask(mask, mode), GetTypeBitsNb(mode), Gather(sys.device.conn.vals, mask);
    hide ListSpillFree, ListCarries, Spared, Fits, Rank, AllStorable, Gather;
    ListDomains(8, values, n);
    SpillFreeSpares(8, values, n);
    forall p | p in Used(mask)
      ensures p < |sys.mirror.vals| && ValueSettles(call, sys.device.conn, sys.mirror.vals[p], p)
    {
      GatherAt(sys.device.conn.vals, mask, p);
    }
  }

  /** A table in the domain of the stream is read inside the reply. */
  lemma DomainIsReadable(sub: seq<PinFailsafe>)
    requires AllSendable(sub) && StreamDomain(24, sub)
    ensures NoneDisabled(sub) && TableCarries(24, sub) && Readable(TableAnswer(sub), 24, |sub|)
  {
    hide WriteTable, ReadTable, TableCarries, StreamDomain, EncFailsafe, Readable, AllSendable, NoneDisabled;
    StreamDomainIff(24, sub);
    StreamStaysInReply(sub);
    StreamRoundTrip(Zeros(8 * (3 + Bits2Bytes(NbBits(sub)))), 24, sub);
  }

  /** `get_failsafe_mask` where the device holds a table in the domain of the stream that its reply can count. */
  lemma GetFailsafeMaskDomain(sys: System, mask: seq<bool>)
    requires Ready(sys) && Sound(GetFailsafeMask(mask))
    requires |mask| == sys.device.conn.NbPins() == |sys.device.conn.failsafe|
    requires var sub := Gather(sys.device.conn.failsafe, mask);
      StreamDomain(24, sub) && 3 + Bits2Bytes(NbBits(sub)) < 0x100
    ensures Safe(GetFailsafeMask(mask), sys.device.conn)
    ensures InDomain(GetFailsafeMask(mask), sys)
  {
    hide StreamDomain, TableCarries, NoneDisabled, Readable, TableAnswer, Gather, Rank, AllStorable, AllSendable,
      NbBits;
    hide Reached, EntrySpared;
    var call, sub := GetFailsafeMask(mask), Gather(sys.device.conn.failsafe, mask);
    GatheredSendable(sys.device.conn.failsafe, mask);
    DomainIsReadable(sub);
    forall p | p in Used(mask)
      ensures p < |sys.mirror.failsafe| && FailsafeSettles(call, sys.device.conn, sys.mirror.failsafe[p], p)
    {
      RankOfUsed(mask, p);
      CarriedIsSpared(24, sub, Rank(mask, p));
    }
  }
}
