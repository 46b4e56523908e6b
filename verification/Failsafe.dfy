/** src/failsafe.c: failsafe tables and their self-describing stream of variable-width values. */
module Failsafes {
  import opened Words
  import opened BitStrings
  import opened BitUtils
  import opened BitFields
  import opened Protocol
  import opened Masks

  datatype PinFailsafe = PinFailsafe(pinState: uint8, pinValue: uint16)

  const DISABLED_PIN := PinFailsafe(PIN_TYPE_DISABLED, 0)

  /** A table entry that the protocol can send: disabled, or of one of the five types. */
  predicate Sendable(f: PinFailsafe) {
    f.pinState == PIN_TYPE_DISABLED || f.pinState <= PIN_TYPE_PWM16
  }

  function Width(f: PinFailsafe): nat {
    if f.pinState == PIN_TYPE_DISABLED then 0 else PIN_TYPE_BITS_NB + GetTypeBitsNb(f.pinState)
  }

  /** The stream of a table: for each pin that is not disabled, its type and then its value. */
  function EncFailsafe(pins: seq<PinFailsafe>): seq<bool> {
    if pins == [] then []
    else EncPin(pins[0]) + EncFailsafe(pins[1..])
  }

  function EncPin(f: PinFailsafe): (b: seq<bool>)
    ensures |b| == Width(f)
  {
    if f.pinState == PIN_TYPE_DISABLED then []
    else Enc(f.pinState, PIN_TYPE_BITS_NB) + Enc(f.pinValue, GetTypeBitsNb(f.pinState))
  }

  /** What `write_failsafe` does to the bits of a buffer for one pin, spilled bits included. */
  function WritePin(b: seq<bool>, off: nat, f: PinFailsafe): (r: seq<bool>)
    ensures |r| == |b|
  {
    if f.pinState == PIN_TYPE_DISABLED then b
    else
      var t := WriteBits(b, off, f.pinState, PIN_TYPE_BITS_NB);
      WriteBits(t, off + PIN_TYPE_BITS_NB, ToInt16(f.pinValue), GetTypeBitsNb(f.pinState))
  }

  function WriteTable(b: seq<bool>, off: nat, pins: seq<PinFailsafe>): (r: seq<bool>)
    ensures |r| == |b|
    decreases |pins|
  {
    if pins == [] then b
    else WriteTable(WritePin(b, off, pins[0]), off + Width(pins[0]), pins[1..])
  }

  /** The type that `read_failsafe` finds at an offset. */
  function TypeAt(b: seq<bool>, off: nat): uint8
    requires off + PIN_TYPE_BITS_NB <= |b|
  {
    ToUInt8(ReadBits(b, off, PIN_TYPE_BITS_NB))
  }

  /** A stream of n entries can be read from bit off on without leaving the buffer. */
  predicate Readable(b: seq<bool>, off: nat, n: nat)
    decreases n
  {
    n == 0 ||
    (off + PIN_TYPE_BITS_NB < |b| &&
     var w := GetTypeBitsNb(TypeAt(b, off));
     off + PIN_TYPE_BITS_NB + w <= |b| && Readable(b, off + PIN_TYPE_BITS_NB + w, n - 1))
  }

  function PinAt(b: seq<bool>, off: nat): (f: PinFailsafe)
    requires off + PIN_TYPE_BITS_NB <= |b| && off + PIN_TYPE_BITS_NB + GetTypeBitsNb(TypeAt(b, off)) <= |b|
  {
    var t := TypeAt(b, off);
    PinFailsafe(t, ToUInt16(ReadBits(b, off + PIN_TYPE_BITS_NB, GetTypeBitsNb(t))))
  }

  /** What `read_failsafe` stores: it reads an entry for every pin, the type giving the next offset. */
  function ReadTable(b: seq<bool>, off: nat, n: nat): (pins: seq<PinFailsafe>)
    requires Readable(b, off, n)
    ensures |pins| == n
    decreases n
  {
    if n == 0 then []
    else
      var f := PinAt(b, off);
      [f] + ReadTable(b, off + PIN_TYPE_BITS_NB + GetTypeBitsNb(f.pinState), n - 1)
  }

  predicate AllSendable(pins: seq<PinFailsafe>) {
    forall k :: 0 <= k < |pins| ==> Sendable(pins[k])
  }

  /** An entry that the handlers can have stored: its value fits its type. */
  predicate Storable(f: PinFailsafe) {
    f.pinState == PIN_TYPE_DISABLED || (f.pinState <= PIN_TYPE_PWM16 && Fits(f.pinValue, GetTypeBitsNb(f.pinState)))
  }

  predicate AllStorable(pins: seq<PinFailsafe>) {
    forall k :: 0 <= k < |pins| ==> Storable(pins[k])
  }

  predicate NoneDisabled(pins: seq<PinFailsafe>) {
    forall k :: 0 <= k < |pins| ==> pins[k].pinState != PIN_TYPE_DISABLED
  }

  predicate PinSpillFree(off: nat, f: PinFailsafe) {
    SpillFree(off + PIN_TYPE_BITS_NB, ToInt16(f.pinValue), GetTypeBitsNb(f.pinState))
  }

  predicate PinCarries(off: nat, f: PinFailsafe) {
    Carries(off + PIN_TYPE_BITS_NB, GetTypeBitsNb(f.pinState), f.pinValue)
  }

  /** No value of the table spills bits in front of its field when the stream starts at bit off. */
  predicate TableSpillFree(off: nat, pins: seq<PinFailsafe>)
    decreases |pins|
  {
    pins == [] ||
    ((pins[0].pinState == PIN_TYPE_DISABLED || PinSpillFree(off, pins[0])) &&
     TableSpillFree(off + Width(pins[0]), pins[1..]))
  }

  /** Every value of the table survives the passage through its field. */
  predicate TableCarries(off: nat, pins: seq<PinFailsafe>)
    decreases |pins|
  {
    pins == [] ||
    ((pins[0].pinState == PIN_TYPE_DISABLED || PinCarries(off, pins[0])) &&
     TableCarries(off + Width(pins[0]), pins[1..]))
  }

  lemma TypeIsSpillFree(off: nat, t: uint8)
    requires t < 8
    ensures SpillFree(off, t, PIN_TYPE_BITS_NB) && Carries(off, PIN_TYPE_BITS_NB, t)
  {
    hide SpillFree, Pow2;
    Pow2Values();
    FittingIsSpillFree(off, t, PIN_TYPE_BITS_NB);
  }

  lemma WritePinExact(b: seq<bool>, off: nat, f: PinFailsafe)
    requires f.pinState == PIN_TYPE_DISABLED || (f.pinState <= PIN_TYPE_PWM16 && PinSpillFree(off, f))
    requires off + Width(f) <= |b| && Blank(b, off, off + Width(f))
    ensures WritePin(b, off, f) == Splice(b, off, EncPin(f))
  {
    if f.pinState != PIN_TYPE_DISABLED {
      hide WriteBits, SpillFree, Enc, ToInt16;
      var n := GetTypeBitsNb(f.pinState);
      TypeIsSpillFree(off, f.pinState);
      WriteExact(b, off, f.pinState, PIN_TYPE_BITS_NB);
      var e := Enc(f.pinState, PIN_TYPE_BITS_NB);
      BlankAfterSplice(b, off, e, n);
      WriteExact(Splice(b, off, e), off + PIN_TYPE_BITS_NB, ToInt16(f.pinValue), n);
      EncConversions(f.pinValue, n);
      SpliceAppends(b, off, e, Enc(f.pinValue, n));
    }
  }

  /** Spill-free tables are laid out as their stream; the rest of the buffer is left alone. */
  lemma {:induction false} WriteTableExact(b: seq<bool>, off: nat, pins: seq<PinFailsafe>)
    requires AllSendable(pins) && TableSpillFree(off, pins)
    requires off + |EncFailsafe(pins)| <= |b| && Blank(b, off, off + |EncFailsafe(pins)|)
    ensures WriteTable(b, off, pins) == Splice(b, off, EncFailsafe(pins))
    decreases |pins|
  {
    if pins != [] {
      var e, r := EncPin(pins[0]), EncFailsafe(pins[1..]);
      hide WritePin, PinSpillFree, EncPin;
      WritePinExact(b, off, pins[0]);
      BlankAfterSplice(b, off, e, |r|);
      WriteTableExact(Splice(b, off, e), off + |e|, pins[1..]);
      SpliceAppends(b, off, e, r);
    }
  }

  /** An entry reads as it was written exactly when its value survives; its type always does. */
  lemma ReadPinIff(b: seq<bool>, off: nat, f: PinFailsafe)
    requires f.pinState <= PIN_TYPE_PWM16 && off + Width(f) <= |b| && b[off..off + Width(f)] == EncPin(f)
    ensures TypeAt(b, off) == f.pinState
    ensures PinAt(b, off) == f <==> PinCarries(off, f)
  {
    hide ReadBits, Enc, Carries, SpillFree;
    var n := GetTypeBitsNb(f.pinState);
    var e, v := Enc(f.pinState, PIN_TYPE_BITS_NB), Enc(f.pinValue, n);
    StreamSplits(b, off, e, v);
    TypeIsSpillFree(off, f.pinState);
    ReadFieldIff(b, off, f.pinState, PIN_TYPE_BITS_NB);
    ReadFieldIff(b, off + PIN_TYPE_BITS_NB, f.pinValue, n);
    ByteOfSmallWord(ReadBits(b, off, PIN_TYPE_BITS_NB), f.pinState);
  }

  lemma ByteOfSmallWord(x: int, t: uint8)
    requires ToUInt16(x) == t
    ensures ToUInt8(x) == t
  {
    ByteOfWord(x);
  }

  lemma StreamSplits(b: seq<bool>, off: nat, e: seq<bool>, r: seq<bool>)
    requires off + |e| + |r| <= |b| && b[off..off + |e + r|] == e + r
    ensures b[off..off + |e|] == e && b[off + |e|..off + |e| + |r|] == r
  {
    SliceOfSlice(b, off, off + |e + r|, 0, |e|);
    SliceOfSlice(b, off, off + |e + r|, |e|, |e + r|);
    SliceOfConcat(e, r, 0, |e|);
  }

  lemma ConsEqualIff(f: PinFailsafe, r: seq<PinFailsafe>, pins: seq<PinFailsafe>)
    requires pins != []
    ensures [f] + r == pins <==> f == pins[0] && r == pins[1..]
  {
    assert ([f] + r)[1..] == r && ([f] + r)[0] == f;
    assert pins == [pins[0]] + pins[1..];
  }

  lemma PinAtType(b: seq<bool>, off: nat)
    requires off + PIN_TYPE_BITS_NB <= |b| && off + PIN_TYPE_BITS_NB + GetTypeBitsNb(TypeAt(b, off)) <= |b|
    ensures PinAt(b, off).pinState == TypeAt(b, off)
  {
  }

  /** From bit off on, b holds the stream of a table and then nothing but zeros. */
  predicate Holds(b: seq<bool>, off: nat, pins: seq<PinFailsafe>) {
    && off + |EncFailsafe(pins)| <= |b|
    && b[off..off + |EncFailsafe(pins)|] == EncFailsafe(pins)
    && Blank(b, off + |EncFailsafe(pins)|, |b|)
  }

  lemma HoldsRest(b: seq<bool>, off: nat, pins: seq<PinFailsafe>)
    requires pins != [] && Holds(b, off, pins)
    ensures Holds(b, off + Width(pins[0]), pins[1..])
    ensures off + Width(pins[0]) <= |b| && b[off..off + Width(pins[0])] == EncPin(pins[0])
  {
    hide EncPin;
    StreamSplits(b, off, EncPin(pins[0]), EncFailsafe(pins[1..]));
  }

  /** Whatever follows a disabled pin in the stream, it is not read as the type of a disabled pin. */
  lemma {:induction false} NoDisabledType(b: seq<bool>, off: nat, pins: seq<PinFailsafe>)
    requires AllSendable(pins) && Holds(b, off, pins) && off + PIN_TYPE_BITS_NB <= |b|
    ensures TypeAt(b, off) != PIN_TYPE_DISABLED
    decreases |pins|
  {
    hide EncPin, PinCarries;
    if pins == [] {
      TypeOfBlank(b, off);
    } else {
      HoldsRest(b, off, pins);
      if pins[0].pinState == PIN_TYPE_DISABLED {
        NoDisabledType(b, off, pins[1..]);
      } else {
        ReadPinIff(b, off, pins[0]);
      }
    }
  }

  /** The running offset of `read_failsafe` after n entries. */
  function ReadEnd(b: seq<bool>, off: nat, n: nat): nat
    requires Readable(b, off, n)
    decreases n
  {
    if n == 0 then off else ReadEnd(b, off + PIN_TYPE_BITS_NB + GetTypeBitsNb(TypeAt(b, off)), n - 1)
  }

  lemma RestIsEnabled(pins: seq<PinFailsafe>)
    requires pins != [] && AllSendable(pins) && NoneDisabled(pins)
    ensures AllSendable(pins[1..]) && NoneDisabled(pins[1..])
    ensures pins[0].pinState <= PIN_TYPE_PWM16
  {
  }

  /** The types of a table, from the one at bit off and those of the rest. */
  lemma ReadTypes(b: seq<bool>, off: nat, pins: seq<PinFailsafe>)
    requires pins != [] && pins[0].pinState <= PIN_TYPE_PWM16 && off + Width(pins[0]) <= |b|
    requires TypeAt(b, off) == pins[0].pinState && Readable(b, off + Width(pins[0]), |pins| - 1)
    requires var r := ReadTable(b, off + Width(pins[0]), |pins| - 1);
      forall k :: 0 <= k < |r| ==> r[k].pinState == pins[1..][k].pinState
    ensures Readable(b, off, |pins|)
    ensures forall k :: 0 <= k < |pins| ==> ReadTable(b, off, |pins|)[k].pinState == pins[k].pinState
  {
    hide TypeAt, PinAt;
    PinAtType(b, off);
    var t, r := ReadTable(b, off, |pins|), ReadTable(b, off + Width(pins[0]), |pins| - 1);
    assert t == [PinAt(b, off)] + r;
    forall k | 1 <= k < |pins|
      ensures t[k].pinState == pins[k].pinState
    {
      assert t[k] == r[k - 1] && pins[k] == pins[1..][k - 1];
    }
  }

  /** A stream that nothing has spilled on describes itself: without disabled pins every type comes back. */
  lemma {:induction false} StreamReadable(b: seq<bool>, off: nat, pins: seq<PinFailsafe>)
    requires AllSendable(pins) && NoneDisabled(pins) && Holds(b, off, pins)
    ensures Readable(b, off, |pins|)
    ensures forall k :: 0 <= k < |pins| ==> ReadTable(b, off, |pins|)[k].pinState == pins[k].pinState
    decreases |pins|
  {
    hide EncPin, EncFailsafe, Holds, PinCarries, TypeAt, Width, AllSendable, NoneDisabled;
    if pins != [] {
      RestIsEnabled(pins);
      HoldsRest(b, off, pins);
      ReadPinIff(b, off, pins[0]);
      StreamReadable(b, off + Width(pins[0]), pins[1..]);
      ReadTypes(b, off, pins);
    }
  }

  lemma NoStream(pins: seq<PinFailsafe>)
    ensures EncFailsafe(pins[..0]) == []
  {
  }

  lemma PrefixStream(pins: seq<PinFailsafe>, k: nat)
    requires 0 < k <= |pins|
    ensures |EncFailsafe(pins[..k])| == Width(pins[0]) + |EncFailsafe(pins[1..][..k - 1])|
  {
    hide EncPin;
    assert pins[..k][1..] == pins[1..][..k - 1];
  }

  /** One step of the reader. */
  lemma ReadEndStep(b: seq<bool>, off: nat, f: PinFailsafe, k: nat)
    requires f.pinState <= PIN_TYPE_PWM16 && off + Width(f) <= |b| && TypeAt(b, off) == f.pinState
    requires Readable(b, off + Width(f), k)
    ensures Readable(b, off, k + 1) && ReadEnd(b, off, k + 1) == ReadEnd(b, off + Width(f), k)
  {
    hide TypeAt;
  }

  /** So the offsets of the reader and of the writer agree at every pin of such a stream. */
  lemma {:induction false} StreamOffsetsAgree(b: seq<bool>, off: nat, pins: seq<PinFailsafe>, k: nat)
    requires AllSendable(pins) && NoneDisabled(pins) && Holds(b, off, pins) && k <= |pins|
    ensures Readable(b, off, k) && ReadEnd(b, off, k) == off + |EncFailsafe(pins[..k])|
    decreases k
  {
    hide EncPin, EncFailsafe, Holds, PinCarries, TypeAt, Width, AllSendable, NoneDisabled, Readable, ReadEnd;
    if k == 0 {
      ReadNone(b, off);
      NoStream(pins);
    } else {
      RestIsEnabled(pins);
      HoldsRest(b, off, pins);
      ReadPinIff(b, off, pins[0]);
      StreamOffsetsAgree(b, off + Width(pins[0]), pins[1..], k - 1);
      ReadEndStep(b, off, pins[0], k - 1);
      PrefixStream(pins, k);
    }
  }

  /**
   A table comes back from its stream exactly when no pin is disabled, since the writer skips
   disabled pins and the reader does not, and every value survives.
   */
  lemma {:induction false} ReadTableIff(b: seq<bool>, off: nat, pins: seq<PinFailsafe>)
    requires AllSendable(pins) && Holds(b, off, pins) && Readable(b, off, |pins|)
    ensures ReadTable(b, off, |pins|) == pins <==> NoneDisabled(pins) && TableCarries(off, pins)
    decreases |pins|
  {
    hide EncPin, EncFailsafe, TypeAt, PinAt, PinCarries, Holds, NoneDisabled, GetTypeBitsNb;
    NoneDisabledSplits(pins);
    if pins != [] {
      HoldsRest(b, off, pins);
      PinAtType(b, off);
      var w := PIN_TYPE_BITS_NB + GetTypeBitsNb(TypeAt(b, off));
      ConsEqualIff(PinAt(b, off), ReadTable(b, off + w, |pins| - 1), pins);
      if pins[0].pinState == PIN_TYPE_DISABLED {
        NoDisabledType(b, off, pins);
      } else {
        ReadPinIff(b, off, pins[0]);
        ReadTableIff(b, off + w, pins[1..]);
      }
    }
  }

  lemma NoneDisabledSplits(pins: seq<PinFailsafe>)
    ensures NoneDisabled(pins) <==> pins == [] || (pins[0].pinState != PIN_TYPE_DISABLED && NoneDisabled(pins[1..]))
  {
    if pins != [] && NoneDisabled(pins[1..]) {
      assert forall k :: 1 <= k < |pins| ==> pins[k] == pins[1..][k - 1];
    }
  }

  /** Values that survive do not spill. */
  lemma {:induction false} CarryingIsSpillFree(off: nat, pins: seq<PinFailsafe>)
    requires AllSendable(pins) && TableCarries(off, pins)
    ensures TableSpillFree(off, pins)
    decreases |pins|
  {
    if pins != [] {
      hide SpillFree, Carries;
      if pins[0].pinState != PIN_TYPE_DISABLED {
        CarriesIsSpillFree(off + PIN_TYPE_BITS_NB, pins[0].pinValue, GetTypeBitsNb(pins[0].pinState));
      }
      CarryingIsSpillFree(off + Width(pins[0]), pins[1..]);
    }
  }

  lemma WrittenTableHolds(b: seq<bool>, off: nat, pins: seq<PinFailsafe>)
    requires AllSendable(pins) && TableSpillFree(off, pins)
    requires off + |EncFailsafe(pins)| <= |b| && Blank(b, off, |b|)
    ensures Holds(WriteTable(b, off, pins), off, pins)
  {
    hide WriteTable, EncFailsafe, TableSpillFree;
    WriteTableExact(b, off, pins);
  }

  lemma StreamRoundTrip(b: seq<bool>, off: nat, pins: seq<PinFailsafe>)
    requires AllSendable(pins) && NoneDisabled(pins) && TableCarries(off, pins)
    requires off + |EncFailsafe(pins)| <= |b| && Blank(b, off, |b|)
    ensures Readable(WriteTable(b, off, pins), off, |pins|)
    ensures ReadTable(WriteTable(b, off, pins), off, |pins|) == pins
    ensures WriteTable(b, off, pins)[..off] == b[..off]
  {
    hide WriteTable, ReadTable, TableCarries, EncFailsafe, Readable, TableSpillFree, AllSendable, NoneDisabled;
    CarryingIsSpillFree(off, pins);
    WrittenTableHolds(b, off, pins);
    StreamReadable(WriteTable(b, off, pins), off, pins);
    ReadTableIff(WriteTable(b, off, pins), off, pins);
    WriteTableExact(b, off, pins);
  }

  // ---- a table with a value that spills, or with a disabled pin, never comes back ----

  /** Whatever was read from zeros is zero. */
  lemma BlankRead(b: seq<bool>, off: nat, n: nat)
    requires n <= 16 && off + n <= |b| && Blank(b, off, off + n)
    ensures ToUInt16(ReadBits(b, off, n)) == 0
  {
    hide ReadBits, Enc;
    forall t | 0 <= t < n
      ensures b[off + t] == Enc(0, n)[t]
    {
      EncOfZero(n, t);
    }
    if n > 0 {
      Pow2Values();
      Pow2Monotone(0, n);
      ReadFieldIff(b, off, 0, n) by {
        assert b[off..off + n] == Enc(0, n);
      }
      ZeroCarries(off, n);
    } else {
      ReadOfTwoBytes(b, off, 0);
    }
  }

  lemma EncOfZero(n: nat, t: nat)
    requires t < n
    ensures !Enc(0, n)[t]
  {
    TestBitZero(n - 1 - t);
  }

  lemma ZeroCarries(off: nat, n: nat)
    requires 1 <= n <= 16
    ensures Carries(off, n, 0)
  {
  }

  /** A field that is read s places too far holds its value shifted by s. */
  lemma ShiftedField(b: seq<bool>, off: nat, n: nat, v: uint16, s: nat)
    requires off + s + n <= |b| && b[off..off + n] == Enc(v, n) && Blank(b, off + n, |b|)
    ensures b[off + s..off + s + n] == Enc(Shl(v, s), n)
  {
    forall t | 0 <= t < n
      ensures b[off + s + t] == Enc(Shl(v, s), n)[t]
    {
      TestBitShl(v, s, n - 1 - t);
      if s + t < n {
        assert b[off..off + n][s + t] == Enc(v, n)[s + t];
      }
    }
  }

  /** Only zero is read from its own field shifted: reading never moves a bit to a lower place. */
  lemma {:induction false} ShiftedLowZeros(b: seq<bool>, off: nat, n: nat, v: uint16, s: nat, p: nat)
    requires n <= 16 && 1 <= s && p <= 16 && off + n <= |b| && b[off..off + n] == Enc(Shl(v, s), n)
    requires ToUInt16(ReadBits(b, off, n)) == v
    ensures forall i :: 0 <= i < p ==> !TestBit(v, i)
  {
    if p > 0 {
      hide TestBit, ReadBits, Enc, Shl;
      ShiftedLowZeros(b, off, n, v, s, p - 1);
      forall i | 0 <= i < p
        ensures !TestBit(Shl(v, s), i)
      {
        TestBitShl(v, s, i);
      }
      LowZerosStay(b, off, n, Shl(v, s), p);
      forall i | 0 <= i < p
        ensures !TestBit(v, i)
      {
        TestBitConversions(ReadBits(b, off, n), i);
      }
    }
  }

  lemma NoBits(v: uint16)
    requires forall i :: 0 <= i < 16 ==> !TestBit(v, i)
    ensures v == 0
  {
    hide TestBit, Low;
    forall i | 0 <= i < 16
      ensures TestBit(v, i) == TestBit(0, i)
    {
      TestBitZero(i);
    }
    LowDetermines(v, 0, 16);
    Pow2Values();
    LowOfFitting(v, 16);
    LowOfFitting(0, 16);
  }

  lemma ShiftedValueIsZero(b: seq<bool>, off: nat, n: nat, v: uint16, s: nat)
    requires n <= 16 && 1 <= s && off + s + n <= |b| && b[off..off + n] == Enc(v, n) && Blank(b, off + n, |b|)
    requires ToUInt16(ReadBits(b, off + s, n)) == v
    ensures v == 0
  {
    hide TestBit, ReadBits, Enc, Shl;
    ShiftedField(b, off, n, v, s);
    ShiftedLowZeros(b, off + s, n, v, s, 16);
    NoBits(v);
  }

  lemma WriteOfZero(b: seq<bool>, off: nat, n: nat)
    ensures WriteBits(b, off, 0, n) == b
  {
    forall i | 0 <= i < |b|
      ensures WriteBits(b, off, 0, n)[i] == b[i]
    {
      if 8 * (off / 8) <= i < off + n {
        TestBitZero(off + n - 1 - i);
      }
    }
  }

  /** The value of an entry is in its field, and nothing is behind it. */
  lemma EntryWritten(b: seq<bool>, off: nat, f: PinFailsafe)
    requires f.pinState <= PIN_TYPE_PWM16 && off + Width(f) <= |b| && Blank(b, off, |b|)
    ensures var c, n := WritePin(b, off, f), GetTypeBitsNb(f.pinState);
      c[off + 3..off + 3 + n] == Enc(f.pinValue, n) && Blank(c, off + Width(f), |b|)
  {
    hide TestBit, ToInt16;
    var n := GetTypeBitsNb(f.pinState);
    var t := WriteBits(b, off, f.pinState, 3);
    FieldReceives(t, off + 3, ToInt16(f.pinValue), n);
    EncConversions(f.pinValue, n);
  }

  lemma ZeroEntryWritesNothing(b: seq<bool>, off: nat)
    ensures WritePin(b, off, PinFailsafe(PIN_TYPE_DIGITAL, 0)) == b
  {
    hide WriteBits;
    WriteOfZero(b, off, 3);
    WriteOfZero(b, off + 3, 1);
  }

  lemma TypeOfBlank(b: seq<bool>, off: nat)
    requires off + 3 <= |b| && Blank(b, off, off + 3)
    ensures TypeAt(b, off) == PIN_TYPE_DIGITAL
  {
    hide ReadBits;
    BlankRead(b, off, 3);
    ByteOfSmallWord(ReadBits(b, off, 3), 0);
  }

  lemma BlankWithin(b: seq<bool>, lo: nat, hi: nat, lo': nat, hi': nat)
    requires lo <= lo' <= hi' <= hi <= |b| && Blank(b, lo, hi)
    ensures Blank(b, lo', hi')
  {
  }

  /** A reader that has lost its place by s >= 3 bits finds an entry again only if the entry is all zeros. */
  lemma ShiftedEntry(b: seq<bool>, off: nat, s: nat, f: PinFailsafe)
    requires f.pinState <= PIN_TYPE_PWM16 && off + Width(f) <= |b| && Blank(b, off, |b|) && s >= 3
    requires var c, n := WritePin(b, off, f), GetTypeBitsNb(f.pinState);
      && off + s + 3 + n <= |b| && TypeAt(c, off + s) == f.pinState
      && ToUInt16(ReadBits(c, off + s + 3, n)) == f.pinValue
    ensures WritePin(b, off, f) == b
  {
    hide WritePin, TypeAt, ReadBits, Enc;
    var c, n := WritePin(b, off, f), GetTypeBitsNb(f.pinState);
    EntryWritten(b, off, f);
    if n == 1 {
      BlankWithin(c, off + Width(f), |b|, off + s + 3, off + s + 4);
      BlankRead(c, off + s + 3, 1);
    } else {
      ShiftedValueIsZero(c, off + 3, n, f.pinValue, s);
      forall i | off + 3 <= i < |b|
        ensures !c[i]
      {
        if i < off + 3 + n {
          EncOfZero(n, i - (off + 3));
          SliceAt(c, off + 3, off + 3 + n, i);
        }
      }
      TypeOfBlank(c, off + s);
    }
    ZeroEntryWritesNothing(b, off);
  }

  /** A reader that has lost its place finds a table again only if nothing was written at all. */
  lemma {:induction false} ShiftedTable(b: seq<bool>, off: nat, s: nat, pins: seq<PinFailsafe>)
    requires AllSendable(pins) && off + |EncFailsafe(pins)| <= |b| && Blank(b, off, |b|) && s >= 3
    requires Readable(WriteTable(b, off, pins), off + s, |pins|)
    requires ReadTable(WriteTable(b, off, pins), off + s, |pins|) == pins
    ensures WriteTable(b, off, pins) == b
    decreases |pins|
  {
    hide WritePin, EncPin, TypeAt, ReadBits, PinAt;
    if pins != [] {
      var f, rest, w := pins[0], pins[1..], WriteTable(b, off, pins);
      PinAtType(w, off + s);
      ConsEqualIff(PinAt(w, off + s), ReadTable(w, off + s + 3 + GetTypeBitsNb(TypeAt(w, off + s)), |rest|), pins);
      if f.pinState == PIN_TYPE_DISABLED {
        WriteSkips(b, off, pins);
        ShiftedTable(b, off, s + 3, rest);
        TypeOfBlank(b, off + s);
      } else {
        WriteSplits(b, off, pins);
        EntryWritten(b, off, f);
        ShiftedTable(WritePin(b, off, f), off + Width(f), s, rest);
        PinAtValue(w, off + s);
        ShiftedEntry(b, off, s, f);
      }
    }
  }

  lemma WriteSkips(b: seq<bool>, off: nat, pins: seq<PinFailsafe>)
    requires pins != [] && pins[0].pinState == PIN_TYPE_DISABLED
    ensures WriteTable(b, off, pins) == WriteTable(b, off, pins[1..]) && EncFailsafe(pins) == EncFailsafe(pins[1..])
  {
    hide EncFailsafe;
    assert EncFailsafe(pins) == EncFailsafe(pins[1..]) by {
      EncSkips(pins);
    }
  }

  lemma EncSkips(pins: seq<PinFailsafe>)
    requires pins != [] && pins[0].pinState == PIN_TYPE_DISABLED
    ensures EncFailsafe(pins) == EncFailsafe(pins[1..])
  {
  }

  lemma WriteSplits(b: seq<bool>, off: nat, pins: seq<PinFailsafe>)
    requires pins != []
    ensures WriteTable(b, off, pins) == WriteTable(WritePin(b, off, pins[0]), off + Width(pins[0]), pins[1..])
    ensures |EncFailsafe(pins)| == Width(pins[0]) + |EncFailsafe(pins[1..])|
  {
    hide WritePin, EncPin;
  }

  lemma PinAtValue(b: seq<bool>, off: nat)
    requires off + PIN_TYPE_BITS_NB <= |b| && off + PIN_TYPE_BITS_NB + GetTypeBitsNb(TypeAt(b, off)) <= |b|
    ensures PinAt(b, off).pinValue == ToUInt16(ReadBits(b, off + PIN_TYPE_BITS_NB, GetTypeBitsNb(TypeAt(b, off))))
  {
    hide ReadBits, TypeAt;
  }

  /** Bits in front of a table that does not spill are left alone, so the entry there reads as it was written. */
  lemma {:induction false} ReadBackTableCarries(b: seq<bool>, off: nat, pins: seq<PinFailsafe>)
    requires AllSendable(pins) && off + |EncFailsafe(pins)| <= |b| && Blank(b, off, |b|)
    requires Readable(WriteTable(b, off, pins), off, |pins|) && ReadTable(WriteTable(b, off, pins), off, |pins|) == pins
    ensures NoneDisabled(pins) && TableCarries(off, pins)
    decreases |pins|
  {
    hide WritePin, EncPin, TypeAt, ReadBits, PinAt, NoneDisabled, PinCarries;
    NoneDisabledSplits(pins);
    if pins != [] {
      var f, rest, w := pins[0], pins[1..], WriteTable(b, off, pins);
      PinAtType(w, off);
      ConsEqualIff(PinAt(w, off), ReadTable(w, off + 3 + GetTypeBitsNb(TypeAt(w, off)), |rest|), pins);
      if f.pinState == PIN_TYPE_DISABLED {
        WriteSkips(b, off, pins);
        ShiftedTable(b, off, 3, rest);
        TypeOfBlank(b, off);
      } else {
        WriteSplits(b, off, pins);
        EntryWritten(b, off, f);
        ReadBackTableCarries(WritePin(b, off, f), off + Width(f), rest);
        PinAtValue(w, off);
        EntryReadBack(b, off, f, rest);
      }
    }
  }

  lemma EntryReadBack(b: seq<bool>, off: nat, f: PinFailsafe, rest: seq<PinFailsafe>)
    requires f.pinState <= PIN_TYPE_PWM16 && AllSendable(rest) && TableCarries(off + Width(f), rest)
    requires off + Width(f) + |EncFailsafe(rest)| <= |b| && Blank(b, off, |b|)
    requires var w, n := WriteTable(WritePin(b, off, f), off + Width(f), rest), GetTypeBitsNb(f.pinState);
      ToUInt16(ReadBits(w, off + 3, n)) == f.pinValue
    ensures PinCarries(off, f)
  {
    hide WritePin, WriteTable, TableCarries, EncFailsafe, TableSpillFree, ReadBits, Enc, Carries;
    var c, n := WritePin(b, off, f), GetTypeBitsNb(f.pinState);
    var w := WriteTable(c, off + Width(f), rest);
    EntryWritten(b, off, f);
    CarryingIsSpillFree(off + Width(f), rest);
    WriteTableExact(c, off + Width(f), rest);
    SlicePrefix(w, c, off + Width(f), off + 3);
    ReadFieldIff(w, off + 3, f.pinValue, n);
  }

  lemma SlicePrefix(w: seq<bool>, c: seq<bool>, hi: nat, lo: nat)
    requires lo <= hi <= |w| && hi <= |c| && w[..hi] == c[..hi]
    ensures w[lo..hi] == c[lo..hi]
  {
    assert w[lo..hi] == w[..hi][lo..] && c[lo..hi] == c[..hi][lo..];
  }

  /**
   `read_failsafe` inverts `write_failsafe` on a blank buffer, from any start offset, exactly when
   no pin is disabled and every value survives.
   */
  lemma StreamRoundTripIff(b: seq<bool>, off: nat, pins: seq<PinFailsafe>)
    requires AllSendable(pins) && off + |EncFailsafe(pins)| <= |b| && Blank(b, off, |b|)
    ensures Readable(WriteTable(b, off, pins), off, |pins|) && ReadTable(WriteTable(b, off, pins), off, |pins|) == pins
      <==> NoneDisabled(pins) && TableCarries(off, pins)
  {
    hide WriteTable, ReadTable, TableCarries, EncFailsafe, Readable, AllSendable, NoneDisabled;
    if NoneDisabled(pins) && TableCarries(off, pins) {
      StreamRoundTrip(b, off, pins);
    } else if Readable(WriteTable(b, off, pins), off, |pins|)
        && ReadTable(WriteTable(b, off, pins), off, |pins|) == pins {
      ReadBackTableCarries(b, off, pins);
    }
  }

  // ---- where the stream stands in the buffer does not matter ----

  /** Bytes in front of the stream are not touched. */
  lemma {:induction false} TableFrame(b: seq<bool>, off: nat, pins: seq<PinFailsafe>, i: nat)
    requires i < |b| && i < 8 * (off / 8)
    ensures WriteTable(b, off, pins)[i] == b[i]
    decreases |pins|
  {
    hide WritePin, Width;
    if pins != [] {
      PinFrame(b, off, pins[0], i);
      BytesBefore(off, Width(pins[0]));
      TableFrame(WritePin(b, off, pins[0]), off + Width(pins[0]), pins[1..], i);
    }
  }

  lemma PinFrame(b: seq<bool>, off: nat, f: PinFailsafe, i: nat)
    requires i < |b| && i < 8 * (off / 8)
    ensures WritePin(b, off, f)[i] == b[i]
  {
    hide TestBit, ToInt16, GetTypeBitsNb;
    BytesBefore(off, PIN_TYPE_BITS_NB);
  }

  lemma BytesBefore(off: nat, w: nat)
    ensures 8 * (off / 8) <= 8 * ((off + w) / 8)
  {
  }

  lemma {:induction false} SameReading(r: seq<bool>, a: seq<bool>, off: nat, n: nat)
    requires |r| == |a| && forall i :: off <= i < |a| ==> r[i] == a[i]
    ensures Readable(r, off, n) <==> Readable(a, off, n)
    ensures Readable(a, off, n) ==> ReadTable(r, off, n) == ReadTable(a, off, n)
    decreases n
  {
    hide ReadBits;
    if n > 0 && off + 3 < |a| {
      SameSlice(r, a, off, off + 3);
      ReadIsLocal(r, a, off, 3);
      var w := GetTypeBitsNb(TypeAt(a, off));
      if off + 3 + w <= |a| {
        SameSlice(r, a, off + 3, off + 3 + w);
        ReadIsLocal(r, a, off + 3, w);
        SameReading(r, a, off + 3 + w, n - 1);
      }
    }
  }

  /** The ordinary domain of the stream: fitting values, 16 bits on a byte boundary or small enough. */
  predicate StreamDomain(off: nat, pins: seq<PinFailsafe>)
    decreases |pins|
  {
    pins == [] ||
    (pins[0].pinState <= PIN_TYPE_PWM16 &&
     Fits(pins[0].pinValue, GetTypeBitsNb(pins[0].pinState)) &&
     var o := (off + PIN_TYPE_BITS_NB) % 8;
     (GetTypeBitsNb(pins[0].pinState) == 16 ==> o == 0 || Fits(pins[0].pinValue, 8 + o)) &&
     StreamDomain(off + Width(pins[0]), pins[1..]))
  }

  lemma {:induction false} StreamDomainIff(off: nat, pins: seq<PinFailsafe>)
    requires AllSendable(pins)
    ensures StreamDomain(off, pins) <==> NoneDisabled(pins) && TableCarries(off, pins)
    decreases |pins|
  {
    if pins != [] {
      hide Fits;
      StreamDomainIff(off + Width(pins[0]), pins[1..]);
      NoneDisabledSplits(pins);
    }
  }

  /** The size that `failsafe_nb_bits` computes. */
  function NbBits(pins: seq<PinFailsafe>): nat {
    16 + |pins| + |EncFailsafe(pins)|
  }

  /** BITS2BYTES of a positive number of bits. */
  function Bits2Bytes(a: nat): nat
    requires a > 0
  {
    (a - 1) / 8 + 1
  }

  /** The reply to a request for one pin, before its first three bytes are filled in. */
  function EntryAnswer(f: PinFailsafe): (r: seq<bool>)
    ensures |r| == 8 * (3 + Bits2Bytes(3 + GetTypeBitsNb(f.pinState))) && |r| % 8 == 0 && 24 <= |r| <= 48
  {
    var n := GetTypeBitsNb(f.pinState);
    WriteBits(WriteBits(Zeros(8 * (3 + Bits2Bytes(3 + n))), 24, f.pinState, 3), 27, ToInt16(f.pinValue), n)
  }

  /** The reply to a masked request, before its first three bytes are filled in. */
  function TableAnswer(pins: seq<PinFailsafe>): (r: seq<bool>)
    ensures |r| == 8 * (3 + Bits2Bytes(NbBits(pins))) && |r| % 8 == 0
  {
    WriteTable(Zeros(8 * (3 + Bits2Bytes(NbBits(pins)))), 24, pins)
  }

  lemma {:induction false} StreamLength(pins: seq<PinFailsafe>)
    ensures |EncFailsafe(pins)| <= 19 * |pins|
    decreases |pins|
  {
    if pins != [] {
      StreamLength(pins[1..]);
    }
  }

  lemma {:induction false} WidestStream(n: nat)
    ensures |EncFailsafe(seq(n, _ => PinFailsafe(PIN_TYPE_PWM16, 0)))| == 19 * n
  {
    if n > 0 {
      WidestStream(n - 1);
      var f := PinFailsafe(PIN_TYPE_PWM16, 0);
      assert seq(n, _ => f)[1..] == seq(n - 1, _ => f);
    }
  }

  /**
   The reply to a masked request counts its bytes in a `uint8_t`. The count does not wrap for any
   table of n selected pins exactly when n is at most 100.
   */
  lemma ReplyCountFitsIff(n: nat)
    ensures (forall pins: seq<PinFailsafe> :: |pins| == n ==> 3 + Bits2Bytes(NbBits(pins)) < 0x100) <==> n <= 100
  {
    hide EncFailsafe;
    if n <= 100 {
      forall pins: seq<PinFailsafe> | |pins| == n
        ensures 3 + Bits2Bytes(NbBits(pins)) < 0x100
      {
        StreamLength(pins);
      }
    } else {
      WidestStream(n);
      assert 3 + Bits2Bytes(NbBits(seq(n, _ => PinFailsafe(PIN_TYPE_PWM16, 0)))) >= 0x100;
    }
  }

  /** From bit 24, the stream stays within a reply sized from `failsafe_nb_bits`. */
  lemma StreamStaysInReply(pins: seq<PinFailsafe>)
    ensures 24 + |EncFailsafe(pins)| <= 8 * (3 + Bits2Bytes(NbBits(pins)))
    ensures |EncFailsafe(pins)| == NbBits(pins) - 16 - |pins|
  {
  }

  lemma NoPinBelow(m: seq<bool>)
    ensures Rank(m, 0) == 0 <= CountOn(m)
  {
  }

  /** `struct failsafe` */
  class Failsafe {
    var timeout: uint16
    var pins: seq<PinFailsafe>

    constructor (nbPins: nat)
      ensures timeout == 0 && |pins| == nbPins
      ensures forall p :: 0 <= p < nbPins ==> pins[p] == PinFailsafe(7, 0)
    {
      timeout := 0;
      pins := seq(nbPins, _ => DISABLED_PIN);
    }

    /** The selected part of a table. */
    method SubFailsafe(m: seq<bool>) returns (sub: Failsafe)
      requires |m| == |pins|
      ensures fresh(sub) && sub.timeout == timeout && sub.pins == Gather(pins, m)
    {
      hide Gather, Rank;
      var n := MaskNbPinsUsed(m, |m|);
      sub := new Failsafe(n);
      var subIndex := 0;
      sub.timeout := timeout;
      var pinIndex := 0;
      NoPinBelow(m);
      while true
        invariant 0 <= pinIndex <= |m| && subIndex == Rank(m, pinIndex) <= CountOn(m)
        invariant |sub.pins| == n && sub.timeout == timeout
        invariant forall k :: 0 <= k < subIndex ==> sub.pins[k] == Gather(pins, m)[k]
        decreases |m| - pinIndex
      {
        var next := MaskNextPinUsed(m, pinIndex, |m|);
        if next == -1 {
          RankSkip(m, pinIndex, |m|);
          break;
        }
        GatherAt(pins, m, next);
        ScatterStep(pins, m, Gather(pins, m), pinIndex, next);
        sub.pins := sub.pins[subIndex := pins[next]];
        subIndex := subIndex + 1;
        pinIndex := next + 1;
      }
    }

    method NbBitsOf(nbPins: nat) returns (sum: nat)
      requires nbPins == |pins|
      ensures sum == NbBits(pins)
    {
      sum := 16 + nbPins;
      assert pins[0..] == pins;
      for i := 0 to nbPins
        invariant sum + |EncFailsafe(pins[i..])| == NbBits(pins)
      {
        assert pins[i..][1..] == pins[i + 1..];
        if pins[i].pinState == PIN_TYPE_DISABLED {
          continue;
        }
        var valSize := GetTypeBitsNb(pins[i].pinState);
        sum := sum + valSize + PIN_TYPE_BITS_NB;
      }
    }

    method WriteFailsafe(p: array<uint8>, offset: uint16)
      requires AllSendable(pins) && offset + |EncFailsafe(pins)| <= 8 * p.Length
      requires offset + |EncFailsafe(pins)| < 0x1_0000
      modifies p
      ensures Bits(p[..]) == WriteTable(old(Bits(p[..])), offset, pins)
    {
      hide Bits, WriteBits, WriteTable, EncFailsafe, ToInt16;
      ghost var b := Bits(p[..]);
      var off: nat := offset;
      assert pins[0..] == pins;
      for i := 0 to |pins|
        invariant off + |EncFailsafe(pins[i..])| == offset + |EncFailsafe(pins)|
        invariant WriteTable(Bits(p[..]), off, pins[i..]) == WriteTable(b, offset, pins)
      {
        TableStep(Bits(p[..]), off, pins, i);
        if pins[i].pinState == PIN_TYPE_DISABLED {
          continue;
        }
        var valSize := GetTypeBitsNb(pins[i].pinState);
        WriteBitValue(p, 0, off, pins[i].pinState, PIN_TYPE_BITS_NB);
        off := off + PIN_TYPE_BITS_NB;
        WriteBitValue(p, 0, off, ToInt16(pins[i].pinValue), valSize);
        off := off + valSize;
      }
      TableEnd(Bits(p[..]), off, pins);
    }

    method ReadFailsafe(buffer: array<uint8>, offset: uint16)
      requires Readable(Bits(buffer[..]), offset, |pins|) && 8 * buffer.Length <= 0x1_0000
      modifies this
      ensures pins == ReadTable(Bits(buffer[..]), offset, old(|pins|)) && timeout == old(timeout)
    {
      hide Bits, ReadBits, Readable, ReadTable, PinAt, TypeAt;
      ghost var b := Bits(buffer[..]);
      var off: nat := offset;
      var n := |pins|;
      for i := 0 to n
        invariant |pins| == n && timeout == old(timeout) && Readable(b, off, n - i)
        invariant pins[..i] + ReadTable(b, off, n - i) == ReadTable(b, offset, n)
      {
        ReadStep(b, off, n - i);
        var pinType := ReadBitValue(buffer, 0, off, PIN_TYPE_BITS_NB);
        var t := ToUInt8(pinType);
        var valSize := GetTypeBitsNb(t);
        var val := ReadBitValue(buffer, 0, off + PIN_TYPE_BITS_NB, valSize);
        ghost var before := pins[..i];
        pins := pins[i := PinFailsafe(t, ToUInt16(val))];
        assert pins[..i + 1] == before + [PinAt(b, off)];
        off := off + PIN_TYPE_BITS_NB + valSize;
      }
      ReadNone(b, off);
    }
  }

  lemma ReadNone(b: seq<bool>, off: nat)
    ensures Readable(b, off, 0) && ReadTable(b, off, 0) == [] && ReadEnd(b, off, 0) == off
  {
  }

  /** One turn of the loop of `read_failsafe`. */
  lemma ReadStep(b: seq<bool>, off: nat, n: nat)
    requires n > 0 && Readable(b, off, n)
    ensures off + PIN_TYPE_BITS_NB < |b| && TypeAt(b, off) == ToUInt8(ReadBits(b, off, PIN_TYPE_BITS_NB))
    ensures var w := GetTypeBitsNb(TypeAt(b, off));
      && off + PIN_TYPE_BITS_NB + w <= |b| && Readable(b, off + PIN_TYPE_BITS_NB + w, n - 1)
      && PinAt(b, off) == PinFailsafe(TypeAt(b, off), ToUInt16(ReadBits(b, off + PIN_TYPE_BITS_NB, w)))
      && ReadTable(b, off, n) == [PinAt(b, off)] + ReadTable(b, off + PIN_TYPE_BITS_NB + w, n - 1)
  {
    hide ReadBits;
  }

  lemma TableStep(b: seq<bool>, off: nat, pins: seq<PinFailsafe>, i: nat)
    requires i < |pins|
    ensures |EncFailsafe(pins[i..])| == Width(pins[i]) + |EncFailsafe(pins[i + 1..])|
    ensures WriteTable(b, off, pins[i..]) == WriteTable(WritePin(b, off, pins[i]), off + Width(pins[i]), pins[i + 1..])
  {
    hide WritePin, EncPin;
    assert pins[i..][1..] == pins[i + 1..] && pins[i..][0] == pins[i];
  }

  lemma TableEnd(b: seq<bool>, off: nat, pins: seq<PinFailsafe>)
    ensures WriteTable(b, off, pins[|pins|..]) == b && EncFailsafe(pins[|pins|..]) == []
  {
  }
}
