/** src/failsafe.c: tables with values too wide for their fields, and what becomes of the types in front of them. */
module TableSpills {
  import opened Words
  import opened BitStrings
  import opened BitUtils
  import opened BitFields
  import opened Protocol
  import opened Failsafes

  /** The running offset of `write_failsafe` in front of its k-th entry. */
  function EntryOffset(off: nat, pins: seq<PinFailsafe>, k: nat): nat
    requires k <= |pins|
    decreases k
  {
    if k == 0 then off else EntryOffset(off + Width(pins[0]), pins[1..], k - 1)
  }

  /** Writing the type of the k-th entry sets bit i. */
  predicate TypeSets(off: nat, pins: seq<PinFailsafe>, k: nat, i: nat)
    requires k < |pins|
  {
    var o := EntryOffset(off, pins, k);
    pins[k].pinState != PIN_TYPE_DISABLED && o <= i < o + 3 && TestBit(pins[k].pinState, o + 2 - i)
  }

  /** Writing the value of the k-th entry sets bit i, in its own field or in front of it. */
  predicate ValueSets(off: nat, pins: seq<PinFailsafe>, k: nat, i: nat)
    requires k < |pins|
  {
    var o, n := EntryOffset(off, pins, k) + 3, GetTypeBitsNb(pins[k].pinState);
    && pins[k].pinState != PIN_TYPE_DISABLED
    && 8 * (o / 8) <= i < o + n && TestBit(ToInt16(pins[k].pinValue), o + n - 1 - i)
  }

  /** No value, of this entry or of a later one, sets a zero bit of the type of the k-th entry. */
  predicate TypeSpared(off: nat, pins: seq<PinFailsafe>, k: nat)
    requires k < |pins|
  {
    var o := EntryOffset(off, pins, k);
    forall j, i: nat :: k <= j < |pins| && o <= i < o + 3 && ValueSets(off, pins, j, i) ==> TypeSets(off, pins, k, i)
  }

  /** No later value sets a zero bit of the value of the k-th entry. */
  predicate ValueSpared(off: nat, pins: seq<PinFailsafe>, k: nat)
    requires k < |pins|
  {
    var o, n := EntryOffset(off, pins, k) + 3, GetTypeBitsNb(pins[k].pinState);
    forall j, i: nat :: k < j < |pins| && o <= i < o + n && ValueSets(off, pins, j, i) ==> ValueSets(off, pins, k, i)
  }

  /** The types of the first m entries are spared. */
  predicate TypesSpared(off: nat, pins: seq<PinFailsafe>, m: nat)
    requires m <= |pins|
  {
    forall k :: 0 <= k < m ==> TypeSpared(off, pins, k)
  }

  // ---- every bit of a written table ----

  lemma {:induction false} OffsetsGrow(off: nat, pins: seq<PinFailsafe>, k: nat, j: nat)
    requires k <= j <= |pins|
    ensures EntryOffset(off, pins, k) <= EntryOffset(off, pins, j)
    ensures k < j ==> EntryOffset(off, pins, k) + Width(pins[k]) <= EntryOffset(off, pins, j)
    decreases j
  {
    if k > 0 {
      OffsetsGrow(off + Width(pins[0]), pins[1..], k - 1, j - 1);
    } else if j > 0 {
      OffsetsGrow(off + Width(pins[0]), pins[1..], 0, j - 1);
    }
  }

  lemma {:induction false} LastOffset(off: nat, pins: seq<PinFailsafe>)
    ensures EntryOffset(off, pins, |pins|) == off + |EncFailsafe(pins)|
    decreases |pins|
  {
    if pins != [] {
      hide EncPin;
      LastOffset(off + Width(pins[0]), pins[1..]);
    }
  }

  /** An entry stands inside the stream. */
  lemma EntryInside(off: nat, pins: seq<PinFailsafe>, k: nat)
    requires k < |pins|
    ensures off <= EntryOffset(off, pins, k)
    ensures EntryOffset(off, pins, k) + Width(pins[k]) <= off + |EncFailsafe(pins)|
  {
    hide EncFailsafe, Width;
    OffsetsGrow(off, pins, 0, k);
    OffsetsGrow(off, pins, k, |pins|);
    LastOffset(off, pins);
    FirstOffset(off, pins);
  }

  lemma FirstOffset(off: nat, pins: seq<PinFailsafe>)
    ensures EntryOffset(off, pins, 0) == off
  {
  }

  predicate EntrySets(off: nat, pins: seq<PinFailsafe>, k: nat, i: nat)
    requires k < |pins|
  {
    TypeSets(off, pins, k, i) || ValueSets(off, pins, k, i)
  }

  lemma EntrySetsSplits(off: nat, pins: seq<PinFailsafe>, k: nat, i: nat)
    requires 0 < k < |pins|
    ensures EntrySets(off, pins, k, i) == EntrySets(off + Width(pins[0]), pins[1..], k - 1, i)
  {
    hide Width, TestBit, ToInt16, GetTypeBitsNb;
  }

  lemma TypeIsThreeBits(t: nat, i: nat)
    requires t < 8 && i >= 3
    ensures !TestBit(t, i)
  {
    Pow2Values();
    TestBitBeyond(t, 3, i);
  }

  /** What one entry does to a bit. */
  lemma PinBit(b: seq<bool>, off: nat, pins: seq<PinFailsafe>, i: nat)
    requires pins != [] && Sendable(pins[0]) && i < |b|
    ensures WritePin(b, off, pins[0])[i] <==> b[i] || EntrySets(off, pins, 0, i)
  {
    hide TestBit, ToInt16, Width;
    FirstOffset(off, pins);
    if i < off {
      TypeIsThreeBits(pins[0].pinState, off + 2 - i);
    }
  }

  lemma {:induction false} SetByEntry(b: seq<bool>, off: nat, pins: seq<PinFailsafe>, k: nat, i: nat)
    requires AllSendable(pins) && k < |pins| && i < |b| && EntrySets(off, pins, k, i)
    ensures WriteTable(b, off, pins)[i]
    decreases |pins|
  {
    hide WritePin, Width, EntrySets;
    var c := WritePin(b, off, pins[0]);
    PinBit(b, off, pins, i);
    if k == 0 {
      TableKeepsBit(c, off + Width(pins[0]), pins[1..], i);
    } else {
      EntrySetsSplits(off, pins, k, i);
      SetByEntry(c, off + Width(pins[0]), pins[1..], k - 1, i);
    }
  }

  lemma {:induction false} TableKeepsBit(b: seq<bool>, off: nat, pins: seq<PinFailsafe>, i: nat)
    requires i < |b| && b[i]
    ensures WriteTable(b, off, pins)[i]
    decreases |pins|
  {
    if pins != [] {
      hide TestBit, ToInt16, Width;
      TableKeepsBit(WritePin(b, off, pins[0]), off + Width(pins[0]), pins[1..], i);
    }
  }

  lemma {:induction false} OnlySetByEntries(b: seq<bool>, off: nat, pins: seq<PinFailsafe>, i: nat) returns (k: nat)
    requires AllSendable(pins) && i < |b| && WriteTable(b, off, pins)[i] && !b[i]
    ensures k < |pins| && EntrySets(off, pins, k, i)
    decreases |pins|
  {
    hide WritePin, Width, EntrySets;
    PinBit(b, off, pins, i);
    if EntrySets(off, pins, 0, i) {
      k := 0;
    } else {
      k := OnlySetByEntries(WritePin(b, off, pins[0]), off + Width(pins[0]), pins[1..], i);
      k := k + 1;
      EntrySetsSplits(off, pins, k, i);
    }
  }

  /** Entries reach forward no further than their own fields. */
  lemma EntrySetsBefore(off: nat, pins: seq<PinFailsafe>, k: nat, j: nat, i: nat)
    requires j < k < |pins| && EntrySets(off, pins, j, i)
    ensures i < EntryOffset(off, pins, k)
  {
    hide TestBit, ToInt16;
    OffsetsGrow(off, pins, j, k);
  }

  /**
   A later type is written behind an entry, and a later value reaches back to a byte where a field
   starts, no further.
   */
  lemma EntrySetsBehind(off: nat, pins: seq<PinFailsafe>, k: nat, j: nat, i: nat)
    requires k < j < |pins| && EntrySets(off, pins, j, i)
    ensures TypeSets(off, pins, j, i) ==> i >= EntryOffset(off, pins, k) + Width(pins[k])
    ensures i >= 8 * ((EntryOffset(off, pins, k) + Width(pins[k])) / 8)
  {
    hide TestBit, ToInt16, Width;
    OffsetsGrow(off, pins, k, j);
  }

  /** Which bits of the k-th entry are set. */
  lemma EntryBit(b: seq<bool>, off: nat, pins: seq<PinFailsafe>, k: nat, i: nat)
    requires AllSendable(pins) && k < |pins| && i < |b| && !b[i]
    requires EntryOffset(off, pins, k) <= i < EntryOffset(off, pins, k) + Width(pins[k])
    ensures WriteTable(b, off, pins)[i]
      <==> TypeSets(off, pins, k, i) || exists j :: k <= j < |pins| && ValueSets(off, pins, j, i)
  {
    hide WriteTable, EntryOffset, Width, TypeSets, ValueSets;
    if WriteTable(b, off, pins)[i] {
      var j := OnlySetByEntries(b, off, pins, i);
      if j < k {
        EntrySetsBefore(off, pins, k, j, i);
      } else if j > k {
        EntrySetsBehind(off, pins, k, j, i);
      }
    }
    if TypeSets(off, pins, k, i) {
      SetByEntry(b, off, pins, k, i);
    }
    if j :| k <= j < |pins| && ValueSets(off, pins, j, i) {
      SetByEntry(b, off, pins, j, i);
    }
  }

  // ---- the fields of an entry ----

  /** The type of an entry is whole exactly when the values spare it. */
  lemma TypeHoldsIff(b: seq<bool>, off: nat, pins: seq<PinFailsafe>, k: nat)
    requires AllSendable(pins) && k < |pins| && pins[k].pinState != PIN_TYPE_DISABLED
    requires off + |EncFailsafe(pins)| <= |b| && Blank(b, off, |b|)
    ensures var o := EntryOffset(off, pins, k);
      && o + 3 <= |b|
      && (WriteTable(b, off, pins)[o..o + 3] == Enc(pins[k].pinState, 3) <==> TypeSpared(off, pins, k))
  {
    hide WriteTable, EncFailsafe, EntryOffset, TypeSets, ValueSets, TypeSpared, Enc;
    EntryInside(off, pins, k);
    var o, w, e := EntryOffset(off, pins, k), WriteTable(b, off, pins), Enc(pins[k].pinState, 3);
    if TypeSpared(off, pins, k) {
      forall t | 0 <= t < 3
        ensures w[o + t] == e[t]
      {
        SparedTypeBit(b, off, pins, k, t);
      }
    }
    if w[o..o + 3] == e {
      WholeTypeIsSpared(b, off, pins, k);
    }
  }

  lemma OwnTypeBit(off: nat, pins: seq<PinFailsafe>, k: nat, t: nat)
    requires k < |pins| && pins[k].pinState != PIN_TYPE_DISABLED && t < 3
    ensures Enc(pins[k].pinState, 3)[t] == TypeSets(off, pins, k, EntryOffset(off, pins, k) + t)
  {
    hide EntryOffset, TestBit;
  }

  lemma SparedTypeBit(b: seq<bool>, off: nat, pins: seq<PinFailsafe>, k: nat, t: nat)
    requires AllSendable(pins) && k < |pins| && pins[k].pinState != PIN_TYPE_DISABLED && t < 3
    requires off + |EncFailsafe(pins)| <= |b| && Blank(b, off, |b|) && TypeSpared(off, pins, k)
    ensures EntryOffset(off, pins, k) + 3 <= |b|
    ensures WriteTable(b, off, pins)[EntryOffset(off, pins, k) + t] == Enc(pins[k].pinState, 3)[t]
  {
    hide WriteTable, EncFailsafe, EntryOffset, TypeSets, ValueSets, Enc;
    EntryInside(off, pins, k);
    EntryBit(b, off, pins, k, EntryOffset(off, pins, k) + t);
    OwnTypeBit(off, pins, k, t);
  }

  lemma WholeTypeIsSpared(b: seq<bool>, off: nat, pins: seq<PinFailsafe>, k: nat)
    requires AllSendable(pins) && k < |pins| && pins[k].pinState != PIN_TYPE_DISABLED
    requires off + |EncFailsafe(pins)| <= |b| && Blank(b, off, |b|) && EntryOffset(off, pins, k) + 3 <= |b|
    requires var o := EntryOffset(off, pins, k);
      WriteTable(b, off, pins)[o..o + 3] == Enc(pins[k].pinState, 3)
    ensures TypeSpared(off, pins, k)
  {
    hide WriteTable, EncFailsafe, EntryOffset, TypeSets, ValueSets, Enc;
    EntryInside(off, pins, k);
    var o, w := EntryOffset(off, pins, k), WriteTable(b, off, pins);
    forall j, i: nat | k <= j < |pins| && o <= i < o + 3 && ValueSets(off, pins, j, i)
      ensures TypeSets(off, pins, k, i)
    {
      EntryBit(b, off, pins, k, i);
      OwnTypeBit(off, pins, k, i - o);
      SliceAt(w, o, o + 3, i);
    }
  }

  /** The value of an entry is whole exactly when the later values spare it. */
  lemma ValueHoldsIff(b: seq<bool>, off: nat, pins: seq<PinFailsafe>, k: nat)
    requires AllSendable(pins) && k < |pins| && pins[k].pinState != PIN_TYPE_DISABLED
    requires off + |EncFailsafe(pins)| <= |b| && Blank(b, off, |b|)
    ensures var o, n := EntryOffset(off, pins, k) + 3, GetTypeBitsNb(pins[k].pinState);
      && o + n <= |b|
      && (WriteTable(b, off, pins)[o..o + n] == Enc(pins[k].pinValue, n) <==> ValueSpared(off, pins, k))
  {
    hide WriteTable, EncFailsafe, EntryOffset, TypeSets, ValueSets, ValueSpared, Enc;
    EntryInside(off, pins, k);
    var o, n := EntryOffset(off, pins, k) + 3, GetTypeBitsNb(pins[k].pinState);
    var w, e := WriteTable(b, off, pins), Enc(pins[k].pinValue, n);
    if ValueSpared(off, pins, k) {
      forall t | 0 <= t < n
        ensures w[o + t] == e[t]
      {
        SparedValueBit(b, off, pins, k, t);
      }
    }
    if w[o..o + n] == e {
      WholeValueIsSpared(b, off, pins, k);
    }
  }

  lemma OwnValueBit(off: nat, pins: seq<PinFailsafe>, k: nat, t: nat)
    requires k < |pins| && Sendable(pins[k]) && pins[k].pinState != PIN_TYPE_DISABLED
    requires t < GetTypeBitsNb(pins[k].pinState)
    ensures Enc(pins[k].pinValue, GetTypeBitsNb(pins[k].pinState))[t]
         == ValueSets(off, pins, k, EntryOffset(off, pins, k) + 3 + t)
  {
    hide EntryOffset, TestBit, ToInt16;
    TestBitConversions(pins[k].pinValue, GetTypeBitsNb(pins[k].pinState) - 1 - t);
  }

  /** A bit of the value field is set by its own value or by a later one. */
  lemma ValueBit(b: seq<bool>, off: nat, pins: seq<PinFailsafe>, k: nat, t: nat)
    requires AllSendable(pins) && k < |pins| && pins[k].pinState != PIN_TYPE_DISABLED
    requires t < GetTypeBitsNb(pins[k].pinState)
    requires off + |EncFailsafe(pins)| <= |b| && Blank(b, off, |b|)
    ensures var i := EntryOffset(off, pins, k) + 3 + t;
      && i < |b|
      && (WriteTable(b, off, pins)[i] <==> exists j :: k <= j < |pins| && ValueSets(off, pins, j, i))
  {
    hide WriteTable, EncFailsafe, EntryOffset, ValueSets;
    EntryInside(off, pins, k);
    EntryBit(b, off, pins, k, EntryOffset(off, pins, k) + 3 + t);
  }

  lemma SparedValueBit(b: seq<bool>, off: nat, pins: seq<PinFailsafe>, k: nat, t: nat)
    requires AllSendable(pins) && k < |pins| && pins[k].pinState != PIN_TYPE_DISABLED
    requires t < GetTypeBitsNb(pins[k].pinState)
    requires off + |EncFailsafe(pins)| <= |b| && Blank(b, off, |b|) && ValueSpared(off, pins, k)
    ensures EntryOffset(off, pins, k) + 3 + t < |b|
    ensures WriteTable(b, off, pins)[EntryOffset(off, pins, k) + 3 + t]
         == Enc(pins[k].pinValue, GetTypeBitsNb(pins[k].pinState))[t]
  {
    hide WriteTable, EncFailsafe, EntryOffset, ValueSets, Enc;
    ValueBit(b, off, pins, k, t);
    OwnValueBit(off, pins, k, t);
  }

  lemma WholeValueIsSpared(b: seq<bool>, off: nat, pins: seq<PinFailsafe>, k: nat)
    requires AllSendable(pins) && k < |pins| && pins[k].pinState != PIN_TYPE_DISABLED
    requires off + |EncFailsafe(pins)| <= |b| && Blank(b, off, |b|)
    requires var o, n := EntryOffset(off, pins, k) + 3, GetTypeBitsNb(pins[k].pinState);
      o + n <= |b| && WriteTable(b, off, pins)[o..o + n] == Enc(pins[k].pinValue, n)
    ensures ValueSpared(off, pins, k)
  {
    hide WriteTable, EncFailsafe, EntryOffset, ValueSets, Enc;
    var o, n, w := EntryOffset(off, pins, k) + 3, GetTypeBitsNb(pins[k].pinState), WriteTable(b, off, pins);
    forall j, i: nat | k < j < |pins| && o <= i < o + n && ValueSets(off, pins, j, i)
      ensures ValueSets(off, pins, k, i)
    {
      ValueBit(b, off, pins, k, i - o);
      OwnValueBit(off, pins, k, i - o);
      SliceAt(w, o, o + n, i);
    }
  }

  lemma OutOfReach(off: nat, pins: seq<PinFailsafe>, k: nat, i: nat)
    requires k < |pins| && i < 8 * ((EntryOffset(off, pins, k) + Width(pins[k])) / 8)
    ensures forall j :: k < j < |pins| ==> !ValueSets(off, pins, j, i)
  {
    hide EntryOffset, ValueSets, Width;
    forall j | k < j < |pins|
      ensures !ValueSets(off, pins, j, i)
    {
      if ValueSets(off, pins, j, i) {
        EntrySetsBehind(off, pins, k, j, i);
      }
    }
  }

  lemma FarBitHolds(b: seq<bool>, off: nat, pins: seq<PinFailsafe>, k: nat, t: nat)
    requires AllSendable(pins) && k < |pins| && pins[k].pinState != PIN_TYPE_DISABLED
    requires t < GetTypeBitsNb(pins[k].pinState)
    requires off + |EncFailsafe(pins)| <= |b| && Blank(b, off, |b|)
    requires EntryOffset(off, pins, k) + 3 + t < 8 * ((EntryOffset(off, pins, k) + Width(pins[k])) / 8)
    ensures EntryOffset(off, pins, k) + 3 + t < |b|
    ensures WriteTable(b, off, pins)[EntryOffset(off, pins, k) + 3 + t]
         == Enc(pins[k].pinValue, GetTypeBitsNb(pins[k].pinState))[t]
  {
    hide WriteTable, EncFailsafe, EntryOffset, ValueSets, Enc, Width;
    OutOfReach(off, pins, k, EntryOffset(off, pins, k) + 3 + t);
    ValueBit(b, off, pins, k, t);
    OwnValueBit(off, pins, k, t);
  }

  /** The first two bytes of a value over three bytes are out of reach of the later entries. */
  lemma EntryFirstBytesHold(b: seq<bool>, off: nat, pins: seq<PinFailsafe>, k: nat)
    requires AllSendable(pins) && k < |pins| && pins[k].pinState != PIN_TYPE_DISABLED
    requires off + |EncFailsafe(pins)| <= |b| && Blank(b, off, |b|)
    requires 16 < (EntryOffset(off, pins, k) + 3) % 8 + GetTypeBitsNb(pins[k].pinState)
    ensures var o, n := EntryOffset(off, pins, k) + 3, GetTypeBitsNb(pins[k].pinState);
      && o + n <= |b|
      && WriteTable(b, off, pins)[o..o + 16 - o % 8] == Enc(pins[k].pinValue, n)[..16 - o % 8]
  {
    hide WriteTable, EncFailsafe, EntryOffset, TypeSets, ValueSets, Enc;
    EntryInside(off, pins, k);
    var o, n := EntryOffset(off, pins, k) + 3, GetTypeBitsNb(pins[k].pinState);
    var w, e := WriteTable(b, off, pins), Enc(pins[k].pinValue, n);
    forall t | 0 <= t < 16 - o % 8
      ensures w[o + t] == e[t]
    {
      FarBitHolds(b, off, pins, k, t);
    }
  }

  // ---- reading the table back, entry by entry ----

  /** There is an entry to be read from bit e on. */
  predicate HasEntry(b: seq<bool>, e: nat) {
    e + 3 < |b| && e + 3 + GetTypeBitsNb(TypeAt(b, e)) <= |b|
  }

  /** Reading one entry more. */
  lemma {:induction false} ReadOneMore(b: seq<bool>, off: nat, m: nat)
    ensures Readable(b, off, m + 1) <==> Readable(b, off, m) && HasEntry(b, ReadEnd(b, off, m))
    ensures Readable(b, off, m + 1) ==>
      var e := ReadEnd(b, off, m);
      && ReadEnd(b, off, m + 1) == e + 3 + GetTypeBitsNb(TypeAt(b, e))
      && ReadTable(b, off, m + 1) == ReadTable(b, off, m) + [PinAt(b, e)]
    decreases m
  {
    hide TypeAt, GetTypeBitsNb, PinAt;
    if m == 0 {
      assert Readable(b, off, 0);
    } else if off + 3 < |b| && off + 3 + GetTypeBitsNb(TypeAt(b, off)) <= |b| {
      PinAtType(b, off);
      ReadOneMore(b, off + 3 + GetTypeBitsNb(TypeAt(b, off)), m - 1);
    }
  }

  lemma TypeReadsIff(b: seq<bool>, o: nat, t: uint8)
    requires o + 3 <= |b| && t < 8
    ensures TypeAt(b, o) == t <==> b[o..o + 3] == Enc(t, 3)
  {
    hide ReadBits, Enc, Pow2, ToUInt8, ToUInt16;
    Pow2Values();
    ReadTwoBytesIff(b, o, 3, t);
    ByteOfWord(ReadBits(b, o, 3));
    SmallBytes(ToUInt16(ReadBits(b, o, 3)));
  }

  lemma SmallBytes(u: uint16)
    requires u < 8
    ensures ToUInt8(u) == u
  {
  }

  /** The types of the first m entries that are read are those of the table. */
  predicate TypesReturn(b: seq<bool>, off: nat, pins: seq<PinFailsafe>, m: nat)
    requires m <= |pins|
  {
    Readable(b, off, m) && forall k :: 0 <= k < m ==> ReadTable(b, off, m)[k].pinState == pins[k].pinState
  }

  /** One type more comes back exactly when it is the one that is read where the types so far end. */
  lemma TypesReturnStep(b: seq<bool>, off: nat, pins: seq<PinFailsafe>, m: nat)
    requires m < |pins|
    ensures TypesReturn(b, off, pins, m + 1) <==> (TypesReturn(b, off, pins, m)
      && HasEntry(b, ReadEnd(b, off, m)) && TypeAt(b, ReadEnd(b, off, m)) == pins[m].pinState)
  {
    hide Readable, ReadTable, ReadEnd, TypeAt, GetTypeBitsNb, PinAt;
    ReadOneMore(b, off, m);
    if Readable(b, off, m + 1) {
      var e, t := ReadEnd(b, off, m), ReadTable(b, off, m + 1);
      PinAtType(b, e);
      assert t[m] == PinAt(b, e) && forall k :: 0 <= k < m ==> t[k] == ReadTable(b, off, m)[k];
    }
  }

  lemma SparedStep(off: nat, pins: seq<PinFailsafe>, m: nat)
    requires m < |pins|
    ensures TypesSpared(off, pins, m + 1) <==> TypesSpared(off, pins, m) && TypeSpared(off, pins, m)
  {
    hide TypeSpared;
  }

  lemma NextOffset(off: nat, pins: seq<PinFailsafe>, k: nat)
    requires k < |pins|
    ensures EntryOffset(off, pins, k + 1) == EntryOffset(off, pins, k) + Width(pins[k])
    decreases k
  {
    hide Width;
    if k > 0 {
      NextOffset(off + Width(pins[0]), pins[1..], k - 1);
    }
  }

  /**
   Of any table that was written on blank bits, the types in front of the first disabled pin come
   back exactly when the values spare them; then the offsets of reader and writer agree.
   */
  lemma {:induction false} TypesReturnIff(b: seq<bool>, off: nat, pins: seq<PinFailsafe>, m: nat)
    requires AllSendable(pins) && off + |EncFailsafe(pins)| <= |b| && Blank(b, off, |b|)
    requires m <= |pins| && NoneDisabled(pins[..m])
    ensures TypesReturn(WriteTable(b, off, pins), off, pins, m) <==> TypesSpared(off, pins, m)
    ensures TypesSpared(off, pins, m) ==>
      && Readable(WriteTable(b, off, pins), off, m)
      && ReadEnd(WriteTable(b, off, pins), off, m) == EntryOffset(off, pins, m)
    decreases m
  {
    hide WriteTable, EncFailsafe, EntryOffset, TypesReturn, TypesSpared, TypeSpared, Readable, ReadEnd, TypeAt,
      NoneDisabled;
    var w := WriteTable(b, off, pins);
    if m == 0 {
      ReadNone(w, off);
      FirstOffset(off, pins);
      NoTypes(w, off, pins);
    } else {
      PrefixEnabled(pins, m - 1);
      TypesReturnIff(b, off, pins, m - 1);
      TypesReturnStep(w, off, pins, m - 1);
      SparedStep(off, pins, m - 1);
      if TypesSpared(off, pins, m - 1) {
        NextTypeReturnsIff(b, off, pins, m - 1);
        ReadOneMore(w, off, m - 1);
        NextOffset(off, pins, m - 1);
      }
    }
  }

  lemma NoTypes(b: seq<bool>, off: nat, pins: seq<PinFailsafe>)
    ensures TypesReturn(b, off, pins, 0) && TypesSpared(off, pins, 0)
  {
  }

  lemma PrefixEnabled(pins: seq<PinFailsafe>, m: nat)
    requires m < |pins| && NoneDisabled(pins[..m + 1])
    ensures NoneDisabled(pins[..m]) && pins[m].pinState != PIN_TYPE_DISABLED
  {
    assert pins[..m + 1][m] == pins[m];
    assert forall k :: 0 <= k < m ==> pins[..m][k] == pins[..m + 1][k];
  }

  lemma NextTypeReturnsIff(b: seq<bool>, off: nat, pins: seq<PinFailsafe>, k: nat)
    requires AllSendable(pins) && k < |pins| && pins[k].pinState != PIN_TYPE_DISABLED
    requires off + |EncFailsafe(pins)| <= |b| && Blank(b, off, |b|)
    ensures var w, o := WriteTable(b, off, pins), EntryOffset(off, pins, k);
      && o + 3 <= |w|
      && (TypeAt(w, o) == pins[k].pinState <==> TypeSpared(off, pins, k))
      && (TypeSpared(off, pins, k) ==> HasEntry(w, o))
  {
    hide WriteTable, EncFailsafe, EntryOffset, TypeSpared, TypeAt, Enc;
    EntryInside(off, pins, k);
    TypeHoldsIff(b, off, pins, k);
    TypeReadsIff(WriteTable(b, off, pins), EntryOffset(off, pins, k), pins[k].pinState);
  }

  /** A value of 0x8000 behind three bits of type, from a byte boundary on, sets all of them. */
  lemma TypeBitsAreSet(b: seq<bool>, off: nat, f: PinFailsafe)
    requires off % 8 == 0 && |b| >= off + 19 && Blank(b, off, |b|) && f == PinFailsafe(PIN_TYPE_PWM16, 0x8000)
    ensures WriteTable(b, off, [f])[off..off + 3] == Enc(PIN_TYPE_DISABLED, 3)
  {
    hide WriteTable, TestBit, ToInt16;
    var w, e := WriteTable(b, off, [f]), Enc(PIN_TYPE_DISABLED, 3);
    forall i: nat | i < 3
      ensures w[off + i] && e[i]
    {
      SignBit(0x8000, 18 - i);
      SetByEntry(b, off, [f], 0, off + i);
      OnesOfSeven(2 - i);
    }
  }

  lemma OnesOfSeven(i: nat)
    requires i < 3
    ensures TestBit(7, i)
  {
    assert TestBit(7, 0) && TestBit(7, 1) == TestBit(3, 0) && TestBit(7, 2) == TestBit(3, 1) == TestBit(1, 0);
  }

  /**
   A 16-bit value of 0x8000 behind a byte boundary sets all bits of its type: the reader finds a
   disabled pin and goes on 3 bits further, where the writer goes on 19 bits further.
   */
  lemma TypeIsLost(b: seq<bool>, off: nat)
    requires off % 8 == 0 && |b| >= off + 19 && Blank(b, off, |b|)
    ensures var f := PinFailsafe(PIN_TYPE_PWM16, 0x8000);
      && AllSendable([f]) && NoneDisabled([f]) && !TypeSpared(off, [f], 0) && EntryOffset(off, [f], 1) == off + 19
      && TypeAt(WriteTable(b, off, [f]), off) == PIN_TYPE_DISABLED
      && Readable(WriteTable(b, off, [f]), off, 1) && ReadEnd(WriteTable(b, off, [f]), off, 1) == off + 3
  {
    hide WriteTable, EntryOffset, TypeSpared, TypeAt, Enc, Readable, ReadEnd, EncFailsafe;
    var f := PinFailsafe(PIN_TYPE_PWM16, 0x8000);
    var w := WriteTable(b, off, [f]);
    TypeBitsAreSet(b, off, f);
    FirstOffset(off, [f]);
    NextOffset(off, [f], 0);
    LastOffset(off, [f]);
    TypeReadsIff(w, off, PIN_TYPE_DISABLED);
    NextTypeReturnsIff(b, off, [f], 0);
    ReadNone(w, off);
    ReadOneMore(w, off, 0);
  }

  /** So a disabled pin in front of such an entry, which the writer skips, is found by chance. */
  lemma DisabledByChance(b: seq<bool>, off: nat)
    requires off % 8 == 0 && |b| >= off + 19 && Blank(b, off, |b|)
    ensures var pins := [DISABLED_PIN, PinFailsafe(PIN_TYPE_PWM16, 0x8000)];
      && AllSendable(pins) && Readable(WriteTable(b, off, pins), off, 1)
      && ReadTable(WriteTable(b, off, pins), off, 1)[0] == pins[0]
  {
    hide WriteTable, TypeSpared, TypeAt, Enc, Readable, ReadTable, ReadEnd, ReadBits, EncFailsafe;
    var f := PinFailsafe(PIN_TYPE_PWM16, 0x8000);
    var pins := [DISABLED_PIN, f];
    assert pins[1..] == [f];
    WriteSkips(b, off, pins);
    TypeIsLost(b, off);
    var w := WriteTable(b, off, [f]);
    EntryOfTable(w, off, 1, 0);
    ReadNone(w, off);
    PinAtType(w, off);
    PinAtValue(w, off);
    BlankRead(w, off + 3, 0);
  }

  /** What makes an entry come back, once the types in front of it do. */
  predicate EntrySpared(off: nat, pins: seq<PinFailsafe>, k: nat)
    requires k < |pins|
  {
    TypeSpared(off, pins, k) && PinCarries(EntryOffset(off, pins, k), pins[k]) && ValueSpared(off, pins, k)
  }

  lemma EntryAtIff(b: seq<bool>, off: nat, pins: seq<PinFailsafe>, k: nat)
    requires AllSendable(pins) && k < |pins| && pins[k].pinState != PIN_TYPE_DISABLED
    requires off + |EncFailsafe(pins)| <= |b| && Blank(b, off, |b|)
    requires HasEntry(WriteTable(b, off, pins), EntryOffset(off, pins, k))
    ensures PinAt(WriteTable(b, off, pins), EntryOffset(off, pins, k)) == pins[k] <==> EntrySpared(off, pins, k)
  {
    hide WriteTable, EncFailsafe, EntryOffset, TypeSpared, ValueSpared, TypeAt, Enc, PinAt, ReadBits, Carries;
    var w, o, n := WriteTable(b, off, pins), EntryOffset(off, pins, k), GetTypeBitsNb(pins[k].pinState);
    NextTypeReturnsIff(b, off, pins, k);
    PinAtType(w, o);
    PinAtValue(w, o);
    if TypeSpared(off, pins, k) {
      ValueHoldsIff(b, off, pins, k);
      if 16 < (o + 3) % 8 + n {
        EntryFirstBytesHold(b, off, pins, k);
      }
      ReadBackIff(w, o + 3, pins[k].pinValue, n);
    }
  }

  lemma {:induction false} LongerTable(b: seq<bool>, off: nat, n: nat, k: nat)
    requires Readable(b, off, n) && k < n
    ensures Readable(b, off, k + 1) && ReadTable(b, off, n)[k] == ReadTable(b, off, k + 1)[k]
    decreases n
  {
    hide TypeAt, GetTypeBitsNb, PinAt;
    if k < n - 1 {
      ReadOneMore(b, off, n - 1);
      LongerTable(b, off, n - 1, k);
    }
  }

  lemma EntryOfTable(b: seq<bool>, off: nat, n: nat, k: nat)
    requires Readable(b, off, n) && k < n
    ensures Readable(b, off, k) && HasEntry(b, ReadEnd(b, off, k))
    ensures ReadTable(b, off, n)[k] == PinAt(b, ReadEnd(b, off, k))
  {
    hide Readable, ReadTable, ReadEnd, TypeAt, GetTypeBitsNb, PinAt;
    LongerTable(b, off, n, k);
    ReadOneMore(b, off, k);
  }

  /**
   Of any table that was written on blank bits and is read as a whole: an entry comes back exactly
   when the values spare its type, its place carries its value and the later values spare that, as
   long as no pin so far is disabled and the types in front of it come back.
   */
  lemma EntryReturnsIff(b: seq<bool>, off: nat, pins: seq<PinFailsafe>, k: nat)
    requires AllSendable(pins) && off + |EncFailsafe(pins)| <= |b| && Blank(b, off, |b|)
    requires k < |pins| && NoneDisabled(pins[..k + 1]) && TypesSpared(off, pins, k)
    requires Readable(WriteTable(b, off, pins), off, |pins|)
    ensures ReadTable(WriteTable(b, off, pins), off, |pins|)[k] == pins[k] <==> EntrySpared(off, pins, k)
  {
    hide WriteTable, EncFailsafe, EntryOffset, TypesReturn, TypesSpared, EntrySpared, Readable, ReadEnd, ReadTable,
      TypeAt, NoneDisabled, HasEntry, PinAt;
    PrefixEnabled(pins, k);
    TypesReturnIff(b, off, pins, k);
    EntryOfTable(WriteTable(b, off, pins), off, |pins|, k);
    EntryAtIff(b, off, pins, k);
  }

  /** The types so far come back, and no pin so far is disabled: the reader is where the entry stands. */
  predicate Reached(off: nat, pins: seq<PinFailsafe>, k: nat)
    requires k < |pins|
  {
    NoneDisabled(pins[..k + 1]) && TypesSpared(off, pins, k)
  }

  /** What was read holds an entry that the reader reaches exactly when the values spare it. */
  predicate EntriesReturn(got: seq<PinFailsafe>, off: nat, pins: seq<PinFailsafe>)
    requires |got| == |pins|
  {
    forall k :: 0 <= k < |pins| && Reached(off, pins, k) ==> (got[k] == pins[k] <==> EntrySpared(off, pins, k))
  }

  lemma TableEntriesReturn(b: seq<bool>, off: nat, pins: seq<PinFailsafe>)
    requires AllSendable(pins) && off + |EncFailsafe(pins)| <= |b| && Blank(b, off, |b|)
    requires Readable(WriteTable(b, off, pins), off, |pins|)
    ensures EntriesReturn(ReadTable(WriteTable(b, off, pins), off, |pins|), off, pins)
  {
    hide WriteTable, EncFailsafe, TypesSpared, EntrySpared, Readable, ReadTable, NoneDisabled;
    forall k | 0 <= k < |pins| && Reached(off, pins, k)
      ensures ReadTable(WriteTable(b, off, pins), off, |pins|)[k] == pins[k] <==> EntrySpared(off, pins, k)
    {
      EntryReturnsIff(b, off, pins, k);
    }
  }

  /** Where the whole table comes back, every entry is reached and spared. */
  lemma CarriedIsSpared(off: nat, pins: seq<PinFailsafe>, k: nat)
    requires AllSendable(pins) && NoneDisabled(pins) && TableCarries(off, pins) && k < |pins|
    ensures Reached(off, pins, k) && EntrySpared(off, pins, k)
  {
    hide WriteTable, EncFailsafe, TableCarries, TypesSpared, TypeSpared, EntrySpared, Readable, ReadTable, ReadEnd,
      AllSendable;
    var b := Zeros(off + |EncFailsafe(pins)|);
    assert pins[..|pins|] == pins;
    StreamRoundTrip(b, off, pins);
    TypesReturnIff(b, off, pins, |pins|);
    SparedBelow(off, pins, k);
    EntryReturnsIff(b, off, pins, k);
  }

  lemma SparedBelow(off: nat, pins: seq<PinFailsafe>, k: nat)
    requires k <= |pins| && TypesSpared(off, pins, |pins|)
    ensures TypesSpared(off, pins, k)
  {
    hide TypeSpared;
  }
}
