/** Runs of driver calls: a transition system over the mirror of the driver and the device. */
module Runs {
  import opened Words
  import opened Spills
  import opened Masks
  import opened Protocol
  import opened DeviceState
  import opened Failsafes
  import opened Connections
  import opened FirmwareSteps
  import opened Firmwares
  import opened DriverCalls
  import opened Exchanges
  import opened Outcomes

  /** The pins whose value, type or failsafe entry is the same on both sides. */
  datatype Knowledge = Knowledge(values: set<nat>, types: set<nat>, failsafes: set<nat>)

  predicate ValuesAgree(m: Conn, d: Conn, pins: set<nat>) {
    forall p :: p in pins ==> SameValue(m, d, p)
  }

  predicate TypesAgree(m: Conn, d: Conn, pins: set<nat>) {
    forall p :: p in pins ==> SameType(m, d, p)
  }

  predicate FailsafesAgree(m: Conn, d: Conn, pins: set<nat>) {
    forall p :: p in pins ==> SameFailsafe(m, d, p)
  }

  predicate Agrees(sys: System, k: Knowledge) {
    var m, d := sys.mirror, sys.device.conn;
    && ValuesAgree(m, d, k.values) && TypesAgree(m, d, k.types) && FailsafesAgree(m, d, k.failsafes)
    && m.timeout == d.timeout
  }

  function SettledValues(call: Call, sys: System): set<nat>
    requires Ready(sys) && Safe(call, sys.device.conn)
  {
    set p | p in ValuesTouched(call) && p < |sys.mirror.vals|
      && ValueSettles(call, sys.device.conn, sys.mirror.vals[p], p)
  }

  function SettledTypes(call: Call, sys: System): set<nat>
    requires Ready(sys) && Safe(call, sys.device.conn)
  {
    set p | p in TypesTouched(call) && p < |sys.mirror.types|
      && TypeSettles(call, sys.device.conn, sys.mirror.types[p], p)
  }

  function SettledFailsafes(call: Call, sys: System): set<nat>
    requires Ready(sys) && Safe(call, sys.device.conn)
  {
    set p | p in FailsafesTouched(call) && p < |sys.mirror.failsafe|
      && FailsafeSettles(call, sys.device.conn, sys.mirror.failsafe[p], p)
  }

  /** What is known after a call: what was known and is left alone, and what the call settles. */
  function Learn(call: Call, sys: System, k: Knowledge): Knowledge
    requires Ready(sys) && Safe(call, sys.device.conn)
  {
    Knowledge(k.values - ValuesTouched(call) + SettledValues(call, sys),
              k.types - TypesTouched(call) + SettledTypes(call, sys),
              k.failsafes - FailsafesTouched(call) + SettledFailsafes(call, sys))
  }

  lemma TouchesInside(call: Call, s: Conn, p: nat)
    requires s.Ok() && Safe(call, s)
    requires p in ValuesTouched(call) || p in TypesTouched(call) || p in FailsafesTouched(call)
    ensures p < s.NbPins()
  {
    hide FoundFits, MaskFound, Readable, TableAnswer, NbBits, Gather, Rank, Sent, RoomForLast, GetTypeBitsNb;
  }

  lemma ValuesStayKnown(call: Call, sys: System, pins: set<nat>)
    requires Ready(sys) && Safe(call, sys.device.conn) && ValuesAgree(sys.mirror, sys.device.conn, pins)
    ensures ValuesAgree(Exec(call, sys).mirror, Exec(call, sys).device.conn,
      pins - ValuesTouched(call) + SettledValues(call, sys))
  {
    var m, d := Exec(call, sys).mirror, Exec(call, sys).device.conn;
    var pins' := pins - ValuesTouched(call) + SettledValues(call, sys);
    forall p | p in pins'
      ensures SameValue(m, d, p)
    {
      ValueStaysKnown(call, sys, p);
    }
  }

  lemma ValueStaysKnown(call: Call, sys: System, p: nat)
    requires Ready(sys) && Safe(call, sys.device.conn)
    requires p in SettledValues(call, sys) || (p !in ValuesTouched(call) && SameValue(sys.mirror, sys.device.conn, p))
    ensures SameValue(Exec(call, sys).mirror, Exec(call, sys).device.conn, p)
  {
    assert sys.device.conn.Ok();
    hide Exec, Ready, Safe, ValuesTouched, ValueSettles;
    if p in ValuesTouched(call) {
      TouchesInside(call, sys.device.conn, p);
    }
    ValuesAfter(call, sys, p);
  }

  lemma TypesStayKnown(call: Call, sys: System, pins: set<nat>)
    requires Ready(sys) && Safe(call, sys.device.conn) && TypesAgree(sys.mirror, sys.device.conn, pins)
    ensures TypesAgree(Exec(call, sys).mirror, Exec(call, sys).device.conn,
      pins - TypesTouched(call) + SettledTypes(call, sys))
  {
    var m, d := Exec(call, sys).mirror, Exec(call, sys).device.conn;
    var pins' := pins - TypesTouched(call) + SettledTypes(call, sys);
    forall p | p in pins'
      ensures SameType(m, d, p)
    {
      TypeStaysKnown(call, sys, p);
    }
  }

  lemma TypeStaysKnown(call: Call, sys: System, p: nat)
    requires Ready(sys) && Safe(call, sys.device.conn)
    requires p in SettledTypes(call, sys) || (p !in TypesTouched(call) && SameType(sys.mirror, sys.device.conn, p))
    ensures SameType(Exec(call, sys).mirror, Exec(call, sys).device.conn, p)
  {
    assert sys.device.conn.Ok();
    hide Exec, Ready, Safe, TypesTouched, TypeSettles;
    if p in TypesTouched(call) {
      TouchesInside(call, sys.device.conn, p);
    }
    TypesAfter(call, sys, p);
  }

  lemma FailsafesStayKnown(call: Call, sys: System, pins: set<nat>)
    requires Ready(sys) && Safe(call, sys.device.conn) && FailsafesAgree(sys.mirror, sys.device.conn, pins)
    ensures FailsafesAgree(Exec(call, sys).mirror, Exec(call, sys).device.conn,
      pins - FailsafesTouched(call) + SettledFailsafes(call, sys))
  {
    var m, d := Exec(call, sys).mirror, Exec(call, sys).device.conn;
    var pins' := pins - FailsafesTouched(call) + SettledFailsafes(call, sys);
    forall p | p in pins'
      ensures SameFailsafe(m, d, p)
    {
      FailsafeStaysKnown(call, sys, p);
    }
  }

  lemma FailsafeStaysKnown(call: Call, sys: System, p: nat)
    requires Ready(sys) && Safe(call, sys.device.conn)
    requires p in SettledFailsafes(call, sys)
      || (p !in FailsafesTouched(call) && SameFailsafe(sys.mirror, sys.device.conn, p))
    ensures SameFailsafe(Exec(call, sys).mirror, Exec(call, sys).device.conn, p)
  {
    assert sys.device.conn.Ok();
    hide Exec, Ready, Safe, FailsafesTouched, FailsafeSettles;
    if p in FailsafesTouched(call) {
      TouchesInside(call, sys.device.conn, p);
    }
    FailsafesAfter(call, sys, p);
  }

  /** What is known is true after every safe call. */
  lemma StepAgrees(call: Call, sys: System, k: Knowledge)
    requires Ready(sys) && Safe(call, sys.device.conn) && Agrees(sys, k)
    ensures Agrees(Exec(call, sys), Learn(call, sys, k))
  {
    hide Exec, Ready, Safe, ValuesTouched, TypesTouched, FailsafesTouched, SettledValues, SettledTypes,
      SettledFailsafes;
    hide ValuesAgree, TypesAgree, FailsafesAgree;
    ValuesStayKnown(call, sys, k.values);
    TypesStayKnown(call, sys, k.types);
    FailsafesStayKnown(call, sys, k.failsafes);
    TimeoutsAfter(call, sys);
  }

  // ---- nothing else is known: on the pins that a call touches, the peers agree exactly where it settles them ----

  lemma ValuesExact(call: Call, sys: System, p: nat)
    requires Ready(sys) && Safe(call, sys.device.conn) && p in ValuesTouched(call)
    ensures SameValue(Exec(call, sys).mirror, Exec(call, sys).device.conn, p) <==> p in SettledValues(call, sys)
  {
    assert sys.device.conn.Ok();
    hide Exec, Ready, Safe, ValuesTouched, ValueSettles;
    TouchesInside(call, sys.device.conn, p);
    ValuesAfter(call, sys, p);
  }

  lemma TypesExact(call: Call, sys: System, p: nat)
    requires Ready(sys) && Safe(call, sys.device.conn) && p in TypesTouched(call)
    ensures SameType(Exec(call, sys).mirror, Exec(call, sys).device.conn, p) <==> p in SettledTypes(call, sys)
  {
    assert sys.device.conn.Ok() && sys.mirror.NbPins() == sys.device.conn.NbPins();
    hide Exec, Ready, Safe, TypesTouched, TypeSettles;
    TouchesInside(call, sys.device.conn, p);
    TypesAfter(call, sys, p);
  }

  /** A masked failsafe read may find an entry by chance behind a disabled pin or a damaged type. */
  lemma FailsafesExact(call: Call, sys: System, p: nat)
    requires Ready(sys) && Safe(call, sys.device.conn) && p in FailsafesTouched(call)
    requires call.GetFailsafeMask? ==> EntryReached(sys.device.conn, call.mask, p)
    ensures SameFailsafe(Exec(call, sys).mirror, Exec(call, sys).device.conn, p) <==> p in SettledFailsafes(call, sys)
  {
    assert sys.device.conn.Ok() && FailsafeKnown(call, sys.device.conn, p);
    hide Exec, Ready, Safe, FailsafesTouched, FailsafeSettles, FailsafeKnown;
    TouchesInside(call, sys.device.conn, p);
    FailsafesAfter(call, sys, p);
  }

  /** Everything that the peers agree on. */
  function Agreed(sys: System): Knowledge {
    var m, d := sys.mirror, sys.device.conn;
    Knowledge(set p | 0 <= p < |m.vals| && SameValue(m, d, p),
              set p | 0 <= p < |m.types| && SameType(m, d, p),
              set p | 0 <= p < |m.failsafe| && SameFailsafe(m, d, p))
  }

  /** No entry that the call reads is left to chance. */
  predicate Certain(call: Call, sys: System)
    requires Ready(sys) && Safe(call, sys.device.conn)
  {
    forall p :: p in FailsafesTouched(call) ==> FailsafeKnown(call, sys.device.conn, p)
  }

  /** Only a masked failsafe read leaves entries to chance: those that its reader does not reach. */
  lemma CertainIff(call: Call, sys: System)
    requires Ready(sys) && Safe(call, sys.device.conn)
    ensures Certain(call, sys) <==> (call.GetFailsafeMask? ==>
      forall p: nat :: p < |call.mask| && call.mask[p] ==> EntryReached(sys.device.conn, call.mask, p))
  {
    hide EntryReached, AllStorable, Readable, TableAnswer, NbBits, Gather, Rank, MaskFound, FoundFits;
    if call.GetFailsafeMask? {
      forall p: nat
        ensures p in FailsafesTouched(call) <==> p < |call.mask| && call.mask[p]
      {
        InUsed(call.mask, p);
      }
    }
  }

  lemma SameIsAgreed(sys: System, p: nat)
    ensures p in Agreed(sys).values <==> SameValue(sys.mirror, sys.device.conn, p)
    ensures p in Agreed(sys).types <==> SameType(sys.mirror, sys.device.conn, p)
    ensures p in Agreed(sys).failsafes <==> SameFailsafe(sys.mirror, sys.device.conn, p)
  {
  }

  /** Entries of pins that do not exist agree on nothing. */
  lemma SameIsInside(sys: System, p: nat)
    requires Ready(sys)
    requires SameValue(sys.mirror, sys.device.conn, p) || SameType(sys.mirror, sys.device.conn, p)
      || SameFailsafe(sys.mirror, sys.device.conn, p)
    ensures p < sys.device.conn.NbPins()
  {
    hide AllStorable;
  }

  lemma ValueKnownIff(call: Call, sys: System, p: nat)
    requires Ready(sys) && Safe(call, sys.device.conn)
    ensures SameValue(Exec(call, sys).mirror, Exec(call, sys).device.conn, p) <==>
      p in SettledValues(call, sys) || (p !in ValuesTouched(call) && SameValue(sys.mirror, sys.device.conn, p))
  {
    hide Exec, Ready, Safe, ValuesTouched, ValueSettles, SettledValues, SameValue;
    StaysReady(call, sys);
    if p in SettledValues(call, sys) || (p !in ValuesTouched(call) && SameValue(sys.mirror, sys.device.conn, p)) {
      ValueStaysKnown(call, sys, p);
    } else if SameValue(Exec(call, sys).mirror, Exec(call, sys).device.conn, p) {
      SameIsInside(Exec(call, sys), p);
      if p in ValuesTouched(call) {
        ValuesExact(call, sys, p);
      } else {
        KeptValueIsSame(call, sys, p);
      }
    }
  }

  lemma KeptValueIsSame(call: Call, sys: System, p: nat)
    requires Ready(sys) && Safe(call, sys.device.conn) && p < sys.device.conn.NbPins() && p !in ValuesTouched(call)
    requires SameValue(Exec(call, sys).mirror, Exec(call, sys).device.conn, p)
    ensures SameValue(sys.mirror, sys.device.conn, p)
  {
    hide Exec, Ready, Safe, ValuesTouched, ValueSettles;
    ValuesAfter(call, sys, p);
  }

  lemma TypeKnownIff(call: Call, sys: System, p: nat)
    requires Ready(sys) && Safe(call, sys.device.conn)
    ensures SameType(Exec(call, sys).mirror, Exec(call, sys).device.conn, p) <==>
      p in SettledTypes(call, sys) || (p !in TypesTouched(call) && SameType(sys.mirror, sys.device.conn, p))
  {
    hide Exec, Ready, Safe, TypesTouched, TypeSettles, SettledTypes, SameType;
    StaysReady(call, sys);
    if p in SettledTypes(call, sys) || (p !in TypesTouched(call) && SameType(sys.mirror, sys.device.conn, p)) {
      TypeStaysKnown(call, sys, p);
    } else if SameType(Exec(call, sys).mirror, Exec(call, sys).device.conn, p) {
      SameIsInside(Exec(call, sys), p);
      if p in TypesTouched(call) {
        TypesExact(call, sys, p);
      } else {
        KeptTypeIsSame(call, sys, p);
      }
    }
  }

  lemma KeptTypeIsSame(call: Call, sys: System, p: nat)
    requires Ready(sys) && Safe(call, sys.device.conn) && p < sys.device.conn.NbPins() && p !in TypesTouched(call)
    requires SameType(Exec(call, sys).mirror, Exec(call, sys).device.conn, p)
    ensures SameType(sys.mirror, sys.device.conn, p)
  {
    assert sys.mirror.NbPins() == sys.device.conn.NbPins() && sys.mirror.Ok();
    hide Exec, Ready, Safe, TypesTouched, TypeSettles;
    TypesAfter(call, sys, p);
  }

  lemma CertainEntry(call: Call, sys: System, p: nat)
    requires Ready(sys) && Safe(call, sys.device.conn) && Certain(call, sys) && p in FailsafesTouched(call)
    ensures call.GetFailsafeMask? ==> EntryReached(sys.device.conn, call.mask, p)
  {
    hide Ready, Safe, FailsafesTouched, EntryReached;
  }

  lemma FailsafeKnownIff(call: Call, sys: System, p: nat)
    requires Ready(sys) && Safe(call, sys.device.conn) && Certain(call, sys)
    ensures SameFailsafe(Exec(call, sys).mirror, Exec(call, sys).device.conn, p) <==>
      p in SettledFailsafes(call, sys) || (p !in FailsafesTouched(call) && SameFailsafe(sys.mirror, sys.device.conn, p))
  {
    hide Exec, Ready, Safe, FailsafesTouched, FailsafeSettles, SettledFailsafes, SameFailsafe, FailsafeKnown;
    StaysReady(call, sys);
    if p in SettledFailsafes(call, sys)
      || (p !in FailsafesTouched(call) && SameFailsafe(sys.mirror, sys.device.conn, p)) {
      FailsafeStaysKnown(call, sys, p);
    } else if SameFailsafe(Exec(call, sys).mirror, Exec(call, sys).device.conn, p) {
      SameIsInside(Exec(call, sys), p);
      if p in FailsafesTouched(call) {
        CertainEntry(call, sys, p);
        FailsafesExact(call, sys, p);
      } else {
        KeptFailsafeIsSame(call, sys, p);
      }
    }
  }

  lemma KeptFailsafeIsSame(call: Call, sys: System, p: nat)
    requires Ready(sys) && Safe(call, sys.device.conn) && p < sys.device.conn.NbPins() && p !in FailsafesTouched(call)
    requires SameFailsafe(Exec(call, sys).mirror, Exec(call, sys).device.conn, p)
    ensures SameFailsafe(sys.mirror, sys.device.conn, p)
  {
    hide Exec, Ready, Safe, FailsafesTouched, FailsafeSettles;
    FailsafesAfter(call, sys, p);
  }

  /** A call that leaves nothing to chance takes all that the peers agree on to all that they agree on. */
  lemma StepExact(call: Call, sys: System)
    requires Ready(sys) && Safe(call, sys.device.conn) && Certain(call, sys)
    ensures Learn(call, sys, Agreed(sys)) == Agreed(Exec(call, sys))
  {
    hide Exec, Ready, Safe, ValuesTouched, TypesTouched, FailsafesTouched, SettledValues, SettledTypes,
      SettledFailsafes;
    hide Agreed, Certain, SameValue, SameType, SameFailsafe;
    var k, k' := Learn(call, sys, Agreed(sys)), Agreed(Exec(call, sys));
    forall p: nat
      ensures p in k.values <==> p in k'.values
      ensures p in k.types <==> p in k'.types
      ensures p in k.failsafes <==> p in k'.failsafes
    {
      SameIsAgreed(sys, p);
      SameIsAgreed(Exec(call, sys), p);
      ValueKnownIff(call, sys, p);
      TypeKnownIff(call, sys, p);
      FailsafeKnownIff(call, sys, p);
    }
    assert k.values == k'.values && k.types == k'.types && k.failsafes == k'.failsafes;
  }

  // ---- runs ----

  /** Each call of the run is safe where it is made. */
  predicate SafeRun(calls: seq<Call>, sys: System)
    requires Ready(sys)
    decreases |calls|
  {
    calls == [] ||
    (Safe(calls[0], sys.device.conn) && (StaysReady(calls[0], sys); SafeRun(calls[1..], Exec(calls[0], sys))))
  }

  function Run(calls: seq<Call>, sys: System): (sys': System)
    requires Ready(sys) && SafeRun(calls, sys)
    ensures Ready(sys') && sys'.device.conn.NbPins() == sys.device.conn.NbPins()
    decreases |calls|
  {
    if calls == [] then sys
    else
      StaysReady(calls[0], sys);
      Run(calls[1..], Exec(calls[0], sys))
  }

  lemma RunSplits(calls: seq<Call>, sys: System)
    requires calls != [] && Ready(sys) && SafeRun(calls, sys)
    ensures Safe(calls[0], sys.device.conn)
    ensures var next := Exec(calls[0], sys);
      && Ready(next) && next.device.nextId == NextId(sys.device.nextId)
      && SafeRun(calls[1..], next) && Run(calls, sys) == Run(calls[1..], next)
  {
    hide Ready, Safe, Exec, NextId;
    StaysReady(calls[0], sys);
  }

  function LearnRun(calls: seq<Call>, sys: System, k: Knowledge): Knowledge
    requires Ready(sys) && SafeRun(calls, sys)
    decreases |calls|
  {
    if calls == [] then k
    else
      StaysReady(calls[0], sys);
      LearnRun(calls[1..], Exec(calls[0], sys), Learn(calls[0], sys, k))
  }

  /** Over every run of safe calls, what is known is true. */
  lemma {:induction false} RunAgrees(calls: seq<Call>, sys: System, k: Knowledge)
    requires Ready(sys) && SafeRun(calls, sys) && Agrees(sys, k)
    ensures Agrees(Run(calls, sys), LearnRun(calls, sys, k))
    decreases |calls|
  {
    if calls != [] {
      hide Ready, Safe, Exec, Agrees, Learn;
      StaysReady(calls[0], sys);
      StepAgrees(calls[0], sys, k);
      RunAgrees(calls[1..], Exec(calls[0], sys), Learn(calls[0], sys, k));
    }
  }

  predicate CertainRun(calls: seq<Call>, sys: System)
    requires Ready(sys) && SafeRun(calls, sys)
    decreases |calls|
  {
    calls == [] ||
    (Certain(calls[0], sys) && (StaysReady(calls[0], sys); CertainRun(calls[1..], Exec(calls[0], sys))))
  }

  /**
   Nothing else is known: over every run that leaves nothing to chance, what is known is all that the
   peers agree on.
   */
  lemma {:induction false} RunExact(calls: seq<Call>, sys: System)
    requires Ready(sys) && SafeRun(calls, sys) && CertainRun(calls, sys)
    ensures LearnRun(calls, sys, Agreed(sys)) == Agreed(Run(calls, sys))
    decreases |calls|
  {
    hide Ready, Safe, Exec, Agreed, Learn, Certain;
    if calls != [] {
      StaysReady(calls[0], sys);
      StepExact(calls[0], sys);
      RunExact(calls[1..], Exec(calls[0], sys));
    }
  }

  /** Only masked failsafe reads leave anything to chance. */
  lemma {:induction false} CertainWithoutReads(calls: seq<Call>, sys: System)
    requires Ready(sys) && SafeRun(calls, sys) && forall k :: 0 <= k < |calls| ==> !calls[k].GetFailsafeMask?
    ensures CertainRun(calls, sys)
    decreases |calls|
  {
    hide Ready, Safe, Exec, FailsafesTouched;
    if calls != [] {
      StaysReady(calls[0], sys);
      CertainWithoutReads(calls[1..], Exec(calls[0], sys));
    }
  }

  lemma IdAfter(n: nat)
    ensures NextId(IdAt(n)) == IdAt(n + 1)
  {
  }

  /** Every served call takes the next reply identifier. */
  lemma {:induction false} RunIds(calls: seq<Call>, sys: System, n: nat)
    requires Ready(sys) && SafeRun(calls, sys) && sys.device.nextId == IdAt(n)
    ensures Run(calls, sys).device.nextId == IdAt(n + |calls|)
    decreases |calls|
  {
    hide Ready, Safe, Exec, IdAt, NextId;
    if calls == [] {
      assert Run(calls, sys) == sys;
    } else {
      hide *;
      RunSplits(calls, sys);
      IdAfter(n);
      RunIds(calls[1..], Exec(calls[0], sys), n + 1);
    }
  }

  // ---- the domain ----

  /** The call settles everything that it touches. */
  predicate InDomain(call: Call, sys: System)
    requires Ready(sys) && Safe(call, sys.device.conn)
  {
    && ValuesTouched(call) <= SettledValues(call, sys)
    && TypesTouched(call) <= SettledTypes(call, sys)
    && FailsafesTouched(call) <= SettledFailsafes(call, sys)
  }

  predicate DomainRun(calls: seq<Call>, sys: System)
    requires Ready(sys) && SafeRun(calls, sys)
    decreases |calls|
  {
    calls == [] ||
    (InDomain(calls[0], sys) && (StaysReady(calls[0], sys); DomainRun(calls[1..], Exec(calls[0], sys))))
  }

  /** Everything that the calls of a run have touched. */
  function Touched(calls: seq<Call>): Knowledge {
    if calls == [] then Knowledge({}, {}, {})
    else
      var k := Touched(calls[1..]);
      Knowledge(ValuesTouched(calls[0]) + k.values, TypesTouched(calls[0]) + k.types,
                FailsafesTouched(calls[0]) + k.failsafes)
  }

  predicate Within(k: Knowledge, k': Knowledge) {
    k.values <= k'.values && k.types <= k'.types && k.failsafes <= k'.failsafes
  }

  function Union(k: Knowledge, k': Knowledge): Knowledge {
    Knowledge(k.values + k'.values, k.types + k'.types, k.failsafes + k'.failsafes)
  }

  lemma WithinTransitive(k: Knowledge, k': Knowledge, k'': Knowledge)
    requires Within(k, k') && Within(k', k'')
    ensures Within(k, k'')
  {
  }

  /** In the domain nothing is ever forgotten. */
  lemma {:induction false} DomainRunLearns(calls: seq<Call>, sys: System, k: Knowledge)
    requires Ready(sys) && SafeRun(calls, sys) && DomainRun(calls, sys)
    ensures Within(Union(k, Touched(calls)), LearnRun(calls, sys, k))
    decreases |calls|
  {
    hide Ready, Safe, Exec, InDomain, Learn;
    if calls != [] {
      StaysReady(calls[0], sys);
      var rest, next, k' := calls[1..], Exec(calls[0], sys), Learn(calls[0], sys, k);
      assert SafeRun(rest, next) && DomainRun(rest, next) && InDomain(calls[0], sys);
      assert LearnRun(calls, sys, k) == LearnRun(rest, next, k');
      hide *;
      DomainRunLearns(rest, next, k');
      DomainStepLearns(calls, sys, k);
      WithinTransitive(Union(k, Touched(calls)), Union(k', Touched(rest)), LearnRun(calls, sys, k));
    }
  }

  lemma DomainStepLearns(calls: seq<Call>, sys: System, k: Knowledge)
    requires calls != [] && Ready(sys) && Safe(calls[0], sys.device.conn) && InDomain(calls[0], sys)
    ensures Within(Union(k, Touched(calls)), Union(Learn(calls[0], sys, k), Touched(calls[1..])))
  {
    hide Ready, Safe, ValuesTouched, TypesTouched, FailsafesTouched, SettledValues, SettledTypes, SettledFailsafes;
  }

  /** Runs compose: any run of the domain can be continued by any other that starts where it ends. */
  lemma {:induction false} RunsCompose(a: seq<Call>, b: seq<Call>, sys: System)
    requires Ready(sys) && SafeRun(a, sys)
    ensures SafeRun(a + b, sys) <==> SafeRun(b, Run(a, sys))
    ensures SafeRun(a + b, sys) ==> Run(a + b, sys) == Run(b, Run(a, sys))
    ensures SafeRun(a + b, sys) ==> (DomainRun(a + b, sys) <==> DomainRun(a, sys) && DomainRun(b, Run(a, sys)))
    decreases |a|
  {
    hide Ready, Safe, Exec, InDomain;
    if a == [] {
      assert a + b == b;
    } else {
      StaysReady(a[0], sys);
      RunsCompose(a[1..], b, Exec(a[0], sys));
      assert (a + b)[0] == a[0] && (a + b)[1..] == a[1..] + b;
    }
  }

  /** A single call is a run of the domain exactly when it is safe and settles what it touches. */
  lemma RunOfOne(call: Call, sys: System)
    requires Ready(sys)
    ensures SafeRun([call], sys) <==> Safe(call, sys.device.conn)
    ensures SafeRun([call], sys) ==>
      Run([call], sys) == Exec(call, sys) && (DomainRun([call], sys) <==> InDomain(call, sys))
  {
    hide Ready, Safe, Exec, InDomain;
    if Safe(call, sys.device.conn) {
      StaysReady(call, sys);
      assert [call][1..] == [];
    }
  }

  /**
   The state after `get_caps` on a new device of nbPins pins: the driver has allocated its tables
   without initialising the values.
   */
  function AfterCaps(nbPins: uint8, version: uint8, uninitialised: seq<uint16>): (sys: System)
    requires |uninitialised| == nbPins
    ensures Ready(sys) && sys.device.conn.NbPins() == nbPins
  {
    System(Conn(FreshConn(nbPins).caps, seq(nbPins, _ => PIN_TYPE_DISABLED), uninitialised, 0,
                seq(nbPins, _ => DISABLED_PIN)),
           Device(FreshConn(nbPins), 1, version))
  }

  /**
   In numbers: on the device, every type is possible, every pin is digital and 0; in the mirror, every
   pin is disabled; no failsafe is set on either side.
   */
  lemma StartInNumbers(nbPins: uint8, version: uint8, uninitialised: seq<uint16>, p: nat)
    requires |uninitialised| == nbPins && p < nbPins
    ensures var sys := AfterCaps(nbPins, version, uninitialised);
      var m, d, s := sys.mirror, sys.device, sys.device.conn;
      && |m.caps| == |m.types| == |m.vals| == |m.failsafe| == nbPins
      && |s.caps| == |s.types| == |s.vals| == |s.failsafe| == nbPins
      && m.caps[p] == 0x1F && m.types[p] == 7 && m.vals[p] == uninitialised[p] && m.failsafe[p] == PinFailsafe(7, 0)
      && s.caps[p] == 0x1F && s.types[p] == 0 && s.vals[p] == 0 && s.failsafe[p] == PinFailsafe(7, 0)
      && m.timeout == 0 && s.timeout == 0 && d.nextId == 1 && d.version == version
  {
  }

  /** Nothing but the timeout and the disabled failsafe entries is known to start with. */
  lemma StartAgrees(nbPins: uint8, version: uint8, uninitialised: seq<uint16>)
    requires |uninitialised| == nbPins
    ensures Agrees(AfterCaps(nbPins, version, uninitialised), Knowledge({}, {}, AllPins(nbPins)))
    ensures AfterCaps(nbPins, version, uninitialised).device.nextId == IdAt(1)
  {
  }

  /** The mask of all pins, as a set. */
  function AllPins(nbPins: nat): set<nat> {
    Used(seq(nbPins, _ => true))
  }

  lemma WholeTableAgrees(m: Conn, d: Conn, nbPins: nat, pins: set<nat>)
    requires m.Ok() && d.Ok() && m.NbPins() == d.NbPins() == nbPins
    requires FailsafesAgree(m, d, pins) && AllPins(nbPins) <= pins
    ensures m.failsafe == d.failsafe
  {
    forall p | 0 <= p < nbPins
      ensures m.failsafe[p] == d.failsafe[p]
    {
      assert seq(nbPins, _ => true)[p] && p in AllPins(nbPins);
      assert SameFailsafe(m, d, p);
    }
  }

  lemma RunPins(calls: seq<Call>, sys: System)
    requires Ready(sys) && SafeRun(calls, sys)
    ensures var m, d := Run(calls, sys).mirror, Run(calls, sys).device.conn;
      m.Ok() && d.Ok() && m.NbPins() == d.NbPins() == sys.device.conn.NbPins()
  {
    assert Ready(Run(calls, sys));
    hide Run, SafeRun;
  }

  lemma KnownAfterRun(calls: seq<Call>, sys: System, k: Knowledge, nbPins: nat)
    requires Ready(sys) && sys.device.conn.NbPins() == nbPins && SafeRun(calls, sys)
    requires Agrees(Run(calls, sys), k)
    requires Within(Union(Knowledge({}, {}, AllPins(nbPins)), Touched(calls)), k)
    ensures var m, d := Run(calls, sys).mirror, Run(calls, sys).device.conn;
      && ValuesAgree(m, d, Touched(calls).values) && TypesAgree(m, d, Touched(calls).types)
      && |m.failsafe| == nbPins && m.failsafe == d.failsafe && m.timeout == d.timeout
  {
    hide Ready, Run, SafeRun, Touched, AllPins, SameValue, SameType, SameFailsafe;
    RunPins(calls, sys);
    WholeTableAgrees(Run(calls, sys).mirror, Run(calls, sys).device.conn, nbPins, k.failsafes);
  }

  lemma {:induction false} TouchedByCall(calls: seq<Call>, k: nat, p: nat)
    requires k < |calls|
    ensures p in ValuesTouched(calls[k]) ==> p in Touched(calls).values
    ensures p in TypesTouched(calls[k]) ==> p in Touched(calls).types
    ensures p in FailsafesTouched(calls[k]) ==> p in Touched(calls).failsafes
  {
    hide ValuesTouched, TypesTouched, FailsafesTouched;
    if k > 0 {
      TouchedByCall(calls[1..], k - 1, p);
    }
  }

  lemma TouchedAgree(calls: seq<Call>, m: Conn, d: Conn)
    requires ValuesAgree(m, d, Touched(calls).values) && TypesAgree(m, d, Touched(calls).types)
    ensures forall k: nat, p: nat :: k < |calls| && p in ValuesTouched(calls[k]) ==> SameValue(m, d, p)
    ensures forall k: nat, p: nat :: k < |calls| && p in TypesTouched(calls[k]) ==> SameType(m, d, p)
  {
    hide Touched, ValuesTouched, TypesTouched, SameValue, SameType;
    forall k: nat, p: nat | k < |calls|
      ensures p in ValuesTouched(calls[k]) ==> SameValue(m, d, p)
      ensures p in TypesTouched(calls[k]) ==> SameType(m, d, p)
    {
      TouchedByCall(calls, k, p);
    }
  }

  /**
   Over every run of calls in the domain after `get_caps`, the mirror is the device: for the value
   and the type of every pin touched by a call so far, for the whole failsafe table, and for the timeout.
   */
  lemma MirrorIsDevice(calls: seq<Call>, nbPins: uint8, version: uint8, uninitialised: seq<uint16>)
    requires |uninitialised| == nbPins
    requires SafeRun(calls, AfterCaps(nbPins, version, uninitialised))
    requires DomainRun(calls, AfterCaps(nbPins, version, uninitialised))
    ensures var sys := Run(calls, AfterCaps(nbPins, version, uninitialised));
      var m, d := sys.mirror, sys.device.conn;
      && (forall k: nat, p: nat :: k < |calls| && p in ValuesTouched(calls[k]) ==> SameValue(m, d, p))
      && (forall k: nat, p: nat :: k < |calls| && p in TypesTouched(calls[k]) ==> SameType(m, d, p))
      && |m.failsafe| == nbPins && m.failsafe == d.failsafe && m.timeout == d.timeout
      && sys.device.nextId == IdAt(1 + |calls|)
  {
    var sys, k := AfterCaps(nbPins, version, uninitialised), Knowledge({}, {}, AllPins(nbPins));
    hide *;
    StartAgrees(nbPins, version, uninitialised);
    RunAgrees(calls, sys, k);
    DomainRunLearns(calls, sys, k);
    RunIds(calls, sys, 1);
    KnownAfterRun(calls, sys, LearnRun(calls, sys, k), nbPins);
    TouchedAgree(calls, Run(calls, sys).mirror, Run(calls, sys).device.conn);
  }
}
