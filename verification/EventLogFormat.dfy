/**
 The event log as the TCG EFI Protocol Specification lays it out (section 5.2, Crypto Agile
 Log Entry Format): typed records, a serializer for them, and the proof that the walker of
 EventLog inverts the serializer.
 */
module EventLogFormat {
  import opened Words
  import opened Wrappers
  import opened EventLog

  datatype HashAlg = SHA1 | SHA256 | SHA384 | SHA512

  function AlgId(alg: HashAlg): nat {
    match alg
    case SHA1 => TPM_ALG_SHA1
    case SHA256 => TPM_ALG_SHA256
    case SHA384 => TPM_ALG_SHA384
    case SHA512 => TPM_ALG_SHA512
  }

  function DigestSize(alg: HashAlg): nat {
    match alg
    case SHA1 => 20
    case SHA256 => 32
    case SHA384 => 48
    case SHA512 => 64
  }

  datatype Digest = Digest(alg: HashAlg, value: seq<Byte>)

  /** A crypto-agile record. */
  datatype Event = Event(pcrIndex: nat, eventType: nat, digests: seq<Digest>, data: seq<Byte>)

  /** The record that opens a log; its data is a signature followed by `body`. */
  datatype SpecId = SpecId(pcrIndex: nat, digest: seq<Byte>, version03: bool, body: seq<Byte>)

  datatype Log = Log(spec: SpecId, events: seq<Event>)

  ghost predicate ValidDigests(digests: seq<Digest>) {
    forall d :: d in digests ==> |d.value| == DigestSize(d.alg)
  }

  ghost predicate ValidEvent(e: Event) {
    && e.pcrIndex < TWO_32
    && e.eventType < TWO_32
    && 1 <= |e.digests| < TWO_32
    && ValidDigests(e.digests)
    && |e.data| < TWO_32
  }

  ghost predicate ValidEvents(events: seq<Event>) {
    forall e :: e in events ==> ValidEvent(e)
  }

  ghost predicate ValidLog(log: Log) {
    && log.spec.pcrIndex < TWO_32
    && |log.spec.digest| == 20
    && |log.spec.body| + 16 < TWO_32
    && ValidEvents(log.events)
  }

  // ----- Serializer

  function DigestBytes(d: Digest): seq<Byte> {
    Le16(AlgId(d.alg)) + d.value
  }

  function DigestsBytes(digests: seq<Digest>): seq<Byte> {
    if digests == [] then [] else DigestBytes(digests[0]) + DigestsBytes(digests[1..])
  }

  ghost function EventHeader(e: Event): seq<Byte>
    requires ValidEvent(e)
  {
    Le32(e.pcrIndex) + Le32(e.eventType) + Le32(|e.digests|)
  }

  ghost function EventBytes(e: Event): seq<Byte>
    requires ValidEvent(e)
  {
    EventHeader(e) + (DigestsBytes(e.digests) + (Le32(|e.data|) + e.data))
  }

  ghost function EventsBytes(events: seq<Event>): seq<Byte>
    requires ValidEvents(events)
  {
    if events == [] then [] else EventBytes(events[0]) + EventsBytes(events[1..])
  }

  ghost function SpecIdBytes(log: Log): seq<Byte>
    requires ValidLog(log)
  {
    (Le32(log.spec.pcrIndex) + Le32(EV_NO_ACTION))
    + (log.spec.digest
       + (Le32(16 + |log.spec.body|)
          + ((if log.spec.version03 then SPEC_ID_SIGNATURE_03 else SPEC_ID_SIGNATURE_02) + log.spec.body)))
  }

  ghost function LogBytes(log: Log): seq<Byte>
    requires ValidLog(log)
  {
    SpecIdBytes(log) + EventsBytes(log.events)
  }

  // ----- One record

  /** The walk over a serialized digest list stops exactly at its end. */
  lemma {:induction false} DigestsEndInvertsSerializer(mem: Memory, a: nat, digests: seq<Digest>)
    requires ValidDigests(digests)
    requires At(mem, a, DigestsBytes(digests))
    ensures DigestsEnd(mem, a, |digests|) == Some(a + |DigestsBytes(digests)|)
    decreases |digests|
  {
    if digests != [] {
      var d, rest := digests[0], digests[1..];
      AtSplit(mem, a, DigestBytes(d), DigestsBytes(rest));
      AtSplit(mem, a, Le16(AlgId(d.alg)), d.value);
      ReadLe16(mem, a, AlgId(d.alg));
      assert forall x :: x in rest ==> x in digests;
      DigestsEndInvertsSerializer(mem, a + |DigestBytes(d)|, rest);
      assert |DigestBytes(d)| == 2 + DigestSize(d.alg);
    }
  }

  /** The fields of a serialized record, as the walkers read them. */
  lemma EventFields(mem: Memory, a: nat, e: Event)
    requires ValidEvent(e)
    requires At(mem, a, EventBytes(e))
    ensures Read32(mem, a + EVENT_TYPE_OFFSET) == e.eventType
    ensures Read32(mem, a + DIGEST_COUNT_OFFSET) == |e.digests|
    ensures
      var end := a + DIGESTS_OFFSET + |DigestsBytes(e.digests)|;
      && DigestsEnd(mem, a + DIGESTS_OFFSET, |e.digests|) == Some(end)
      && Read32(mem, end) == |e.data|
      && At(mem, end + 4, e.data)
      && a + |EventBytes(e)| == end + 4 + |e.data|
  {
    hide Read32, At, Le32, DigestsBytes, DigestsEnd;
    var tail := Le32(|e.data|) + e.data;
    AtSplit(mem, a, EventHeader(e), DigestsBytes(e.digests) + tail);
    AtSplit(mem, a + 12, DigestsBytes(e.digests), tail);
    AtSplit(mem, a + 12 + |DigestsBytes(e.digests)|, Le32(|e.data|), e.data);
    ReadLe32(mem, a + 12 + |DigestsBytes(e.digests)|, |e.data|);
    DigestsEndInvertsSerializer(mem, a + 12, e.digests);
    HeaderFields(mem, a, e);
  }

  lemma HeaderFields(mem: Memory, a: nat, e: Event)
    requires ValidEvent(e)
    requires At(mem, a, EventHeader(e))
    ensures Read32(mem, a + EVENT_TYPE_OFFSET) == e.eventType
    ensures Read32(mem, a + DIGEST_COUNT_OFFSET) == |e.digests|
  {
    hide Read32, At, Le32;
    AtSplit(mem, a, Le32(e.pcrIndex) + Le32(e.eventType), Le32(|e.digests|));
    AtSplit(mem, a, Le32(e.pcrIndex), Le32(e.eventType));
    ReadLe32(mem, a + 4, e.eventType);
    ReadLe32(mem, a + 8, |e.digests|);
  }

  lemma DigestsBytesNonEmpty(e: Event)
    requires ValidEvent(e)
    ensures 22 <= |DigestsBytes(e.digests)|
  {
    assert e.digests[0] in e.digests;
  }

  /**
   A serialized record is measured exactly if and only if it does not pass the SpecID test, or
   the size field that the test's branch reads happens to give the same size.
   */
  lemma RecordSizeOfEventIff(mem: Memory, a: nat, e: Event)
    requires ValidEvent(e)
    requires At(mem, a, EventBytes(e))
    ensures RecordSize(mem, a).Some?
    ensures RecordSize(mem, a) == Some(|EventBytes(e)|) <==> MeasuresAlike(mem, a, e)
  {
    hide Read32, DigestsBytes, At, EventBytes, DigestsEnd, IsSpecIdEvent;
    EventFields(mem, a, e);
    DigestsBytesNonEmpty(e);
  }

  /** The record at `a` has the same size by both rules, or only the digest list gives one. */
  ghost predicate MeasuresAlike(mem: Memory, a: nat, e: Event)
    requires ValidEvent(e)
  {
    IsSpecIdEvent(mem, a) ==>
      SPEC_ID_EVENT_OFFSET + Read32(mem, a + SPEC_ID_EVENT_SIZE_OFFSET) == |EventBytes(e)|
  }

  lemma RecordSizeOfSpecId(mem: Memory, a: nat, log: Log)
    requires ValidLog(log)
    requires At(mem, a, SpecIdBytes(log))
    ensures IsSpecIdEvent(mem, a)
    ensures RecordSize(mem, a) == Some(|SpecIdBytes(log)|)
  {
    hide Le32, Read32;
    var signature := if log.spec.version03 then SPEC_ID_SIGNATURE_03 else SPEC_ID_SIGNATURE_02;
    var data := signature + log.spec.body;
    var sized := Le32(16 + |log.spec.body|) + data;
    var header := Le32(log.spec.pcrIndex) + Le32(EV_NO_ACTION);
    AtSplit(mem, a, header, log.spec.digest + sized);
    AtSplit(mem, a, Le32(log.spec.pcrIndex), Le32(EV_NO_ACTION));
    AtSplit(mem, a + 8, log.spec.digest, sized);
    AtSplit(mem, a + 28, Le32(16 + |log.spec.body|), data);
    AtSplit(mem, a + 32, signature, log.spec.body);
    ReadLe32(mem, a + 4, EV_NO_ACTION);
    ReadLe32(mem, a + 28, 16 + |log.spec.body|);
  }

  // ----- The SpecID look-alike

  /** Every record of the list, stored from `a` on, that passes the SpecID test measures alike. */
  ghost predicate AllMeasureAlike(mem: Memory, a: nat, events: seq<Event>)
    requires ValidEvents(events)
    decreases |events|
  {
    events != [] ==>
      && MeasuresAlike(mem, a, events[0])
      && AllMeasureAlike(mem, a + |EventBytes(events[0])|, events[1..])
  }

  /**
   The SpecID test reads 16 bytes that start inside the first digest of a crypto-agile
   record. So no look-alike arises if every EV_NO_ACTION record has a first digest whose
   19th byte is not 'S', as the all-zero digests prescribed for EV_NO_ACTION.
   */
  ghost predicate CannotLookLikeSpecId(e: Event)
    requires ValidEvent(e)
  {
    assert e.digests[0] in e.digests;
    e.eventType != EV_NO_ACTION || e.digests[0].value[18] != 0x53
  }

  lemma EventIsNotSpecId(mem: Memory, a: nat, e: Event)
    requires ValidEvent(e)
    requires At(mem, a, EventBytes(e))
    requires CannotLookLikeSpecId(e)
    ensures !IsSpecIdEvent(mem, a)
  {
    EventFields(mem, a, e);
    if e.eventType == EV_NO_ACTION {
      var d := e.digests[0];
      assert d in e.digests;
      assert DigestBytes(d)[20] == d.value[18];
      assert DigestsBytes(e.digests)[20] == d.value[18];
      assert EventBytes(e)[32] == d.value[18];
      assert mem(a + 32) != 0x53;
      assert SPEC_ID_SIGNATURE_02[0] == 0x53 && SPEC_ID_SIGNATURE_03[0] == 0x53;
      assert mem(a + 32 + 0) != 0x53;
    }
  }

  lemma {:induction false} NoLookalikes(mem: Memory, a: nat, events: seq<Event>)
    requires ValidEvents(events)
    requires At(mem, a, EventsBytes(events))
    requires forall e :: e in events ==> CannotLookLikeSpecId(e)
    ensures AllMeasureAlike(mem, a, events)
    decreases |events|
  {
    hide IsSpecIdEvent, At, EventBytes, CannotLookLikeSpecId;
    if events != [] {
      var e, rest := events[0], events[1..];
      AtSplit(mem, a, EventBytes(e), EventsBytes(rest));
      EventIsNotSpecId(mem, a, e);
      assert forall x :: x in rest ==> x in events;
      NoLookalikes(mem, a + |EventBytes(e)|, rest);
    }
  }

  // ----- Whole logs

  ghost function EventRecords(a: nat, events: seq<Event>): seq<Record>
    requires ValidEvents(events)
    decreases |events|
  {
    if events == [] then []
    else [Record(a, |EventBytes(events[0])|)] + EventRecords(a + |EventBytes(events[0])|, events[1..])
  }

  lemma WalkStep(mem: Memory, a: nat, limit: nat)
    requires a < limit && RecordSize(mem, a).Some?
    ensures var size, w := RecordSize(mem, a).value, Walk(mem, a, limit);
            && size > 0
            && w.records != [] && w.records[0] == Record(a, size)
            && w.records[1..] == Walk(mem, a + size, limit).records
            && w.status == Walk(mem, a + size, limit).status
  {
    hide RecordSize;
    RecordSizeBounds(mem, a);
  }

  lemma WalkPastEnd(mem: Memory, a: nat)
    ensures Walk(mem, a, a) == Walked([], NotFound)
  {
  }

  lemma EventRecordsStep(a: nat, events: seq<Event>)
    requires ValidEvents(events) && events != []
    ensures var records, size := EventRecords(a, events), |EventBytes(events[0])|;
            && records != [] && records[0] == Record(a, size)
            && records[1..] == EventRecords(a + size, events[1..])
  {
    hide EventBytes;
  }

  lemma SameRecordsIff(a: seq<Record>, b: seq<Record>)
    requires a != [] && b != []
    ensures a == b <==> a[0] == b[0] && a[1..] == b[1..]
  {
    assert a == [a[0]] + a[1..];
    assert b == [b[0]] + b[1..];
  }

  /** The walk over serialized events finds them all exactly when none is measured wrongly. */
  lemma {:induction false} WalkEventsIff(mem: Memory, a: nat, events: seq<Event>)
    requires ValidEvents(events)
    requires At(mem, a, EventsBytes(events))
    ensures Walk(mem, a, a + |EventsBytes(events)|) == Walked(EventRecords(a, events), NotFound)
            <==> AllMeasureAlike(mem, a, events)
    decreases |events|
  {
    hide RecordSize, At, EventBytes, Walk, EventRecords, MeasuresAlike;
    if events == [] {
      WalkPastEnd(mem, a);
      NoRecords(a);
    } else {
      var e, rest := events[0], events[1..];
      var size, limit := |EventBytes(e)|, a + |EventsBytes(events)|;
      AtSplit(mem, a, EventBytes(e), EventsBytes(rest));
      RecordSizeOfEventIff(mem, a, e);
      EventBytesNonEmpty(e);
      WalkStep(mem, a, limit);
      EventRecordsStep(a, events);
      SameRecordsIff(Walk(mem, a, limit).records, EventRecords(a, events));
      if MeasuresAlike(mem, a, e) {
        WalkEventsIff(mem, a + size, rest);
        assert limit == a + size + |EventsBytes(rest)|;
      }
    }
  }

  lemma NoRecords(a: nat)
    ensures EventRecords(a, []) == []
  {
  }

  lemma EventBytesNonEmpty(e: Event)
    requires ValidEvent(e)
    ensures |EventBytes(e)| >= 16
  {
    hide DigestsBytes;
  }

  /**
   The iterator inverts the serializer: over a log stored anywhere in memory it yields
   exactly the offsets and sizes of the SpecID record and of the events, in order, and then
   EFI_NOT_FOUND, if and only if no event that passes the SpecID test is measured wrongly.
   */
  lemma WalkInvertsSerializerIff(mem: Memory, base: nat, log: Log)
    requires ValidLog(log)
    requires At(mem, base, LogBytes(log))
    ensures Walk(mem, base, base + |LogBytes(log)|)
            == Walked([Record(base, |SpecIdBytes(log)|)] + EventRecords(base + |SpecIdBytes(log)|, log.events), NotFound)
            <==> AllMeasureAlike(mem, base + |SpecIdBytes(log)|, log.events)
  {
    hide RecordSize, IsSpecIdEvent, At, SpecIdBytes, Walk, EventRecords, AllMeasureAlike;
    var size, limit := |SpecIdBytes(log)|, base + |LogBytes(log)|;
    AtSplit(mem, base, SpecIdBytes(log), EventsBytes(log.events));
    RecordSizeOfSpecId(mem, base, log);
    RecordSizeBounds(mem, base);
    WalkStep(mem, base, limit);
    WalkEventsIff(mem, base + size, log.events);
    var records := [Record(base, size)] + EventRecords(base + size, log.events);
    assert records[1..] == EventRecords(base + size, log.events);
    SameRecordsIff(Walk(mem, base, limit).records, records);
    assert limit == base + size + |EventsBytes(log.events)|;
  }

  /** 48 digest bytes with a size of 0 and the signature where the SpecID test looks for them. */
  const LOOKALIKE_DIGEST: seq<Byte> :=
    [0, 0, 0, 0, 0, 0, 0, 0, 0, 0, 0, 0, 0, 0]
    + (Le32(0) + (SPEC_ID_SIGNATURE_03 + [0, 0, 0, 0, 0, 0, 0, 0, 0, 0, 0, 0, 0, 0]))

  /** An EV_NO_ACTION record of 66 bytes that the walk takes for one of 32. */
  const LOOKALIKE: Event := Event(0, EV_NO_ACTION, [Digest(SHA384, LOOKALIKE_DIGEST)], [])

  lemma LookalikeIsMisread(mem: Memory, a: nat)
    requires ValidEvent(LOOKALIKE) ==> At(mem, a, EventBytes(LOOKALIKE))
    ensures ValidEvent(LOOKALIKE) && |EventBytes(LOOKALIKE)| == 66
    ensures IsSpecIdEvent(mem, a) && RecordSize(mem, a) == Some(32)
  {
    hide Le16, Le32, Read32, At, DigestsEnd;
    var d, zeros := Digest(SHA384, LOOKALIKE_DIGEST), [0, 0, 0, 0, 0, 0, 0, 0, 0, 0, 0, 0, 0, 0];
    var signed := SPEC_ID_SIGNATURE_03 + zeros;
    EventFields(mem, a, LOOKALIKE);
    assert [d][1..] == [];
    assert DigestsBytes([d]) == DigestBytes(d) + [];
    AtSplit(mem, a, EventHeader(LOOKALIKE), DigestsBytes([d]) + (Le32(0) + []));
    AtSplit(mem, a + 12, DigestsBytes([d]), Le32(0) + []);
    AtSplit(mem, a + 12, DigestBytes(d), []);
    AtSplit(mem, a + 12, Le16(AlgId(SHA384)), LOOKALIKE_DIGEST);
    AtSplit(mem, a + 14, zeros, Le32(0) + signed);
    AtSplit(mem, a + 28, Le32(0), signed);
    AtSplit(mem, a + 32, SPEC_ID_SIGNATURE_03, zeros);
    ReadLe32(mem, a + 28, 0);
  }

  // ----- HOBs

  /** A StartupLocality event whose locality is not 3 gets no HOB. */
  predicate IsDropped(e: Event) {
    |e.data| == 17 && e.data[..16] == STARTUP_LOCALITY_SIGNATURE && e.data[16] != 3
  }

  /** The events that are re-emitted: those not dropped, in order. */
  function Kept(events: seq<Event>): (kept: seq<Event>)
    ensures forall e :: e in kept <==> e in events && !IsDropped(e)
  {
    if events == [] then []
    else if IsDropped(events[0]) then Kept(events[1..])
    else [events[0]] + Kept(events[1..])
  }

  lemma DroppedInMemory(mem: Memory, a: nat, e: Event)
    requires |e.data| < TWO_32
    requires Read32(mem, a) == |e.data|
    requires At(mem, a + 4, e.data)
    ensures IsDroppedLocality(mem, a) <==> IsDropped(e)
  {
    if |e.data| == 17 {
      assert mem(a + 20) == mem(a + 4 + 16) == e.data[16];
      assert At(mem, a + 4, e.data[..16]);
      if At(mem, a + 4, STARTUP_LOCALITY_SIGNATURE) {
        assert e.data[..16] == STARTUP_LOCALITY_SIGNATURE;
      }
    }
  }

  /** Offering events one at a time to the allocator, stopping at the first refusal. */
  ghost function EmitEvents(events: seq<Event>, hobs: seq<Hob>, accepts: Allocator): Emitted
    requires ValidEvents(events)
  {
    if events == [] then Emitted(Success, hobs)
    else if accepts(hobs, EventBytes(events[0])) then
      EmitEvents(events[1..], hobs + [EventBytes(events[0])], accepts)
    else Emitted(OutOfResources, hobs)
  }

  lemma EmitOneEvent(mem: Memory, a: nat, e: Event, hobs: seq<Hob>, accepts: Allocator)
    requires ValidEvent(e)
    requires At(mem, a, EventBytes(e))
    ensures EmitOne(mem, a, |EventBytes(e)|, hobs, accepts)
            == if IsDropped(e) then Emitted(Success, hobs)
               else if accepts(hobs, EventBytes(e)) then Emitted(Success, hobs + [EventBytes(e)])
               else Emitted(OutOfResources, hobs)
  {
    hide IsDroppedLocality, IsDropped;
    EventFields(mem, a, e);
    DroppedInMemory(mem, a + DIGESTS_OFFSET + |DigestsBytes(e.digests)|, e);
    SliceAt(mem, a, EventBytes(e));
  }

  lemma {:induction false} EmitFromEvents(mem: Memory, a: nat, events: seq<Event>, hobs: seq<Hob>, accepts: Allocator)
    requires ValidEvents(events)
    requires At(mem, a, EventsBytes(events))
    requires AllMeasureAlike(mem, a, events)
    ensures
      var built := EmitFrom(mem, a, a + |EventsBytes(events)|, hobs, accepts);
      && built.hobs == EmitEvents(Kept(events), hobs, accepts).hobs
      && built.status == (if EmitEvents(Kept(events), hobs, accepts).status == Success then NotFound else OutOfResources)
    decreases |events|
  {
    hide RecordSize, IsSpecIdEvent, EmitOne, IsDropped, At, EventBytes, Kept, EmitEvents;
    if events == [] {
      EmitNothing(hobs, accepts);
    } else {
      var e, rest := events[0], events[1..];
      AtSplit(mem, a, EventBytes(e), EventsBytes(rest));
      RecordSizeOfEventIff(mem, a, e);
      RecordSizeBounds(mem, a);
      EmitOneEvent(mem, a, e, hobs, accepts);
      var one := EmitOne(mem, a, |EventBytes(e)|, hobs, accepts);
      assert a + |EventsBytes(events)| == a + |EventBytes(e)| + |EventsBytes(rest)|;
      if one.status == Success {
        EmitFromEvents(mem, a + |EventBytes(e)|, rest, one.hobs, accepts);
      }
      KeptStep(events);
      if !IsDropped(e) {
        EmitEventsCons(e, Kept(rest), hobs, accepts);
      } else {
        assert [] + Kept(rest) == Kept(rest);
      }
    }
  }

  lemma KeptStep(events: seq<Event>)
    requires events != []
    ensures Kept(events) == (if IsDropped(events[0]) then [] else [events[0]]) + Kept(events[1..])
  {
  }

  lemma EmitNothing(hobs: seq<Hob>, accepts: Allocator)
    ensures Kept([]) == [] && EmitEvents([], hobs, accepts) == Emitted(Success, hobs)
  {
  }

  lemma EmitEventsCons(e: Event, rest: seq<Event>, hobs: seq<Hob>, accepts: Allocator)
    requires ValidEvent(e) && ValidEvents(rest)
    ensures EmitEvents([e] + rest, hobs, accepts)
            == if accepts(hobs, EventBytes(e)) then EmitEvents(rest, hobs + [EventBytes(e)], accepts)
               else Emitted(OutOfResources, hobs)
  {
    assert ([e] + rest)[1..] == rest;
  }

  /**
   BuildPeiEventLogHobs on a serialized log: the SpecID record gets no HOB, and the others
   that are not dropped are offered to the allocator, in order and byte for byte.
   */
  lemma BuildEmitsKeptEvents(mem: Memory, base: nat, log: Log, hobs: seq<Hob>, accepts: Allocator)
    requires ValidLog(log)
    requires At(mem, base, LogBytes(log))
    requires AllMeasureAlike(mem, base + |SpecIdBytes(log)|, log.events)
    ensures BuildOutcome(mem, base, |LogBytes(log)|, hobs, accepts) == EmitEvents(Kept(log.events), hobs, accepts)
  {
    hide RecordSize, IsSpecIdEvent, EmitFrom, EmitEvents, Kept;
    var size := |SpecIdBytes(log)|;
    AtSplit(mem, base, SpecIdBytes(log), EventsBytes(log.events));
    RecordSizeOfSpecId(mem, base, log);
    RecordSizeBounds(mem, base);
    EmitFromEvents(mem, base + size, log.events, hobs, accepts);
    EmitStatus(Kept(log.events), hobs, accepts);
    assert base + |LogBytes(log)| == base + size + |EventsBytes(log.events)|;
  }

  lemma {:induction false} EmitStatus(events: seq<Event>, hobs: seq<Hob>, accepts: Allocator)
    requires ValidEvents(events)
    ensures EmitEvents(events, hobs, accepts).status in {Success, OutOfResources}
    decreases |events|
  {
    if events != [] && accepts(hobs, EventBytes(events[0])) {
      EmitStatus(events[1..], hobs + [EventBytes(events[0])], accepts);
    }
  }

  ghost function EventHobs(events: seq<Event>): seq<Hob>
    requires ValidEvents(events)
  {
    seq(|events|, i requires 0 <= i < |events| => assert events[i] in events; EventBytes(events[i]))
  }

  /** With an allocator that never refuses, every kept event has become one HOB. */
  lemma {:induction false} EmitAllWhenAccepted(events: seq<Event>, hobs: seq<Hob>, accepts: Allocator)
    requires ValidEvents(events)
    requires forall h, d :: accepts(h, d)
    ensures EmitEvents(events, hobs, accepts) == Emitted(Success, hobs + EventHobs(events))
    decreases |events|
  {
    if events == [] {
      assert hobs + EventHobs(events) == hobs;
    } else {
      var first := EventBytes(events[0]);
      EmitAllWhenAccepted(events[1..], hobs + [first], accepts);
      assert hobs + [first] + EventHobs(events[1..]) == hobs + EventHobs(events);
    }
  }
}
