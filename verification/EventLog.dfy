/**
 The TPM event log walker of PlatformPeiTpmEventLog.c: the hash table, the digest-list
 walk, the stateful iterator, and the loop that re-emits records as HOBs.

 Every method is proved against a function of raw memory, for arbitrary log bytes.
 */
module EventLog {
  import opened Words
  import opened Wrappers

  // TPM_ALG_ID values and digest sizes (mHashInfo).
  const TPM_ALG_SHA1 := 0x0004
  const TPM_ALG_SHA256 := 0x000B
  const TPM_ALG_SHA384 := 0x000C
  const TPM_ALG_SHA512 := 0x000D

  const EV_NO_ACTION := 3

  // Layout of the packed TCG_PCR_EVENT and TCG_PCR_EVENT2 structures.
  const EVENT_TYPE_OFFSET := 4
  const SPEC_ID_EVENT_SIZE_OFFSET := 28
  const SPEC_ID_EVENT_OFFSET := 32
  const DIGEST_COUNT_OFFSET := 8
  const DIGESTS_OFFSET := 12

  /** The 16-byte signature fields, terminating NUL included. */
  const SPEC_ID_SIGNATURE_02: seq<Byte> :=
    [0x53, 0x70, 0x65, 0x63, 0x20, 0x49, 0x44, 0x20, 0x45, 0x76, 0x65, 0x6E, 0x74, 0x30, 0x32, 0]
  const SPEC_ID_SIGNATURE_03: seq<Byte> :=
    [0x53, 0x70, 0x65, 0x63, 0x20, 0x49, 0x44, 0x20, 0x45, 0x76, 0x65, 0x6E, 0x74, 0x30, 0x33, 0]
  const STARTUP_LOCALITY_SIGNATURE: seq<Byte> :=
    [0x53, 0x74, 0x61, 0x72, 0x74, 0x75, 0x70, 0x4C, 0x6F, 0x63, 0x61, 0x6C, 0x69, 0x74, 0x79, 0]

  datatype HashInfo = HashInfo(hashAlgo: nat, hashSize: nat)

  const HASH_INFO: seq<HashInfo> :=
    [HashInfo(TPM_ALG_SHA1, 20), HashInfo(TPM_ALG_SHA256, 32), HashInfo(TPM_ALG_SHA384, 48), HashInfo(TPM_ALG_SHA512, 64)]

  datatype Status = Success | NotFound | InvalidParameter | Unsupported | OutOfResources

  /** The digest size of an algorithm identifier, if it is one of the four supported ones. */
  function HashSize(algo: nat): Option<nat> {
    if algo == TPM_ALG_SHA1 then Some(20)
    else if algo == TPM_ALG_SHA256 then Some(32)
    else if algo == TPM_ALG_SHA384 then Some(48)
    else if algo == TPM_ALG_SHA512 then Some(64)
    else None
  }

  /** Linear search of the hash table. */
  method GetHashInfo(hashAlgo: nat) returns (info: Option<HashInfo>)
    ensures info.None? <==> HashSize(hashAlgo).None?
    ensures info.Some? ==> info.value.hashAlgo == hashAlgo && HashSize(hashAlgo) == Some(info.value.hashSize)
  {
    var idx := 0;
    while idx < |HASH_INFO|
      invariant 0 <= idx <= |HASH_INFO|
      invariant forall k :: 0 <= k < idx ==> HASH_INFO[k].hashAlgo != hashAlgo
    {
      if HASH_INFO[idx].hashAlgo == hashAlgo {
        return Some(HASH_INFO[idx]);
      }
      idx := idx + 1;
    }
    assert HASH_INFO[0].hashAlgo != hashAlgo && HASH_INFO[1].hashAlgo != hashAlgo;
    assert HASH_INFO[2].hashAlgo != hashAlgo && HASH_INFO[3].hashAlgo != hashAlgo;
    return None;
  }

  /** IsSpecIdEvent: an EV_NO_ACTION record carrying one of the two Spec ID signatures. */
  predicate IsSpecIdEvent(mem: Memory, event: nat) {
    && Read32(mem, event + EVENT_TYPE_OFFSET) == EV_NO_ACTION
    && (|| At(mem, event + SPEC_ID_EVENT_OFFSET, SPEC_ID_SIGNATURE_02)
        || At(mem, event + SPEC_ID_EVENT_OFFSET, SPEC_ID_SIGNATURE_03))
  }

  // ----- The digest list

  /**
   The address just past `count` packed { algorithm, digest } pairs starting at `a`,
   or None when one of them names an unknown algorithm.
   */
  function DigestsEnd(mem: Memory, a: nat, count: nat): Option<nat>
    decreases count
  {
    if count == 0 then Some(a)
    else
      match HashSize(Read16(mem, a))
      case None => None
      case Some(size) => DigestsEnd(mem, a + 2 + size, count - 1)
  }

  /** Each digest occupies between 22 and 66 bytes. */
  lemma {:induction false} DigestsEndBounds(mem: Memory, a: nat, count: nat)
    requires DigestsEnd(mem, a, count).Some?
    ensures a + 22 * count <= DigestsEnd(mem, a, count).value <= a + 66 * count
    decreases count
  {
    if count > 0 {
      DigestsEndBounds(mem, a + 2 + HashSize(Read16(mem, a)).value, count - 1);
    }
  }

  /** The address just past the last algorithm identifier that the walk reads, whether it succeeds or fails. */
  function DigestsReach(mem: Memory, a: nat, count: nat): nat
    decreases count
  {
    if count == 0 then a + 2
    else
      match HashSize(Read16(mem, a))
      case None => a + 2
      case Some(size) => DigestsReach(mem, a + 2 + size, count - 1)
  }

  lemma {:induction false} DigestsReachBounds(mem: Memory, a: nat, count: nat)
    ensures a + 2 <= DigestsReach(mem, a, count) <= a + 2 + 66 * count
    decreases count
  {
    if count > 0 && HashSize(Read16(mem, a)).Some? {
      DigestsReachBounds(mem, a + 2 + HashSize(Read16(mem, a)).value, count - 1);
    }
  }

  /**
   GetDigestListSize: reads each algorithm one digest ahead, then backs up over the last
   one. The result is the length of the digest list, or 0 for an unknown algorithm. The cursor
   never points past `reach`.
   */
  method GetDigestListSize(mem: Memory, event: nat) returns (size: nat, ghost reach: nat)
    ensures size ==
            match DigestsEnd(mem, event + DIGESTS_OFFSET, Read32(mem, event + DIGEST_COUNT_OFFSET))
            case None => 0
            case Some(end) => end - (event + DIGESTS_OFFSET)
    ensures reach == DigestsReach(mem, event + DIGESTS_OFFSET, Read32(mem, event + DIGEST_COUNT_OFFSET))
  {
    hide Read16, Read32, HashSize;
    var digestCount := Read32(mem, event + DIGEST_COUNT_OFFSET);
    var hashAlgo := Read16(mem, event + DIGESTS_OFFSET);
    var digest := event + DIGESTS_OFFSET + 2;
    var idx := 0;
    while idx < digestCount
      invariant 0 <= idx <= digestCount
      invariant event + DIGESTS_OFFSET + 2 <= digest
      invariant hashAlgo == Read16(mem, digest - 2)
      invariant DigestsEnd(mem, event + DIGESTS_OFFSET, digestCount) == DigestsEnd(mem, digest - 2, digestCount - idx)
      invariant DigestsReach(mem, event + DIGESTS_OFFSET, digestCount)
                == DigestsReach(mem, digest - 2, digestCount - idx)
    {
      var info := GetHashInfo(hashAlgo);
      if info.None? {
        return 0, digest;
      }
      digest := digest + info.value.hashSize;
      hashAlgo := Read16(mem, digest);
      digest := digest + 2;
      idx := idx + 1;
    }
    reach := digest;
    digest := digest - 2;
    size := digest - (event + DIGESTS_OFFSET);
  }

  // ----- The iterator

  /**
   The size of the record at `event`: a SpecID record by its own size field, any other
   record by its digest list followed by its event data. None if the record is invalid.
   */
  function RecordSize(mem: Memory, event: nat): Option<nat> {
    if IsSpecIdEvent(mem, event) then
      Some(SPEC_ID_EVENT_OFFSET + Read32(mem, event + SPEC_ID_EVENT_SIZE_OFFSET))
    else
      var digests := event + DIGESTS_OFFSET;
      match DigestsEnd(mem, digests, Read32(mem, event + DIGEST_COUNT_OFFSET))
      case None => None
      case Some(end) => if end <= digests then None else Some(end + 4 + Read32(mem, end) - event)
  }

  /** More than 16 header bytes, 2^32 - 1 digests of 66 bytes and 2^32 - 1 bytes of data. */
  const MAX_RECORD_SIZE := 32 + 67 * (TWO_32 - 1)

  /**
   Whatever the log bytes are, a record that is accepted spans at least 32 bytes, so each
   iterator step advances, and at most MAX_RECORD_SIZE.
   */
  lemma RecordSizeBounds(mem: Memory, event: nat)
    requires RecordSize(mem, event).Some?
    ensures SPEC_ID_EVENT_OFFSET <= RecordSize(mem, event).value <= MAX_RECORD_SIZE
  {
    if !IsSpecIdEvent(mem, event) {
      var count := Read32(mem, event + DIGEST_COUNT_OFFSET);
      DigestsEndBounds(mem, event + DIGESTS_OFFSET, count);
    }
  }

  /** The highest address that the digest walk of the record at `event` reaches. */
  function StepReach(mem: Memory, event: nat): nat {
    DigestsReach(mem, event + DIGESTS_OFFSET, Read32(mem, event + DIGEST_COUNT_OFFSET))
  }

  /**
   One step from a position in the log computes no address of 2^64 or more, if the log ends at
   least MAX_RECORD_SIZE bytes before the top of the address space: not for the SpecID test, not
   in the digest walk of an accepted or of a rejected record, and not for the next position.
   */
  lemma AddressesDoNotWrap(mem: Memory, event: nat, limit: nat)
    requires event < limit && limit + MAX_RECORD_SIZE <= TWO_64
    ensures event + SPEC_ID_EVENT_OFFSET + 16 < TWO_64
    ensures StepReach(mem, event) < TWO_64
    ensures RecordSize(mem, event).Some? ==> event + RecordSize(mem, event).value < TWO_64
  {
    DigestsReachBounds(mem, event + DIGESTS_OFFSET, Read32(mem, event + DIGEST_COUNT_OFFSET));
    if RecordSize(mem, event).Some? {
      RecordSizeBounds(mem, event);
    }
  }

  datatype Step = Step(status: Status, event: nat, eventSize: nat)

  /** What one call of the iterator finds at position `a` of a log that ends at `limit`. */
  function StepAt(mem: Memory, a: nat, limit: nat): Step {
    if limit <= a then Step(NotFound, 0, 0)
    else
      match RecordSize(mem, a)
      case None => Step(InvalidParameter, 0, 0)
      case Some(size) => Step(Success, a, size)
  }

  /** EVENT_LOG_ITERATOR. Address 0 is the NULL that means "not started". */
  class EventLogIterator {
    const mem: Memory
    const eventLogBase: nat
    const eventLogSize: nat
    var event: nat
    var eventSize: nat

    constructor (mem: Memory, eventLogBase: nat, eventLogSize: nat)
      ensures this.mem == mem && this.eventLogBase == eventLogBase && this.eventLogSize == eventLogSize
      ensures event == 0 && eventSize == 0
    {
      this.mem, this.eventLogBase, this.eventLogSize := mem, eventLogBase, eventLogSize;
      event, eventSize := 0, 0;
    }

    /** Where the next call looks: the base when not started, else just past the last record. */
    ghost function Position(): nat
      reads this
    {
      if event == 0 then eventLogBase else event + eventSize
    }

    ghost function Limit(): nat {
      eventLogBase + eventLogSize
    }

    /** EventLogIteratorGetNext. A failing call leaves the iterator as it was initialised. */
    method GetNext() returns (status: Status, nextEvent: nat, nextEventSize: nat)
      modifies this
      ensures Step(status, nextEvent, nextEventSize) == StepAt(mem, old(Position()), Limit())
      ensures event == nextEvent && eventSize == nextEventSize
    {
      hide IsSpecIdEvent, DigestsEnd, DigestsReach, Read16, Read32, HashSize;
      if event == 0 {
        event := eventLogBase;
      } else {
        event := event + eventSize;
      }
      if event >= eventLogBase + eventLogSize {
        status, event, eventSize := NotFound, 0, 0;
      } else if IsSpecIdEvent(mem, event) {
        status := Success;
        eventSize := SPEC_ID_EVENT_OFFSET + Read32(mem, event + SPEC_ID_EVENT_SIZE_OFFSET);
      } else {
        var cursor := event + DIGESTS_OFFSET;
        var digestListSize, _ := GetDigestListSize(mem, event);
        if digestListSize == 0 {
          status, event, eventSize := InvalidParameter, 0, 0;
        } else {
          cursor := cursor + digestListSize;
          var dataSize := Read32(mem, cursor);
          cursor := cursor + 4;
          cursor := cursor + dataSize;
          eventSize := cursor - event;
          status := Success;
        }
      }
      nextEvent, nextEventSize := event, eventSize;
    }
  }

  // ----- Whole walks

  datatype Record = Record(start: nat, size: nat)

  datatype Walked = Walked(records: seq<Record>, status: Status)

  /** Every record from position `a` to the first failing call, and that call's status. */
  function Walk(mem: Memory, a: nat, limit: nat): Walked
    decreases limit - a
  {
    var step := StepAt(mem, a, limit);
    if step.status != Success then Walked([], step.status)
    else
      RecordSizeBounds(mem, a);
      var rest := Walk(mem, a + step.eventSize, limit);
      Walked([Record(a, step.eventSize)] + rest.records, rest.status)
  }

  function TotalSize(records: seq<Record>): nat {
    if records == [] then 0 else records[0].size + TotalSize(records[1..])
  }

  /** Record k of a walk starts where the sizes of the records before it say, inside the log. */
  lemma {:induction false} RecordStart(mem: Memory, a: nat, limit: nat, k: nat)
    requires k < |Walk(mem, a, limit).records|
    ensures var r := Walk(mem, a, limit).records;
            r[k].start == a + TotalSize(r[..k]) && r[k].start < limit && 32 <= r[k].size
    decreases k
  {
    hide RecordSize;
    var r, size := Walk(mem, a, limit).records, StepAt(mem, a, limit).eventSize;
    RecordSizeBounds(mem, a);
    if k > 0 {
      RecordStart(mem, a + size, limit, k - 1);
      assert r[..k][1..] == Walk(mem, a + size, limit).records[..k - 1];
    }
  }

  lemma {:induction false} WalkEnd(mem: Memory, a: nat, limit: nat)
    ensures var w := Walk(mem, a, limit);
            && w.status in {NotFound, InvalidParameter}
            && StepAt(mem, a + TotalSize(w.records), limit) == Step(w.status, 0, 0)
    decreases limit - a
  {
    hide RecordSize;
    var step := StepAt(mem, a, limit);
    if step.status == Success {
      RecordSizeBounds(mem, a);
      WalkEnd(mem, a + step.eventSize, limit);
      var rest := Walk(mem, a + step.eventSize, limit).records;
      assert ([Record(a, step.eventSize)] + rest)[1..] == rest;
    }
  }

  /**
   For arbitrary bytes: record k starts at the log base plus the sizes of the records before
   it, inside the log, is at least 32 bytes long, and the walk ends only past the end of the
   log or at an invalid record.
   */
  lemma WalkIsContiguous(mem: Memory, a: nat, limit: nat)
    ensures
      var w := Walk(mem, a, limit);
      && w.status in {NotFound, InvalidParameter}
      && (forall k :: 0 <= k < |w.records| ==>
            && w.records[k].start == a + TotalSize(w.records[..k])
            && w.records[k].start < limit
            && 32 <= w.records[k].size)
      && StepAt(mem, a + TotalSize(w.records), limit) == Step(w.status, 0, 0)
  {
    hide Walk, StepAt, TotalSize;
    WalkEnd(mem, a, limit);
    forall k | 0 <= k < |Walk(mem, a, limit).records|
      ensures var r := Walk(mem, a, limit).records;
              r[k].start == a + TotalSize(r[..k]) && r[k].start < limit && 32 <= r[k].size
    {
      RecordStart(mem, a, limit, k);
    }
  }

  /** No walk over a log that ends MAX_RECORD_SIZE bytes below 2^64 wraps around. */
  lemma WalkDoesNotWrap(mem: Memory, a: nat, limit: nat)
    requires a <= limit && limit + MAX_RECORD_SIZE <= TWO_64
    ensures var w := Walk(mem, a, limit);
            && a + TotalSize(w.records) < TWO_64
            && (forall k :: 0 <= k < |w.records| ==>
                  && w.records[k].start + w.records[k].size < TWO_64
                  && StepReach(mem, w.records[k].start) < TWO_64)
            && (w.status == InvalidParameter ==> StepReach(mem, a + TotalSize(w.records)) < TWO_64)
  {
    hide StepReach, StepAt, RecordSize, Walk, TotalSize;
    var w := Walk(mem, a, limit);
    WalkRecordSizes(mem, a, limit);
    forall k | 0 <= k < |w.records|
      ensures w.records[k].start + w.records[k].size < TWO_64 && StepReach(mem, w.records[k].start) < TWO_64
    {
      RecordStart(mem, a, limit, k);
      assert w.records[k] in w.records;
      AddressesDoNotWrap(mem, w.records[k].start, limit);
    }
    WalkEndsSoon(mem, a, limit);
    WalkEnd(mem, a, limit);
    if w.status == InvalidParameter {
      InvalidIsInside(mem, a + TotalSize(w.records), limit);
      AddressesDoNotWrap(mem, a + TotalSize(w.records), limit);
    }
  }

  lemma InvalidIsInside(mem: Memory, a: nat, limit: nat)
    requires StepAt(mem, a, limit).status == InvalidParameter
    ensures a < limit
  {
  }

  lemma {:induction false} WalkRecordSizes(mem: Memory, a: nat, limit: nat)
    ensures forall r :: r in Walk(mem, a, limit).records ==> RecordSize(mem, r.start) == Some(r.size)
    decreases limit - a
  {
    hide RecordSize;
    var step := StepAt(mem, a, limit);
    if step.status == Success {
      RecordSizeBounds(mem, a);
      WalkRecordSizes(mem, a + step.eventSize, limit);
    }
  }

  lemma {:induction false} WalkEndsSoon(mem: Memory, a: nat, limit: nat)
    requires a <= limit
    ensures a + TotalSize(Walk(mem, a, limit).records) < limit + MAX_RECORD_SIZE
    decreases limit - a
  {
    hide RecordSize;
    var step := StepAt(mem, a, limit);
    if step.status == Success {
      RecordSizeBounds(mem, a);
      var next := a + step.eventSize;
      var rest := Walk(mem, next, limit).records;
      assert ([Record(a, step.eventSize)] + rest)[1..] == rest;
      if next <= limit {
        WalkEndsSoon(mem, next, limit);
      }
    }
  }

  /**
   DumpTpmEventLog's loop, recording what it visits: it terminates on every log and visits
   exactly the records of the walk. Only a log at address 0 that begins with a valid record is
   excluded: over that one the loop does not end.
   */
  method DumpTpmEventLog(mem: Memory, eventLog: nat, eventLogSize: nat) returns (visited: seq<Record>)
    requires eventLog != 0 || StepAt(mem, 0, eventLogSize).status != Success
    ensures visited == Walk(mem, eventLog, eventLog + eventLogSize).records
  {
    hide RecordSize;
    var iter := new EventLogIterator(mem, eventLog, eventLogSize);
    visited := [];
    var status, nextEvent, nextEventSize := iter.GetNext();
    ghost var a := eventLog;
    while status == Success
      invariant Step(status, nextEvent, nextEventSize) == StepAt(mem, a, eventLog + eventLogSize)
      invariant iter.event == nextEvent && iter.eventSize == nextEventSize
      invariant iter.mem == mem && iter.Limit() == eventLog + eventLogSize
      invariant status == Success ==> 0 < a
      invariant Walk(mem, eventLog, eventLog + eventLogSize).records
                == visited + Walk(mem, a, eventLog + eventLogSize).records
      decreases eventLog + eventLogSize - a
    {
      RecordSizeBounds(mem, a);
      visited := visited + [Record(nextEvent, nextEventSize)];
      a := a + nextEventSize;
      status, nextEvent, nextEventSize := iter.GetNext();
    }
  }

  /**
   With a log at address 0 the "not started" marker and the first record coincide, and the
   iterator yields the first record for ever: the walk needs a non-null base.
   */
  method NullBaseNeverAdvances(mem: Memory, eventLogSize: nat, calls: nat) returns (last: Step)
    requires StepAt(mem, 0, eventLogSize).status == Success
    ensures last == StepAt(mem, 0, eventLogSize)
  {
    var iter := new EventLogIterator(mem, 0, eventLogSize);
    var status, e, size := iter.GetNext();
    var i := 0;
    while i < calls
      invariant Step(status, e, size) == StepAt(mem, 0, eventLogSize)
      invariant iter.event == e && iter.mem == mem && iter.eventLogBase == 0 && iter.eventLogSize == eventLogSize
    {
      status, e, size := iter.GetNext();
      i := i + 1;
    }
    last := Step(status, e, size);
  }

  // ----- Re-emitting records as HOBs

  type Hob = seq<Byte>

  /** Whether BuildGuidDataHob can add a HOB holding this data to a list of HOBs. */
  type Allocator = (seq<Hob>, Hob) -> bool

  class GuidHobList {
    const accepts: Allocator
    var hobs: seq<Hob>

    constructor (accepts: Allocator)
      ensures this.accepts == accepts && hobs == []
    {
      this.accepts, hobs := accepts, [];
    }

    /** BuildGuidDataHob: appends a copy of the data, or fails and changes nothing. */
    method BuildGuidDataHob(data: Hob) returns (built: bool)
      modifies this
      ensures built == accepts(old(hobs), data)
      ensures hobs == if built then old(hobs) + [data] else old(hobs)
    {
      built := accepts(hobs, data);
      if built {
        hobs := hobs + [data];
      }
    }
  }

  /** The event data at `sizeField` is a StartupLocality event with a locality other than 3. */
  predicate IsDroppedLocality(mem: Memory, sizeField: nat) {
    && Read32(mem, sizeField) == 17
    && At(mem, sizeField + 4, STARTUP_LOCALITY_SIGNATURE)
    && mem(sizeField + 20) != 3
  }

  datatype Emitted = Emitted(status: Status, hobs: seq<Hob>)

  /** The HOB list after offering it the `size` bytes at `event`. */
  function EmitOne(mem: Memory, event: nat, size: nat, hobs: seq<Hob>, accepts: Allocator): Emitted {
    match DigestsEnd(mem, event + DIGESTS_OFFSET, Read32(mem, event + DIGEST_COUNT_OFFSET))
    case None => Emitted(Unsupported, hobs)
    case Some(end) =>
      if IsDroppedLocality(mem, end) then Emitted(Success, hobs)
      else if accepts(hobs, Slice(mem, event, size)) then Emitted(Success, hobs + [Slice(mem, event, size)])
      else Emitted(OutOfResources, hobs)
  }

  /** BuildOnePeiEventLogHob, with its own copy of the digest walk. */
  method BuildOnePeiEventLogHob(mem: Memory, event: nat, eventSize: nat, list: GuidHobList) returns (status: Status)
    modifies list
    ensures Emitted(status, list.hobs) == EmitOne(mem, event, eventSize, old(list.hobs), list.accepts)
  {
    hide Read16, Read32, HashSize, At;
    var digestCount := Read32(mem, event + DIGEST_COUNT_OFFSET);
    var hashAlgo := Read16(mem, event + DIGESTS_OFFSET);
    var cursor := event + DIGESTS_OFFSET + 2;
    var idx := 0;
    while idx < digestCount
      invariant 0 <= idx <= digestCount
      invariant event + DIGESTS_OFFSET + 2 <= cursor
      invariant hashAlgo == Read16(mem, cursor - 2)
      invariant DigestsEnd(mem, event + DIGESTS_OFFSET, digestCount) == DigestsEnd(mem, cursor - 2, digestCount - idx)
      invariant list.hobs == old(list.hobs)
    {
      var info := GetHashInfo(hashAlgo);
      if info.None? {
        return Unsupported;
      }
      cursor := cursor + info.value.hashSize;
      hashAlgo := Read16(mem, cursor);
      cursor := cursor + 2;
      idx := idx + 1;
    }
    cursor := cursor - 2;
    var eventDataSize := Read32(mem, cursor);
    cursor := cursor + 4;
    if eventDataSize == 17 && At(mem, cursor, STARTUP_LOCALITY_SIGNATURE) && mem(cursor + 16) != 3 {
      return Success;
    }
    var built := list.BuildGuidDataHob(Slice(mem, event, eventSize));
    return if built then Success else OutOfResources;
  }

  /** The HOB list after emitting every record from position `a`, up to the first failure. */
  function EmitFrom(mem: Memory, a: nat, limit: nat, hobs: seq<Hob>, accepts: Allocator): Emitted
    decreases limit - a
  {
    var step := StepAt(mem, a, limit);
    if step.status != Success then Emitted(step.status, hobs)
    else
      RecordSizeBounds(mem, a);
      var one := EmitOne(mem, a, step.eventSize, hobs, accepts);
      if one.status != Success then one
      else EmitFrom(mem, a + step.eventSize, limit, one.hobs, accepts)
  }

  /**
   The outcome for a log at `eventLog`: the first record must be valid and a SpecID record;
   it gets no HOB, and running off the end of the log is success.
   */
  function BuildOutcome(mem: Memory, eventLog: nat, size: nat, hobs: seq<Hob>, accepts: Allocator): Emitted {
    var first := StepAt(mem, eventLog, eventLog + size);
    if first.status != Success || !IsSpecIdEvent(mem, eventLog) then Emitted(InvalidParameter, hobs)
    else
      var r := EmitFrom(mem, eventLog + first.eventSize, eventLog + size, hobs, accepts);
      if r.status == NotFound then r.(status := Success) else r
  }

  datatype LogBuffer = LogBuffer(base: nat, size: nat)

  /** BuildPeiEventLogHobs; `log` is what TransferListGetEventLog found. */
  method BuildPeiEventLogHobs(mem: Memory, log: Option<LogBuffer>, list: GuidHobList) returns (status: Status)
    requires log.Some? && log.value.base == 0 ==> StepAt(mem, 0, log.value.size).status != Success
    modifies list
    ensures log.None? ==> status == Success && list.hobs == old(list.hobs)
    ensures log.Some? ==>
              Emitted(status, list.hobs)
              == BuildOutcome(mem, log.value.base, log.value.size, old(list.hobs), list.accepts)
  {
    hide RecordSize, EmitOne, IsSpecIdEvent, Walk;
    if log.None? {
      return Success;
    }
    var base, limit := log.value.base, log.value.base + log.value.size;
    var visited := DumpTpmEventLog(mem, base, log.value.size);
    var iter := new EventLogIterator(mem, base, log.value.size);
    var nextEvent, nextEventSize;
    status, nextEvent, nextEventSize := iter.GetNext();
    if status != Success {
      return InvalidParameter;
    }
    if !IsSpecIdEvent(mem, nextEvent) {
      return InvalidParameter;
    }
    ghost var target := EmitFrom(mem, base + nextEventSize, limit, list.hobs, list.accepts);
    RecordSizeBounds(mem, base);
    ghost var a := base + nextEventSize;
    while status == Success
      invariant iter.mem == mem && iter.Limit() == limit
      invariant status == Success ==> iter.Position() == a && 0 < a
      invariant status == Success ==> EmitFrom(mem, a, limit, list.hobs, list.accepts) == target
      invariant status != Success ==> Emitted(status, list.hobs) == target
      decreases limit - a, status == Success
    {
      status, nextEvent, nextEventSize := iter.GetNext();
      if status == Success {
        RecordSizeBounds(mem, a);
        status := BuildOnePeiEventLogHob(mem, nextEvent, nextEventSize, list);
        a := a + nextEventSize;
      }
    }
    if status == NotFound {
      status := Success;
    }
  }
}
