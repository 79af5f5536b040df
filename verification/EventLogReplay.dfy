/**
 What the emitted HOBs are for: a consumer decodes them and replays their digests into PCRs.
 The HOBs replay like the log they were built from exactly when no dropped record extends.
 */
module EventLogReplay {
  import opened Words
  import opened Wrappers
  import opened EventLog
  import opened EventLogFormat

  // ----- PCR replay

  /** new PCR value = extend(algorithm, old PCR value, digest) */
  type Extend = (HashAlg, seq<Byte>, seq<Byte>) -> seq<Byte>

  type PcrKey = (nat, HashAlg)
  type Pcrs = map<PcrKey, seq<Byte>>

  function Pcr(pcrs: Pcrs, key: PcrKey): seq<Byte> {
    if key in pcrs then pcrs[key] else []
  }

  function ExtendDigests(extend: Extend, pcrs: Pcrs, pcrIndex: nat, digests: seq<Digest>): Pcrs
    decreases |digests|
  {
    if digests == [] then pcrs
    else
      var key := (pcrIndex, digests[0].alg);
      ExtendDigests(extend, pcrs[key := extend(digests[0].alg, Pcr(pcrs, key), digests[0].value)], pcrIndex, digests[1..])
  }

  /** Every record except EV_NO_ACTION extends its PCR, in each bank it has a digest for. */
  function ReplayOne(extend: Extend, pcrs: Pcrs, e: Event): Pcrs {
    if e.eventType == EV_NO_ACTION then pcrs else ExtendDigests(extend, pcrs, e.pcrIndex, e.digests)
  }

  function Replay(extend: Extend, pcrs: Pcrs, events: seq<Event>): Pcrs
    decreases |events|
  {
    if events == [] then pcrs else Replay(extend, ReplayOne(extend, pcrs, events[0]), events[1..])
  }

  /** Every dropped event is EV_NO_ACTION. The code drops on the event data alone. */
  ghost predicate DroppedAreNoAction(events: seq<Event>) {
    forall e :: e in events && IsDropped(e) ==> e.eventType == EV_NO_ACTION
  }

  lemma {:induction false} ReplayOfKept(extend: Extend, pcrs: Pcrs, events: seq<Event>)
    requires DroppedAreNoAction(events)
    ensures Replay(extend, pcrs, Kept(events)) == Replay(extend, pcrs, events)
    decreases |events|
  {
    if events != [] {
      var e, rest := events[0], events[1..];
      assert e in events;
      ReplayOfKept(extend, ReplayOne(extend, pcrs, e), rest);
      if !IsDropped(e) {
        assert Kept(events)[1..] == Kept(rest);
      }
    }
  }

  /** A stand-in hash that keeps everything ever extended. */
  function Concatenate(alg: HashAlg, pcr: seq<Byte>, digest: seq<Byte>): seq<Byte> {
    pcr + digest
  }

  function DigestsWeight(digests: seq<Digest>, alg: HashAlg): nat {
    if digests == [] then 0
    else (if digests[0].alg == alg then |digests[0].value| else 0) + DigestsWeight(digests[1..], alg)
  }

  function EventWeight(e: Event, key: PcrKey): nat {
    if e.eventType == EV_NO_ACTION || e.pcrIndex != key.0 then 0 else DigestsWeight(e.digests, key.1)
  }

  function Weight(events: seq<Event>, key: PcrKey): nat {
    if events == [] then 0 else EventWeight(events[0], key) + Weight(events[1..], key)
  }

  lemma {:induction false} ExtendDigestsLength(pcrs: Pcrs, pcrIndex: nat, digests: seq<Digest>, key: PcrKey)
    ensures |Pcr(ExtendDigests(Concatenate, pcrs, pcrIndex, digests), key)|
            == |Pcr(pcrs, key)| + if pcrIndex == key.0 then DigestsWeight(digests, key.1) else 0
    decreases |digests|
  {
    if digests != [] {
      var k := (pcrIndex, digests[0].alg);
      var pcrs' := pcrs[k := Concatenate(digests[0].alg, Pcr(pcrs, k), digests[0].value)];
      ExtendDigestsLength(pcrs', pcrIndex, digests[1..], key);
      assert key == k <==> pcrIndex == key.0 && digests[0].alg == key.1;
    }
  }

  lemma {:induction false} ReplayLength(pcrs: Pcrs, events: seq<Event>, key: PcrKey)
    ensures |Pcr(Replay(Concatenate, pcrs, events), key)| == |Pcr(pcrs, key)| + Weight(events, key)
    decreases |events|
  {
    if events != [] {
      var e := events[0];
      ExtendDigestsLength(pcrs, e.pcrIndex, e.digests, key);
      ReplayLength(ReplayOne(Concatenate, pcrs, e), events[1..], key);
    }
  }

  /** Dropping events never adds weight, and loses the weight of each dropped one. */
  lemma {:induction false} KeptWeight(events: seq<Event>, key: PcrKey)
    ensures Weight(Kept(events), key) <= Weight(events, key)
    ensures forall e :: e in events && IsDropped(e) && EventWeight(e, key) > 0 ==>
                          Weight(Kept(events), key) < Weight(events, key)
    decreases |events|
  {
    if events != [] {
      KeptWeight(events[1..], key);
      if !IsDropped(events[0]) {
        assert Kept(events)[1..] == Kept(events[1..]);
      }
    }
  }

  /**
   The HOBs replay to the same PCR values as the whole log, under every hash function and
   from every starting state, exactly when each dropped event is EV_NO_ACTION.
   */
  lemma ReplayPreservedIff(events: seq<Event>)
    requires ValidEvents(events)
    ensures DroppedAreNoAction(events) <==>
            forall extend: Extend, pcrs: Pcrs :: Replay(extend, pcrs, Kept(events)) == Replay(extend, pcrs, events)
  {
    if DroppedAreNoAction(events) {
      forall extend: Extend, pcrs: Pcrs
        ensures Replay(extend, pcrs, Kept(events)) == Replay(extend, pcrs, events)
      {
        ReplayOfKept(extend, pcrs, events);
      }
    } else {
      var e :| e in events && IsDropped(e) && e.eventType != EV_NO_ACTION;
      assert e.digests[0] in e.digests;
      var key: PcrKey := (e.pcrIndex, e.digests[0].alg);
      assert EventWeight(e, key) > 0;
      KeptWeight(events, key);
      ReplayLength(map[], Kept(events), key);
      ReplayLength(map[], events, key);
      assert Replay(Concatenate, map[], Kept(events)) != Replay(Concatenate, map[], events);
    }
  }

  // ----- Decoding HOBs

  function AlgOf(id: nat): Option<HashAlg> {
    if id == TPM_ALG_SHA1 then Some(SHA1)
    else if id == TPM_ALG_SHA256 then Some(SHA256)
    else if id == TPM_ALG_SHA384 then Some(SHA384)
    else if id == TPM_ALG_SHA512 then Some(SHA512)
    else None
  }

  function DecodeDigests(mem: Memory, a: nat, count: nat): Option<seq<Digest>>
    decreases count
  {
    if count == 0 then Some([])
    else
      match AlgOf(Read16(mem, a))
      case None => None
      case Some(alg) =>
        match DecodeDigests(mem, a + 2 + DigestSize(alg), count - 1)
        case None => None
        case Some(rest) => Some([Digest(alg, Slice(mem, a + 2, DigestSize(alg)))] + rest)
  }

  /** The crypto-agile record stored at `a`. */
  function DecodeEvent(mem: Memory, a: nat): Option<Event> {
    var count := Read32(mem, a + DIGEST_COUNT_OFFSET);
    match (DecodeDigests(mem, a + DIGESTS_OFFSET, count), DigestsEnd(mem, a + DIGESTS_OFFSET, count))
    case (Some(digests), Some(end)) =>
      Some(Event(Read32(mem, a), Read32(mem, a + EVENT_TYPE_OFFSET), digests, Slice(mem, end + 4, Read32(mem, end))))
    case _ => None
  }

  lemma AlgRoundTrip(alg: HashAlg)
    ensures AlgId(alg) < TWO_16 && AlgOf(AlgId(alg)) == Some(alg)
  {
  }

  /** One digest at `a`, whatever follows. */
  lemma DecodeOneDigest(mem: Memory, a: nat, d: Digest)
    requires |d.value| == DigestSize(d.alg)
    requires At(mem, a, DigestBytes(d))
    ensures |DigestBytes(d)| == 2 + DigestSize(d.alg)
    ensures AlgOf(Read16(mem, a)) == Some(d.alg)
    ensures Slice(mem, a + 2, DigestSize(d.alg)) == d.value
  {
    hide At, Read16, Slice, AlgOf, AlgId, DigestSize, Le16;
    AlgRoundTrip(d.alg);
    AtSplit(mem, a, Le16(AlgId(d.alg)), d.value);
    ReadLe16(mem, a, AlgId(d.alg));
    SliceAt(mem, a + 2, d.value);
  }

  lemma DecodeDigestsCons(mem: Memory, a: nat, alg: HashAlg, value: seq<Byte>, rest: seq<Digest>)
    requires AlgOf(Read16(mem, a)) == Some(alg) && Slice(mem, a + 2, DigestSize(alg)) == value
    requires DecodeDigests(mem, a + 2 + DigestSize(alg), |rest|) == Some(rest)
    ensures DecodeDigests(mem, a, |rest| + 1) == Some([Digest(alg, value)] + rest)
  {
    hide Read16, Slice, AlgOf, DigestSize;
  }

  lemma DigestsBytesCons(digests: seq<Digest>)
    requires digests != []
    ensures DigestsBytes(digests) == DigestBytes(digests[0]) + DigestsBytes(digests[1..])
  {
  }

  lemma {:induction false} DecodeDigestsInverts(mem: Memory, a: nat, digests: seq<Digest>)
    requires ValidDigests(digests)
    requires At(mem, a, DigestsBytes(digests))
    ensures DecodeDigests(mem, a, |digests|) == Some(digests)
    decreases |digests|
  {
    if digests != [] {
      hide At, Read16, Slice, AlgOf, DigestSize, DecodeDigests, DigestsBytes, DigestBytes;
      var d, rest := digests[0], digests[1..];
      assert d in digests && forall x :: x in rest ==> x in digests;
      DigestsBytesCons(digests);
      AtSplit(mem, a, DigestBytes(d), DigestsBytes(rest));
      DecodeOneDigest(mem, a, d);
      DecodeDigestsInverts(mem, a + |DigestBytes(d)|, rest);
      DecodeDigestsCons(mem, a, d.alg, d.value, rest);
      assert [Digest(d.alg, d.value)] + rest == digests;
    }
  }

  /** Decoding inverts the serializer. */
  lemma DecodeInvertsSerializer(mem: Memory, a: nat, e: Event)
    requires ValidEvent(e)
    requires At(mem, a, EventBytes(e))
    ensures DecodeEvent(mem, a) == Some(e)
  {
    hide At, Read32, Slice, DigestsBytes, DecodeDigests, DigestsEnd, Le32;
    var tail := DigestsBytes(e.digests) + (Le32(|e.data|) + e.data);
    EventFields(mem, a, e);
    AtSplit(mem, a, EventHeader(e), tail);
    AtSplit(mem, a, Le32(e.pcrIndex) + Le32(e.eventType), Le32(|e.digests|));
    AtSplit(mem, a, Le32(e.pcrIndex), Le32(e.eventType));
    ReadLe32(mem, a, e.pcrIndex);
    AtSplit(mem, a + 12, DigestsBytes(e.digests), Le32(|e.data|) + e.data);
    DecodeDigestsInverts(mem, a + 12, e.digests);
    SliceAt(mem, a + 12 + |DigestsBytes(e.digests)| + 4, e.data);
  }

  /** A HOB's data as a consumer addresses it. */
  function AsMemory(hob: Hob): Memory {
    (i: nat) => if i < |hob| then hob[i] else 0
  }

  /** Different records serialize differently. */
  lemma EventBytesInjective(e: Event, f: Event)
    requires ValidEvent(e) && ValidEvent(f) && EventBytes(e) == EventBytes(f)
    ensures e == f
  {
    DecodeInvertsSerializer(AsMemory(EventBytes(e)), 0, e);
    DecodeInvertsSerializer(AsMemory(EventBytes(e)), 0, f);
  }

  /** The records a consumer finds in the HOBs. */
  function DecodeHobs(hobs: seq<Hob>): seq<Event> {
    if hobs == [] then []
    else
      (match DecodeEvent(AsMemory(hobs[0]), 0) case None => [] case Some(e) => [e]) + DecodeHobs(hobs[1..])
  }

  /** A consumer that decodes the HOBs of some events finds those events. */
  lemma {:induction false} DecodeHobsOfEvents(events: seq<Event>)
    requires ValidEvents(events)
    ensures DecodeHobs(EventHobs(events)) == events
    decreases |events|
  {
    hide DecodeEvent, EventBytes;
    if events != [] {
      var e, hobs := events[0], EventHobs(events);
      DecodeInvertsSerializer(AsMemory(EventBytes(e)), 0, e);
      assert hobs[0] == EventBytes(e);
      assert hobs[1..] == EventHobs(events[1..]);
      DecodeHobsOfEvents(events[1..]);
    }
  }

  function ReplayHobs(extend: Extend, pcrs: Pcrs, hobs: seq<Hob>): Pcrs {
    Replay(extend, pcrs, DecodeHobs(hobs))
  }

  /**
   End to end: from a serialized log in memory, through BuildPeiEventLogHobs with room for
   every HOB, to the PCR values a consumer computes from the HOBs and from given initial ones.
   They are those of the whole log, for every hash function, exactly when the dropped records are
   EV_NO_ACTION.
   */
  lemma HobsReplayTheLogIff(mem: Memory, base: nat, log: Log, accepts: Allocator)
    requires ValidLog(log)
    requires At(mem, base, LogBytes(log))
    requires AllMeasureAlike(mem, base + |SpecIdBytes(log)|, log.events)
    requires forall h, d :: accepts(h, d)
    ensures var built := BuildOutcome(mem, base, |LogBytes(log)|, [], accepts);
            && built.status == Success
            && (DroppedAreNoAction(log.events) <==>
                forall extend: Extend, pcrs: Pcrs ::
                  ReplayHobs(extend, pcrs, built.hobs) == Replay(extend, pcrs, log.events))
  {
    hide LogBytes, SpecIdBytes, BuildOutcome, Replay, DecodeHobs, Kept, At;
    HobsHoldKeptEvents(mem, base, log, accepts);
    ReplayPreservedIff(log.events);
  }

  /** What a consumer decodes from the HOBs of a log are its kept events. */
  lemma HobsHoldKeptEvents(mem: Memory, base: nat, log: Log, accepts: Allocator)
    requires ValidLog(log)
    requires At(mem, base, LogBytes(log))
    requires AllMeasureAlike(mem, base + |SpecIdBytes(log)|, log.events)
    requires forall h, d :: accepts(h, d)
    ensures var built := BuildOutcome(mem, base, |LogBytes(log)|, [], accepts);
            built.status == Success && DecodeHobs(built.hobs) == Kept(log.events)
  {
    hide LogBytes, SpecIdBytes, BuildOutcome, DecodeHobs, Kept, EmitEvents, At, EventHobs;
    var kept := Kept(log.events);
    BuildEmitsKeptEvents(mem, base, log, [], accepts);
    EmitAllWhenAccepted(kept, [], accepts);
    assert [] + EventHobs(kept) == EventHobs(kept);
    DecodeHobsOfEvents(kept);
  }

  const ZEROS_20: seq<Byte> := [0, 0, 0, 0, 0, 0, 0, 0, 0, 0, 0, 0, 0, 0, 0, 0, 0, 0, 0, 0]

  /** A measurement of type 1 (EV_POST_CODE) whose data reads like a StartupLocality of 0. */
  const LOST_EVENT: Event := Event(0, 1, [Digest(SHA1, ZEROS_20)], STARTUP_LOCALITY_SIGNATURE + [0])

  const LOST_LOG: Log := Log(SpecId(0, ZEROS_20, true, []), [LOST_EVENT])

  lemma LostLogIsValid()
    ensures ValidLog(LOST_LOG) && CannotLookLikeSpecId(LOST_EVENT) && IsDropped(LOST_EVENT)
  {
  }

  /** It extends PCR 0 in the log, and no HOB carries it. */
  lemma DroppedMeasurementIsLost(mem: Memory, base: nat, accepts: Allocator)
    requires ValidLog(LOST_LOG) ==> At(mem, base, LogBytes(LOST_LOG))
    ensures ValidLog(LOST_LOG)
    ensures BuildOutcome(mem, base, |LogBytes(LOST_LOG)|, [], accepts) == Emitted(Success, [])
    ensures ReplayHobs(Concatenate, map[], []) == map[]
    ensures Replay(Concatenate, map[], LOST_LOG.events) == map[(0, SHA1) := ZEROS_20]
  {
    hide At, EventBytes, SpecIdBytes, BuildOutcome, IsDropped;
    LostLogIsValid();
    AtSplit(mem, base, SpecIdBytes(LOST_LOG), EventsBytes(LOST_LOG.events));
    NoLookalikes(mem, base + |SpecIdBytes(LOST_LOG)|, LOST_LOG.events);
    BuildEmitsKeptEvents(mem, base, LOST_LOG, [], accepts);
    assert LOST_LOG.events[1..] == [];
    assert Kept(LOST_LOG.events) == [];
    LostEventExtends();
  }

  lemma LostEventExtends()
    ensures Replay(Concatenate, map[], LOST_LOG.events) == map[(0, SHA1) := ZEROS_20]
  {
    var pcrs := map[(0, SHA1) := ZEROS_20];
    assert [] + ZEROS_20 == ZEROS_20;
    assert LOST_EVENT.digests[1..] == [];
    assert ExtendDigests(Concatenate, pcrs, 0, []) == pcrs;
    assert ReplayOne(Concatenate, map[], LOST_EVENT) == pcrs;
    assert LOST_LOG.events[1..] == [];
    assert Replay(Concatenate, pcrs, []) == pcrs;
  }
}
