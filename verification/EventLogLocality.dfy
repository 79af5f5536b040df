/**
 Replay from the announced start: a StartupLocality record says from which locality the TPM was
 started, and with that what PCR 0 held before the first measurement. The HOBs keep such a
 record only for locality 3.
 */
module EventLogLocality {
  import opened Words
  import opened EventLog
  import opened EventLogFormat
  import opened EventLogReplay

  /** An EV_NO_ACTION record whose data is a TCG_EfiStartupLocalityEvent. */
  predicate Announces(e: Event) {
    e.eventType == EV_NO_ACTION && |e.data| == 17 && e.data[..16] == STARTUP_LOCALITY_SIGNATURE
  }

  predicate AnnouncesThree(e: Event) {
    Announces(e) && e.data[16] == 3
  }

  /** The locality of the first record that announces one; 0 if none does. */
  function StartLocality(events: seq<Event>): Byte {
    if events == [] then 0
    else if Announces(events[0]) then events[0].data[16]
    else StartLocality(events[1..])
  }

  /** Initial PCR values for each startup locality. */
  type Start = Byte -> Pcrs

  function ReplayFromStart(extend: Extend, start: Start, events: seq<Event>): Pcrs {
    Replay(extend, start(StartLocality(events)), events)
  }

  // ----- Which announcements survive

  ghost predicate SomeAnnounceThree(events: seq<Event>) {
    exists e :: e in events && AnnouncesThree(e)
  }

  lemma SomeAnnounceThreeCons(events: seq<Event>)
    requires events != []
    ensures SomeAnnounceThree(events) <==> AnnouncesThree(events[0]) || SomeAnnounceThree(events[1..])
  {
    hide AnnouncesThree;
    assert events == [events[0]] + events[1..];
    assert events[0] in events;
  }

  lemma StartLocalityCons(e: Event, rest: seq<Event>)
    ensures StartLocality([e] + rest) == if Announces(e) then e.data[16] else StartLocality(rest)
  {
    assert ([e] + rest)[1..] == rest;
  }

  /** After the dropping only locality 3 is ever announced. */
  lemma {:induction false} KeptLocality(events: seq<Event>)
    ensures StartLocality(Kept(events)) == if SomeAnnounceThree(events) then 3 else 0
    decreases |events|
  {
    hide SomeAnnounceThree, StartLocality, Kept;
    if events == [] {
      NothingAnnounced();
    } else {
      var e, rest := events[0], events[1..];
      KeptLocality(rest);
      SomeAnnounceThreeCons(events);
      KeptStep(events);
      if IsDropped(e) {
        assert [] + Kept(rest) == Kept(rest);
      } else {
        StartLocalityCons(e, Kept(rest));
      }
    }
  }

  lemma NothingAnnounced()
    ensures Kept([]) == [] && StartLocality([]) == 0 && !SomeAnnounceThree([])
  {
  }

  /** The log starts from locality 3, or from 0 with no announcement of 3 behind. */
  ghost predicate LocalitySurvives(events: seq<Event>) {
    StartLocality(events) == 3 || (StartLocality(events) == 0 && !SomeAnnounceThree(events))
  }

  lemma {:induction false} ThreeIsAnnounced(events: seq<Event>)
    requires StartLocality(events) == 3
    ensures SomeAnnounceThree(events)
    decreases |events|
  {
    hide SomeAnnounceThree;
    if events != [] {
      SomeAnnounceThreeCons(events);
      if !Announces(events[0]) {
        ThreeIsAnnounced(events[1..]);
      }
    }
  }

  lemma LocalitySurvivesIff(events: seq<Event>)
    ensures StartLocality(Kept(events)) == StartLocality(events) <==> LocalitySurvives(events)
  {
    hide SomeAnnounceThree, StartLocality, Kept;
    KeptLocality(events);
    if StartLocality(events) == 3 {
      ThreeIsAnnounced(events);
    }
  }

  // ----- Replay

  /** Initial values that tell localities apart. */
  function LocalityBytes(locality: Byte): Pcrs {
    map[(0, SHA1) := seq(locality, i => 0)]
  }

  /** Replays that start from different localities can end in different values. */
  lemma StartsAreTold(events: seq<Event>, a: Byte, b: Byte)
    requires a != b
    ensures Replay(Concatenate, LocalityBytes(a), events) != Replay(Concatenate, LocalityBytes(b), events)
  {
    hide Replay, Weight;
    ReplayLength(LocalityBytes(a), events, (0, SHA1));
    ReplayLength(LocalityBytes(b), events, (0, SHA1));
  }

  /**
   The kept events replay like all of them, for every hash function and every way in which the
   startup locality sets the PCRs, if and only if the dropped ones are EV_NO_ACTION and the log
   starts from locality 3, or from 0 without an announcement of 3.
   */
  lemma ReplayFromStartPreservedIff(events: seq<Event>)
    requires ValidEvents(events)
    ensures DroppedAreNoAction(events) && LocalitySurvives(events) <==>
            forall extend: Extend, start: Start ::
              ReplayFromStart(extend, start, Kept(events)) == ReplayFromStart(extend, start, events)
  {
    hide DroppedAreNoAction, LocalitySurvives, StartLocality, Kept, Replay;
    LocalitySurvivesIff(events);
    if !DroppedAreNoAction(events) {
      ReplayPreservedIff(events);
      var extend: Extend, pcrs: Pcrs :| Replay(extend, pcrs, Kept(events)) != Replay(extend, pcrs, events);
      var start: Start := (l: Byte) => pcrs;
      assert ReplayFromStart(extend, start, Kept(events)) != ReplayFromStart(extend, start, events);
    } else {
      forall extend: Extend, pcrs: Pcrs
        ensures Replay(extend, pcrs, Kept(events)) == Replay(extend, pcrs, events)
      {
        ReplayOfKept(extend, pcrs, events);
      }
      if !LocalitySurvives(events) {
        StartsAreTold(events, StartLocality(Kept(events)), StartLocality(events));
        assert ReplayFromStart(Concatenate, LocalityBytes, Kept(events))
               != ReplayFromStart(Concatenate, LocalityBytes, events);
      }
    }
  }

  /**
   End to end: a verifier that reads the HOBs, starts its PCRs from the locality announced there
   and extends them, arrives at the values of the whole log under exactly that condition.
   */
  lemma HobsReplayFromStartIff(mem: Memory, base: nat, log: Log, accepts: Allocator)
    requires ValidLog(log)
    requires At(mem, base, LogBytes(log))
    requires AllMeasureAlike(mem, base + |SpecIdBytes(log)|, log.events)
    requires forall h, d :: accepts(h, d)
    ensures var built := BuildOutcome(mem, base, |LogBytes(log)|, [], accepts);
            && built.status == Success
            && (DroppedAreNoAction(log.events) && LocalitySurvives(log.events) <==>
                forall extend: Extend, start: Start ::
                  ReplayFromStart(extend, start, DecodeHobs(built.hobs))
                  == ReplayFromStart(extend, start, log.events))
  {
    hide LogBytes, SpecIdBytes, BuildOutcome, ReplayFromStart, DecodeHobs, Kept, At;
    hide DroppedAreNoAction, LocalitySurvives;
    HobsHoldKeptEvents(mem, base, log, accepts);
    ReplayFromStartPreservedIff(log.events);
  }

  /** A TPM started from locality 4, as by a hardware root of trust. */
  const FROM_FOUR: Event := Event(0, EV_NO_ACTION, [Digest(SHA1, ZEROS_20)], STARTUP_LOCALITY_SIGNATURE + [4])

  /** Its announcement extends nothing, and without it the replay starts from 0. */
  lemma LocalityFourIsLost()
    ensures ValidEvents([FROM_FOUR]) && DroppedAreNoAction([FROM_FOUR])
    ensures StartLocality([FROM_FOUR]) == 4 && StartLocality(Kept([FROM_FOUR])) == 0
    ensures ReplayFromStart(Concatenate, LocalityBytes, Kept([FROM_FOUR]))
            != ReplayFromStart(Concatenate, LocalityBytes, [FROM_FOUR])
  {
    hide Replay;
    assert FROM_FOUR.data[..16] == STARTUP_LOCALITY_SIGNATURE && FROM_FOUR.data[16] == 4;
    assert [FROM_FOUR][1..] == [];
    assert Kept([FROM_FOUR]) == [];
    ReplayOfKept(Concatenate, LocalityBytes(0), [FROM_FOUR]);
    StartsAreTold([FROM_FOUR], 0, 4);
  }
}
