/**
 BuildPeiEventLogHobs on arbitrary bytes, told by the records that the walk finds and by what
 stands in memory, not by the loop.
 */
module EventLogBuild {
  import opened Words
  import opened EventLog
  import Wrappers

  function AsciiByte(c: char): Byte {
    if c as int < 0x80 then c as int else 0
  }

  /** The bytes of a C string with its terminating NUL. */
  function Ascii(s: string): seq<Byte> {
    seq(|s|, i requires 0 <= i < |s| => AsciiByte(s[i])) + [0]
  }

  lemma SignaturesSpelledOut()
    ensures SPEC_ID_SIGNATURE_02 == Ascii("Spec ID Event02")
    ensures SPEC_ID_SIGNATURE_03 == Ascii("Spec ID Event03")
    ensures STARTUP_LOCALITY_SIGNATURE == Ascii("StartupLocality")
  {
  }

  /** The digest sizes of the TCG algorithm registry, for the algorithms the walk supports. */
  lemma SupportedAlgorithms(algo: nat, size: nat)
    ensures HashSize(algo) == Wrappers.Some(size) <==>
            (algo, size) in {(0x4, 20), (0xB, 32), (0xC, 48), (0xD, 64)}
  {
  }

  /** A record of type EV_NO_ACTION that carries one of the two signatures, as memory shows it. */
  ghost predicate ShowsSpecId(mem: Memory, event: nat) {
    && Read32(mem, event + 4) == 3
    && Slice(mem, event + 32, 16) in [Ascii("Spec ID Event02"), Ascii("Spec ID Event03")]
  }

  lemma SliceIs(mem: Memory, a: nat, s: seq<Byte>)
    ensures Slice(mem, a, |s|) == s <==> At(mem, a, s)
  {
    if Slice(mem, a, |s|) == s {
      forall i | 0 <= i < |s| ensures mem(a + i) == s[i] {
        assert Slice(mem, a, |s|)[i] == mem(a + i);
      }
    }
  }

  lemma SpecIdIsShown(mem: Memory, event: nat)
    ensures IsSpecIdEvent(mem, event) <==> ShowsSpecId(mem, event)
  {
    hide Read32, At, Slice, Ascii;
    SignaturesSpelledOut();
    SliceIs(mem, event + 32, SPEC_ID_SIGNATURE_02);
    SliceIs(mem, event + 32, SPEC_ID_SIGNATURE_03);
  }

  // ----- What is offered for a list of records

  /** The digest list of the record names supported algorithms only. */
  ghost predicate IsReadable(mem: Memory, event: nat) {
    DigestsEnd(mem, event + 12, Read32(mem, event + 8)).Some?
  }

  /** Its data is a StartupLocality of another locality than 3. */
  ghost predicate IsSkipped(mem: Memory, event: nat)
    requires IsReadable(mem, event)
  {
    var data := DigestsEnd(mem, event + 12, Read32(mem, event + 8)).value;
    Read32(mem, data) == 17 && Slice(mem, data + 4, 16) == Ascii("StartupLocality") && mem(data + 20) != 3
  }

  /** The bytes of the records before the first unreadable one that are not skipped, in order. */
  ghost function Offered(mem: Memory, records: seq<Record>): seq<Hob> {
    if records == [] || !IsReadable(mem, records[0].start) then []
    else
      (if IsSkipped(mem, records[0].start) then [] else [Slice(mem, records[0].start, records[0].size)])
      + Offered(mem, records[1..])
  }

  ghost predicate AllReadable(mem: Memory, records: seq<Record>) {
    forall r :: r in records ==> IsReadable(mem, r.start)
  }

  lemma EmitOneShown(mem: Memory, event: nat, size: nat, hobs: seq<Hob>, accepts: Allocator)
    ensures EmitOne(mem, event, size, hobs, accepts) ==
            if !IsReadable(mem, event) then Emitted(Unsupported, hobs)
            else if IsSkipped(mem, event) then Emitted(Success, hobs)
            else if accepts(hobs, Slice(mem, event, size)) then Emitted(Success, hobs + [Slice(mem, event, size)])
            else Emitted(OutOfResources, hobs)
  {
    hide Read32, DigestsEnd, Slice, At, Ascii;
    if IsReadable(mem, event) {
      SignaturesSpelledOut();
      SliceIs(mem, DigestsEnd(mem, event + 12, Read32(mem, event + 8)).value + 4, STARTUP_LOCALITY_SIGNATURE);
    }
  }

  /** The status of a loop over these records that ends like the walk. */
  ghost function LoopStatus(mem: Memory, w: Walked): Status {
    if !AllReadable(mem, w.records) then Unsupported else w.status
  }

  lemma OfferedCons(mem: Memory, r: Record, rest: seq<Record>)
    ensures Offered(mem, [r] + rest) ==
            if !IsReadable(mem, r.start) then []
            else (if IsSkipped(mem, r.start) then [] else [Slice(mem, r.start, r.size)]) + Offered(mem, rest)
    ensures AllReadable(mem, [r] + rest) <==> IsReadable(mem, r.start) && AllReadable(mem, rest)
  {
    hide IsReadable, IsSkipped;
    assert ([r] + rest)[1..] == rest;
    assert r in [r] + rest;
  }

  /** The emission loop, with room for every HOB. */
  lemma {:induction false} EmitFromWalk(mem: Memory, a: nat, limit: nat, hobs: seq<Hob>, accepts: Allocator)
    requires forall h, d :: accepts(h, d)
    ensures var w := Walk(mem, a, limit);
            EmitFrom(mem, a, limit, hobs, accepts) == Emitted(LoopStatus(mem, w), hobs + Offered(mem, w.records))
    decreases limit - a
  {
    hide RecordSize, EmitOne, IsReadable, IsSkipped, Slice, Offered, AllReadable;
    var step := StepAt(mem, a, limit);
    if step.status != Success {
      NothingOffered(mem);
      assert hobs + [] == hobs;
    } else {
      RecordSizeBounds(mem, a);
      var r, next := Record(a, step.eventSize), a + step.eventSize;
      var rest := Walk(mem, next, limit);
      OfferedCons(mem, r, rest.records);
      EmitOneShown(mem, a, step.eventSize, hobs, accepts);
      var one := EmitOne(mem, a, step.eventSize, hobs, accepts);
      if one.status == Success {
        EmitFromWalk(mem, next, limit, one.hobs, accepts);
        assert hobs + [Slice(mem, a, step.eventSize)] + Offered(mem, rest.records)
               == hobs + ([Slice(mem, a, step.eventSize)] + Offered(mem, rest.records));
        assert [] + Offered(mem, rest.records) == Offered(mem, rest.records);
      } else {
        assert hobs + [] == hobs;
      }
    }
  }

  lemma NothingOffered(mem: Memory)
    ensures Offered(mem, []) == [] && AllReadable(mem, [])
  {
  }

  /**
   For arbitrary bytes and with room for every HOB: a log is refused as a whole if no valid record
   stands at its start or that record does not show a SpecID. Otherwise the other records of the
   walk become HOBs, in order and byte for byte, but for those that are skipped, up to the first
   unreadable one; and the status is Unsupported if there is such a one, InvalidParameter if the
   walk ended at an invalid record, and Success only if it ended at the end of the log.
   */
  lemma BuildFollowsWalk(mem: Memory, base: nat, size: nat, hobs: seq<Hob>, accepts: Allocator)
    requires forall h, d :: accepts(h, d)
    ensures var w := Walk(mem, base, base + size);
            BuildOutcome(mem, base, size, hobs, accepts) ==
            if w.records == [] || !ShowsSpecId(mem, base) then Emitted(InvalidParameter, hobs)
            else
              Emitted(if !AllReadable(mem, w.records[1..]) then Unsupported
                      else if w.status == NotFound then Success
                      else InvalidParameter,
                      hobs + Offered(mem, w.records[1..]))
  {
    hide RecordSize, IsSpecIdEvent, ShowsSpecId, EmitFrom, Offered, AllReadable;
    var first := StepAt(mem, base, base + size);
    SpecIdIsShown(mem, base);
    if first.status == Success {
      RecordSizeBounds(mem, base);
      var next := base + first.eventSize;
      EmitFromWalk(mem, next, base + size, hobs, accepts);
      WalkEnd(mem, next, base + size);
      assert Walk(mem, base, base + size).records[1..] == Walk(mem, next, base + size).records;
    }
  }

  /** Whatever the allocator does, success means a SpecID at the start and a walk to the end of the log. */
  lemma {:induction false} EmitFromReachesEnd(mem: Memory, a: nat, limit: nat, hobs: seq<Hob>, accepts: Allocator)
    ensures EmitFrom(mem, a, limit, hobs, accepts).status == NotFound ==> Walk(mem, a, limit).status == NotFound
    ensures EmitFrom(mem, a, limit, hobs, accepts).status != Success
    decreases limit - a
  {
    hide RecordSize, EmitOne;
    var step := StepAt(mem, a, limit);
    if step.status == Success {
      RecordSizeBounds(mem, a);
      var one := EmitOne(mem, a, step.eventSize, hobs, accepts);
      EmitOneStatus(mem, a, step.eventSize, hobs, accepts);
      if one.status == Success {
        EmitFromReachesEnd(mem, a + step.eventSize, limit, one.hobs, accepts);
      }
    }
  }

  lemma EmitOneStatus(mem: Memory, event: nat, size: nat, hobs: seq<Hob>, accepts: Allocator)
    ensures EmitOne(mem, event, size, hobs, accepts).status in {Success, Unsupported, OutOfResources}
  {
  }

  lemma SuccessMeansWholeLog(mem: Memory, base: nat, size: nat, hobs: seq<Hob>, accepts: Allocator)
    requires BuildOutcome(mem, base, size, hobs, accepts).status == Success
    ensures Read32(mem, base + 4) == 3
    ensures Slice(mem, base + 32, 16) in [Ascii("Spec ID Event02"), Ascii("Spec ID Event03")]
    ensures Walk(mem, base, base + size).status == NotFound
  {
    hide RecordSize, IsSpecIdEvent, EmitFrom, Ascii, Slice, Read32;
    SpecIdIsShown(mem, base);
    var first := StepAt(mem, base, base + size);
    RecordSizeBounds(mem, base);
    EmitFromReachesEnd(mem, base + first.eventSize, base + size, hobs, accepts);
  }

  /** The serializer's byte order. */
  lemma LittleEndian()
    ensures Le16(0x0102) == [0x02, 0x01] && Le32(0x0102_0304) == [0x04, 0x03, 0x02, 0x01]
  {
  }
}
