/** Two places where `GetLongId` issues an id that is not above the previous
    one, each shown on an input of the model as written. Then comes the step its
    own comments call for: on a wrapped sequence, wait for the next millisecond
    and issue an id for it (SnowFlakeNew.cs:66); on a clock regression, refuse
    to issue, because the id may have been issued before (SnowFlakeNew.cs:80).
    Over any run of such steps, the ids are proved to strictly increase. */
module Findings {
  import opened Int64
  import opened SnowFlake

  /** Sequence wrap: the call after the 4096th id of a millisecond returns a
      raw clock reading rather than an id. For any worker whose id keeps the sign
      bit clear, and readings the layout can hold, that value is below the id
      issued just before it, so the ids stop increasing. */
  lemma WrapReturnsRawTimestamp(workerId: Long, s: Shared, clock: seq<Long>)
    requires 1 <= workerId < 0x800 && FitsLayout(workerId, s.lastTimestamp, s.sequence)
    requires ClockSuffices(s, clock) && Wraps(s, clock[0])
    requires forall j :: 0 <= j < |clock| ==> InEpoch(clock[j])
    ensures s.sequence == 4095
    ensures var t := GetLongIdStep(workerId, s, clock);
            t.outcome.Id? && t.outcome.value in clock[1..] &&
            t.outcome.value < Pack(workerId, s.lastTimestamp, s.sequence)
  {
    SequenceWrap(workerId, s, clock);
    var k := FirstLater(clock, s.lastTimestamp, 1);
    assert clock[k] == clock[1..][k - 1];
  }

  /** Clock regression: the sequence is reset before the regression is
      detected. From `Shared(0, t)`, a call that reads `t` issues the id with
      sequence 1; a call that reads an earlier time fails; and a call that
      reads `t` again issues that same id a second time. */
  lemma RegressionReissuesId(workerId: Long, t: Long, earlier: Long)
    requires earlier < t
    ensures var c1 := GetLongIdStep(workerId, Shared(0, t), [t]);
            var c2 := GetLongIdStep(workerId, c1.next, [earlier]);
            var c3 := GetLongIdStep(workerId, c2.next, [t]);
            c1.outcome == Id(Pack(workerId, t, 1)) &&
            c2.outcome.ClockMovedBackwards? &&
            c3.outcome == c1.outcome
  {
    SameMillisecond(workerId, Shared(0, t), [t]);
    ClockRegression(workerId, Shared(1, t), [earlier]);
  }

  // ---------------------------------------------------------------------------
  // The intended step

  /** The corrected call: a regression throws before any state changes; a
      wrapped sequence waits for a later millisecond and then issues an ordinary
      id for it, with sequence 0, recording the new timestamp. Every issued id
      is the packing of the state the call records. */
  function IntendedStep(workerId: Long, s: Shared, clock: seq<Long>): (r: Transition)
    requires ClockSuffices(s, clock)
    ensures r.outcome.ClockMovedBackwards? <==> clock[0] < s.lastTimestamp
    ensures r.outcome.ClockMovedBackwards? ==> r.next == s
    ensures !r.outcome.ClockMovedBackwards? ==> r.outcome == Id(Pack(workerId, r.next.lastTimestamp, r.next.sequence))
  {
    var timestamp := clock[0];
    if timestamp < s.lastTimestamp then
      Transition(ClockMovedBackwards(Wrap(s.lastTimestamp - timestamp)), s, 1)
    else if Wraps(s, timestamp) then
      var k := FirstLater(clock, s.lastTimestamp, 1);
      Transition(Id(Pack(workerId, clock[k], 0)), Shared(0, clock[k]), k + 1)
    else
      var sequence := if timestamp == s.lastTimestamp then NextSequence(s.sequence) else 0;
      Transition(Id(Pack(workerId, timestamp, sequence)), Shared(sequence, timestamp), 1)
  }

  /** Away from the two defects, a reading at or after the last timestamp
      that does not wrap the sequence, the corrected call is the call as
      written. */
  lemma IntendedStepAgrees(workerId: Long, s: Shared, clock: seq<Long>)
    requires |clock| > 0 && clock[0] >= s.lastTimestamp && !Wraps(s, clock[0])
    ensures ClockSuffices(s, clock)
    ensures IntendedStep(workerId, s, clock) == GetLongIdStep(workerId, s, clock)
  {
  }

  /** A clock reading the 40-bit timestamp field can hold. */
  predicate InEpoch(t: Long) {
    0 <= t - Twepoch < 0x100_0000_0000
  }

  /** Every reading of every call is in the epoch's range. */
  predicate ReadingsInEpoch(calls: seq<seq<Long>>) {
    forall i, j :: 0 <= i < |calls| && 0 <= j < |calls[i]| ==> InEpoch(calls[i][j])
  }

  /** The state a run may start from: the class-load state, or one that records
      an id which fits the layout. */
  predicate Issuable(workerId: Long, s: Shared) {
    s == Initial || FitsLayout(workerId, s.lastTimestamp, s.sequence)
  }

  /** Each call of the run has the clock readings it needs. */
  predicate RunDefined(workerId: Long, s: Shared, calls: seq<seq<Long>>)
    decreases |calls|
  {
    |calls| == 0 ||
    (ClockSuffices(s, calls[0]) && RunDefined(workerId, IntendedStep(workerId, s, calls[0]).next, calls[1..]))
  }

  /** The ids a run of intended calls issues, in order; failed calls issue none. */
  function IntendedRun(workerId: Long, s: Shared, calls: seq<seq<Long>>): seq<Long>
    requires RunDefined(workerId, s, calls)
    decreases |calls|
  {
    if |calls| == 0 then []
    else
      var t := IntendedStep(workerId, s, calls[0]);
      (if t.outcome.Id? then [t.outcome.value] else []) + IntendedRun(workerId, t.next, calls[1..])
  }

  predicate StrictlyIncreasing(ids: seq<Long>) {
    forall i, j :: 0 <= i < j < |ids| ==> ids[i] < ids[j]
  }

  /** One intended call: an issued id is the packing of the new state, which
      fits the layout, and lies above the id the old state records; a failed
      call changes nothing. */
  lemma IntendedStepIncreases(workerId: Long, s: Shared, clock: seq<Long>)
    requires 0 <= workerId < 0x1000 && Issuable(workerId, s)
    requires ClockSuffices(s, clock) && forall j :: 0 <= j < |clock| ==> InEpoch(clock[j])
    ensures var t := IntendedStep(workerId, s, clock);
            if t.outcome.Id? then
              FitsLayout(workerId, t.next.lastTimestamp, t.next.sequence) &&
              t.outcome.value == Pack(workerId, t.next.lastTimestamp, t.next.sequence) &&
              (s != Initial ==> Pack(workerId, s.lastTimestamp, s.sequence) < t.outcome.value)
            else
              t.next == s
  {
    var timestamp := clock[0];
    if s != Initial && timestamp >= s.lastTimestamp {
      var t := IntendedStep(workerId, s, clock);
      if Wraps(s, timestamp) {
        var k := FirstLater(clock, s.lastTimestamp, 1);
        PackIncreasing(workerId, s.lastTimestamp, s.sequence, clock[k], 0);
      } else if timestamp == s.lastTimestamp {
        PackIncreasing(workerId, s.lastTimestamp, s.sequence, timestamp, NextSequence(s.sequence));
      } else {
        PackIncreasing(workerId, s.lastTimestamp, s.sequence, timestamp, 0);
      }
    }
  }

  /** The calls after the first keep their readings in the epoch's range. */
  lemma ReadingsInEpochTail(calls: seq<seq<Long>>)
    requires |calls| > 0 && ReadingsInEpoch(calls)
    ensures forall j :: 0 <= j < |calls[0]| ==> InEpoch(calls[0][j])
    ensures ReadingsInEpoch(calls[1..])
  {
    forall i, j | 0 <= i < |calls[1..]| && 0 <= j < |calls[1..][i]|
      ensures InEpoch(calls[1..][i][j])
    {
      assert calls[1..][i] == calls[i + 1];
    }
  }

  /** An id below every id of a strictly increasing run extends it at the
      front. */
  lemma PrependIncreasing(id: Long, rest: seq<Long>)
    requires StrictlyIncreasing(rest)
    requires forall i :: 0 <= i < |rest| ==> id < rest[i]
    ensures StrictlyIncreasing([id] + rest)
  {
    var ids := [id] + rest;
    forall i, j | 0 <= i < j < |ids|
      ensures ids[i] < ids[j]
    {
      assert ids[j] == rest[j - 1];
      if i > 0 {
        assert ids[i] == rest[i - 1];
      }
    }
  }

  /** Over any run of intended calls whose readings fit the layout, the issued
      ids strictly increase, so none is issued twice; and all of them lie above
      the id recorded by the starting state. */
  lemma {:induction false} IntendedRunIncreasing(workerId: Long, s: Shared, calls: seq<seq<Long>>)
    requires 0 <= workerId < 0x1000 && Issuable(workerId, s)
    requires RunDefined(workerId, s, calls) && ReadingsInEpoch(calls)
    ensures StrictlyIncreasing(IntendedRun(workerId, s, calls))
    ensures s != Initial ==>
              forall i :: 0 <= i < |IntendedRun(workerId, s, calls)| ==>
                Pack(workerId, s.lastTimestamp, s.sequence) < IntendedRun(workerId, s, calls)[i]
    decreases |calls|
  {
    if |calls| > 0 {
      var t := IntendedStep(workerId, s, calls[0]);
      ReadingsInEpochTail(calls);
      IntendedStepIncreases(workerId, s, calls[0]);
      IntendedRunIncreasing(workerId, t.next, calls[1..]);
      var rest := IntendedRun(workerId, t.next, calls[1..]);
      if t.outcome.Id? {
        assert t.next != Initial;
        PrependIncreasing(t.outcome.value, rest);
        assert IntendedRun(workerId, s, calls) == [t.outcome.value] + rest;
      } else {
        assert IntendedRun(workerId, s, calls) == rest;
      }
    }
  }
}
