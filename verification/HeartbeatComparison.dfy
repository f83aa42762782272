/**
 `SuiteHealthWorker._observe_bus` in blackbox_recorder.py: each poll compares the status snapshot on
 disk with the process found running and with the last heartbeat it accepted.

 A field that is missing or of the wrong type is None, as is a snapshot that is empty or no mapping;
 times are real numbers of seconds.
 */
module HeartbeatComparison {
  import opened Wrappers

  const GRACE: real := 6.0

  datatype Metrics = Metrics(
    isInline: bool, revision: Option<int>, subscribers: Option<int>, deliveries: Option<int>,
    failures: Option<int>, overruns: Option<int>)

  datatype Snapshot = Snapshot(
    pid: Option<int>, started: Option<real>, generated: Option<real>, interval: Option<real>, bus: Option<Metrics>)

  /** What one poll sees: the snapshot, the process found with its birth, and the clock. */
  datatype Poll = Poll(snapshot: Option<Snapshot>, pid: Option<int>, started: Option<real>, now: real)

  datatype Sample = Sample(pid: int, started: real, generated: real, revision: int, deliveries: int)

  datatype Verdict = Unknown | Stale | Observed | Active | Quiet

  datatype Note = Unbound | WrongProcess | BadMetadata | BadTimestamp | Overdue | BadCounters | Counted

  datatype Warning = SubscriberFailures(count: int) | BudgetOverruns(count: int)

  datatype Report = Report(ts: Option<real>, current: bool, verdict: Verdict, note: Note, warnings: seq<Warning>)

  datatype Memory = Memory(sample: Option<Sample>, verdict: Verdict)

  const NEW := Memory(None, Observed)

  function Abs(x: real): real {
    if x < 0.0 then -x else x
  }

  function Max(x: real, y: real): real {
    if x < y then y else x
  }

  /** The snapshot names the process found, by pid and by birth. */
  predicate Bound(p: Poll) {
    && p.pid.Some? && p.pid.value != 0
    && p.snapshot.Some? && p.snapshot.value.pid == p.pid
    && p.started.Some? && p.snapshot.value.started.Some?
    && Abs(p.snapshot.value.started.value - p.started.value) <= 0.01
  }

  /** Bound, and its heartbeat is dated after the process began and not in the future, up to the grace. */
  predicate Dated(p: Poll) {
    && Bound(p)
    && p.snapshot.value.generated.Some?
    && p.snapshot.value.interval.Some? && p.snapshot.value.interval.value > 0.0
    && p.snapshot.value.generated.value >= p.started.value - GRACE
    && p.snapshot.value.generated.value <= p.now + GRACE
  }

  predicate Late(p: Poll)
    requires Dated(p)
  {
    p.now > p.snapshot.value.generated.value + 2.0 * Max(30.0, p.snapshot.value.interval.value) + GRACE
  }

  predicate Natural(n: Option<int>) {
    n.Some? && n.value >= 0
  }

  predicate Countable(m: Metrics) {
    && m.isInline && Natural(m.revision) && Natural(m.subscribers) && Natural(m.deliveries)
    && Natural(m.failures) && Natural(m.overruns)
  }

  /** The heartbeat is current and its counters can be compared. */
  predicate Accepted(p: Poll) {
    Dated(p) && !Late(p) && p.snapshot.value.bus.Some? && Countable(p.snapshot.value.bus.value)
  }

  /** Nothing is bound to the process, or the heartbeat is overdue: earlier heartbeats are dropped. */
  predicate Forgets(p: Poll) {
    !Bound(p) || (Dated(p) && Late(p))
  }

  function SampleOf(p: Poll): Sample
    requires Accepted(p)
  {
    var s := p.snapshot.value;
    Sample(p.pid.value, p.started.value, s.generated.value, s.bus.value.revision.value, s.bus.value.deliveries.value)
  }

  /** The verdict on an accepted heartbeat, given what earlier polls left behind. */
  function Judged(memory: Memory, sample: Sample): Verdict {
    match memory.sample
    case Some(last) =>
      if (last.pid, last.started) != (sample.pid, sample.started) then Observed
      else if sample.generated == last.generated then memory.verdict
      else if Advanced(last, sample) then if SameCounters(last, sample) then Quiet else Active
      else Observed
    case None => Observed
  }

  predicate Advanced(before: Sample, after: Sample) {
    && (before.pid, before.started) == (after.pid, after.started)
    && before.generated < after.generated
    && before.revision <= after.revision && before.deliveries <= after.deliveries
  }

  predicate SameCounters(before: Sample, after: Sample) {
    before.revision == after.revision && before.deliveries == after.deliveries
  }

  function Next(memory: Memory, p: Poll): Memory {
    if Accepted(p) then Memory(Some(SampleOf(p)), Judged(memory, SampleOf(p)))
    else if Forgets(p) then memory.(sample := None)
    else memory
  }

  function Reported(memory: Memory, p: Poll): Verdict {
    if Accepted(p) then Judged(memory, SampleOf(p))
    else if Dated(p) && Late(p) then Stale
    else Unknown
  }

  class SuiteHealthWorker {
    var lastSample: Option<Sample>
    var lastVerdict: Verdict

    function Remembered(): Memory
      reads this
    {
      Memory(lastSample, lastVerdict)
    }

    constructor ()
      ensures Remembered() == NEW
    {
      lastSample, lastVerdict := None, Observed;
    }

    method ObserveBus(snapshot: Option<Snapshot>, pid: Option<int>, started: Option<real>, now: real)
      returns (result: Report)
      modifies this
      ensures Remembered() == Next(old(Remembered()), Poll(snapshot, pid, started, now))
      ensures result.verdict == Reported(old(Remembered()), Poll(snapshot, pid, started, now))
      ensures var p := Poll(snapshot, pid, started, now);
        && (result.current <==> Dated(p) && !Late(p))
        && result.ts == (if Dated(p) then snapshot.value.generated else None)
        && (result.note.Counted? <==> Accepted(p))
        && (result.note.Overdue? <==> Dated(p) && Late(p))
        && (Forgets(p) <==> result.note.Unbound? || result.note.WrongProcess? || result.note.Overdue?)
        && (result.note.BadCounters? <==> result.current && !Accepted(p))
      ensures forall w :: w in result.warnings <==>
        && Accepted(Poll(snapshot, pid, started, now))
        && (|| (w.SubscriberFailures? && Some(w.count) == snapshot.value.bus.value.failures)
            || (w.BudgetOverruns? && Some(w.count) == snapshot.value.bus.value.overruns))
        && w.count != 0
    {
      result := Report(None, false, Unknown, Unbound, []);
      if pid.None? || pid.value == 0 || snapshot.None? {
        lastSample := None;
        return;
      }
      var s := snapshot.value;
      if s.pid != pid || s.started.None? || started.None? || Abs(s.started.value - started.value) > 0.01 {
        lastSample := None;
        return result.(note := WrongProcess);
      }
      if s.generated.None? || s.interval.None? || s.interval.value <= 0.0 {
        return result.(note := BadMetadata);
      }
      var age := now - s.generated.value;
      if s.generated.value < started.value - GRACE || age < -GRACE {
        return result.(note := BadTimestamp);
      }
      result := result.(ts := s.generated);
      if age > Max(30.0, s.interval.value) * 2.0 + GRACE {
        lastSample := None;
        return result.(verdict := Stale, note := Overdue);
      }
      result := result.(current := true);
      if s.bus.None? || !Countable(s.bus.value) {
        return result.(note := BadCounters);
      }
      var m := s.bus.value;
      var sample := Sample(pid.value, started.value, s.generated.value, m.revision.value, m.deliveries.value);
      var verdict := Observed;
      if lastSample.Some? && lastSample.value.pid == sample.pid && lastSample.value.started == sample.started {
        var last := lastSample.value;
        if s.generated.value == last.generated {
          verdict := lastVerdict;
        } else if s.generated.value > last.generated && sample.revision >= last.revision &&
                  sample.deliveries >= last.deliveries {
          verdict := if (sample.revision, sample.deliveries) != (last.revision, last.deliveries) then Active else Quiet;
        }
      }
      lastSample, lastVerdict := Some(sample), verdict;
      var warnings := [];
      if m.failures.value != 0 { warnings := [SubscriberFailures(m.failures.value)]; }
      if m.overruns.value != 0 { warnings := warnings + [BudgetOverruns(m.overruns.value)]; }
      result := result.(verdict := verdict, note := Counted, warnings := warnings);
    }
  }

  /** What a new worker remembers after a sequence of polls. */
  function After(polls: seq<Poll>): Memory {
    if polls == [] then NEW else Next(After(polls[..|polls| - 1]), polls[|polls| - 1])
  }

  /** What the poll at `i` of that sequence reports. */
  function VerdictAt(polls: seq<Poll>, i: nat): Verdict
    requires i < |polls|
  {
    Reported(After(polls[..i]), polls[i])
  }

  /** Nothing in `(from, to)` was accepted or dropped what was remembered at `from`. */
  ghost predicate Undisturbed(polls: seq<Poll>, from: nat, to: nat)
    requires from < to <= |polls|
  {
    && Accepted(polls[from])
    && forall m :: from < m < to ==> !Accepted(polls[m]) && !Forgets(polls[m])
  }

  /** From `from` on, every heartbeat accepted is the very one accepted at `from`, and none was dropped. */
  ghost predicate Reread(polls: seq<Poll>, from: nat, to: nat)
    requires from <= to < |polls|
  {
    && Accepted(polls[from])
    && forall m :: from < m <= to ==>
         !Forgets(polls[m]) && (Accepted(polls[m]) ==> SameHeartbeat(SampleOf(polls[from]), SampleOf(polls[m])))
  }

  predicate SameHeartbeat(a: Sample, b: Sample) {
    (a.pid, a.started, a.generated) == (b.pid, b.started, b.generated)
  }

  /** `k` is the poll that first compared the heartbeat seen at `i`, and `j` the accepted poll before it. */
  ghost predicate Compared(polls: seq<Poll>, j: nat, k: nat, i: nat) {
    && j < k <= i < |polls|
    && Undisturbed(polls, j, k) && Reread(polls, k, i) && Accepted(polls[i])
    && Advanced(SampleOf(polls[j]), SampleOf(polls[k]))
  }

  /** What is remembered is the last heartbeat accepted, with its verdict, unless it was dropped since. */
  lemma {:induction false} Remembers(polls: seq<Poll>) returns (k: nat)
    ensures After(polls).sample.Some? ==>
      && k < |polls| && Undisturbed(polls, k, |polls|)
      && After(polls) == Memory(Some(SampleOf(polls[k])), VerdictAt(polls, k))
    ensures After(polls).sample.None? ==>
      forall j :: 0 <= j < |polls| && Accepted(polls[j]) ==> exists m :: j < m < |polls| && Forgets(polls[m])
  {
    k := 0;
    if polls != [] {
      var n := |polls| - 1;
      var before := polls[..n];
      k := Remembers(before);
      if Accepted(polls[n]) {
        k := n;
      } else if After(polls).sample.Some? {
        assert polls[..k] == before[..k];
      } else {
        forall j | 0 <= j < |polls| && Accepted(polls[j]) ensures exists m :: j < m < |polls| && Forgets(polls[m]) {
          if !Forgets(polls[n]) {
            assert Accepted(before[j]);
            var m :| j < m < n && Forgets(before[m]);
            assert Forgets(polls[m]);
          }
        }
      }
    }
  }

  lemma OnlyOneIsLast(polls: seq<Poll>, a: nat, b: nat, i: nat)
    requires a < i && b < i && i < |polls| && Undisturbed(polls, a, i) && Undisturbed(polls, b, i)
    ensures a == b
  {
  }

  /** A heartbeat read again was compared when it was first read. */
  lemma RereadSharesTheComparison(polls: seq<Poll>, j: nat, k: nat, first: nat, i: nat)
    requires first < i < |polls| && Undisturbed(polls, first, i) && Accepted(polls[i])
    requires SameHeartbeat(SampleOf(polls[first]), SampleOf(polls[i]))
    ensures Compared(polls, j, k, first) <==> Compared(polls, j, k, i)
  {
    if Compared(polls, j, k, first) {
      assert Reread(polls, k, i);
    }
    if Compared(polls, j, k, i) {
      assert k <= first by {
        if k == i { OnlyOneIsLast(polls, j, first, i); }
      }
      assert Reread(polls, k, first);
    }
  }

  /** A heartbeat that is not the last one accepted can only have been compared with that one, now. */
  lemma NewHeartbeatComparesOnce(polls: seq<Poll>, last: nat, j: nat, k: nat, i: nat)
    requires last < i < |polls| && Undisturbed(polls, last, i) && Accepted(polls[i])
    requires !SameHeartbeat(SampleOf(polls[last]), SampleOf(polls[i]))
    ensures Compared(polls, j, k, i) <==> j == last && k == i && Advanced(SampleOf(polls[last]), SampleOf(polls[i]))
  {
    if Compared(polls, j, k, i) {
      assert k == i || k <= last;
      if k == i { OnlyOneIsLast(polls, j, last, i); }
    }
    if j == last && k == i && Advanced(SampleOf(polls[last]), SampleOf(polls[i])) {
      assert Reread(polls, i, i);
    }
  }

  predicate Confirms(verdict: Verdict, before: Sample, after: Sample) {
    verdict == if SameCounters(before, after) then Quiet else Active
  }

  ghost predicate Witnessed(polls: seq<Poll>, i: nat, verdict: Verdict) {
    exists j: nat, k: nat :: Compared(polls, j, k, i) && Confirms(verdict, SampleOf(polls[j]), SampleOf(polls[k]))
  }

  lemma DroppedMeansNotWitnessed(polls: seq<Poll>, i: nat, verdict: Verdict)
    requires i < |polls| && After(polls[..i]).sample.None?
    ensures !Witnessed(polls, i, verdict)
  {
    var before := polls[..i];
    var _ := Remembers(before);
    forall j: nat, k: nat ensures !Compared(polls, j, k, i) {
      if j < k <= i && Accepted(before[j]) {
        var m :| j < m < i && Forgets(before[m]);
        assert Forgets(polls[m]) && !Accepted(polls[m]);
      }
    }
  }

  lemma RereadSharesTheWitness(polls: seq<Poll>, first: nat, i: nat, verdict: Verdict)
    requires first < i < |polls| && Undisturbed(polls, first, i) && Accepted(polls[i])
    requires SameHeartbeat(SampleOf(polls[first]), SampleOf(polls[i]))
    ensures Witnessed(polls, first, verdict) <==> Witnessed(polls, i, verdict)
  {
    forall j: nat, k: nat ensures Compared(polls, j, k, first) <==> Compared(polls, j, k, i) {
      RereadSharesTheComparison(polls, j, k, first, i);
    }
  }

  lemma NewHeartbeatWitness(polls: seq<Poll>, last: nat, i: nat, verdict: Verdict)
    requires last < i < |polls| && Undisturbed(polls, last, i) && Accepted(polls[i])
    requires !SameHeartbeat(SampleOf(polls[last]), SampleOf(polls[i]))
    ensures Witnessed(polls, i, verdict) <==>
      && Advanced(SampleOf(polls[last]), SampleOf(polls[i]))
      && Confirms(verdict, SampleOf(polls[last]), SampleOf(polls[i]))
  {
    forall j: nat, k: nat ensures Compared(polls, j, k, i) <==>
        j == last && k == i && Advanced(SampleOf(polls[last]), SampleOf(polls[i])) {
      NewHeartbeatComparesOnce(polls, last, j, k, i);
    }
  }

  /**
   Over every sequence of polls, ACTIVE (or QUIET) is reported exactly when the heartbeat now read was
   first accepted after another of the same process, dated earlier, with no counter going back, and
   the counters differ (or do not), and nothing dropped either of the two since.
   */
  lemma {:induction false} ReportedExactlyWhenWitnessed(polls: seq<Poll>, i: nat, verdict: Verdict)
    requires i < |polls| && (verdict == Active || verdict == Quiet)
    ensures VerdictAt(polls, i) == verdict <==> Witnessed(polls, i, verdict)
    decreases i
  {
    if Accepted(polls[i]) {
      var before := polls[..i];
      var last := Remembers(before);
      if After(before).sample.None? {
        DroppedMeansNotWitnessed(polls, i, verdict);
      } else {
        assert before[..last] == polls[..last];
        assert Undisturbed(polls, last, i) by { assert Undisturbed(before, last, i); }
        if SameHeartbeat(SampleOf(polls[last]), SampleOf(polls[i])) {
          ReportedExactlyWhenWitnessed(polls, last, verdict);
          RereadSharesTheWitness(polls, last, i, verdict);
        } else {
          NewHeartbeatWitness(polls, last, i, verdict);
        }
      }
    }
  }

  /**
   ACTIVE needs two accepted heartbeats of one process, the later being the one now read, in strictly
   increasing time, with counters that went forward.
   */
  lemma ActiveNeedsTwoHeartbeats(polls: seq<Poll>, i: nat) returns (j: nat, k: nat)
    requires i < |polls| && VerdictAt(polls, i) == Active
    ensures j < k <= i && Accepted(polls[j]) && Accepted(polls[k]) && Accepted(polls[i])
    ensures SameHeartbeat(SampleOf(polls[k]), SampleOf(polls[i]))
    ensures Advanced(SampleOf(polls[j]), SampleOf(polls[k])) && !SameCounters(SampleOf(polls[j]), SampleOf(polls[k]))
  {
    ReportedExactlyWhenWitnessed(polls, i, Active);
    j, k :| Compared(polls, j, k, i) && Confirms(Active, SampleOf(polls[j]), SampleOf(polls[k]));
  }

  /** Reading one heartbeat again, however often and with whatever unusable snapshots between, repeats its verdict. */
  lemma {:induction false} RereadingRepeatsTheVerdict(polls: seq<Poll>, first: nat, i: nat)
    requires first <= i < |polls| && Reread(polls, first, i) && Accepted(polls[i])
    ensures VerdictAt(polls, i) == VerdictAt(polls, first)
    decreases i
  {
    if first < i {
      var before := polls[..i];
      var last := Remembers(before);
      assert Accepted(before[first]);
      assert forall m :: first < m < i ==> before[m] == polls[m] && !Forgets(before[m]);
      assert before[..last] == polls[..last];
      assert before[last] == polls[last];
      RereadingRepeatsTheVerdict(polls, first, last);
    }
  }

  /** After a snapshot that is stale or not of the process, the next heartbeat accepted starts afresh. */
  lemma {:induction false} ForgettingStartsAfresh(polls: seq<Poll>, f: nat, i: nat)
    requires f < i < |polls| && Forgets(polls[f]) && Accepted(polls[i])
    requires forall m :: f < m < i ==> !Accepted(polls[m])
    ensures VerdictAt(polls, i) == Observed
  {
    var before := polls[..i];
    var last := Remembers(before);
    assert Forgets(before[f]) && !Accepted(before[f]);
    assert forall m :: f < m < i ==> before[m] == polls[m];
  }

  // ---------------------------------------------------------------- what a poll needs, field by field

  /** A heartbeat is accepted exactly when it is this process's, dated, not overdue, and has all five counters. */
  lemma AcceptedExactly(p: Poll)
    ensures var bound := p.pid.Some? && p.pid.value != 0 && p.snapshot.Some? && p.started.Some?
                         && p.snapshot.value.pid == Some(p.pid.value) && p.snapshot.value.started.Some?
                         && -0.01 <= p.snapshot.value.started.value - p.started.value <= 0.01;
            var dated := bound && p.snapshot.value.generated.Some? && p.snapshot.value.interval.Some?
                         && p.snapshot.value.interval.value > 0.0
                         && p.snapshot.value.generated.value >= p.started.value - 6.0
                         && p.snapshot.value.generated.value - p.now <= 6.0;
            var overdue := dated && p.now - p.snapshot.value.generated.value > 66.0
                           && p.now - p.snapshot.value.generated.value > 2.0 * p.snapshot.value.interval.value + 6.0;
            && (Bound(p) <==> bound) && (Dated(p) <==> dated) && (Dated(p) && Late(p) <==> overdue)
            && (Forgets(p) <==> !bound || overdue)
            && (Accepted(p) <==>
                  && dated && !overdue
                  && p.snapshot.value.bus.Some? && p.snapshot.value.bus.value.isInline
                  && var m := p.snapshot.value.bus.value;
                     && m.revision.Some? && m.revision.value >= 0 && m.subscribers.Some? && m.subscribers.value >= 0
                     && m.deliveries.Some? && m.deliveries.value >= 0
                     && m.failures.Some? && m.failures.value >= 0 && m.overruns.Some? && m.overruns.value >= 0)
    ensures Accepted(p) ==>
              && SampleOf(p).pid == p.pid.value && SampleOf(p).started == p.started.value
              && Some(SampleOf(p).generated) == p.snapshot.value.generated
              && Some(SampleOf(p).revision) == p.snapshot.value.bus.value.revision
              && Some(SampleOf(p).deliveries) == p.snapshot.value.bus.value.deliveries
  {
  }

  /** An accepted heartbeat is observed, active or quiet; so it is only observed exactly when no comparison says more. */
  lemma {:induction false} AcceptedVerdicts(polls: seq<Poll>, i: nat)
    requires i < |polls|
    ensures Accepted(polls[i]) ==> VerdictAt(polls, i) in {Observed, Active, Quiet}
    ensures !Accepted(polls[i]) ==> VerdictAt(polls, i) == if Dated(polls[i]) && Late(polls[i]) then Stale else Unknown
    decreases i
  {
    if Accepted(polls[i]) {
      var before := polls[..i];
      var last := Remembers(before);
      if After(before).sample.Some? {
        AcceptedVerdicts(polls, last);
        assert before[..last] == polls[..last];
      }
    }
  }
}
