/**
 The tick loop of frz/frz_watchdog.go over arbitrary finite traces of ticks.

 A tick shows whether the target lives, what reading the mapped record gave, and one clock value
 in nanoseconds that stands for every time.Now() of that tick.
 */
module FreezeWatchdog {
  import opened Wrappers
  import opened HeartbeatRecord

  const FREEZE_THRESHOLD := 2_000_000_000

  datatype Trust = Trust(hmac: (Key, seq<Byte>) -> Digest, authority: Key, pid: U32)

  datatype Tick = Tick(now: int, alive: bool, record: Option<Record>)

  datatype Outcome = Watching | TargetGone | Unauthenticated | CleanStop | Replay | Frozen

  // ---------------------------------------------------------------- the trace, without any loop state

  predicate Readable(ticks: seq<Tick>, i: nat)
    requires i < |ticks|
  {
    ticks[i].alive && ticks[i].record.Some?
  }

  /** The last readable tick before `n`, or -1. */
  function Last(ticks: seq<Tick>, n: nat): (p: int)
    requires n <= |ticks|
    ensures -1 <= p < n && (p >= 0 ==> Readable(ticks, p))
    ensures forall j :: p < j < n ==> !Readable(ticks, j)
  {
    if n == 0 then -1 else if Readable(ticks, n - 1) then n - 1 else Last(ticks, n - 1)
  }

  /** Timestamp and counter seen at a readable tick; the loop starts from zeros. */
  function Beat(ticks: seq<Tick>, p: int): (int, int)
    requires -1 <= p < |ticks| && (p >= 0 ==> Readable(ticks, p))
  {
    if p < 0 then (0, 0) else (ticks[p].record.value.tsNs, ticks[p].record.value.counter)
  }

  predicate Before(a: (int, int), b: (int, int)) { a.0 < b.0 || (a.0 == b.0 && a.1 < b.1) }

  predicate Regresses(ticks: seq<Tick>, i: nat)
    requires i < |ticks| && Readable(ticks, i)
  {
    var earlier := Beat(ticks, Last(ticks, i));
    earlier.0 != 0 && Before(Beat(ticks, i), earlier)
  }

  predicate Repeats(ticks: seq<Tick>, i: nat)
    requires i < |ticks| && Readable(ticks, i)
  {
    Beat(ticks, i) == Beat(ticks, Last(ticks, i))
  }

  ghost predicate Steady(ticks: seq<Tick>, s: nat, i: nat)
    requires s <= i < |ticks| && Readable(ticks, s)
  {
    forall j :: s <= j <= i && Readable(ticks, j) ==> Beat(ticks, j) == Beat(ticks, s)
  }

  /** `s` shows the first repeat after the last advance and nothing has advanced from there to `i`. */
  ghost predicate StillSince(ticks: seq<Tick>, s: nat, i: nat)
    requires s <= i < |ticks| && Readable(ticks, s)
  {
    && Steady(ticks, s, i)
    && Repeats(ticks, s)
    && (Last(ticks, s) >= 0 ==> !Repeats(ticks, Last(ticks, s)))
  }

  ghost predicate FrozenFrom(ticks: seq<Tick>, s: int, i: nat)
    requires i < |ticks|
  {
    0 <= s < i && Readable(ticks, s) && StillSince(ticks, s, i) && ticks[i].now - ticks[s].now >= FREEZE_THRESHOLD
  }

  ghost predicate FreezeAt(ticks: seq<Tick>, i: nat)
    requires i < |ticks| && Readable(ticks, i)
  {
    exists s :: FrozenFrom(ticks, s, i)
  }

  /** What tick `i` decides, given that no earlier tick decided anything. */
  ghost function Decision(trust: Trust, ticks: seq<Tick>, i: nat): Outcome
    requires i < |ticks|
  {
    if !ticks[i].alive then TargetGone
    else if ticks[i].record.None? then Watching
    else if !Authentic(trust.hmac, trust.authority, trust.pid, ticks[i].record.value) then Unauthenticated
    else if !Running(ticks[i].record.value) then CleanStop
    else if Regresses(ticks, i) then Replay
    else if FreezeAt(ticks, i) then Frozen
    else Watching
  }

  ghost predicate Undecided(trust: Trust, ticks: seq<Tick>, n: nat)
    requires n <= |ticks|
  {
    forall j :: 0 <= j < n ==> Decision(trust, ticks, j) == Watching
  }

  // ---------------------------------------------------------------- the loop

  /** What the three loop variables mean after the first `n` ticks. */
  ghost predicate LoopState(ticks: seq<Tick>, n: nat, lastTs: int, lastCounter: int, frozenSince: Option<int>)
    requires n <= |ticks|
  {
    var p := Last(ticks, n);
    && (lastTs, lastCounter) == Beat(ticks, p)
    && (frozenSince.None? ==> p < 0 || !Repeats(ticks, p))
    && (frozenSince.Some? ==>
          p >= 0 && exists s :: 0 <= s <= p && Readable(ticks, s) && StillSince(ticks, s, p) && ticks[s].now == frozenSince.value)
  }

  /** There is one first repeat: the freeze timer has no choice. */
  lemma StillSinceIsUnique(ticks: seq<Tick>, s: nat, t: nat, i: nat)
    requires s <= i < |ticks| && t <= i && Readable(ticks, s) && Readable(ticks, t)
    requires StillSince(ticks, s, i) && StillSince(ticks, t, i)
    ensures s == t
  {
    if s < t { RepeatInside(ticks, s, t, i); }
    if t < s { RepeatInside(ticks, t, s, i); }
  }

  lemma RepeatInside(ticks: seq<Tick>, s: nat, t: nat, i: nat)
    requires s < t <= i < |ticks| && Readable(ticks, s) && Readable(ticks, t) && StillSince(ticks, s, i)
    ensures Repeats(ticks, t) && Last(ticks, t) >= s && Repeats(ticks, Last(ticks, t))
  {
    var p := Last(ticks, t);
    assert s <= p;
    if s < p { assert Last(ticks, p) >= s; }
  }

  /** The tick after a still stretch: either it advances or the stretch goes on. */
  lemma StillStep(ticks: seq<Tick>, i: nat)
    requires i < |ticks| && Readable(ticks, i)
    ensures Last(ticks, i + 1) == i
    ensures !Repeats(ticks, i) ==> !FreezeAt(ticks, i)
    ensures Repeats(ticks, i) && (Last(ticks, i) < 0 || !Repeats(ticks, Last(ticks, i))) ==>
              StillSince(ticks, i, i) && !FreezeAt(ticks, i)
  {
    if Repeats(ticks, i) && (Last(ticks, i) < 0 || !Repeats(ticks, Last(ticks, i))) {
      forall s | 0 <= s < i && Readable(ticks, s) ensures !StillSince(ticks, s, i) {
        if StillSince(ticks, s, i) { StillSinceIsUnique(ticks, s, i, i); }
      }
    }
    if !Repeats(ticks, i) {
      forall s | 0 <= s < i && Readable(ticks, s) ensures !StillSince(ticks, s, i) {
        assert s <= Last(ticks, i);
      }
    }
  }

  lemma StillGoesOn(ticks: seq<Tick>, s: nat, i: nat)
    requires i < |ticks| && Readable(ticks, i) && Repeats(ticks, i)
    requires Last(ticks, i) >= s && Readable(ticks, s) && StillSince(ticks, s, Last(ticks, i))
    ensures StillSince(ticks, s, i)
    ensures FreezeAt(ticks, i) <==> ticks[i].now - ticks[s].now >= FREEZE_THRESHOLD
  {
    var p := Last(ticks, i);
    forall j | s <= j <= i && Readable(ticks, j) ensures Beat(ticks, j) == Beat(ticks, s) {
      assert j <= p || j == i;
    }
    if t :| FrozenFrom(ticks, t, i) {
      StillSinceIsUnique(ticks, s, t, i);
    }
    assert ticks[i].now - ticks[s].now >= FREEZE_THRESHOLD ==> FrozenFrom(ticks, s, i);
  }

  /** The freeze timer at a readable tick that does not regress: cleared, started, running or due. */
  method Time(ghost ticks: seq<Tick>, ghost i: nat, record: Record, now: int,
              lastTs: int, lastCounter: int, since: Option<int>)
    returns (frozen: bool, frozenSince: Option<int>)
    requires i < |ticks| && Readable(ticks, i) && ticks[i].record.value == record && ticks[i].now == now
    requires LoopState(ticks, i, lastTs, lastCounter, since) && !Regresses(ticks, i)
    ensures frozen <==> FreezeAt(ticks, i)
    ensures LoopState(ticks, i + 1, record.tsNs, record.counter, frozenSince)
  {
    var advanced := record.tsNs > lastTs || record.counter != lastCounter;
    assert advanced <==> !Repeats(ticks, i);
    StillStep(ticks, i);
    if advanced {
      return false, None;
    }
    if since.None? {
      return false, Some(now);
    }
    ghost var p := Last(ticks, i);
    ghost var s :| 0 <= s <= p && Readable(ticks, s) && StillSince(ticks, s, p) && ticks[s].now == since.value;
    StillGoesOn(ticks, s, i);
    return now - since.value >= FREEZE_THRESHOLD, since;
  }

  /** Runs over the ticks until one of them ends the process; only a freeze isolates the network and kills. */
  method Watch(trust: Trust, ticks: seq<Tick>)
    returns (outcome: Outcome, at: nat, isolated: bool, killed: bool, alerts: nat)
    ensures at <= |ticks| && Undecided(trust, ticks, at)
    ensures outcome == if at < |ticks| then Decision(trust, ticks, at) else Watching
    ensures outcome == Watching ==> at == |ticks|
    ensures isolated == killed == (outcome == Frozen)
    ensures alerts == if outcome in {Unauthenticated, Replay, Frozen} then 1 else 0
  {
    var lastTs, lastCounter := 0, 0;
    var frozenSince: Option<int> := None;
    outcome, at, isolated, killed, alerts := Watching, 0, false, false, 0;
    while at < |ticks|
      invariant at <= |ticks| && Undecided(trust, ticks, at)
      invariant LoopState(ticks, at, lastTs, lastCounter, frozenSince)
      invariant outcome == Watching && !isolated && !killed && alerts == 0
    {
      var tick := ticks[at];
      if !tick.alive { outcome := TargetGone; return; }
      if tick.record.None? {
        at := at + 1;
        continue;
      }
      var record := tick.record.value;
      var accepted := AuthenticateRecord(trust.hmac, trust.authority, trust.pid, record);
      if !accepted {
        outcome, alerts := Unauthenticated, 1;
        return;
      }
      if !Running(record) { outcome := CleanStop; return; }
      if lastTs != 0 && (record.tsNs < lastTs || (record.tsNs == lastTs && record.counter < lastCounter)) {
        outcome, alerts := Replay, 1;
        return;
      }
      var frozen;
      frozen, frozenSince := Time(ticks, at, record, tick.now, lastTs, lastCounter, frozenSince);
      lastTs, lastCounter := record.tsNs, record.counter;
      if frozen {
        outcome, alerts, isolated, killed := Frozen, 1, true, true;
        return;
      }
      at := at + 1;
    }
  }

  // ---------------------------------------------------------------- what the decisions mean over whole traces

  ghost predicate ClockNeverGoesBack(ticks: seq<Tick>) {
    forall i, j :: 0 <= i <= j < |ticks| ==> ticks[i].now <= ticks[j].now
  }

  /** The detector is complete: any repeat that lasts two seconds ends the watch by then. */
  lemma FrozenBeatIsCaught(trust: Trust, ticks: seq<Tick>, s: nat, i: nat)
    requires ClockNeverGoesBack(ticks) && s < i < |ticks| && Readable(ticks, s) && Readable(ticks, i)
    requires Repeats(ticks, s)
    requires Steady(ticks, s, i)
    requires ticks[i].now - ticks[s].now >= FREEZE_THRESHOLD
    ensures !Undecided(trust, ticks, i + 1)
  {
    var t := FirstRepeat(ticks, s, i);
    assert ticks[t].now <= ticks[s].now;
    assert FrozenFrom(ticks, t, i);
    assert FreezeAt(ticks, i);
    assert Decision(trust, ticks, i) != Watching;
  }

  lemma {:induction false} FirstRepeat(ticks: seq<Tick>, s: nat, i: nat) returns (t: nat)
    requires s <= i < |ticks| && Readable(ticks, s) && Repeats(ticks, s)
    requires Steady(ticks, s, i)
    ensures t <= s && Readable(ticks, t) && StillSince(ticks, t, i)
    decreases s
  {
    var p := Last(ticks, s);
    if p >= 0 && Repeats(ticks, p) {
      t := FirstRepeat(ticks, p, i);
    } else {
      t := s;
    }
  }

  /** The detector is sound: before a kill the beat stood still at every readable tick of two seconds, all of them accepted. */
  lemma KillMeansTwoStillSeconds(trust: Trust, ticks: seq<Tick>, i: nat) returns (s: nat)
    requires i < |ticks| && Undecided(trust, ticks, i) && Decision(trust, ticks, i) == Frozen
    ensures s < i && Readable(ticks, s) && Readable(ticks, i) && Repeats(ticks, s)
    ensures ticks[i].now - ticks[s].now >= FREEZE_THRESHOLD
    ensures forall j :: s <= j <= i && Readable(ticks, j) ==>
                          && Beat(ticks, j) == Beat(ticks, i)
                          && Authentic(trust.hmac, trust.authority, trust.pid, ticks[j].record.value)
                          && Running(ticks[j].record.value)
  {
    s :| FrozenFrom(ticks, s, i);
    assert Beat(ticks, i) == Beat(ticks, s);
    forall j | s <= j <= i && Readable(ticks, j)
      ensures Authentic(trust.hmac, trust.authority, trust.pid, ticks[j].record.value) && Running(ticks[j].record.value)
    {
      assert Decision(trust, ticks, j) == if j < i then Watching else Frozen;
    }
  }

  /** Accepted records never step back in (timestamp, counter) once a timestamp is non-zero. */
  lemma {:induction false} AcceptedBeatsAreOrdered(trust: Trust, ticks: seq<Tick>, j: nat, k: nat)
    requires j <= k < |ticks| && Undecided(trust, ticks, k + 1)
    requires Readable(ticks, j) && Readable(ticks, k) && Beat(ticks, j).0 != 0
    ensures !Before(Beat(ticks, k), Beat(ticks, j))
    decreases k
  {
    if j < k {
      var p := Last(ticks, k);
      assert j <= p;
      AcceptedBeatsAreOrdered(trust, ticks, j, p);
      assert Decision(trust, ticks, k) == Watching;
      assert !Regresses(ticks, k);
    }
  }

  /** The watch takes this record for one of its running target. */
  ghost predicate Acceptable(trust: Trust, r: Record) {
    Authentic(trust.hmac, trust.authority, trust.pid, r) && Running(r)
  }

  function Two(r: Record, s: Record): seq<Tick> { [Tick(0, true, Some(r)), Tick(0, true, Some(s))] }

  /** The proviso matters: after a zero timestamp a lower counter is accepted and the watch goes on. */
  lemma ZeroTimestampSkipsTheCheck(trust: Trust, r: Record, s: Record)
    requires Acceptable(trust, r) && Acceptable(trust, s) && r.tsNs == s.tsNs == 0 && s.counter < r.counter
    ensures Undecided(trust, Two(r, s), 2) && Before(Beat(Two(r, s), 1), Beat(Two(r, s), 0))
  {
    var ticks := Two(r, s);
    assert Last(ticks, 0) == -1 && Last(ticks, 1) == 0;
    StillStep(ticks, 0);
    StillStep(ticks, 1);
    assert Repeats(ticks, 0) ==> r.counter == 0;
    assert Decision(trust, ticks, 0) == Watching && Decision(trust, ticks, 1) == Watching;
  }

  /** The same target may write this record: the given one with another counter, and the proof for it. */
  function Recounted(trust: Trust, r: Record, counter: U32): Record {
    var s := r.(counter := counter);
    var mac: seq<Byte> := trust.hmac(trust.hmac(trust.authority, AUTH_CONTEXT + COMPONENT), Payload(s));
    BackThenLittle(mac[..8]);
    WordBounds();
    s.(proof := FromLittle(mac[..8]))
  }

  lemma RecountedIsAcceptable(trust: Trust, r: Record, counter: U32)
    requires Acceptable(trust, r)
    ensures Acceptable(trust, Recounted(trust, r, counter))
  {
    var s := Recounted(trust, r, counter);
    assert Payload(s) == Payload(r.(counter := counter));
    var mac: seq<Byte> := trust.hmac(trust.hmac(trust.authority, AUTH_CONTEXT + COMPONENT), Payload(s));
    BackThenLittle(mac[..8]);
  }

  /** After a first record `r` nothing accepted at tick `k` steps back behind it. */
  ghost predicate KeepsOrder(trust: Trust, r: Record, ticks: seq<Tick>, k: nat) {
    (&& k < |ticks| && ticks[0].alive && ticks[0].record == Some(r)
     && Readable(ticks, k) && Undecided(trust, ticks, k + 1)) ==>
      !Before(Beat(ticks, k), Beat(ticks, 0))
  }

  /**
   Whatever is accepted later never steps back behind an accepted record, in any trace, exactly when its
   timestamp is not zero or its counter cannot fall.
   */
  lemma OrderIsKeptExactly(trust: Trust, r: Record)
    requires Acceptable(trust, r)
    ensures (forall ticks, k: nat :: KeepsOrder(trust, r, ticks, k)) <==> r.tsNs != 0 || r.counter == 0
  {
    if r.tsNs != 0 || r.counter == 0 {
      forall ticks, k: nat ensures KeepsOrder(trust, r, ticks, k) {
        LaterKeepsOrder(trust, r, ticks, k);
      }
    } else {
      var s := Recounted(trust, r, 0);
      RecountedIsAcceptable(trust, r, 0);
      ZeroTimestampSkipsTheCheck(trust, r, s);
      assert Two(r, s)[..2] == Two(r, s);
      assert !KeepsOrder(trust, r, Two(r, s), 1);
    }
  }

  lemma LaterKeepsOrder(trust: Trust, r: Record, ticks: seq<Tick>, k: nat)
    requires r.tsNs != 0 || r.counter == 0
    ensures KeepsOrder(trust, r, ticks, k)
  {
    if k < |ticks| && ticks[0].alive && ticks[0].record == Some(r) && Readable(ticks, k) && Undecided(trust, ticks, k + 1) && r.tsNs != 0 {
      AcceptedBeatsAreOrdered(trust, ticks, 0, k);
    }
  }

  // ---------------------------------------------------------------- each decision, read off the ticks

  predicate Seen(ticks: seq<Tick>, p: int) { 0 <= p < |ticks| && ticks[p].alive && ticks[p].record.Some? }

  /** `p` is the last tick before `s` at which a record was seen. */
  ghost predicate JustBefore(ticks: seq<Tick>, p: int, s: int) {
    0 <= p < s && Seen(ticks, p) && forall j :: p < j < s ==> !Seen(ticks, j)
  }

  predicate SameBeat(ticks: seq<Tick>, p: int, s: int)
    requires Seen(ticks, p) && Seen(ticks, s)
  {
    ticks[p].record.value.tsNs == ticks[s].record.value.tsNs && ticks[p].record.value.counter == ticks[s].record.value.counter
  }

  predicate ZeroBeat(ticks: seq<Tick>, s: int)
    requires Seen(ticks, s)
  {
    ticks[s].record.value.tsNs == 0 && ticks[s].record.value.counter == 0
  }

  /** `s` shows the beat seen just before it; before the first record that is a beat of zeros. */
  ghost predicate Repeated(ticks: seq<Tick>, s: int)
    requires Seen(ticks, s)
  {
    if exists p :: JustBefore(ticks, p, s) then exists p :: JustBefore(ticks, p, s) && SameBeat(ticks, p, s)
    else ZeroBeat(ticks, s)
  }

  /** From its first repeat at `s` to `i`, two seconds at least, the beat did not change. */
  ghost predicate StoodStill(ticks: seq<Tick>, s: int, i: int) {
    && s < i && Seen(ticks, s) && Seen(ticks, i) && Repeated(ticks, s)
    && (forall p :: JustBefore(ticks, p, s) ==> !Repeated(ticks, p))
    && (forall j :: s <= j <= i && Seen(ticks, j) ==> SameBeat(ticks, j, s))
    && ticks[i].now - ticks[s].now >= 2_000_000_000
  }

  ghost predicate Genuine(trust: Trust, r: Record) {
    && r.magic == 0x4157_4447 && r.pid == trust.pid && (r.flags == 0x8000_0000 || r.flags == 0x8000_0001)
    && Little(8, r.proof) == trust.hmac(trust.hmac(trust.authority, AUTH_CONTEXT + COMPONENT), Payload(r))[..8]
  }

  ghost predicate SteppedBack(ticks: seq<Tick>, i: int) {
    exists p :: && JustBefore(ticks, p, i) && Seen(ticks, i) && ticks[p].record.value.tsNs != 0
                && var a, b := ticks[p].record.value, ticks[i].record.value;
                   b.tsNs < a.tsNs || (b.tsNs == a.tsNs && b.counter < a.counter)
  }

  lemma LastIsJustBefore(ticks: seq<Tick>, s: nat)
    requires s < |ticks|
    ensures forall p :: JustBefore(ticks, p, s) <==> p >= 0 && p == Last(ticks, s)
  {
    var l := Last(ticks, s);
    assert l >= 0 ==> Readable(ticks, l) && Seen(ticks, l);
    forall j | l < j < s ensures !Seen(ticks, j) { assert !Readable(ticks, j); }
    assert l >= 0 ==> JustBefore(ticks, l, s);
    forall p | JustBefore(ticks, p, s) ensures p == l {
      assert Readable(ticks, p);
    }
  }

  lemma RepeatsIsRepeated(ticks: seq<Tick>, s: nat)
    requires s < |ticks| && Readable(ticks, s)
    ensures Repeats(ticks, s) <==> Repeated(ticks, s)
    ensures Regresses(ticks, s) <==> SteppedBack(ticks, s)
  {
    LastIsJustBefore(ticks, s);
    var l := Last(ticks, s);
    if l >= 0 { assert JustBefore(ticks, l, s); }
  }

  lemma FrozenFromStoodStill(ticks: seq<Tick>, s: nat, i: nat)
    requires s < i < |ticks| && Readable(ticks, i)
    ensures FrozenFrom(ticks, s, i) <==> StoodStill(ticks, s, i)
  {
    if Readable(ticks, s) {
      RepeatsIsRepeated(ticks, s);
      LastIsJustBefore(ticks, s);
      var l := Last(ticks, s);
      if l >= 0 { RepeatsIsRepeated(ticks, l); assert JustBefore(ticks, l, s); }
      forall j | s <= j <= i && Seen(ticks, j) ensures SameBeat(ticks, j, s) <==> Beat(ticks, j) == Beat(ticks, s) {
      }
    }
  }

  /** What ends the watch at a tick: the target gone, a record not genuine, a clean flag, a step back, a freeze. */
  lemma DecisionExactly(trust: Trust, ticks: seq<Tick>, i: nat)
    requires i < |ticks|
    ensures Decision(trust, ticks, i) == TargetGone <==> !ticks[i].alive
    ensures Decision(trust, ticks, i) == Unauthenticated <==> Seen(ticks, i) && !Genuine(trust, ticks[i].record.value)
    ensures var running := Seen(ticks, i) && Genuine(trust, ticks[i].record.value) && ticks[i].record.value.flags == 0x8000_0001;
            && (Decision(trust, ticks, i) == CleanStop <==>
                  Seen(ticks, i) && Genuine(trust, ticks[i].record.value) && ticks[i].record.value.flags == 0x8000_0000)
            && (Decision(trust, ticks, i) == Replay <==> running && SteppedBack(ticks, i))
            && (Decision(trust, ticks, i) == Frozen <==> running && !SteppedBack(ticks, i) && exists s :: StoodStill(ticks, s, i))
  {
    if Seen(ticks, i) {
      RepeatsIsRepeated(ticks, i);
      forall s: nat | s < i ensures FrozenFrom(ticks, s, i) <==> StoodStill(ticks, s, i) {
        FrozenFromStoodStill(ticks, s, i);
      }
      assert FreezeAt(ticks, i) <==> exists s :: StoodStill(ticks, s, i);
    }
  }

  // ---------------------------------------------------------------- unreadable ticks are invisible

  function Without(ticks: seq<Tick>, k: nat): seq<Tick>
    requires k < |ticks|
  {
    ticks[..k] + ticks[k + 1..]
  }

  /** Where tick `i` of the longer trace stands after tick `k` is gone. */
  function Moved(k: nat, i: int): int { if i > k then i - 1 else i }

  lemma {:induction false} LastWithout(ticks: seq<Tick>, k: nat, n: nat)
    requires k < |ticks| && n <= |ticks| && !Readable(ticks, k)
    ensures n <= k ==> Last(Without(ticks, k), n) == Last(ticks, n)
    ensures n > k ==> Last(Without(ticks, k), n - 1) == Moved(k, Last(ticks, n)) && Last(ticks, n) != k
    decreases n
  {
    if n > 0 { LastWithout(ticks, k, n - 1); }
  }

  lemma SameTick(ticks: seq<Tick>, k: nat, i: nat)
    requires k < |ticks| && i < |ticks| && i != k
    ensures 0 <= Moved(k, i) < |Without(ticks, k)| && Without(ticks, k)[Moved(k, i)] == ticks[i]
  {
  }

  lemma SteadyWithout(ticks: seq<Tick>, k: nat, s: nat, i: nat)
    requires k < |ticks| && !Readable(ticks, k) && s <= i < |ticks| && Readable(ticks, s) && Readable(ticks, i)
    ensures Moved(k, s) <= Moved(k, i) < |Without(ticks, k)| && Readable(Without(ticks, k), Moved(k, s))
    ensures Steady(ticks, s, i) <==> Steady(Without(ticks, k), Moved(k, s), Moved(k, i))
  {
    var w := Without(ticks, k);
    SameTick(ticks, k, s);
    if Steady(ticks, s, i) {
      forall j | Moved(k, s) <= j <= Moved(k, i) && Readable(w, j) ensures Beat(w, j) == Beat(w, Moved(k, s)) {
        var m := if j < k then j else j + 1;
        SameTick(ticks, k, m);
        assert Readable(ticks, m);
      }
    }
    if Steady(w, Moved(k, s), Moved(k, i)) {
      forall j | s <= j <= i && Readable(ticks, j) ensures Beat(ticks, j) == Beat(ticks, s) {
        SameTick(ticks, k, j);
        assert Readable(w, Moved(k, j));
      }
    }
  }

  lemma RepeatsWithout(ticks: seq<Tick>, k: nat, s: nat)
    requires k < |ticks| && !Readable(ticks, k) && s < |ticks| && Readable(ticks, s)
    ensures Readable(Without(ticks, k), Moved(k, s))
    ensures Last(Without(ticks, k), Moved(k, s)) == Moved(k, Last(ticks, s))
    ensures Repeats(ticks, s) <==> Repeats(Without(ticks, k), Moved(k, s))
    ensures Regresses(ticks, s) <==> Regresses(Without(ticks, k), Moved(k, s))
  {
    LastWithout(ticks, k, s);
    SameTick(ticks, k, s);
    if Last(ticks, s) >= 0 { SameTick(ticks, k, Last(ticks, s)); }
  }

  lemma FrozenFromWithout(ticks: seq<Tick>, k: nat, s: nat, i: nat)
    requires k < |ticks| && !Readable(ticks, k) && s < i < |ticks| && Readable(ticks, s) && Readable(ticks, i)
    ensures Moved(k, i) < |Without(ticks, k)|
    ensures FrozenFrom(ticks, s, i) <==> FrozenFrom(Without(ticks, k), Moved(k, s), Moved(k, i))
  {
    SteadyWithout(ticks, k, s, i);
    RepeatsWithout(ticks, k, s);
    if Last(ticks, s) >= 0 { RepeatsWithout(ticks, k, Last(ticks, s)); }
    SameTick(ticks, k, s);
    SameTick(ticks, k, i);
  }

  lemma FreezeWithout(ticks: seq<Tick>, k: nat, i: nat)
    requires k < |ticks| && !Readable(ticks, k) && i < |ticks| && Readable(ticks, i)
    ensures Readable(Without(ticks, k), Moved(k, i))
    ensures FreezeAt(ticks, i) <==> FreezeAt(Without(ticks, k), Moved(k, i))
  {
    var w := Without(ticks, k);
    SameTick(ticks, k, i);
    if s :| FrozenFrom(ticks, s, i) {
      FrozenFromWithout(ticks, k, s, i);
    }
    if t :| FrozenFrom(w, t, Moved(k, i)) {
      var s := if t < k then t else t + 1;
      SameTick(ticks, k, s);
      FrozenFromWithout(ticks, k, s, i);
    }
  }

  /** A tick whose record could not be read neither fires, nor resets the freeze timer, nor changes any later decision. */
  lemma UnreadableTickChangesNothing(trust: Trust, ticks: seq<Tick>, k: nat, i: nat)
    requires k < |ticks| && ticks[k].alive && ticks[k].record.None?
    requires i < |ticks| && i != k
    ensures Decision(trust, ticks, k) == Watching
    ensures Decision(trust, ticks, i) == Decision(trust, Without(ticks, k), Moved(k, i))
  {
    SameTick(ticks, k, i);
    if Readable(ticks, i) {
      FreezeWithout(ticks, k, i);
      RepeatsWithout(ticks, k, i);
    }
  }
}
