/**
 `monitor` in frz/angerona_watchdog.go: why one launched agent instance ended, over any order in which
 the select statement delivers poll ticks and the death of the process.
 */
module AgentMonitor {
  import opened Wrappers
  import opened HeartbeatRecord
  import opened StopAuthority

  const FREEZE_THRESHOLD := 5_000_000_000

  datatype Beat = Beat(ts: U64, flags: U32)

  /**
   What one select delivers: the stop flag, the stop file and (for a tick) the agent's beat, with one
   wall clock in seconds for the file's age and one monotonic clock in nanoseconds.
   */
  datatype Event =
    | Death(wall: int, shutting: bool, file: StopFile)
    | Poll(wall: int, shutting: bool, file: StopFile, now: int, beat: Option<Beat>)

  datatype Reason = Watched | Clean | Stop | Died | Suspended

  /** An instance: its token, when the watch began and the beat found in the file then. */
  datatype Watch = Watch(mac: StopMac, token: Token, start: int, first: Option<Beat>)

  ghost predicate Stopped(w: Watch, e: Event) {
    e.shutting || Authorises(w.mac, e.wall, w.token, e.file)
  }

  predicate Read(events: seq<Event>, i: nat)
    requires i < |events|
  {
    events[i].Poll? && events[i].beat.Some?
  }

  /** The timestamp last read before event `n`; an unreadable file counts as zero at the start only. */
  function LastTs(w: Watch, events: seq<Event>, n: nat): int
    requires n <= |events|
  {
    if n == 0 then (if w.first.Some? then w.first.value.ts else 0)
    else if Read(events, n - 1) then events[n - 1].beat.value.ts
    else LastTs(w, events, n - 1)
  }

  predicate Advances(w: Watch, events: seq<Event>, i: nat)
    requires i < |events|
  {
    Read(events, i) && events[i].beat.value.ts != LastTs(w, events, i)
  }

  /** When the timestamp last changed, or when the watch began. */
  function LastAdvance(w: Watch, events: seq<Event>, n: nat): int
    requires n <= |events|
  {
    if n == 0 then w.start
    else if Advances(w, events, n - 1) then events[n - 1].now
    else LastAdvance(w, events, n - 1)
  }

  ghost function Decision(w: Watch, events: seq<Event>, i: nat): Reason
    requires i < |events|
  {
    if Stopped(w, events[i]) then Stop
    else if events[i].Death? then Died
    else if !Read(events, i) then Watched
    else if events[i].beat.value.flags == 0 then Clean
    else if !Advances(w, events, i) && events[i].beat.value.flags == 1
            && events[i].now - LastAdvance(w, events, i) > FREEZE_THRESHOLD then Suspended
    else Watched
  }

  ghost predicate Undecided(w: Watch, events: seq<Event>, n: nat)
    requires n <= |events|
  {
    forall j :: 0 <= j < n ==> Decision(w, events, j) == Watched
  }

  /** The reason the whole trace gives: that of the first event that decides. */
  ghost predicate EndsWith(w: Watch, events: seq<Event>, reason: Reason) {
    if reason == Watched then Undecided(w, events, |events|)
    else exists at :: 0 <= at < |events| && Undecided(w, events, at) && Decision(w, events, at) == reason
  }

  method Monitor(w: Watch, events: seq<Event>) returns (reason: Reason, at: nat)
    ensures at <= |events| && Undecided(w, events, at)
    ensures reason == if at < |events| then Decision(w, events, at) else Watched
    ensures EndsWith(w, events, reason)
  {
    var lastTs := if w.first.Some? then w.first.value.ts else 0;
    var lastAdvance := w.start;
    at := 0;
    while at < |events|
      invariant at <= |events| && Undecided(w, events, at)
      invariant lastTs == LastTs(w, events, at) && lastAdvance == LastAdvance(w, events, at)
    {
      var e := events[at];
      if e.Death? {
        // The stop is checked before the exit is classified as a crash.
        if e.shutting { return Stop, at; }
        var stop := AuthenticatedStop(w.mac, e.wall, w.token, e.file);
        return if stop then Stop else Died, at;
      }
      if e.shutting { return Stop, at; }
      var stop := AuthenticatedStop(w.mac, e.wall, w.token, e.file);
      if stop { return Stop, at; }
      if e.beat.Some? && e.beat.value.flags == 0 { return Clean, at; }
      if e.beat.Some? && e.beat.value.ts != lastTs {
        lastTs, lastAdvance := e.beat.value.ts, e.now;
      } else if e.beat.Some? && e.beat.value.flags == 1 && e.now - lastAdvance > FREEZE_THRESHOLD {
        return Suspended, at;
      }
      at := at + 1;
    }
    reason := Watched;
  }

  lemma EndIsUnique(w: Watch, events: seq<Event>, r: Reason, s: Reason)
    requires EndsWith(w, events, r) && EndsWith(w, events, s)
    ensures r == s
  {
    if r != Watched && s != Watched {
      var i :| 0 <= i < |events| && Undecided(w, events, i) && Decision(w, events, i) == r;
      var j :| 0 <= j < |events| && Undecided(w, events, j) && Decision(w, events, j) == s;
      assert i == j;
    }
  }

  /** A death seen while the operator's stop is in force is never a crash. */
  lemma DeathUnderStopIsAStop(w: Watch, events: seq<Event>, i: nat)
    requires i < |events| && Undecided(w, events, i) && events[i].Death? && Stopped(w, events[i])
    ensures EndsWith(w, events, Stop) && !EndsWith(w, events, Died)
  {
    assert Decision(w, events, i) == Stop;
    if EndsWith(w, events, Died) { EndIsUnique(w, events, Stop, Died); }
  }

  /** `s` polls have passed since the last advance: none of them read a new timestamp. */
  ghost predicate QuietSince(w: Watch, events: seq<Event>, s: nat, i: nat)
    requires s <= i <= |events|
  {
    && (s > 0 ==> Advances(w, events, s - 1))
    && LastAdvance(w, events, i) == (if s == 0 then w.start else events[s - 1].now)
    && forall j :: s <= j < i && Read(events, j) ==> events[j].beat.value.ts == LastTs(w, events, s)
  }

  lemma {:induction false} LastAdvanceStart(w: Watch, events: seq<Event>, i: nat) returns (s: nat)
    requires i <= |events|
    ensures s <= i && QuietSince(w, events, s, i)
    ensures LastTs(w, events, i) == LastTs(w, events, s)
    decreases i
  {
    if i == 0 || Advances(w, events, i - 1) {
      s := i;
    } else {
      s := LastAdvanceStart(w, events, i - 1);
    }
  }

  /** A suspension is five seconds in which every beat that could be read showed the same timestamp. */
  lemma SuspensionMeansStall(w: Watch, events: seq<Event>, i: nat) returns (s: nat)
    requires i < |events| && Decision(w, events, i) == Suspended
    ensures s <= i && QuietSince(w, events, s, i + 1)
    ensures events[i].now - LastAdvance(w, events, i) > FREEZE_THRESHOLD && events[i].beat.value.flags == 1
  {
    s := LastAdvanceStart(w, events, i);
  }

  /** And such a stretch, of a running agent, always ends the watch. */
  lemma StallIsCaught(w: Watch, events: seq<Event>, s: nat, i: nat)
    requires s <= i < |events| && Read(events, i) && events[i].beat.value.flags == 1
    requires QuietSince(w, events, s, i)
    requires events[i].beat.value.ts == LastTs(w, events, s) && events[i].now - LastAdvance(w, events, i) > FREEZE_THRESHOLD
    ensures Decision(w, events, i) in {Stop, Suspended}
  {
    QuietKeepsTs(w, events, s, i);
  }

  lemma {:induction false} QuietKeepsTs(w: Watch, events: seq<Event>, s: nat, i: nat)
    requires s <= i <= |events|
    requires forall j :: s <= j < i && Read(events, j) ==> events[j].beat.value.ts == LastTs(w, events, s)
    ensures LastTs(w, events, i) == LastTs(w, events, s)
    decreases i
  {
    if s < i { QuietKeepsTs(w, events, s, i - 1); }
  }

  /** "Clean" needs no sign of life from this instance: one stale beat with flags 0 is enough. */
  lemma StaleCleanBeatIsBelieved(w: Watch, stale: Beat, wall: int, now: int)
    requires stale.flags == 0 && w.first == Some(stale) && |w.token| == 32
    ensures EndsWith(w, [Poll(wall, false, Absent, now, Some(stale))], Clean)
  {
    assert Decision(w, [Poll(wall, false, Absent, now, Some(stale))], 0) == Clean;
  }

  /** A clean verdict comes from a beat other than the one found in the file when the watch began. */
  ghost predicate FreshClean(w: Watch, events: seq<Event>) {
    EndsWith(w, events, Clean) ==>
      exists i :: 0 <= i < |events| && Undecided(w, events, i) && Decision(w, events, i) == Clean && events[i].beat != w.first
  }

  lemma CleanComesFromAFreshBeat(w: Watch, events: seq<Event>)
    requires w.first.None? || w.first.value.flags != 0
    ensures FreshClean(w, events)
  {
    if EndsWith(w, events, Clean) {
      var i :| 0 <= i < |events| && Undecided(w, events, i) && Decision(w, events, i) == Clean;
      assert events[i].beat.Some? && events[i].beat.value.flags == 0;
    }
  }

  /** Every clean verdict comes from a beat written since the watch began, exactly when the beat found then was not clean. */
  lemma CleanIsFreshExactly(w: Watch)
    requires |w.token| == 32
    ensures (forall events :: FreshClean(w, events)) <==> w.first.None? || w.first.value.flags != 0
  {
    if w.first.None? || w.first.value.flags != 0 {
      forall events ensures FreshClean(w, events) {
        CleanComesFromAFreshBeat(w, events);
      }
    } else {
      var events := [Poll(0, false, Absent, 0, w.first)];
      StaleCleanBeatIsBelieved(w, w.first.value, 0, 0);
      assert !FreshClean(w, events);
    }
  }

  // ---------------------------------------------------------------- what each reason means, from the events alone

  /** Before any beat could be read the timestamp that counts is the first one's. */
  lemma {:induction false} LastTsAtFirst(w: Watch, events: seq<Event>, n: nat)
    requires n <= |events| && forall j :: 0 <= j < n ==> !(events[j].Poll? && events[j].beat.Some?)
    ensures LastTs(w, events, n) == if w.first.Some? then w.first.value.ts else 0
    decreases n
  {
    if n > 0 { LastTsAtFirst(w, events, n - 1); }
  }

  /** From then on it is that of the last beat that could be read. */
  lemma {:induction false} LastTsExactly(w: Watch, events: seq<Event>, j: nat, n: nat)
    requires j < n <= |events| && events[j].Poll? && events[j].beat.Some?
    requires forall k :: j < k < n ==> !(events[k].Poll? && events[k].beat.Some?)
    ensures LastTs(w, events, n) == events[j].beat.value.ts
    decreases n
  {
    if j < n - 1 { LastTsExactly(w, events, j, n - 1); }
  }

  /** For five seconds up to `i`, from the watch's begin or a new timestamp on, every beat read shows one timestamp. */
  ghost predicate Stalled(w: Watch, events: seq<Event>, s: nat, i: nat) {
    && s <= i < |events|
    && (s > 0 ==>
          events[s - 1].Poll? && events[s - 1].beat.Some? && events[s - 1].beat.value.ts != LastTs(w, events, s - 1))
    && (forall j :: s <= j <= i && events[j].Poll? && events[j].beat.Some? ==> events[j].beat.value.ts == LastTs(w, events, s))
    && events[i].Poll? && events[i].now - (if s == 0 then w.start else events[s - 1].now) > 5_000_000_000
  }

  lemma {:induction false} NoAdvanceSince(w: Watch, events: seq<Event>, s: nat, i: nat)
    requires s <= i <= |events| && (s > 0 ==> Advances(w, events, s - 1))
    requires forall j :: s <= j < i && Read(events, j) ==> events[j].beat.value.ts == LastTs(w, events, s)
    ensures LastTs(w, events, i) == LastTs(w, events, s)
    ensures LastAdvance(w, events, i) == if s == 0 then w.start else events[s - 1].now
    decreases i
  {
    if s < i { NoAdvanceSince(w, events, s, i - 1); }
  }

  lemma SuspendedWhenStalled(w: Watch, events: seq<Event>, s: nat, i: nat)
    requires Stalled(w, events, s, i) && events[i].beat.Some?
    ensures !Advances(w, events, i) && events[i].now - LastAdvance(w, events, i) > FREEZE_THRESHOLD
  {
    NoAdvanceSince(w, events, s, i);
  }

  lemma StalledWhenSuspended(w: Watch, events: seq<Event>, i: nat)
    requires i < |events| && Decision(w, events, i) == Suspended
    ensures exists s :: Stalled(w, events, s, i)
  {
    var s := LastAdvanceStart(w, events, i);
    assert Stalled(w, events, s, i);
  }

  /** Each reason, read off the event: a stop first, then a death, a clean beat, and a stall of a running agent. */
  lemma DecisionExactly(w: Watch, events: seq<Event>, i: nat)
    requires i < |events|
    ensures var e, stopped := events[i], events[i].shutting || Authorises(w.mac, events[i].wall, w.token, events[i].file);
            && (Decision(w, events, i) == Stop <==> stopped)
            && (Decision(w, events, i) == Died <==> !stopped && e.Death?)
            && (Decision(w, events, i) == Clean <==> !stopped && e.Poll? && e.beat.Some? && e.beat.value.flags == 0)
            && (Decision(w, events, i) == Suspended <==>
                  && !stopped && e.Poll? && e.beat.Some? && e.beat.value.flags == 1
                  && exists s :: Stalled(w, events, s, i))
  {
    if Decision(w, events, i) == Suspended { StalledWhenSuspended(w, events, i); }
    if events[i].Poll? && events[i].beat.Some? {
      if s :| Stalled(w, events, s, i) { SuspendedWhenStalled(w, events, s, i); }
    }
  }
}
