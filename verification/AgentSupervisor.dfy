/**
 `supervise` in frz/angerona_watchdog.go over any finite script of launch attempts: what the stop file,
 the binary on disk, the launch and the watched instance do in each pass of the loop.
 */
module AgentSupervisor {
  import opened Wrappers
  import opened HeartbeatRecord
  import opened StopAuthority
  import opened RestartThrottle
  import opened AgentMonitor

  /** A lowercase-hex digest of the agent binary; never the empty text. */
  type Hash = h: string | h != "" witness "0"

  /** One pass of the loop, as the environment plays it. */
  datatype Attempt = Attempt(
    wall: int,
    shutting: bool,
    file: StopFile,
    hash: Option<Hash>,
    token: Token,
    launchAt: int,
    launched: bool,
    first: Option<Beat>,
    events: seq<Event>,
    failAt: int)

  /** What the loop does: a launch shows the token, the recovery mark and the digest that was checked for it. */
  datatype Launch = Launch(token: Token, recovery: bool, checked: Option<Hash>)

  datatype Exit = StopRequested | IntegrityRefused | CleanExit | StoppedByOwner | Storm | StillWatching

  // ---------------------------------------------------------------- what each pass owes, from the script alone

  /** The baseline of the whole run: configured, or learned from the first binary that was hashed. */
  function Baseline(expected: string, script: seq<Attempt>): Option<string>
  {
    if expected != "" then Some(expected)
    else if script == [] || script[0].hash.None? then None
    else Some(script[0].hash.value)
  }

  function Intact(expected: string, script: seq<Attempt>, k: nat): bool
    requires k < |script|
  {
    script[k].hash.Some? && Baseline(expected, script) == Some(script[k].hash.value)
  }

  function PreviousToken(script: seq<Attempt>, k: nat): Token
    requires k <= |script|
  {
    if k == 0 then [] else script[k - 1].token
  }

  function Instance(mac: StopMac, a: Attempt): Watch {
    Watch(mac, a.token, a.launchAt, a.first)
  }

  /** The failure times of the first `k` passes. */
  function Failures(script: seq<Attempt>, k: nat): seq<int>
    requires k <= |script|
  {
    seq(k, i requires 0 <= i < k => script[i].failAt)
  }

  /** The launches of the first `n` passes: each with its own token, only the first without the recovery mark. */
  function LaunchLog(script: seq<Attempt>, n: nat): seq<Launch>
    requires n <= |script|
  {
    if n == 0 then [] else LaunchLog(script, n - 1) + [Launch(script[n - 1].token, n > 1, script[n - 1].hash)]
  }

  /** The sleeps after the first `n` failures. */
  function DelayLog(script: seq<Attempt>, n: nat): seq<int>
    requires n <= |script|
  {
    if n == 0 then [] else DelayLog(script, n - 1) + [Backoff(|Kept(Failures(script, n))|)]
  }

  ghost predicate StopsFirst(mac: StopMac, script: seq<Attempt>, k: nat)
    requires k < |script|
  {
    script[k].shutting || Authorises(mac, script[k].wall, PreviousToken(script, k), script[k].file)
  }

  ghost predicate Launches(mac: StopMac, expected: string, script: seq<Attempt>, k: nat)
    requires k < |script|
  {
    !StopsFirst(mac, script, k) && Intact(expected, script, k)
  }

  /** How a launched instance ends the run, unless it died or was suspended. */
  ghost function InstanceExit(mac: StopMac, a: Attempt): Option<Exit> {
    if !a.launched then None
    else if EndsWith(Instance(mac, a), a.events, Clean) then Some(CleanExit)
    else if EndsWith(Instance(mac, a), a.events, Stop) then Some(StoppedByOwner)
    else if EndsWith(Instance(mac, a), a.events, Watched) then Some(StillWatching)
    else None
  }

  /** How pass `k` ends the run, or None when it goes on to the next one. */
  ghost function PassEnd(mac: StopMac, expected: string, script: seq<Attempt>, k: nat): Option<Exit>
    requires k < |script|
  {
    if StopsFirst(mac, script, k) then Some(StopRequested)
    else if !Intact(expected, script, k) then Some(IntegrityRefused)
    else if InstanceExit(mac, script[k]).Some? then InstanceExit(mac, script[k])
    else if |Kept(Failures(script, k + 1))| > MAX_RAPID_RESTARTS then Some(Storm)
    else None
  }

  ghost predicate GoesOn(mac: StopMac, expected: string, script: seq<Attempt>, n: nat)
    requires n <= |script|
  {
    n == 0 || (GoesOn(mac, expected, script, n - 1) && PassEnd(mac, expected, script, n - 1) == None)
  }

  lemma {:induction false} GoesOnThrough(mac: StopMac, expected: string, script: seq<Attempt>, n: nat, k: nat)
    requires k < n <= |script| && GoesOn(mac, expected, script, n)
    ensures GoesOn(mac, expected, script, k) && PassEnd(mac, expected, script, k) == None
    decreases n
  {
    if k < n - 1 { GoesOnThrough(mac, expected, script, n - 1, k); }
  }

  // ---------------------------------------------------------------- the loop

  /** The integrity gate: without a baseline the first digest becomes it. */
  method VerifyIntegrity(baseline: string, hash: Option<Hash>) returns (ok: bool, learned: string)
    ensures ok <==> hash.Some? && (baseline == "" || hash.value == baseline)
    ensures learned == if ok then hash.value else baseline
  {
    if hash.None? { return false, baseline; }
    if baseline == "" { return true, hash.value; }
    return hash.value == baseline, baseline;
  }

  method InstanceEnd(mac: StopMac, a: Attempt) returns (end: Option<Exit>)
    requires a.launched
    ensures end == InstanceExit(mac, a)
  {
    var reason, at := Monitor(Instance(mac, a), a.events);
    OneReason(Instance(mac, a), a.events, reason);
    match reason
    case Clean => end := Some(CleanExit);
    case Stop => end := Some(StoppedByOwner);
    case Watched => end := Some(StillWatching);
    case _ => end := None;
  }

  /** One pass up to the end of its instance; the throttle comes after it. */
  method LaunchPass(mac: StopMac, a: Attempt, previousToken: Token, baseline: string, recovery: bool)
    returns (exit: Option<Exit>, learned: string, launch: Option<Launch>)
    ensures var stops := a.shutting || Authorises(mac, a.wall, previousToken, a.file);
            var intact := a.hash.Some? && (baseline == "" || a.hash.value == baseline);
            && launch == (if !stops && intact then Some(Launch(a.token, recovery, a.hash)) else None)
            && exit == (if stops then Some(StopRequested) else if !intact then Some(IntegrityRefused) else InstanceExit(mac, a))
            && learned == (if !stops && intact then a.hash.value else baseline)
  {
    learned, launch := baseline, None;
    var stop := false;
    if !a.shutting { stop := AuthenticatedStop(mac, a.wall, previousToken, a.file); }
    if a.shutting || stop { return Some(StopRequested), learned, None; }
    var ok;
    ok, learned := VerifyIntegrity(baseline, a.hash);
    if !ok { return Some(IntegrityRefused), learned, None; }
    launch := Some(Launch(a.token, recovery, a.hash));
    exit := None;
    if a.launched { exit := InstanceEnd(mac, a); }
  }

  lemma OneMoreFailure(script: seq<Attempt>, n: nat)
    requires n < |script|
    ensures Kept(Failures(script, n + 1)) == Recent(Kept(Failures(script, n)), script[n].failAt) + [script[n].failAt]
  {
    assert Failures(script, n + 1)[..n] == Failures(script, n);
  }

  lemma OneMorePass(script: seq<Attempt>, n: nat)
    requires n < |script|
    ensures LaunchLog(script, n + 1) == LaunchLog(script, n) + [Launch(script[n].token, n > 0, script[n].hash)]
    ensures DelayLog(script, n + 1) == DelayLog(script, n) + [Backoff(|Kept(Failures(script, n + 1))|)]
  {
  }

  /** The end of a pass whose instance failed: give up, or sleep. */
  method Throttle(ghost script: seq<Attempt>, ghost n: nat, restarts: RestartLog, failAt: int)
    returns (storm: bool, delay: int)
    requires n < |script| && script[n].failAt == failAt
    requires restarts.Valid() && restarts.Times() == Kept(Failures(script, n))
    modifies restarts, restarts.cells
    ensures restarts.Valid() && restarts.Times() == Kept(Failures(script, n + 1))
    ensures restarts.cells == old(restarts.cells) || fresh(restarts.cells)
    ensures storm <==> |Kept(Failures(script, n + 1))| > MAX_RAPID_RESTARTS
    ensures delay == Backoff(|Kept(Failures(script, n + 1))|)
  {
    OneMoreFailure(script, n);
    storm := restarts.GiveUp(failAt);
    assert restarts.count == |restarts.Times()|;
    delay := Backoff(restarts.count);
  }

  /** What the loop variables hold before pass `n`. */
  ghost predicate LoopState(expected: string, script: seq<Attempt>, n: nat, previousToken: Token, baseline: string, recovery: bool)
    requires n <= |script|
  {
    && previousToken == PreviousToken(script, n) && recovery == (n > 0)
    && if n == 0 then baseline == expected else baseline != "" && Baseline(expected, script) == Some(baseline)
  }

  method Pass(mac: StopMac, ghost expected: string, script: seq<Attempt>, n: nat, restarts: RestartLog,
              previousToken: Token, baseline: string, recovery: bool)
    returns (exit: Option<Exit>, learned: string, launch: Option<Launch>, delay: int)
    requires n < |script| && LoopState(expected, script, n, previousToken, baseline, recovery)
    requires restarts.Valid() && restarts.Times() == Kept(Failures(script, n))
    modifies restarts, restarts.cells
    ensures exit == PassEnd(mac, expected, script, n)
    ensures launch == if Launches(mac, expected, script, n) then Some(Launch(script[n].token, n > 0, script[n].hash)) else None
    ensures restarts.Valid() && (restarts.cells == old(restarts.cells) || fresh(restarts.cells))
    ensures exit.None? ==> launch.Some? && LoopState(expected, script, n + 1, script[n].token, learned, true)
    ensures exit.None? ==> restarts.Times() == Kept(Failures(script, n + 1)) && delay == Backoff(|Kept(Failures(script, n + 1))|)
  {
    delay := 0;
    exit, learned, launch := LaunchPass(mac, script[n], previousToken, baseline, recovery);
    assert launch.Some? <==> Launches(mac, expected, script, n);
    if exit.None? {
      var storm;
      storm, delay := Throttle(script, n, restarts, script[n].failAt);
      if storm { exit := Some(Storm); }
    }
  }

  method Supervise(mac: StopMac, expected: string, script: seq<Attempt>)
    returns (n: nat, exit: Option<Exit>, launches: seq<Launch>, delays: seq<int>)
    ensures n <= |script| && GoesOn(mac, expected, script, n)
    ensures n == |script| ==> exit == None
    ensures n < |script| ==> exit.Some? && exit == PassEnd(mac, expected, script, n)
    ensures launches == LaunchLog(script, if n < |script| && Launches(mac, expected, script, n) then n + 1 else n)
    ensures delays == DelayLog(script, n)
  {
    n, exit, launches, delays := 0, None, [], [];
    var restarts := new RestartLog();
    var previousToken: Token := [];
    var baseline, recovery := expected, false;
    while n < |script|
      invariant n <= |script| && GoesOn(mac, expected, script, n) && exit == None
      invariant restarts.Valid() && fresh(restarts) && fresh(restarts.cells)
      invariant restarts.Times() == Kept(Failures(script, n))
      invariant LoopState(expected, script, n, previousToken, baseline, recovery)
      invariant launches == LaunchLog(script, n) && delays == DelayLog(script, n)
    {
      OneMorePass(script, n);
      var launch, delay;
      exit, baseline, launch, delay := Pass(mac, expected, script, n, restarts, previousToken, baseline, recovery);
      if launch.Some? { launches := launches + [launch.value]; }
      if exit.Some? { return; }
      previousToken, recovery := script[n].token, true;
      delays := delays + [delay];
      n := n + 1;
    }
  }

  lemma OneReason(w: Watch, events: seq<Event>, reason: Reason)
    requires EndsWith(w, events, reason)
    ensures forall r :: EndsWith(w, events, r) <==> r == reason
  {
    forall r | EndsWith(w, events, r) ensures r == reason {
      EndIsUnique(w, events, r, reason);
    }
  }

  // ---------------------------------------------------------------- safety over whole runs

  /** Every launch of a run follows a pass against one and the same digest. */
  lemma {:induction false} OneBaseline(mac: StopMac, expected: string, script: seq<Attempt>, j: nat, k: nat)
    requires j <= k < |script| && GoesOn(mac, expected, script, k) && Launches(mac, expected, script, k)
    ensures script[j].hash.Some? && script[j].hash == script[k].hash
    ensures expected != "" ==> script[k].hash.value == expected
  {
    if j < k { GoesOnThrough(mac, expected, script, k, j); }
    assert Intact(expected, script, j);
  }

  /** A pass that ends cleanly, by a stop, by a refused binary or by a storm is the last of its run. */
  lemma {:induction false} NothingAfterAnEnd(mac: StopMac, expected: string, script: seq<Attempt>, k: nat, exit: Exit, n: nat)
    requires k < |script| && PassEnd(mac, expected, script, k) == Some(exit) && k < n <= |script|
    ensures !GoesOn(mac, expected, script, n)
  {
    if GoesOn(mac, expected, script, n) { GoesOnThrough(mac, expected, script, n, k); }
  }

  /** The agent dies while a stop signed for this very launch is in force: the run ends here. */
  lemma StoppedDeathIsFinal(mac: StopMac, expected: string, script: seq<Attempt>, k: nat, i: nat)
    requires k < |script| && Launches(mac, expected, script, k) && script[k].launched
    requires i < |script[k].events| && Undecided(Instance(mac, script[k]), script[k].events, i)
    requires script[k].events[i].Death?
    requires Authorises(mac, script[k].events[i].wall, script[k].token, script[k].events[i].file)
    ensures PassEnd(mac, expected, script, k) == Some(StoppedByOwner)
  {
    var w := Instance(mac, script[k]);
    DeathUnderStopIsAStop(w, script[k].events, i);
    OneReason(w, script[k].events, Stop);
  }

  /** Without a shutdown signal, only a stop signed with the latest launch's token ends a run as stopped. */
  lemma OnlyTheLatestTokenStops(mac: StopMac, expected: string, script: seq<Attempt>, k: nat, exit: Exit)
    requires k < |script| && PassEnd(mac, expected, script, k) == Some(exit) && exit in {StopRequested, StoppedByOwner}
    requires !script[k].shutting && forall i :: 0 <= i < |script[k].events| ==> !script[k].events[i].shutting
    ensures exit == StopRequested ==> k > 0 && Authorises(mac, script[k].wall, script[k - 1].token, script[k].file)
    ensures exit == StoppedByOwner ==>
              exists i :: && 0 <= i < |script[k].events|
                          && Authorises(mac, script[k].events[i].wall, script[k].token, script[k].events[i].file)
  {
    if exit == StoppedByOwner {
      var w, events := Instance(mac, script[k]), script[k].events;
      assert EndsWith(w, events, Stop);
      var at :| 0 <= at < |events| && Undecided(w, events, at) && AgentMonitor.Decision(w, events, at) == Stop;
      assert Authorises(mac, events[at].wall, script[k].token, events[at].file);
    }
  }

  // ---------------------------------------------------------------- how each pass ends, from the script alone

  /** The first event of the launched instance that decides is the `i`-th, for this reason. */
  ghost predicate DecidedBy(mac: StopMac, a: Attempt, i: nat, reason: Reason) {
    && a.launched && i < |a.events| && reason != Watched
    && (forall j :: 0 <= j < i ==> AgentMonitor.Decision(Instance(mac, a), a.events, j) == Watched)
    && AgentMonitor.Decision(Instance(mac, a), a.events, i) == reason
  }

  lemma DecidedMeansEnds(mac: StopMac, a: Attempt, i: nat, reason: Reason)
    requires DecidedBy(mac, a, i, reason)
    ensures InstanceExit(mac, a) ==
            match reason {
              case Clean => Some(CleanExit)
              case Stop => Some(StoppedByOwner)
              case _ => None
            }
  {
    assert EndsWith(Instance(mac, a), a.events, reason);
    OneReason(Instance(mac, a), a.events, reason);
  }

  /** The attempt failed: nothing was launched, or what was launched died or was suspended. */
  ghost predicate Failed(mac: StopMac, a: Attempt) {
    !a.launched || exists i :: DecidedBy(mac, a, i, Died) || DecidedBy(mac, a, i, Suspended)
  }

  /** A failed attempt is followed by the next one, unless it is the fourth failure in under sixty seconds. */
  lemma FailureIsRelaunched(mac: StopMac, expected: string, script: seq<Attempt>, k: nat)
    requires k < |script| && GoesOn(mac, expected, script, k) && Timely(script)
    requires Launches(mac, expected, script, k) && Failed(mac, script[k])
    ensures PassEnd(mac, expected, script, k) ==
            if k >= 3 && script[k].failAt - script[k - 3].failAt < 60_000_000_000 then Some(Storm) else None
  {
    if script[k].launched {
      var i :| DecidedBy(mac, script[k], i, Died) || DecidedBy(mac, script[k], i, Suspended);
      DecidedMeansEnds(mac, script[k], i, if DecidedBy(mac, script[k], i, Died) then Died else Suspended);
    }
    GivesUpExactly(mac, expected, script, k);
  }

  /** A launched pass ends cleanly or as stopped exactly when the first event that decides says so. */
  lemma LaunchedExitsExactly(mac: StopMac, expected: string, script: seq<Attempt>, k: nat)
    requires k < |script| && Launches(mac, expected, script, k)
    ensures PassEnd(mac, expected, script, k) == Some(CleanExit) <==> exists i :: DecidedBy(mac, script[k], i, Clean)
    ensures PassEnd(mac, expected, script, k) == Some(StoppedByOwner) <==> exists i :: DecidedBy(mac, script[k], i, Stop)
    ensures PassEnd(mac, expected, script, k) == Some(StillWatching) <==>
            script[k].launched && forall j :: 0 <= j < |script[k].events| ==>
                                     AgentMonitor.Decision(Instance(mac, script[k]), script[k].events, j) == Watched
  {
    var a := script[k];
    var w := Instance(mac, a);
    if a.launched {
      if EndsWith(w, a.events, Watched) {
        OneReason(w, a.events, Watched);
      } else {
        var i := FirstDecision(w, a.events, |a.events|);
        DecidedMeansEnds(mac, a, i, AgentMonitor.Decision(w, a.events, i));
        var reason := AgentMonitor.Decision(w, a.events, i);
        assert DecidedBy(mac, a, i, reason);
        if j :| DecidedBy(mac, a, j, Clean) { DecidedMeansEnds(mac, a, j, Clean); }
        if j :| DecidedBy(mac, a, j, Stop) { DecidedMeansEnds(mac, a, j, Stop); }
      }
    }
  }

  lemma {:induction false} FirstDecision(w: Watch, events: seq<Event>, n: nat) returns (i: nat)
    requires n <= |events| && !Undecided(w, events, n)
    ensures i < n && Undecided(w, events, i) && AgentMonitor.Decision(w, events, i) != Watched
    decreases n
  {
    if Undecided(w, events, n - 1) { i := n - 1; } else { i := FirstDecision(w, events, n - 1); }
  }

  /** A clean end of a run is one poll that read a beat with flags 0, with no stop in force and nothing decided before. */
  lemma CleanExitMeansACleanBeat(mac: StopMac, expected: string, script: seq<Attempt>, k: nat) returns (i: nat)
    requires k < |script| && PassEnd(mac, expected, script, k) == Some(CleanExit)
    ensures DecidedBy(mac, script[k], i, Clean)
    ensures var e := script[k].events[i];
            && e.Poll? && e.beat.Some? && e.beat.value.flags == 0
            && !e.shutting && !Authorises(mac, e.wall, script[k].token, e.file)
  {
    LaunchedExitsExactly(mac, expected, script, k);
    i :| DecidedBy(mac, script[k], i, Clean);
    DecisionExactly(Instance(mac, script[k]), script[k].events, i);
  }

  /** Before any launch: a stop under the previous launch's token, then a binary that is not the baseline. */
  lemma RefusalsExactly(mac: StopMac, expected: string, script: seq<Attempt>, k: nat)
    requires k < |script|
    ensures var stops := script[k].shutting || (k > 0 && Authorises(mac, script[k].wall, script[k - 1].token, script[k].file));
            var intact := script[k].hash.Some? &&
              if expected != "" then script[k].hash.value == expected else script[0].hash == script[k].hash;
            && (PassEnd(mac, expected, script, k) == Some(StopRequested) <==> stops)
            && (PassEnd(mac, expected, script, k) == Some(IntegrityRefused) <==> !stops && !intact)
            && (Launches(mac, expected, script, k) <==> !stops && intact)
  {
  }

  /** The launches and sleeps of a run, one by one. */
  lemma {:induction false} LogsExactly(script: seq<Attempt>, n: nat, k: nat)
    requires k < n <= |script|
    ensures |LaunchLog(script, n)| == |DelayLog(script, n)| == n
    ensures LaunchLog(script, n)[k] == Launch(script[k].token, k > 0, script[k].hash)
    ensures DelayLog(script, n)[k] == Backoff(|Kept(Failures(script, k + 1))|)
    decreases n
  {
    if n > 1 { LogsExactly(script, n - 1, if k < n - 1 then k else 0); }
  }

  // ---------------------------------------------------------------- real-time bounds

  /** Between the failure before it and the launch of pass `k` lies at least the sleep that was asked for. */
  ghost predicate Rested(script: seq<Attempt>, k: nat)
    requires 0 < k < |script|
  {
    script[k - 1].failAt + Backoff(|Kept(Failures(script, k))|) <= script[k].launchAt
  }

  /** No clock reading goes back, and each sleep lasts at least as long as it was asked to. */
  ghost predicate Timely(script: seq<Attempt>) {
    && (forall k :: 0 <= k < |script| ==> script[k].launchAt <= script[k].failAt)
    && (forall k :: 0 < k < |script| ==> Rested(script, k))
  }

  ghost predicate Calm(script: seq<Attempt>, n: nat)
    requires n <= |script|
  {
    forall k :: 0 < k <= n ==> |Kept(Failures(script, k))| <= MAX_RAPID_RESTARTS
  }

  /** While the run goes on no storm was seen, so `backoff` is reached with 1, 2 or 3 only. */
  lemma {:induction false} GoingOnIsCalm(mac: StopMac, expected: string, script: seq<Attempt>, n: nat)
    requires n <= |script| && GoesOn(mac, expected, script, n)
    ensures Calm(script, n)
    ensures forall k :: 0 < k <= n ==> 1 <= |Kept(Failures(script, k))| <= 3 && SECOND <= Backoff(|Kept(Failures(script, k))|) < BACKOFF_CAP
  {
    forall k | 0 < k <= n
      ensures 1 <= |Kept(Failures(script, k))| <= 3 && SECOND <= Backoff(|Kept(Failures(script, k))|) < BACKOFF_CAP
    {
      GoesOnThrough(mac, expected, script, n, k - 1);
      CalmBackoff(Failures(script, k));
    }
  }

  lemma {:induction false} FailuresAreOrdered(script: seq<Attempt>, n: nat, i: nat, j: nat)
    requires n <= |script| && Calm(script, n) && Timely(script) && i <= j <= n && j < |script|
    ensures script[i].failAt <= script[j].failAt
    decreases j
  {
    if i < j {
      FailuresAreOrdered(script, n, i, j - 1);
      assert Rested(script, j);
      CalmBackoff(Failures(script, j));
    }
  }

  lemma HistoryIsOrdered(script: seq<Attempt>, n: nat, m: nat)
    requires n <= m <= |script| && m <= n + 1 && Calm(script, n) && Timely(script)
    ensures NonDecreasing(Failures(script, m))
  {
    var history := Failures(script, m);
    forall i, j | 0 <= i <= j < |history| ensures history[i] <= history[j] {
      FailuresAreOrdered(script, n, i, j);
    }
  }

  /** Any five consecutive launch attempts span at least sixty-one seconds. */
  lemma FiveLaunchesTakeAMinute(mac: StopMac, expected: string, script: seq<Attempt>, k: nat)
    requires k + 4 < |script| && GoesOn(mac, expected, script, k + 4) && Timely(script)
    ensures script[k + 4].launchAt - script[k].launchAt >= 61 * SECOND
  {
    var n := k + 4;
    GoingOnIsCalm(mac, expected, script, n);
    HistoryIsOrdered(script, n, n);
    StormExactly(Failures(script, n));
    assert Rested(script, n);
  }

  lemma FourthFailureExactly(script: seq<Attempt>, k: nat)
    requires k < |script| && Calm(script, k) && Timely(script)
    ensures |Kept(Failures(script, k + 1))| > MAX_RAPID_RESTARTS <==>
            k >= 3 && script[k].failAt - script[k - 3].failAt < RAPID_WINDOW
  {
    HistoryIsOrdered(script, k, k + 1);
    StormExactly(Failures(script, k + 1));
  }

  lemma StormPass(mac: StopMac, expected: string, script: seq<Attempt>, k: nat)
    requires k < |script|
    ensures PassEnd(mac, expected, script, k) == Some(Storm) <==>
              && Launches(mac, expected, script, k) && InstanceExit(mac, script[k]).None?
              && |Kept(Failures(script, k + 1))| > MAX_RAPID_RESTARTS
  {
  }

  /** The watchdog gives up exactly at a failure that is the fourth in under sixty seconds. */
  lemma GivesUpExactly(mac: StopMac, expected: string, script: seq<Attempt>, k: nat)
    requires k < |script| && GoesOn(mac, expected, script, k) && Timely(script)
    ensures PassEnd(mac, expected, script, k) == Some(Storm) <==>
              && Launches(mac, expected, script, k) && InstanceExit(mac, script[k]).None?
              && k >= 3 && script[k].failAt - script[k - 3].failAt < RAPID_WINDOW
  {
    GoingOnIsCalm(mac, expected, script, k);
    FourthFailureExactly(script, k);
    StormPass(mac, expected, script, k);
  }
}
