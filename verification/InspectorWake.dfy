/**
 The wake protocol of `_VisibleInspectorWorker` in blackbox_recorder.py: one GUI thread that calls
 set_active and stop, one inspector thread that polls, waits and ends.

 Every read or write of a flag is one step, and the two threads interleave arbitrarily.  A wait on
 the wake event passes only while the event is set; a timed wait may also time out at any moment.
 */
module InspectorWake {

  /** Inside set_active after the flag test, or with the flag written and the wake event still to be raised. */
  datatype Gui = Idle | Flip(active: bool) | Raise

  datatype Inspector = Test | Clear | Retest | Look | Polling | TimedWait | Blocked | Ended

  datatype State = State(running: bool, active: bool, wake: bool, gui: Gui, inspector: Inspector)

  datatype Step = CallSetActive(active: bool) | CallStop | GuiStep | InspectorStep | TimeOut

  const INITIAL := State(true, false, false, Idle, Test)

  predicate Enabled(s: State, step: Step) {
    match step
    case CallSetActive(_) | CallStop => s.gui.Idle?
    case GuiStep => !s.gui.Idle?
    case TimeOut => s.inspector.TimedWait?
    case InspectorStep =>
      !s.inspector.Ended? && (s.inspector.TimedWait? || s.inspector.Blocked? ==> s.wake)
  }

  function Apply(s: State, step: Step): State
    requires Enabled(s, step)
  {
    match step
    case CallSetActive(a) => if a == s.active then s else s.(gui := Flip(a))
    case CallStop => s.(running := false, gui := Raise)
    case GuiStep =>
      (match s.gui
       case Flip(a) => s.(active := a, gui := Raise)
       case Raise => s.(wake := true, gui := Idle))
    case TimeOut => s.(inspector := Test)
    case InspectorStep =>
      (match s.inspector
       case Test => s.(inspector := if s.running then Clear else Ended)
       case Clear => s.(wake := false, inspector := Retest)
       case Retest => s.(inspector := if s.running then Look else Ended)
       case Look => s.(inspector := if s.active then Polling else Blocked)
       case Polling => s.(inspector := TimedWait)
       case TimedWait | Blocked => s.(inspector := Test))
  }

  /** `trace` is one interleaving from the state of a new worker. */
  predicate Runs(trace: seq<Step>)
    decreases |trace|, 0
  {
    trace == [] || (Runs(trace[..|trace| - 1]) && Enabled(After(trace[..|trace| - 1]), trace[|trace| - 1]))
  }

  function After(trace: seq<Step>): State
    requires Runs(trace)
    decreases |trace|, 1
  {
    if trace == [] then INITIAL else Apply(After(trace[..|trace| - 1]), trace[|trace| - 1])
  }

  /**
   Once the event is clear and nobody is about to raise it, what the inspector has read past its
   clear is still true.
   */
  ghost predicate Coherent(s: State) {
    !s.wake && !s.gui.Raise? ==>
      && (s.inspector.Look? ==> s.running)
      && (s.inspector.Polling? || s.inspector.TimedWait? ==> s.running && s.active)
      && (s.inspector.Blocked? ==> s.running && !s.active)
  }

  lemma StepKeepsCoherence(s: State, step: Step)
    requires Coherent(s) && Enabled(s, step)
    ensures Coherent(Apply(s, step))
  {
  }

  lemma {:induction false} EveryRunIsCoherent(trace: seq<Step>)
    requires Runs(trace)
    ensures Coherent(After(trace))
    decreases |trace|
  {
    if trace != [] {
      EveryRunIsCoherent(trace[..|trace| - 1]);
      StepKeepsCoherence(After(trace[..|trace| - 1]), trace[|trace| - 1]);
    }
  }

  /** No wake-up is ever lost. */
  lemma NoLostWakeUp(trace: seq<Step>)
    requires Runs(trace)
    ensures var s := After(trace);
            s.gui.Idle? && s.inspector.Blocked? && !s.wake ==> s.running && !s.active
  {
    EveryRunIsCoherent(trace);
  }

  // ---------------------------------------------------------------- what the inspector does when the GUI is left alone

  /** `n` inspector steps in a row, none of which has to wait. */
  predicate Proceeds(s: State, n: nat)
    decreases n
  {
    n == 0 || (Enabled(s, InspectorStep) && Proceeds(Apply(s, InspectorStep), n - 1))
  }

  function Alone(s: State, n: nat): State
    requires Proceeds(s, n)
    decreases n
  {
    if n == 0 then s else Alone(Apply(s, InspectorStep), n - 1)
  }

  function ToTest(i: Inspector): nat {
    match i
    case Polling => 2
    case TimedWait | Blocked => 1
    case _ => 0
  }

  function ToEnd(i: Inspector): nat {
    match i
    case Ended => 0
    case Test | Retest => 1
    case Clear => 2
    case Look => 4
    case _ => ToTest(i) + 1
  }

  lemma {:induction false} StoppedInspectorEnds(s: State) returns (n: nat)
    requires Coherent(s) && s.gui.Idle? && !s.running
    ensures n <= 4 && Proceeds(s, n) && Alone(s, n).inspector.Ended?
    ensures n <= ToEnd(s.inspector)
    decreases ToEnd(s.inspector)
  {
    if s.inspector.Ended? {
      n := 0;
    } else {
      var m := StoppedInspectorEnds(Apply(s, InspectorStep));
      n := m + 1;
    }
  }

  /** After stop returns, in every interleaving, the inspector ends within four steps of its own, never waiting. */
  lemma StopIsPrompt(trace: seq<Step>) returns (n: nat)
    requires Runs(trace) && After(trace).gui.Idle? && !After(trace).running
    ensures n <= 4 && Proceeds(After(trace), n) && Alone(After(trace), n).inspector.Ended?
  {
    EveryRunIsCoherent(trace);
    n := StoppedInspectorEnds(After(trace));
  }

  function ToPoll(i: Inspector): nat {
    match i
    case Polling => 0
    case Look => 1
    case Retest => 2
    case Clear => 3
    case Test => 4
    case _ => 5
  }

  lemma {:induction false} ActiveInspectorPolls(s: State) returns (n: nat)
    requires Coherent(s) && s.gui.Idle? && s.running && s.active && !s.inspector.Ended?
    requires s.inspector.TimedWait? ==> s.wake
    ensures n <= 5 && Proceeds(s, n) && Alone(s, n).inspector.Polling?
    ensures n <= ToPoll(s.inspector)
    decreases ToPoll(s.inspector)
  {
    if s.inspector.Polling? {
      n := 0;
    } else {
      var m := ActiveInspectorPolls(Apply(s, InspectorStep));
      n := m + 1;
    }
  }

  lemma {:induction false} OnlyStopEndsTheInspector(trace: seq<Step>)
    requires Runs(trace) && After(trace).inspector.Ended?
    ensures !After(trace).running
    decreases |trace|
  {
    var before := trace[..|trace| - 1];
    if After(before).inspector.Ended? { OnlyStopEndsTheInspector(before); }
  }

  /** Selecting the tab: right after set_active(true) has raised the event, a poll starts without any wait. */
  lemma SelectingTheTabIsPrompt(trace: seq<Step>) returns (n: nat)
    requires Runs(trace) && trace != [] && Enabled(After(trace), GuiStep)
    requires After(trace).gui.Raise? && After(trace).running && After(trace).active
    ensures Runs(trace + [GuiStep])
    ensures n <= 5 && Proceeds(After(trace + [GuiStep]), n) && Alone(After(trace + [GuiStep]), n).inspector.Polling?
  {
    var longer := trace + [GuiStep];
    assert longer[..|longer| - 1] == trace;
    EveryRunIsCoherent(longer);
    if After(longer).inspector.Ended? { OnlyStopEndsTheInspector(longer); }
    n := ActiveInspectorPolls(After(longer));
  }

  predicate Asleep(s: State) { s.inspector.Blocked? && !s.wake }

  function ToSleep(s: State): nat {
    if Asleep(s) then 0 else
    match s.inspector
    case Look => if s.wake then 6 else 1
    case Retest => if s.wake then 7 else 2
    case Clear => 3
    case Test => 4
    case Polling => 6
    case _ => 5
  }

  lemma {:induction false} HiddenInspectorSleeps(s: State) returns (n: nat)
    requires Coherent(s) && s.gui.Idle? && s.running && !s.active && !s.inspector.Ended?
    ensures n <= ToSleep(s) && Proceeds(s, n) && Asleep(Alone(s, n))
    ensures forall k :: 0 < k <= n && Proceeds(s, k) ==> !Alone(s, k).inspector.Polling?
    decreases ToSleep(s)
  {
    if Asleep(s) {
      n := 0;
    } else {
      var t := Apply(s, InspectorStep);
      var m := HiddenInspectorSleeps(t);
      n := m + 1;
      forall k | 0 < k <= n && Proceeds(s, k) ensures !Alone(s, k).inspector.Polling? {
        assert Alone(s, k) == Alone(t, k - 1);
        assert k > 1 ==> !Alone(t, k - 1).inspector.Polling?;
      }
    }
  }

  /** A hidden view costs nothing: within seven own steps and without a new poll the inspector sleeps until woken. */
  lemma HiddenViewGoesQuiet(trace: seq<Step>) returns (n: nat)
    requires Runs(trace) && After(trace).gui.Idle? && After(trace).running && !After(trace).active
    ensures n <= 7 && Proceeds(After(trace), n) && Asleep(Alone(After(trace), n))
    ensures forall k :: 0 < k <= n && Proceeds(After(trace), k) ==> !Alone(After(trace), k).inspector.Polling?
  {
    EveryRunIsCoherent(trace);
    if After(trace).inspector.Ended? { OnlyStopEndsTheInspector(trace); }
    n := HiddenInspectorSleeps(After(trace));
  }
}
