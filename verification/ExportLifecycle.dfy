/**
 The lifecycle of export workers and of shutdown in `BlackBoxWindow` (blackbox_recorder.py).

 The GUI thread runs one slot at a time; the file dialog runs a nested event loop, so the export slot is
 two events with any others between them.  Worker threads end whenever they like.
 */
module ExportLifecycle {
  import opened Wrappers

  datatype Thread = Reader(name: string) | Export(id: nat)

  datatype Event =
    | Click
    | DialogReturns(accepted: bool, captureFails: bool, startFails: bool)
    | Retire(id: nat)
    | Close
    | FinishClose
    | Ends(thread: Thread)

  /** The six readers that the window always owns. */
  const READERS: seq<Thread> :=
    [Reader("w_log"), Reader("w_host"), Reader("w_health"), Reader("w_thread"), Reader("w_mem"), Reader("w_config")]

  class Window {
    var closing: bool
    var bundleWorker: Option<nat>
    var dialogOpen: bool
    var exportEnabled: bool
    var shutdownThreads: Option<seq<Thread>>
    /** The threads that were asked to stop. */
    var asked: set<Thread>
    var closeCompleted: bool
    /** Export workers created so far, the threads that have ended, and the monotonic clock in milliseconds. */
    var created: nat
    var ended: set<Thread>
    var clock: nat

    ghost predicate RunningExport(id: nat)
      reads this
    {
      id < created && Export(id) !in ended
    }

    ghost predicate Valid()
      reads this
    {
      // At most one export runs, and it is the one the window still refers to.
      && (forall id: nat :: RunningExport(id) ==> bundleWorker == Some(id))
      && (bundleWorker.Some? ==> bundleWorker.value < created)
      && (forall id: nat :: Export(id) in ended ==> id < created)
      // A new export is admitted only while none is owned and no dialog is open.
      && (dialogOpen ==> bundleWorker.None?)
      && (exportEnabled ==> bundleWorker.None? && !dialogOpen)
      // Shutdown captures every thread that can still run.
      && (closing <==> shutdownThreads.Some?)
      && (closing ==> READERS <= shutdownThreads.value && forall id: nat :: RunningExport(id) ==> Export(id) in shutdownThreads.value)
      && (closing ==> forall t :: t in shutdownThreads.value && t.Export? ==> t.id < created)
      && (closeCompleted ==> closing && AllEnded())
    }

    /** Every captured thread has ended. */
    ghost predicate AllEnded()
      reads this
      requires shutdownThreads.Some?
    {
      forall t :: t in shutdownThreads.value ==> t in ended
    }

    constructor ()
      ensures Valid() && !closing && created == 0
    {
      closing, bundleWorker, dialogOpen, exportEnabled := false, None, false, true;
      shutdownThreads, closeCompleted, created, ended, clock, asked := None, false, 0, {}, 0, {};
    }

    /** What no event can undo: ended threads stay ended, and after the capture no thread is added. */
    twostate predicate Progress()
      reads this
    {
      && old(ended) <= ended && old(created) <= created && old(clock) <= clock && old(asked) <= asked
      && (old(closing) ==> closing && shutdownThreads == old(shutdownThreads) && created == old(created)
                           && bundleWorker == old(bundleWorker))
      && (old(bundleWorker).Some? && bundleWorker != old(bundleWorker) ==> Export(old(bundleWorker).value) in ended)
    }

    /** The first half of on_export_bundle: a duplicate request is held, otherwise the dialog opens. */
    method BeginExport()
      requires Valid()
      modifies this`dialogOpen, this`exportEnabled
      ensures Valid() && Progress()
      ensures dialogOpen == (old(dialogOpen) || (!closing && bundleWorker.None?))
      ensures exportEnabled == (old(exportEnabled) && dialogOpen == old(dialogOpen))
    {
      if closing { return; }
      if bundleWorker.Some? || dialogOpen { return; }
      dialogOpen, exportEnabled := true, false;
    }

    /** The second half, when the dialog returns: at most one worker is made, and none once the window is closing. */
    method EndExport(accepted: bool, captureFails: bool, startFails: bool)
      requires Valid()
      modifies this
      ensures Valid() && Progress() && closing == old(closing) && !dialogOpen
      ensures var admitted := old(dialogOpen) && accepted && !closing && !captureFails;
              && created == old(created) + (if admitted then 1 else 0)
              && bundleWorker == (if admitted && !startFails then Some(old(created)) else old(bundleWorker))
              && (admitted && startFails ==> Export(old(created)) in ended)
              && exportEnabled == (if !old(dialogOpen) then old(exportEnabled)
                                   else if admitted then startFails || old(exportEnabled) else !closing)
    {
      if !dialogOpen { return; }
      if !accepted || closing {
        exportEnabled, dialogOpen := !closing, false;
        return;
      }
      if captureFails {
        exportEnabled, dialogOpen := !closing, false;
        return;
      }
      var worker := created;
      assert forall id: nat :: !RunningExport(id);
      created, bundleWorker := created + 1, Some(worker);
      if startFails {
        // A thread that never started is not running.
        ended := ended + {Export(worker)};
        RetireBundle(worker);
      }
      dialogOpen := false;
    }

    /** `_bundle_retired`: a finished signal alone proves nothing, and while closing the owner keeps the object. */
    method RetireBundle(worker: nat)
      requires forall id: nat :: RunningExport(id) ==> bundleWorker == Some(id)
      modifies this`bundleWorker, this`exportEnabled
      ensures var drop := old(bundleWorker) == Some(worker) && Export(worker) in ended && !closing;
              && bundleWorker == (if drop then None else old(bundleWorker))
              && exportEnabled == (old(exportEnabled) || drop)
    {
      if bundleWorker != Some(worker) { return; }
      if Export(worker) !in ended { return; }
      if closing { return; }
      bundleWorker, exportEnabled := None, true;
    }

    /** Some threads end by themselves. */
    method ThreadsEnd(some: set<Thread>)
      requires Valid()
      modifies this`ended
      ensures Valid() && Progress()
      ensures ended == old(ended) + set t | t in some && (t.Export? ==> t.id < created)
    {
      ended := ended + set t | t in some && (t.Export? ==> t.id < created);
    }

    /** Join one thread: the clock moves by at most the bound, and an unbounded join returns when the thread has ended. */
    method Wait(t: Thread, bound: Option<nat>)
      requires Valid() && (t.Export? ==> t.id < created)
      modifies this`ended, this`clock
      ensures Valid() && Progress()
      ensures bound.Some? ==> clock <= old(clock) + bound.value
      ensures bound.None? ==> t in ended
    {
      var some: set<Thread>, elapsed: nat := *, *;
      ThreadsEnd(if bound.None? then some + {t} else some);
      clock := clock + if bound.Some? && elapsed > bound.value then bound.value else elapsed;
    }

    /** Every captured thread is joined, all against one deadline. */
    method JoinAll(timeout: Option<nat>) returns (stopped: bool)
      requires Valid() && shutdownThreads.Some?
      modifies this`ended, this`clock
      ensures Valid() && Progress()
      ensures timeout.Some? ==> clock <= old(clock) + timeout.value
      ensures timeout.None? ==> stopped
      ensures stopped ==> AllEnded()
      ensures (forall t :: t in shutdownThreads.value ==> t in old(ended)) ==> stopped
    {
      var deadline := if timeout.Some? then clock + timeout.value else 0;
      var threads := shutdownThreads.value;
      stopped := true;
      for i := 0 to |threads|
        invariant Valid() && Progress()
        invariant timeout.Some? ==> clock <= deadline
        invariant timeout.None? ==> stopped
        invariant stopped ==> forall k :: 0 <= k < i ==> threads[k] in ended
        invariant (forall t :: t in threads ==> t in old(ended)) ==> stopped
      {
        var remaining := if timeout.None? then None else Some(deadline - clock);
        Wait(threads[i], remaining);
        stopped := threads[i] in ended && stopped;
      }
    }

    /** The first call captures the threads and closes the door; every call joins against one shared deadline. */
    method StopWorkers(timeout: Option<nat>) returns (stopped: bool)
      requires Valid()
      modifies this
      ensures Valid() && Progress() && closing && dialogOpen == old(dialogOpen)
      ensures !old(closing) ==>
                shutdownThreads == Some(READERS + if old(bundleWorker).Some? then [Export(old(bundleWorker).value)] else [])
      ensures !old(closing) ==> forall t :: t in shutdownThreads.value ==> t in asked
      ensures bundleWorker == old(bundleWorker) && created == old(created) && closeCompleted == old(closeCompleted)
      ensures timeout.Some? ==> clock <= old(clock) + timeout.value
      ensures timeout.None? ==> stopped
      ensures stopped ==> AllEnded()
      ensures (forall t :: t in shutdownThreads.value ==> t in old(ended)) ==> stopped
    {
      if shutdownThreads.None? {
        closing := true;
        asked := asked + set t | t in READERS;
        if bundleWorker.Some? { asked := asked + {Export(bundleWorker.value)}; }
        shutdownThreads := Some(READERS + if bundleWorker.Some? then [Export(bundleWorker.value)] else []);
      }
      stopped := JoinAll(timeout);
    }

    /** closeEvent: the close completes, once, only when every captured thread has ended. */
    method CloseEvent()
      requires Valid()
      modifies this
      ensures Valid() && Progress() && closing && clock == old(clock)
      ensures closeCompleted ==> AllEnded()
      ensures old(closeCompleted) || (forall t :: t in shutdownThreads.value ==> t in old(ended)) ==> closeCompleted
    {
      var stopped := StopWorkers(Some(0));
      if !stopped { return; }
      closeCompleted := true;
    }

    method FinishClose()
      requires Valid()
      modifies this
      ensures Valid() && Progress() && closing
      ensures old(closeCompleted) || (forall t :: t in shutdownThreads.value ==> t in old(ended)) ==> closeCompleted
    {
      var stopped := StopWorkers(Some(0));
      if stopped { CloseEvent(); }
    }

    /** Any order of clicks, dialog results, finished signals, closes and ending threads, from any reachable state. */
    method Run(events: seq<Event>)
      requires Valid()
      modifies this
      ensures Valid() && Progress()
      ensures forall i: nat, j: nat :: RunningExport(i) && RunningExport(j) ==> i == j
      ensures closing ==> forall id: nat :: RunningExport(id) ==> Export(id) in shutdownThreads.value
      ensures Close in events || Event.FinishClose in events ==> closing
    {
      for i := 0 to |events|
        invariant Valid() && Progress()
        invariant Close in events[..i] || Event.FinishClose in events[..i] ==> closing
      {
        Handle(events[i]);
      }
    }

    method Handle(e: Event)
      requires Valid()
      modifies this
      ensures Valid() && Progress()
      ensures e.Click? ==> dialogOpen == (old(dialogOpen) || (!closing && bundleWorker.None?))
      ensures e.DialogReturns? ==>
                && !dialogOpen
                && created == old(created) + (if old(dialogOpen) && e.accepted && !closing && !e.captureFails then 1 else 0)
      ensures e.Retire? ==>
                bundleWorker == if old(bundleWorker) == Some(e.id) && Export(e.id) in ended && !closing then None else old(bundleWorker)
      ensures e.Close? || e.FinishClose? ==> closing
      ensures e.Ends? && (e.thread.Export? ==> e.thread.id < created) ==> e.thread in ended
    {
      match e
      case Click => BeginExport();
      case DialogReturns(accepted, captureFails, startFails) => EndExport(accepted, captureFails, startFails);
      case Retire(id) => RetireBundle(id);
      case Close => CloseEvent();
      case FinishClose => FinishClose();
      case Ends(t) => ThreadsEnd({t});
    }
  }
}
