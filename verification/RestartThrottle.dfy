/**
 The relaunch throttle of frz/angerona_watchdog.go: `giveUp`, which filters its slice of failure times
 in place, and `backoff`.  Times and durations are nanoseconds.
 */
module RestartThrottle {
  import opened Wrappers

  const SECOND := 1_000_000_000
  const RAPID_WINDOW := 60 * SECOND
  const BACKOFF_CAP := 8 * SECOND
  const MAX_RAPID_RESTARTS := 3

  /** The failures that are less than one window old at `now`, in order. */
  function Recent(times: seq<int>, now: int): seq<int> {
    if times == [] then []
    else if now - times[|times| - 1] < RAPID_WINDOW then Recent(times[..|times| - 1], now) + [times[|times| - 1]]
    else Recent(times[..|times| - 1], now)
  }

  lemma {:induction false} RecentIsNoLonger(times: seq<int>, now: int)
    ensures |Recent(times, now)| <= |times|
    decreases |times|
  {
    if times != [] { RecentIsNoLonger(times[..|times| - 1], now); }
  }

  /** A Go slice: the first `count` cells of a backing array that may be longer. */
  class RestartLog {
    var cells: array<int>
    var count: nat

    ghost predicate Valid()
      reads this
    {
      count <= cells.Length
    }

    ghost function Times(): seq<int>
      reads this, cells
      requires Valid()
    {
      cells[..count]
    }

    constructor ()
      ensures Valid() && Times() == [] && fresh(cells)
    {
      cells, count := new int[0], 0;
    }

    method Append(now: int)
      requires Valid()
      modifies this, cells
      ensures Valid() && Times() == old(Times()) + [now]
      ensures cells == old(cells) || fresh(cells)
    {
      if count == cells.Length {
        var grown := new int[2 * count + 1](_ => 0);
        forall i | 0 <= i < count { grown[i] := cells[i]; }
        assert grown[..count] == cells[..count];
        cells := grown;
      }
      cells[count] := now;
      count := count + 1;
      assert cells[..count] == cells[..count - 1] + [now];
    }

    /** The kept failures overwrite the front of the array they are being read from. */
    method GiveUp(now: int) returns (storm: bool)
      requires Valid()
      modifies this, cells
      ensures Valid() && Times() == Recent(old(Times()), now) + [now]
      ensures storm <==> |Times()| > MAX_RAPID_RESTARTS
      ensures cells == old(cells) || fresh(cells)
    {
      ghost var before := cells[..count];
      var kept := 0;
      for i := 0 to count
        invariant kept <= i && cells == old(cells) && count == old(count)
        invariant cells[..kept] == Recent(before[..i], now)
        invariant forall k :: i <= k < count ==> cells[k] == before[k]
      {
        var t := cells[i];
        assert before[..i + 1][..i] == before[..i];
        if now - t < RAPID_WINDOW {
          cells[kept] := t;
          kept := kept + 1;
          assert cells[..kept] == cells[..kept - 1] + [t];
        }
      }
      assert before[..|before|] == before;
      count := kept;
      Append(now);
      storm := count > MAX_RAPID_RESTARTS;
    }
  }

  // ---------------------------------------------------------------- whole histories of failures

  /** What the log holds after a history of failures. */
  function Kept(history: seq<int>): seq<int> {
    if history == [] then []
    else Recent(Kept(history[..|history| - 1]), history[|history| - 1]) + [history[|history| - 1]]
  }

  ghost predicate NonDecreasing(times: seq<int>) {
    forall i, j :: 0 <= i <= j < |times| ==> times[i] <= times[j]
  }

  lemma {:induction false} RecentOfRecent(times: seq<int>, earlier: int, now: int)
    requires earlier <= now
    ensures Recent(Recent(times, earlier), now) == Recent(times, now)
    decreases |times|
  {
    if times != [] {
      var front, t := times[..|times| - 1], times[|times| - 1];
      RecentOfRecent(front, earlier, now);
      if earlier - t < RAPID_WINDOW {
        assert (Recent(front, earlier) + [t])[..|Recent(front, earlier)|] == Recent(front, earlier);
      }
    }
  }

  lemma {:induction false} RecentIsSuffix(times: seq<int>, now: int) returns (cut: nat)
    requires NonDecreasing(times)
    ensures cut <= |times| && Recent(times, now) == times[cut..]
    ensures forall i :: 0 <= i < cut ==> now - times[i] >= RAPID_WINDOW
    ensures forall i :: cut <= i < |times| ==> now - times[i] < RAPID_WINDOW
    decreases |times|
  {
    if times == [] {
      cut := 0;
    } else {
      var front, t := times[..|times| - 1], times[|times| - 1];
      cut := RecentIsSuffix(front, now);
      if now - t < RAPID_WINDOW {
        assert times[cut..] == front[cut..] + [t];
      } else {
        cut := |times|;
      }
    }
  }

  /** Filtering step by step forgets nothing: the log is always the last minute of the whole history. */
  lemma {:induction false} LogIsTheLastMinute(history: seq<int>)
    requires NonDecreasing(history) && history != []
    ensures Kept(history) == Recent(history, history[|history| - 1])
    decreases |history|
  {
    var front, now := history[..|history| - 1], history[|history| - 1];
    if front != [] {
      LogIsTheLastMinute(front);
      RecentOfRecent(front, front[|front| - 1], now);
    }
  }

  /** The storm is exactly a fourth failure in under sixty seconds. */
  lemma StormExactly(history: seq<int>)
    requires NonDecreasing(history) && history != []
    ensures |Kept(history)| > 3 <==>
            |history| >= 4 && history[|history| - 1] - history[|history| - 4] < 60_000_000_000
  {
    LogIsTheLastMinute(history);
    var cut := RecentIsSuffix(history, history[|history| - 1]);
  }

  // ---------------------------------------------------------------- backoff

  /** The value of a 64-bit two's-complement word. */
  function Signed64(x: int): int {
    var r := x % 0x1_0000_0000_0000_0000;
    if r < 0x8000_0000_0000_0000 then r else r - 0x1_0000_0000_0000_0000
  }

  /** time.Second << (n - 1) in int64, capped. */
  function Backoff(n: nat): int {
    var d := Signed64(SECOND * TwoTo(if n == 0 then 0 else n - 1));
    if d > BACKOFF_CAP then BACKOFF_CAP else d
  }

  lemma BackoffReached(n: nat)
    requires 1 <= n <= MAX_RAPID_RESTARTS
    ensures Backoff(n) == n * SECOND || (n == 3 && Backoff(n) == 4 * SECOND)
    ensures SECOND <= Backoff(n) < BACKOFF_CAP
  {
    assert TwoTo(0) == 1 && TwoTo(1) == 2 && TwoTo(2) == 4;
  }

  lemma {:induction false} TwoToGrows(m: nat, n: nat)
    requires m <= n
    ensures TwoTo(m) <= TwoTo(n)
    decreases n
  {
    if m < n { TwoToGrows(m, n - 1); }
  }

  lemma TwoTo33()
    ensures TwoTo(33) == 0x2_0000_0000 && TwoTo(34) == 0x4_0000_0000
  {
    assert TwoTo(8) == 0x100;
    assert TwoTo(16) == 0x1_0000;
    assert TwoTo(24) == 0x100_0000;
    assert TwoTo(32) == 0x1_0000_0000;
  }

  /** The shift is exact up to a count of 34; the next count already turns the delay negative. */
  lemma BackoffIsCappedDoubling(n: nat)
    ensures 1 <= n <= 34 ==> Backoff(n) == if SECOND * TwoTo(n - 1) > BACKOFF_CAP then BACKOFF_CAP else SECOND * TwoTo(n - 1)
    ensures Backoff(35) < 0
  {
    TwoTo33();
    if 1 <= n <= 34 { TwoToGrows(n - 1, 33); }
  }

  /** The shift keeps its value in the 64-bit word exactly up to a count of 34. */
  lemma ShiftIsExactUpTo34(n: nat)
    requires n > 0
    ensures Signed64(SECOND * TwoTo(n - 1)) == SECOND * TwoTo(n - 1) <==> n <= 34
  {
    TwoTo33();
    if n <= 34 { TwoToGrows(n - 1, 33); } else { TwoToGrows(34, n - 1); }
  }

  /** While no storm has been declared the delay grows with the number of kept failures and never reaches the cap. */
  lemma CalmBackoff(history: seq<int>)
    requires history != [] && |Kept(history)| <= MAX_RAPID_RESTARTS
    ensures 1 <= |Kept(history)|
    ensures SECOND <= Backoff(|Kept(history)|) < BACKOFF_CAP
  {
    BackoffReached(|Kept(history)|);
  }
}
