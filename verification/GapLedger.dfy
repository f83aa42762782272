/**
 The coverage ledger of a diagnostic export: `_BundleBuilder.gap` in blackbox_recorder.py merges
 repeated gaps, keeps at most 64 rows and counts the rest.
 */
module GapLedger {

  const MAX_ROWS := 64
  const MAX_SOURCE := 128
  const MAX_REASON := 80
  const PARTIAL := "partial_archive"

  datatype Row = Row(source: string, reason: string, count: nat)

  function Cut(s: string, n: nat): (r: string)
    ensures r <= s && |r| == if |s| <= n then |s| else n
  {
    if |s| <= n then s else s[..n]
  }

  function Counted(rows: seq<Row>): nat {
    if rows == [] then 0 else Counted(rows[..|rows| - 1]) + rows[|rows| - 1].count
  }

  predicate SameGap(r: Row, source: string, reason: string) {
    r.source == source && r.reason == reason
  }

  /** The first row of a gap, or the number of rows. */
  function IndexOf(rows: seq<Row>, source: string, reason: string): (i: nat)
    ensures i <= |rows| && (i < |rows| ==> SameGap(rows[i], source, reason))
    ensures forall j :: 0 <= j < i ==> !SameGap(rows[j], source, reason)
  {
    if rows == [] || SameGap(rows[0], source, reason) then 0
    else
      var i := IndexOf(rows[1..], source, reason);
      assert forall j :: 0 < j < i + 1 ==> rows[j] == rows[1..][j - 1];
      i + 1
  }

  /** Each row counts something, and no two of them the same gap. */
  ghost predicate OneRowEach(rows: seq<Row>) {
    rows == [] ||
    var front, last := rows[..|rows| - 1], rows[|rows| - 1];
    OneRowEach(front) && last.count >= 1 && IndexOf(front, last.source, last.reason) == |front|
  }

  ghost predicate WellFormed(rows: seq<Row>) { |rows| <= MAX_ROWS && OneRowEach(rows) }

  lemma {:induction false} RowsDiffer(rows: seq<Row>, i: nat, j: nat)
    requires i < j < |rows| && OneRowEach(rows)
    ensures !SameGap(rows[j], rows[i].source, rows[i].reason)
    decreases |rows|
  {
    var front := rows[..|rows| - 1];
    if j < |front| {
      RowsDiffer(front, i, j);
      assert front[i] == rows[i] && front[j] == rows[j];
    } else {
      assert front[i] == rows[i] && !SameGap(front[i], rows[j].source, rows[j].reason);
    }
  }

  lemma {:induction false} CountedUpdate(rows: seq<Row>, i: nat)
    requires i < |rows|
    ensures Counted(rows[i := rows[i].(count := rows[i].count + 1)]) == Counted(rows) + 1
    decreases |rows|
  {
    var updated := rows[i := rows[i].(count := rows[i].count + 1)];
    var n := |rows| - 1;
    if i < n {
      assert updated[..n] == rows[..n][i := rows[i].(count := rows[i].count + 1)];
      CountedUpdate(rows[..n], i);
    } else {
      assert updated[..n] == rows[..n];
    }
  }

  function Bumped(rows: seq<Row>, i: nat): seq<Row>
    requires i < |rows|
  {
    rows[i := rows[i].(count := rows[i].count + 1)]
  }

  lemma SameIndex(a: seq<Row>, b: seq<Row>, source: string, reason: string)
    requires |a| == |b| && forall k :: 0 <= k < |a| ==> a[k].source == b[k].source && a[k].reason == b[k].reason
    ensures IndexOf(a, source, reason) == IndexOf(b, source, reason)
  {
    var i, j := IndexOf(a, source, reason), IndexOf(b, source, reason);
    assert i < |a| ==> SameGap(b[i], source, reason);
    assert j < |b| ==> SameGap(a[j], source, reason);
  }

  lemma {:induction false} BumpKeepsRows(rows: seq<Row>, i: nat)
    requires i < |rows| && OneRowEach(rows)
    ensures OneRowEach(Bumped(rows, i))
    decreases |rows|
  {
    var n, after := |rows| - 1, Bumped(rows, i);
    if i < n {
      BumpKeepsRows(rows[..n], i);
      assert after[..n] == Bumped(rows[..n], i);
      SameIndex(after[..n], rows[..n], rows[n].source, rows[n].reason);
    } else {
      assert after[..n] == rows[..n];
    }
  }

  lemma BumpKeepsForm(rows: seq<Row>, i: nat)
    requires i < |rows| && WellFormed(rows)
    ensures WellFormed(Bumped(rows, i)) && Counted(Bumped(rows, i)) == Counted(rows) + 1
  {
    BumpKeepsRows(rows, i);
    CountedUpdate(rows, i);
  }

  lemma AppendKeepsForm(rows: seq<Row>, source: string, reason: string)
    requires WellFormed(rows) && |rows| < MAX_ROWS && IndexOf(rows, source, reason) == |rows|
    ensures WellFormed(rows + [Row(source, reason, 1)]) && Counted(rows + [Row(source, reason, 1)]) == Counted(rows) + 1
  {
    assert (rows + [Row(source, reason, 1)])[..|rows|] == rows;
  }

  /** The rows after one report: a known gap is counted in its row, a new one gets a row while there is room. */
  function Reported(rows: seq<Row>, source: string, reason: string): seq<Row> {
    var i := IndexOf(rows, source, reason);
    if i < |rows| then Bumped(rows, i)
    else if |rows| < MAX_ROWS then rows + [Row(source, reason, 1)]
    else rows
  }

  /** There is one row a gap, so any row of the gap is the one that is counted, and only a full table drops a new gap. */
  lemma ReportedExactly(rows: seq<Row>, source: string, reason: string)
    requires WellFormed(rows)
    ensures forall k :: 0 <= k < |rows| && SameGap(rows[k], source, reason) ==> Reported(rows, source, reason) == Bumped(rows, k)
    ensures (forall k :: 0 <= k < |rows| ==> !SameGap(rows[k], source, reason)) ==>
              Reported(rows, source, reason) == if |rows| < 64 then rows + [Row(source, reason, 1)] else rows
  {
    var i := IndexOf(rows, source, reason);
    forall k | i < k < |rows| ensures !SameGap(rows[k], source, reason) { RowsDiffer(rows, i, k); }
  }

  lemma ReportedCounts(rows: seq<Row>, source: string, reason: string)
    requires WellFormed(rows)
    ensures var placed := IndexOf(rows, source, reason) < |rows| || |rows| < 64;
            && WellFormed(Reported(rows, source, reason)) && |Reported(rows, source, reason)| >= |rows|
            && Counted(Reported(rows, source, reason)) == Counted(rows) + (if placed then 1 else 0)
  {
    var i := IndexOf(rows, source, reason);
    if i < |rows| {
      BumpKeepsForm(rows, i);
    } else if |rows| < MAX_ROWS {
      AppendKeepsForm(rows, source, reason);
    }
  }

  lemma {:induction false} EveryRowCounts(rows: seq<Row>)
    requires WellFormed(rows)
    ensures Counted(rows) >= |rows|
    decreases |rows|
  {
    if rows != [] { EveryRowCounts(rows[..|rows| - 1]); }
  }

  class Ledger {
    var rows: seq<Row>
    var omitted: nat
    var cleanupGap: bool
    /** How often a gap was reported. */
    ghost var calls: nat
    /** Of which sources. */
    ghost var reported: set<string>

    ghost predicate Valid()
      reads this
    {
      WellFormed(rows) && Counted(rows) + omitted == calls && (omitted > 0 ==> |rows| == MAX_ROWS)
      && (calls == 0 ==> reported == {})
    }

    constructor ()
      ensures Valid() && rows == [] && omitted == 0 && calls == 0 && !cleanupGap && reported == {}
    {
      rows, omitted, cleanupGap, calls, reported := [], 0, false, 0, {};
    }

    /** One more gap among the rows, unless it is new and they are full. */
    method Place(source: string, reason: string) returns (placed: bool)
      modifies this`rows
      ensures rows == Reported(old(rows), source, reason)
      ensures placed <==> IndexOf(old(rows), source, reason) < |old(rows)| || |old(rows)| < MAX_ROWS
    {
      var i := 0;
      while i < |rows| && !SameGap(rows[i], source, reason)
        invariant i <= |rows|
        invariant forall j :: 0 <= j < i ==> !SameGap(rows[j], source, reason)
      {
        i := i + 1;
      }
      assert i == IndexOf(rows, source, reason);
      placed := i < |rows| || |rows| < MAX_ROWS;
      if i < |rows| {
        rows := Bumped(rows, i);
      } else if placed {
        rows := rows + [Row(source, reason, 1)];
      }
    }

    /** A gap that has a row is counted there, a new one gets a row while there is room, any other is counted as omitted. */
    method Gap(source: string, reason: string)
      requires Valid()
      modifies this
      ensures Valid() && calls == old(calls) + 1 && reported == old(reported) + {source}
      ensures cleanupGap == (old(cleanupGap) || source == PARTIAL)
      ensures rows == Reported(old(rows), Cut(source, 128), Cut(reason, 80))
    {
      var partial := source == PARTIAL;
      cleanupGap := cleanupGap || partial;
      Count(Cut(source, MAX_SOURCE), Cut(reason, MAX_REASON));
      reported := reported + {source};
    }

    /** One more report, in a row or among the omitted ones. */
    method Count(source: string, reason: string)
      requires Valid()
      modifies this`rows, this`omitted, this`calls
      ensures Valid() && calls == old(calls) + 1 && rows == Reported(old(rows), source, reason)
    {
      calls := calls + 1;
      ReportedCounts(rows, source, reason);
      var placed := Place(source, reason);
      if !placed { omitted := omitted + 1; }
    }

    /** The reported gap count: merging and the row cap lose nothing. */
    method GapCount() returns (n: nat)
      requires Valid()
      ensures n == calls
      ensures n > 0 <==> rows != []
    {
      n := 0;
      for i := 0 to |rows|
        invariant n == Counted(rows[..i])
      {
        assert rows[..i + 1][..i] == rows[..i];
        n := n + rows[i].count;
      }
      assert rows[..|rows|] == rows;
      EveryRowCounts(rows);
      n := n + omitted;
    }
  }
}
