/**
 The explicit-stack walk over a stored self-test report: `_historical_failure_rows` and
 `_history_stamp` in blackbox_recorder.py, against a recursive one-level flatten.

 `dated` is an uninterpreted test: does the text match the date pattern and parse as an ISO date?
 */
module ReportWalk {
  import opened Wrappers

  const MAX_NODES := 4096

  datatype Json =
    | Null
    | Bool(b: bool)
    | Number(n: real)
    | Text(s: string)
    | List(items: seq<Json>)
    | Dict(fields: map<string, Json>)

  type Fields = map<string, Json>

  datatype Scope = Event | Run
  datatype Stamp = Stamp(text: string, scope: Scope)

  datatype Frame = Frame(rows: seq<Json>, index: nat, recorded: Option<Stamp>)

  function Get(row: Fields, key: string): Json { if key in row then row[key] else Null }

  predicate Truthy(j: Json) {
    match j
    case Null => false
    case Bool(b) => b
    case Number(n) => n != 0.0
    case Text(s) => s != ""
    case List(items) => items != []
    case Dict(fields) => fields != map[]
  }

  /** The characters that str.strip() removes. */
  predicate IsSpace(c: char) {
    var n := c as int;
    || 9 <= n <= 13 || 28 <= n <= 32 || n == 0x85 || n == 0xA0 || n == 0x1680 || 0x2000 <= n <= 0x200A
    || n == 0x2028 || n == 0x2029 || n == 0x202F || n == 0x205F || n == 0x3000
  }

  predicate Blank(s: string) { forall i :: 0 <= i < |s| ==> IsSpace(s[i]) }

  predicate Ascii(s: string) { forall i :: 0 <= i < |s| ==> s[i] < 128 as char }

  /** The row's own recorded time: absent, valid or invalid. */
  function OwnTime(row: Fields): Json { if "ts_iso" in row then row["ts_iso"] else Get(row, "generated") }

  predicate ValidTime(dated: string -> bool, time: Json) {
    time.Text? && |time.s| <= 80 && Ascii(time.s) && dated(time.s)
  }

  /** The nearest valid stamp, and one more invalid date when the row has a time that is not one. */
  function HistoryStamp(dated: string -> bool, row: Fields, inherited: Option<Stamp>): (Option<Stamp>, nat) {
    var time := OwnTime(row);
    if time.Null? then (inherited, 0)
    else if ValidTime(dated, time) then (Some(Stamp(time.s, Event)), 0)
    else (inherited, 1)
  }

  function AsRun(stamp: Option<Stamp>): Option<Stamp> {
    if stamp.Some? then Some(stamp.value.(scope := Run)) else None
  }

  // ---------------------------------------------------------------- what one row is

  datatype Visit =
    | Malformed
    | Unsupported
    | Opened(children: seq<Json>, recorded: Option<Stamp>, invalid: nat)
    | Failure(row: Fields, stamp: Option<Stamp>, invalid: nat)

  function Name(row: Fields): Json { if Truthy(Get(row, "module")) then row["module"] else Get(row, "name") }

  /** `opens`: a row with its own failures may be opened here, at the top level of a report that is a list. */
  function Classify(dated: string -> bool, row: Json, opens: bool, recorded: Option<Stamp>): Visit {
    if !row.Dict? then Malformed
    else if "failures" in row.fields then
      if !opens || !row.fields["failures"].List? then Unsupported
      else
        var (stamp, invalid) := HistoryStamp(dated, row.fields, None);
        Opened(row.fields["failures"].items, AsRun(stamp), invalid)
    else
      var name, detail := Name(row.fields), if "detail" in row.fields then row.fields["detail"] else Text("");
      if !name.Text? || Blank(name.s) || !detail.Text? then Malformed
      else
        var (stamp, invalid) := HistoryStamp(dated, row.fields, recorded);
        Failure(row.fields, stamp, invalid)
  }

  /** What a row is, given whether it may be opened and the stamp in force: the walk needs no more than this. */
  type Classifier = (Json, bool, Option<Stamp>) -> Visit

  function ClassifierOf(dated: string -> bool): Classifier {
    (row, opens, recorded) => Classify(dated, row, opens, recorded)
  }

  /** Only a row that may be opened is opened. */
  ghost predicate Shallow(classify: Classifier) {
    forall row, recorded :: !classify(row, false, recorded).Opened?
  }

  // ---------------------------------------------------------------- the recursive reading of a report

  /** Containers before their children; a child is never opened itself. */
  function Flatten(classify: Classifier, rows: seq<Json>, opens: bool, recorded: Option<Stamp>): seq<Visit>
    decreases opens, |rows|
  {
    if rows == [] then []
    else
      var v := classify(rows[0], opens, recorded);
      [v] + (if opens && v.Opened? then Flatten(classify, v.children, false, v.recorded) else [])
      + Flatten(classify, rows[1..], opens, recorded)
  }

  function Root(data: Json): Json { if data.Dict? then Get(data.fields, "failures") else data }

  function RootStamp(dated: string -> bool, data: Json): (Option<Stamp>, nat) {
    if data.Dict? then var (stamp, invalid) := HistoryStamp(dated, data.fields, None); (AsRun(stamp), invalid)
    else (None, 0)
  }

  /** Every row of the report in document order, containers before their children. */
  function AllVisits(dated: string -> bool, data: Json): seq<Visit> {
    if Root(data).List? then Flatten(ClassifierOf(dated), Root(data).items, data.List?, RootStamp(dated, data).0) else []
  }

  datatype Summary = Summary(failures: seq<(Fields, Option<Stamp>)>, malformed: nat, unsupported: nat, containers: nat, invalid: nat)

  function Add(s: Summary, v: Visit): Summary {
    match v
    case Malformed => s.(malformed := s.malformed + 1)
    case Unsupported => s.(unsupported := s.unsupported + 1)
    case Opened(_, _, n) => s.(containers := s.containers + 1, invalid := s.invalid + n)
    case Failure(row, stamp, n) => s.(failures := s.failures + [(row, stamp)], invalid := s.invalid + n)
  }

  function Tally(visits: seq<Visit>): Summary {
    if visits == [] then Summary([], 0, 0, 0, 0) else Add(Tally(visits[..|visits| - 1]), visits[|visits| - 1])
  }

  lemma TallyOnce(visits: seq<Visit>, v: Visit)
    ensures Tally(visits + [v]) == Add(Tally(visits), v)
  {
    assert (visits + [v])[..|visits|] == visits;
  }

  // ---------------------------------------------------------------- the walk

  function Rest(f: Frame): seq<Json>
    requires f.index <= |f.rows|
  {
    f.rows[f.index..]
  }

  ghost predicate Indexed(frames: seq<Frame>) {
    forall i :: 0 <= i < |frames| ==> frames[i].index <= |frames[i].rows|
  }

  /** The visits that one frame still owes; only the bottom frame may open containers. */
  ghost function Left(classify: Classifier, f: Frame, opens: bool): seq<Visit>
    requires f.index <= |f.rows|
  {
    Flatten(classify, Rest(f), opens, f.recorded)
  }

  ghost function Owed(classify: Classifier, frames: seq<Frame>, opens: bool): seq<Visit>
    requires Indexed(frames) && |frames| <= 2
  {
    match |frames|
    case 0 => []
    case 1 => Left(classify, frames[0], opens)
    case _ => Left(classify, frames[1], false) + Left(classify, frames[0], opens)
  }

  lemma LeftSplits(classify: Classifier, f: Frame, opens: bool)
    requires f.index < |f.rows|
    ensures var v := classify(f.rows[f.index], opens, f.recorded);
            Left(classify, f, opens) ==
            [v] + ((if opens && v.Opened? then Left(classify, Frame(v.children, 0, v.recorded), false) else [])
                   + Left(classify, Frame(f.rows, f.index + 1, f.recorded), opens))
  {
    var v := classify(f.rows[f.index], opens, f.recorded);
    var next := Frame(f.rows, f.index + 1, f.recorded);
    assert Rest(f)[0] == f.rows[f.index] && Rest(f)[1..] == Rest(next);
    if opens && v.Opened? { assert Rest(Frame(v.children, 0, v.recorded)) == v.children; }
    var nested := if opens && v.Opened? then Flatten(classify, v.children, false, v.recorded) else [];
    assert ([v] + nested) + Left(classify, next, opens) == [v] + (nested + Left(classify, next, opens));
  }

  /** The stack with its top frame one row further on, and the opened container's frame above it. */
  function Stepped(frames: seq<Frame>, v: Visit): seq<Frame>
    requires frames != []
  {
    var f := frames[|frames| - 1];
    var stepped := frames[..|frames| - 1] + [Frame(f.rows, f.index + 1, f.recorded)];
    if v.Opened? then stepped + [Frame(v.children, 0, v.recorded)] else stepped
  }

  lemma OwedSplits(classify: Classifier, frames: seq<Frame>, opens: bool)
    requires Shallow(classify) && Indexed(frames) && 1 <= |frames| <= 2
    requires frames[|frames| - 1].index < |frames[|frames| - 1].rows|
    ensures var f := frames[|frames| - 1];
            var v := classify(f.rows[f.index], opens && |frames| == 1, f.recorded);
            && Indexed(Stepped(frames, v)) && |Stepped(frames, v)| <= 2
            && Owed(classify, frames, opens) == [v] + Owed(classify, Stepped(frames, v), opens)
  {
    if |frames| == 1 {
      assert frames == [frames[0]];
      BottomSplits(classify, frames[0], opens);
    } else {
      assert frames == [frames[0], frames[1]];
      TopSplits(classify, frames[0], frames[1], opens);
    }
  }

  lemma BottomSplits(classify: Classifier, f: Frame, opens: bool)
    requires Shallow(classify) && f.index < |f.rows|
    ensures var v := classify(f.rows[f.index], opens, f.recorded);
            && Indexed(Stepped([f], v)) && |Stepped([f], v)| <= 2
            && Owed(classify, [f], opens) == [v] + Owed(classify, Stepped([f], v), opens)
  {
    var v := classify(f.rows[f.index], opens, f.recorded);
    var next := Frame(f.rows, f.index + 1, f.recorded);
    LeftSplits(classify, f, opens);
    if v.Opened? {
      assert Stepped([f], v) == [next, Frame(v.children, 0, v.recorded)];
    } else {
      assert Stepped([f], v) == [next];
      assert [] + Left(classify, next, opens) == Left(classify, next, opens);
    }
  }

  lemma TopSplits(classify: Classifier, bottom: Frame, f: Frame, opens: bool)
    requires Shallow(classify) && bottom.index <= |bottom.rows| && f.index < |f.rows|
    ensures var v := classify(f.rows[f.index], false, f.recorded);
            && Indexed(Stepped([bottom, f], v)) && |Stepped([bottom, f], v)| <= 2
            && Owed(classify, [bottom, f], opens) == [v] + Owed(classify, Stepped([bottom, f], v), opens)
  {
    var v := classify(f.rows[f.index], false, f.recorded);
    var next := Frame(f.rows, f.index + 1, f.recorded);
    LeftSplits(classify, f, false);
    assert !v.Opened?;
    assert Stepped([bottom, f], v) == [bottom, next];
    TwoFrames(classify, bottom, f, opens);
    TwoFrames(classify, bottom, next, opens);
    Rebracket(v, Left(classify, next, false), Left(classify, bottom, opens));
  }

  lemma TwoFrames(classify: Classifier, bottom: Frame, f: Frame, opens: bool)
    requires bottom.index <= |bottom.rows| && f.index <= |f.rows|
    ensures Owed(classify, [bottom, f], opens) == Left(classify, f, false) + Left(classify, bottom, opens)
  {
  }

  lemma Rebracket(v: Visit, above: seq<Visit>, below: seq<Visit>)
    ensures ([v] + ([] + above)) + below == [v] + (above + below)
  {
  }

  /** One row of the top frame: the frame moves on, and a container that is opened gets a frame above it. */
  method VisitTop(classify: Classifier, frames: seq<Frame>, opens: bool) returns (visit: Visit, after: seq<Frame>)
    requires Shallow(classify) && Indexed(frames) && 1 <= |frames| <= 2
    requires frames[|frames| - 1].index < |frames[|frames| - 1].rows|
    ensures Indexed(after) && |after| <= 2
    ensures Owed(classify, frames, opens) == [visit] + Owed(classify, after, opens)
  {
    OwedSplits(classify, frames, opens);
    var Frame(top, index, stamp) := frames[|frames| - 1];
    visit := classify(top[index], opens && |frames| == 1, stamp);
    after := frames[..|frames| - 1] + [Frame(top, index + 1, stamp)];
    if visit.Opened? { after := after + [Frame(visit.children, 0, visit.recorded)]; }
    assert after == Stepped(frames, visit);
  }

  /** The frame loop, over any classification of rows. */
  method Walk(classify: Classifier, rows: seq<Json>, opens: bool, recorded: Option<Stamp>)
    returns (summary: Summary, limited: bool)
    requires Shallow(classify)
    ensures var all := Flatten(classify, rows, opens, recorded);
            && summary == Tally(if |all| <= MAX_NODES then all else all[..MAX_NODES])
            && (limited <==> |all| > MAX_NODES)
  {
    summary, limited := Summary([], 0, 0, 0, 0), false;
    var frames, visited := [Frame(rows, 0, recorded)], 0;
    ghost var all, done := Flatten(classify, rows, opens, recorded), [];
    assert Rest(frames[0]) == rows;
    while frames != []
      invariant Indexed(frames) && |frames| <= 2 && !limited
      invariant all == done + Owed(classify, frames, opens) && |done| == visited <= MAX_NODES
      invariant Tally(done) == summary
      decreases |all| - visited, |frames|
    {
      if frames[|frames| - 1].index >= |frames[|frames| - 1].rows| {
        PopsNothing(classify, frames, opens);
        frames := frames[..|frames| - 1];
        continue;
      }
      if visited >= MAX_NODES {
        OwedSplits(classify, frames, opens);
        limited := true;
        break;
      }
      var visit;
      visit, frames := VisitTop(classify, frames, opens);
      summary := Record(done, visit, summary);
      MoveOne(all, done, visit, Owed(classify, frames, opens));
      done := done + [visit];
      visited := visited + 1;
    }
    assert done == if limited then all[..MAX_NODES] else all;
  }

  lemma PopsNothing(classify: Classifier, frames: seq<Frame>, opens: bool)
    requires Indexed(frames) && 1 <= |frames| <= 2
    requires frames[|frames| - 1].index == |frames[|frames| - 1].rows|
    ensures Owed(classify, frames, opens) == Owed(classify, frames[..|frames| - 1], opens)
  {
  }

  lemma MoveOne(all: seq<Visit>, done: seq<Visit>, v: Visit, owed: seq<Visit>)
    requires all == done + ([v] + owed)
    ensures all == (done + [v]) + owed
  {
  }

  /** The counters and the list of failures after one more visit. */
  method Record(ghost done: seq<Visit>, visit: Visit, before: Summary) returns (after: Summary)
    requires before == Tally(done)
    ensures after == Tally(done + [visit])
  {
    TallyOnce(done, visit);
    var Summary(failures, malformed, unsupported, containers, invalid) := before;
    match visit {
      case Malformed => malformed := malformed + 1;
      case Unsupported => unsupported := unsupported + 1;
      case Opened(_, _, n) => containers, invalid := containers + 1, invalid + n;
      case Failure(row, stamp, n) => failures, invalid := failures + [(row, stamp)], invalid + n;
    }
    after := Summary(failures, malformed, unsupported, containers, invalid);
  }

  method HistoricalFailureRows(dated: string -> bool, data: Json)
    returns (failures: seq<(Fields, Option<Stamp>)>, malformed: nat, unsupported: nat, invalidDates: nat, limited: bool)
    ensures var all := AllVisits(dated, data);
            var tally := Tally(if |all| <= MAX_NODES then all else all[..MAX_NODES]);
            && (failures, malformed, unsupported) == (tally.failures, tally.malformed, tally.unsupported)
            && invalidDates == (if Root(data).List? then RootStamp(dated, data).1 + tally.invalid else 0)
            && (limited <==> |all| > MAX_NODES)
    ensures forall f :: f in failures ==> Stamped(dated, data, f)
    ensures var met := ReportRows(data);
            var first := if |met| <= 4096 then met else met[..4096];
            && (exists at :: InOrder(dated, first, failures, at))
            && malformed == CountOf(first, (m: Met) => IsMalformed(m.row))
            && unsupported == CountOf(first, (m: Met) => IsUnsupported(m))
            && invalidDates == CountOf(first, (m: Met) => BadlyDated(dated, m)) + (if RootIsMisdated(dated, data) then 1 else 0)
            && (limited <==> |met| > 4096)
  {
    ReportIsReadRight(dated, data);
    if !Root(data).List? { return [], 0, 0, 0, false; }
    var (inherited, invalid) := RootStamp(dated, data);
    var tally;
    tally, limited := Walk(ClassifierOf(dated), Root(data).items, data.List?, inherited);
    ghost var all := AllVisits(dated, data);
    StampsAreNearest(dated, data, if |all| <= MAX_NODES then |all| else MAX_NODES);
    assert all[..|all|] == all;
    return tally.failures, tally.malformed, tally.unsupported, invalid + tally.invalid, limited;
  }

  // ---------------------------------------------------------------- what the reading guarantees

  /** Every visited node is accounted for exactly once. */
  lemma {:induction false} EveryNodeCountsOnce(visits: seq<Visit>)
    ensures var t := Tally(visits); |visits| == |t.failures| + t.malformed + t.unsupported + t.containers
    decreases |visits|
  {
    if visits != [] { EveryNodeCountsOnce(visits[..|visits| - 1]); }
  }

  /** The rows of a report: its own, and those of the containers that are opened. */
  function RowCount(rows: seq<Json>, opens: bool): nat {
    if rows == [] then 0
    else
      1 + (if opens && rows[0].Dict? && Get(rows[0].fields, "failures").List? then |rows[0].fields["failures"].items| else 0)
      + RowCount(rows[1..], opens)
  }

  /** `limited` is set exactly when the report has more rows than the node budget. */
  lemma {:induction false} VisitsAreRows(dated: string -> bool, rows: seq<Json>, opens: bool, recorded: Option<Stamp>)
    ensures |Flatten(ClassifierOf(dated), rows, opens, recorded)| == RowCount(rows, opens)
    ensures !opens ==> RowCount(rows, opens) == |rows|
    decreases opens, |rows|
  {
    if rows != [] {
      var v := Classify(dated, rows[0], opens, recorded);
      if v.Opened? { VisitsAreRows(dated, v.children, false, v.recorded); }
      VisitsAreRows(dated, rows[1..], opens, recorded);
    }
  }

  /** The i-th failure of a walk comes from a visit, and later failures from later visits. */
  ghost predicate InDocumentOrder(visits: seq<Visit>, failures: seq<(Fields, Option<Stamp>)>, at: seq<nat>) {
    && |at| == |failures|
    && (forall i :: 0 <= i < |at| ==>
          at[i] < |visits| && visits[at[i]].Failure? && (visits[at[i]].row, visits[at[i]].stamp) == failures[i])
    && (forall i, j :: 0 <= i < j < |at| ==> at[i] < at[j])
  }

  lemma {:induction false} FailuresInDocumentOrder(visits: seq<Visit>) returns (at: seq<nat>)
    ensures InDocumentOrder(visits, Tally(visits).failures, at)
    ensures forall k :: 0 <= k < |visits| && visits[k].Failure? ==> k in at
    decreases |visits|
  {
    at := [];
    if visits != [] {
      var n := |visits| - 1;
      at := FailuresInDocumentOrder(visits[..n]);
      assert forall k :: 0 <= k < n ==> visits[..n][k] == visits[k];
      if visits[n].Failure? {
        var longer := at + [n];
        assert forall k :: k in at ==> k in longer;
        assert longer[|at|] == n;
        at := longer;
      }
    }
  }

  /** An embedded run is a container or a coverage gap, never a failure; a failure has a name and a textual detail. */
  lemma ContainersAreNeverFailures(dated: string -> bool, row: Json, opens: bool, recorded: Option<Stamp>)
    ensures var v := Classify(dated, row, opens, recorded);
            && (row.Dict? && "failures" in row.fields ==> v.Opened? || v.Unsupported?)
            && (v.Failure? ==> Name(v.row).Text? && Name(v.row).s != "" && "failures" !in v.row)
            && (v.Failure? && "detail" in v.row ==> v.row["detail"].Text?)
  {
  }

  /** The stamp a failure carries: its own valid date as an event, else its container's as a run, else the report's. */
  ghost function Nearest(dated: string -> bool, own: Fields, outer: Option<Fields>): Option<Stamp> {
    if ValidTime(dated, OwnTime(own)) then Some(Stamp(OwnTime(own).s, Event))
    else if outer.Some? && ValidTime(dated, OwnTime(outer.value)) then Some(Stamp(OwnTime(outer.value).s, Run))
    else None
  }

  /** The row of a failure is one of `rows`, dated by itself or as `recorded` says. */
  ghost predicate DirectRow(dated: string -> bool, rows: seq<Json>, recorded: Option<Stamp>, row: Fields, stamp: Option<Stamp>) {
    && Dict(row) in rows
    && stamp == if ValidTime(dated, OwnTime(row)) then Some(Stamp(OwnTime(row).s, Event)) else recorded
  }

  /** The row of a failure is one of those that the container `row` of `rows` holds, dated by itself or by it. */
  ghost predicate NestedRow(dated: string -> bool, rows: seq<Json>, row: Fields, stamp: Option<Stamp>) {
    exists i :: 0 <= i < |rows| && HeldBy(dated, rows[i], row, stamp)
  }

  ghost predicate HeldBy(dated: string -> bool, container: Json, row: Fields, stamp: Option<Stamp>) {
    && container.Dict? && Get(container.fields, "failures").List?
    && Dict(row) in container.fields["failures"].items
    && stamp == Nearest(dated, row, Some(container.fields))
  }

  lemma ConcatenatedAt(v: Visit, nested: seq<Visit>, later: seq<Visit>, k: nat)
    requires k < |[v] + nested + later|
    ensures ([v] + nested + later)[k] ==
            if k == 0 then v else if k <= |nested| then nested[k - 1] else later[k - 1 - |nested|]
  {
  }

  /** A flatten is the first row, the rows it opened, and the rows after it. */
  lemma FlattenParts(classify: Classifier, rows: seq<Json>, opens: bool, recorded: Option<Stamp>)
    returns (nested: seq<Visit>, later: seq<Visit>)
    requires rows != []
    ensures var first := classify(rows[0], opens, recorded);
            && nested == (if opens && first.Opened? then Flatten(classify, first.children, false, first.recorded) else [])
            && later == Flatten(classify, rows[1..], opens, recorded)
            && Flatten(classify, rows, opens, recorded) == [first] + nested + later
  {
    var first := classify(rows[0], opens, recorded);
    nested := if opens && first.Opened? then Flatten(classify, first.children, false, first.recorded) else [];
    later := Flatten(classify, rows[1..], opens, recorded);
  }

  lemma FirstRowStamp(dated: string -> bool, row: Json, opens: bool, recorded: Option<Stamp>)
    ensures var v := Classify(dated, row, opens, recorded);
            && (v.Failure? ==> DirectRow(dated, [row], recorded, v.row, v.stamp))
            && (v.Opened? ==>
                  && row.Dict? && Get(row.fields, "failures") == List(v.children)
                  && forall own, stamp :: DirectRow(dated, v.children, v.recorded, own, stamp) ==> HeldBy(dated, row, own, stamp))
  {
  }

  lemma {:induction false} FlattenedStamps(dated: string -> bool, rows: seq<Json>, opens: bool, recorded: Option<Stamp>, k: nat)
    requires k < |Flatten(ClassifierOf(dated), rows, opens, recorded)|
    requires Flatten(ClassifierOf(dated), rows, opens, recorded)[k].Failure?
    ensures var v := Flatten(ClassifierOf(dated), rows, opens, recorded)[k];
            DirectRow(dated, rows, recorded, v.row, v.stamp) || (opens && NestedRow(dated, rows, v.row, v.stamp))
    decreases opens, |rows|
  {
    var classify := ClassifierOf(dated);
    var nested, later := FlattenParts(classify, rows, opens, recorded);
    var first, v := classify(rows[0], opens, recorded), Flatten(classify, rows, opens, recorded)[k];
    ConcatenatedAt(first, nested, later, k);
    FirstRowStamp(dated, rows[0], opens, recorded);
    if 0 < k <= |nested| {
      FlattenedStamps(dated, first.children, false, first.recorded, k - 1);
      assert HeldBy(dated, rows[0], v.row, v.stamp);
    } else if k > |nested| {
      FlattenedStamps(dated, rows[1..], opens, recorded, k - 1 - |nested|);
      LaterRow(dated, rows, recorded, v);
    }
  }

  lemma LaterRow(dated: string -> bool, rows: seq<Json>, recorded: Option<Stamp>, v: Visit)
    requires rows != [] && v.Failure?
    ensures DirectRow(dated, rows[1..], recorded, v.row, v.stamp) ==> DirectRow(dated, rows, recorded, v.row, v.stamp)
    ensures NestedRow(dated, rows[1..], v.row, v.stamp) ==> NestedRow(dated, rows, v.row, v.stamp)
  {
    if i :| 0 <= i < |rows[1..]| && HeldBy(dated, rows[1..][i], v.row, v.stamp) {
      assert HeldBy(dated, rows[i + 1], v.row, v.stamp);
    }
  }

  /** A reported failure with the stamp it should carry: a row of the report, or of a container of a report that is a list. */
  ghost predicate Stamped(dated: string -> bool, data: Json, failure: (Fields, Option<Stamp>)) {
    && Root(data).List?
    && ((Dict(failure.0) in Root(data).items
         && failure.1 == Nearest(dated, failure.0, if data.Dict? then Some(data.fields) else None))
        || (data.List? && NestedRow(dated, data.items, failure.0, failure.1)))
  }

  /** Every failure reported from any part of the walk carries the nearest valid stamp. */
  lemma StampsAreNearest(dated: string -> bool, data: Json, n: nat)
    requires n <= |AllVisits(dated, data)|
    ensures forall f :: f in Tally(AllVisits(dated, data)[..n]).failures ==> Stamped(dated, data, f)
  {
    var all := AllVisits(dated, data);
    var at := FailuresInDocumentOrder(all[..n]);
    forall f | f in Tally(all[..n]).failures ensures Stamped(dated, data, f) {
      var i :| 0 <= i < |at| && Tally(all[..n]).failures[i] == f;
      assert all[at[i]] == all[..n][at[i]];
      FlattenedStamps(dated, Root(data).items, data.List?, RootStamp(dated, data).0, at[i]);
    }
  }

  // ---------------------------------------------------------------- a reference reading, row by row

  /** A row as it is met: whether it may be opened, and what dates it when it does not date itself. */
  datatype Met = Met(row: Json, opens: bool, outer: Option<Fields>)

  /** Rows in document order, each container before its own. */
  function RowsMet(rows: seq<Json>, opens: bool, outer: Option<Fields>): seq<Met>
    decreases opens, |rows|
  {
    if rows == [] then []
    else
      [Met(rows[0], opens, outer)]
      + (if opens && rows[0].Dict? && "failures" in rows[0].fields && rows[0].fields["failures"].List?
         then RowsMet(rows[0].fields["failures"].items, false, Some(rows[0].fields)) else [])
      + RowsMet(rows[1..], opens, outer)
  }

  function ReportRows(data: Json): seq<Met> {
    match data
    case List(items) => RowsMet(items, true, None)
    case Dict(fields) =>
      if "failures" in fields && fields["failures"].List? then RowsMet(fields["failures"].items, false, Some(fields)) else []
    case _ => []
  }

  predicate Falsy(j: Json) {
    j == Null || j == Bool(false) || j == Number(0.0) || j == Text("") || j == List([]) || j == Dict(map[])
  }

  /** The name of a row: its "module", or its "name" when that is missing or false. */
  predicate NamedAs(f: Fields, s: string) {
    if "module" in f && !Falsy(f["module"]) then f["module"] == Text(s) else "name" in f && f["name"] == Text(s)
  }

  ghost predicate IsFailure(row: Json) {
    && row.Dict? && "failures" !in row.fields
    && ("detail" in row.fields ==> row.fields["detail"].Text?)
    && exists s :: NamedAs(row.fields, s) && exists i :: 0 <= i < |s| && !IsSpace(s[i])
  }

  predicate Opens(met: Met) {
    met.opens && met.row.Dict? && "failures" in met.row.fields && met.row.fields["failures"].List?
  }

  ghost predicate IsMalformed(row: Json) { !row.Dict? || ("failures" !in row.fields && !IsFailure(row)) }

  /** It holds failures that may not be opened here. */
  predicate IsUnsupported(met: Met) { met.row.Dict? && "failures" in met.row.fields && !Opens(met) }

  /** The row dates itself as `s`. */
  predicate DatedAs(dated: string -> bool, f: Fields, s: string) {
    && (if "ts_iso" in f then f["ts_iso"] == Text(s) else "generated" in f && f["generated"] == Text(s))
    && |s| <= 80 && (forall i :: 0 <= i < |s| ==> s[i] < 128 as char) && dated(s)
  }

  /** The row has a time that is not one. */
  ghost predicate Misdated(dated: string -> bool, f: Fields) {
    && (if "ts_iso" in f then f["ts_iso"] != Null else "generated" in f && f["generated"] != Null)
    && forall s :: !DatedAs(dated, f, s)
  }

  /** What an enclosing run says of its rows. */
  ghost predicate FromOuter(dated: string -> bool, outer: Option<Fields>, stamp: Option<Stamp>) {
    && (forall s :: outer.Some? && DatedAs(dated, outer.value, s) ==> stamp == Some(Stamp(s, Run)))
    && ((outer.None? || forall s :: !DatedAs(dated, outer.value, s)) ==> stamp == None)
  }

  ghost predicate StampedAs(dated: string -> bool, f: Fields, outer: Option<Fields>, stamp: Option<Stamp>) {
    && (forall s :: DatedAs(dated, f, s) ==> stamp == Some(Stamp(s, Event)))
    && ((forall s :: !DatedAs(dated, f, s)) ==> FromOuter(dated, outer, stamp))
  }

  /** A visit is right about the row met. */
  ghost predicate Agrees(dated: string -> bool, met: Met, v: Visit) {
    && (v.Failure? <==> IsFailure(met.row))
    && (v.Opened? <==> Opens(met))
    && (v.Unsupported? <==> IsUnsupported(met))
    && (v.Malformed? <==> IsMalformed(met.row))
    && (v.Failure? ==> v.row == met.row.fields && StampedAs(dated, v.row, met.outer, v.stamp))
    && (v.Failure? || v.Opened? ==> v.invalid == if Misdated(dated, met.row.fields) then 1 else 0)
  }

  lemma NameIsRead(f: Fields)
    ensures Name(f).Text? ==> NamedAs(f, Name(f).s) || Name(f).s == ""
    ensures forall s :: NamedAs(f, s) ==> Name(f) == Text(s)
  {
  }

  lemma OwnDate(dated: string -> bool, f: Fields)
    ensures ValidTime(dated, OwnTime(f)) ==> DatedAs(dated, f, OwnTime(f).s)
    ensures forall s :: DatedAs(dated, f, s) ==> OwnTime(f) == Text(s) && ValidTime(dated, Text(s))
    ensures Misdated(dated, f) <==> !OwnTime(f).Null? && !ValidTime(dated, OwnTime(f))
  {
  }

  lemma RightlyFailure(dated: string -> bool, met: Met, recorded: Option<Stamp>)
    requires FromOuter(dated, met.outer, recorded)
    ensures Agrees(dated, met, Classify(dated, met.row, met.opens, recorded))
  {
    if met.row.Dict? {
      var f := met.row.fields;
      NameIsRead(f);
      OwnDate(dated, f);
    }
  }

  lemma RightlyOpened(dated: string -> bool, met: Met, recorded: Option<Stamp>)
    requires Opens(met)
    ensures var v := Classify(dated, met.row, met.opens, recorded);
            v.Opened? && v.children == met.row.fields["failures"].items && FromOuter(dated, Some(met.row.fields), v.recorded)
  {
    OwnDate(dated, met.row.fields);
  }

  ghost predicate AllAgree(dated: string -> bool, met: seq<Met>, visits: seq<Visit>) {
    |met| == |visits| && forall k :: 0 <= k < |met| ==> Agrees(dated, met[k], visits[k])
  }

  lemma {:induction false} FlattenAgrees(dated: string -> bool, rows: seq<Json>, opens: bool, outer: Option<Fields>, recorded: Option<Stamp>)
    requires FromOuter(dated, outer, recorded)
    ensures AllAgree(dated, RowsMet(rows, opens, outer), Flatten(ClassifierOf(dated), rows, opens, recorded))
    decreases opens, |rows|
  {
    if rows != [] {
      var met := Met(rows[0], opens, outer);
      RightlyFailure(dated, met, recorded);
      var nested, later := FlattenParts(ClassifierOf(dated), rows, opens, recorded);
      var v := Classify(dated, rows[0], opens, recorded);
      if Opens(met) {
        RightlyOpened(dated, met, recorded);
        FlattenAgrees(dated, v.children, false, Some(rows[0].fields), v.recorded);
      }
      FlattenAgrees(dated, rows[1..], opens, outer, recorded);
    }
  }

  lemma VisitsAgree(dated: string -> bool, data: Json)
    ensures AllAgree(dated, ReportRows(data), AllVisits(dated, data))
    ensures data.Dict? ==> RootStamp(dated, data).1 == if Misdated(dated, data.fields) then 1 else 0
  {
    if data.Dict? { OwnDate(dated, data.fields); }
    if Root(data).List? {
      FlattenAgrees(dated, Root(data).items, data.List?, if data.Dict? then Some(data.fields) else None, RootStamp(dated, data).0);
    }
  }

  /** A failure or an opened container with a time that is not one. */
  ghost predicate BadlyDated(dated: string -> bool, met: Met) {
    (IsFailure(met.row) || Opens(met)) && Misdated(dated, met.row.fields)
  }

  ghost function CountOf(met: seq<Met>, p: Met -> bool): nat {
    if met == [] then 0 else CountOf(met[..|met| - 1], p) + if p(met[|met| - 1]) then 1 else 0
  }

  /** The failures of these rows, each once, in their order, with their stamps. */
  ghost predicate InOrder(dated: string -> bool, met: seq<Met>, failures: seq<(Fields, Option<Stamp>)>, at: seq<nat>) {
    && |at| == |failures|
    && (forall i, j :: 0 <= i < j < |at| ==> at[i] < at[j])
    && (forall i :: 0 <= i < |at| ==>
          && at[i] < |met| && IsFailure(met[at[i]].row) && failures[i].0 == met[at[i]].row.fields
          && StampedAs(dated, failures[i].0, met[at[i]].outer, failures[i].1))
    && (forall k :: 0 <= k < |met| && IsFailure(met[k].row) ==> k in at)
  }

  lemma {:induction false} TallyCounts(dated: string -> bool, met: seq<Met>, visits: seq<Visit>)
    requires AllAgree(dated, met, visits)
    ensures Tally(visits).malformed == CountOf(met, (m: Met) => IsMalformed(m.row))
    ensures Tally(visits).unsupported == CountOf(met, (m: Met) => IsUnsupported(m))
    ensures Tally(visits).invalid == CountOf(met, (m: Met) => BadlyDated(dated, m))
    decreases |met|
  {
    if met != [] {
      TallyCounts(dated, met[..|met| - 1], visits[..|visits| - 1]);
      assert Agrees(dated, met[|met| - 1], visits[|visits| - 1]);
    }
  }

  lemma TallyInOrder(dated: string -> bool, met: seq<Met>, visits: seq<Visit>)
    requires AllAgree(dated, met, visits)
    ensures exists at :: InOrder(dated, met, Tally(visits).failures, at)
  {
    var at := FailuresInDocumentOrder(visits);
    forall k | 0 <= k < |met| ensures IsFailure(met[k].row) <==> visits[k].Failure? {
      assert Agrees(dated, met[k], visits[k]);
    }
    assert InOrder(dated, met, Tally(visits).failures, at);
  }

  /** The report itself is a run with a time that is not one. */
  ghost predicate RootIsMisdated(dated: string -> bool, data: Json) {
    data.Dict? && "failures" in data.fields && data.fields["failures"].List? && Misdated(dated, data.fields)
  }

  /** What the walk returns is right about the rows of the report, up to the first 4096 of them. */
  lemma ReportIsReadRight(dated: string -> bool, data: Json)
    ensures var met, all := ReportRows(data), AllVisits(dated, data);
            var first := if |met| <= 4096 then met else met[..4096];
            var tally := Tally(if |all| <= MAX_NODES then all else all[..MAX_NODES]);
            && |met| == |all|
            && (exists at :: InOrder(dated, first, tally.failures, at))
            && tally.malformed == CountOf(first, (m: Met) => IsMalformed(m.row))
            && tally.unsupported == CountOf(first, (m: Met) => IsUnsupported(m))
            && tally.invalid == CountOf(first, (m: Met) => BadlyDated(dated, m))
    ensures RootStamp(dated, data).1 == (if data.Dict? && Misdated(dated, data.fields) then 1 else 0)
    ensures !Root(data).List? ==> ReportRows(data) == []
  {
    var met, all := ReportRows(data), AllVisits(dated, data);
    VisitsAgree(dated, data);
    var first, visits := if |met| <= 4096 then met else met[..4096], if |all| <= MAX_NODES then all else all[..MAX_NODES];
    assert AllAgree(dated, first, visits);
    TallyCounts(dated, first, visits);
    TallyInOrder(dated, first, visits);
  }
}
