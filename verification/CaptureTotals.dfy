/**
 How much the budgeted copies of BundleCapture put out in all.  The node budget is charged for most nodes
 only, so 2048 is not a bound of the output: here are an input that exceeds it, the exact condition under
 which an export stays within it, and a bound that always holds.
 */
module CaptureTotals {
  import opened BundleCapture

  /** A node of the output: charged to the node budget, or a placeholder returned before the charge. */
  datatype Mark = Paid | Free

  // ---------------------------------------------------------------- the output without a node budget

  /** The nodes that a copy puts out, in order, when nodes never run out, and the characters left then. */
  function Walk(chars: nat, v: Value, depth: nat): (seq<Mark>, nat)
    decreases v, 1
  {
    if chars == 0 || depth > MAX_DEPTH then ([Free], chars)
    else
      match v
      case Str(s) => ([Paid], chars - |Prefix(s, chars)|)
      case Tuple(items) => var (marks, rest) := WalkItems(chars, items, 0, depth); ([Paid] + marks, rest)
      case List(items) => var (marks, rest) := WalkItems(chars, items, 0, depth); ([Paid] + marks, rest)
      case Dict(entries) => var (marks, rest) := WalkEntries(chars, entries, 0, depth); ([Paid] + marks, rest)
      case _ => ([Paid], chars)
  }

  function WalkItems(chars: nat, items: seq<Value>, index: nat, depth: nat): (seq<Mark>, nat)
    decreases items, 0
  {
    if items == [] || index >= MAX_ITEMS || chars == 0 then ([], chars)
    else
      var (first, left) := Walk(chars, items[0], depth + 1);
      var (later, rest) := WalkItems(left, items[1..], index + 1, depth);
      (first + later, rest)
  }

  function WalkEntries(chars: nat, entries: seq<Entry>, index: nat, depth: nat): (seq<Mark>, nat)
    decreases entries, 0
  {
    if entries == [] || index >= MAX_ENTRIES || chars == 0 then ([], chars)
    else
      var Entry(key, item) := entries[0];
      assert item < entries[0];
      if key.OtherKey? || |key.s| > MAX_KEY then WalkEntries(chars, entries[1..], index + 1, depth)
      else if |key.s| > chars then ([], chars)
      else
        var (first, left) := Walk(chars - |key.s|, item, depth + 1);
        var (later, rest) := WalkEntries(left, entries[1..], index + 1, depth);
        (first + later, rest)
  }

  /** One value after the other. */
  function WalkAll(chars: nat, values: seq<Value>): (seq<Mark>, nat)
    decreases |values|
  {
    if values == [] then ([], chars)
    else
      var (first, left) := Walk(chars, values[0], 0);
      var (later, rest) := WalkAll(left, values[1..]);
      (first + later, rest)
  }

  function PaidIn(marks: seq<Mark>): nat {
    if marks == [] then 0 else (if marks[0].Paid? then 1 else 0) + PaidIn(marks[1..])
  }

  /** The marks up to the `n`-th paid one. */
  function Cut(marks: seq<Mark>, n: nat): seq<Mark> {
    if n == 0 || marks == [] then []
    else [marks[0]] + Cut(marks[1..], if marks[0].Paid? then n - 1 else n)
  }

  lemma {:induction false} PaidConcat(u: seq<Mark>, v: seq<Mark>)
    ensures PaidIn(u + v) == PaidIn(u) + PaidIn(v)
    decreases |u|
  {
    if u == [] {
      assert u + v == v;
    } else {
      assert (u + v)[1..] == u[1..] + v;
      PaidConcat(u[1..], v);
    }
  }

  lemma {:induction false} CutConcat(u: seq<Mark>, v: seq<Mark>, n: nat)
    ensures Cut(u + v, n) == if PaidIn(u) < n then u + Cut(v, n - PaidIn(u)) else Cut(u, n)
    decreases |u|
  {
    if u == [] {
      assert u + v == v && u + Cut(v, n) == Cut(v, n);
    } else if n > 0 {
      var m := if u[0].Paid? then n - 1 else n;
      assert (u + v)[1..] == u[1..] + v;
      CutConcat(u[1..], v, m);
      if PaidIn(u) < n {
        assert [u[0]] + (u[1..] + Cut(v, n - PaidIn(u))) == u + Cut(v, n - PaidIn(u));
      }
    }
  }

  lemma {:induction false} CutPays(u: seq<Mark>, n: nat)
    ensures PaidIn(Cut(u, n)) == if PaidIn(u) < n then PaidIn(u) else n
    ensures PaidIn(u) < n ==> Cut(u, n) == u
    decreases |u|
  {
    if n > 0 && u != [] {
      var m := if u[0].Paid? then n - 1 else n;
      CutPays(u[1..], m);
      assert Cut(u, n)[1..] == Cut(u[1..], m) && u == [u[0]] + u[1..];
    }
  }

  /** From `nodes` nodes on, `out` nodes came out as the walk says, cut at the last node that could be paid. */
  ghost predicate Follows(nodes: nat, after: Budget, out: nat, marks: seq<Mark>, rest: nat) {
    && out == |Cut(marks, nodes)|
    && after.nodes + PaidIn(Cut(marks, nodes)) == nodes
    && (PaidIn(marks) < nodes ==> after.chars == rest)
  }

  lemma FollowsBoth(nodes: nat, between: Budget, after: Budget, m: nat, n: nat, u: seq<Mark>, v: seq<Mark>, left: nat, rest: nat)
    requires Follows(nodes, between, m, u, left)
    requires if PaidIn(u) < nodes then Follows(between.nodes, after, n, v, rest) else n == 0 && after.nodes == 0
    ensures Follows(nodes, after, m + n, u + v, rest)
  {
    CutPays(u, nodes);
    CutConcat(u, v, nodes);
    PaidConcat(u, v);
    if PaidIn(u) < nodes { PaidConcat(u, Cut(v, nodes - PaidIn(u))); }
  }

  lemma FollowsPaid(nodes: nat, after: Budget, out: nat, marks: seq<Mark>, rest: nat)
    requires nodes > 0 && Follows(nodes - 1, after, out, marks, rest)
    ensures Follows(nodes, after, 1 + out, [Paid] + marks, rest)
  {
    assert ([Paid] + marks)[1..] == marks;
    assert ([Paid] + Cut(marks, nodes - 1))[1..] == Cut(marks, nodes - 1);
  }

  lemma FollowsOne(nodes: nat, after: Budget, mark: Mark, rest: nat)
    requires nodes > 0 && after.nodes == (if mark.Paid? then nodes - 1 else nodes) && after.chars == rest
    ensures Follows(nodes, after, 1, [mark], rest)
  {
    assert [mark][1..] == [] && [mark] + [] == [mark];
    assert Cut([mark], nodes) == [mark];
  }

  // ---------------------------------------------------------------- the copy follows the walk

  lemma {:induction false} CopyFollowsWalk(b: Budget, v: Value, depth: nat)
    requires b.nodes > 0
    ensures var (r, after) := Copy(b, v, depth);
            var (marks, rest) := Walk(b.chars, v, depth);
            Follows(b.nodes, after, Nodes(r), marks, rest)
    decreases v, 1
  {
    var (r, after) := Copy(b, v, depth);
    var (marks, rest) := Walk(b.chars, v, depth);
    if Spent(b) || depth > MAX_DEPTH {
      FollowsOne(b.nodes, after, Free, rest);
    } else {
      var c := b.(nodes := b.nodes - 1);
      match v
      case Tuple(items) =>
        ItemsFollowWalk(c, items, 0, depth);
        ListFollows(b, items, depth);
      case List(items) =>
        ItemsFollowWalk(c, items, 0, depth);
        ListFollows(b, items, depth);
      case Dict(entries) =>
        EntriesFollowWalk(c, entries, 0, depth);
        FollowsPaid(b.nodes, after, EntryNodes(r.entries), WalkEntries(b.chars, entries, 0, depth).0, rest);
      case _ => FollowsOne(b.nodes, after, Paid, rest);
    }
  }

  lemma ListFollows(b: Budget, items: seq<Value>, depth: nat)
    requires b.nodes > 0
    requires var (r, after) := CopyItems(b.(nodes := b.nodes - 1), items, 0, depth);
             var (marks, rest) := WalkItems(b.chars, items, 0, depth);
             Follows(b.nodes - 1, after, ItemNodes(r), marks, rest)
    ensures var (r, after) := CopyItems(b.(nodes := b.nodes - 1), items, 0, depth);
            var (marks, rest) := WalkItems(b.chars, items, 0, depth);
            Follows(b.nodes, after, 1 + ItemNodes(r), [Paid] + marks, rest)
  {
    var (r, after) := CopyItems(b.(nodes := b.nodes - 1), items, 0, depth);
    var (marks, rest) := WalkItems(b.chars, items, 0, depth);
    FollowsPaid(b.nodes, after, ItemNodes(r), marks, rest);
  }

  lemma {:induction false} ItemsFollowWalk(b: Budget, items: seq<Value>, index: nat, depth: nat)
    ensures var (r, after) := CopyItems(b, items, index, depth);
            var (marks, rest) := WalkItems(b.chars, items, index, depth);
            Follows(b.nodes, after, ItemNodes(r), marks, rest)
    decreases items, 0
  {
    if items != [] && index < MAX_ITEMS && !Spent(b) {
      CopyFollowsWalk(b, items[0], depth + 1);
      var (copy, between) := Copy(b, items[0], depth + 1);
      var (first, left) := Walk(b.chars, items[0], depth + 1);
      CutPays(first, b.nodes);
      ItemsFollowWalk(between, items[1..], index + 1, depth);
      var (copies, after) := CopyItems(between, items[1..], index + 1, depth);
      var (later, rest) := WalkItems(left, items[1..], index + 1, depth);
      FollowsBoth(b.nodes, between, after, Nodes(copy), ItemNodes(copies), first, later, left, rest);
      assert ([copy] + copies)[1..] == copies;
    }
  }

  /** The first entry is copied: its key is short enough and can be charged. */
  predicate Kept(b: Budget, entries: seq<Entry>, index: nat) {
    && entries != [] && index < MAX_ENTRIES && !Spent(b)
    && entries[0].key.StrKey? && |entries[0].key.s| <= MAX_KEY && |entries[0].key.s| <= b.chars
  }

  /** What copy and walk make of such an entry and of those after it. */
  lemma KeptCopy(b: Budget, entries: seq<Entry>, index: nat, depth: nat, charged: Budget)
    requires Kept(b, entries, index) && charged == b.(chars := b.chars - |entries[0].key.s|)
    ensures var (copy, between) := Copy(charged, entries[0].value, depth + 1);
            var (copies, after) := CopyEntries(between, entries[1..], index + 1, depth);
            && EntryNodes(CopyEntries(b, entries, index, depth).0) == Nodes(copy) + EntryNodes(copies)
            && CopyEntries(b, entries, index, depth).1 == after
  {
    var (copy, between) := Copy(charged, entries[0].value, depth + 1);
    var copies := CopyEntries(between, entries[1..], index + 1, depth).0;
    assert ([Entry(entries[0].key, copy)] + copies)[1..] == copies;
  }

  lemma KeptWalk(b: Budget, entries: seq<Entry>, index: nat, depth: nat, chars: nat)
    requires Kept(b, entries, index) && chars == b.chars - |entries[0].key.s|
    ensures var (first, left) := Walk(chars, entries[0].value, depth + 1);
            var (later, rest) := WalkEntries(left, entries[1..], index + 1, depth);
            WalkEntries(b.chars, entries, index, depth) == (first + later, rest)
  {
  }

  /** If the entry and those after it follow the walk, they all do. */
  lemma KeptFollows(b: Budget, entries: seq<Entry>, index: nat, depth: nat, charged: Budget)
    requires Kept(b, entries, index) && charged == b.(chars := b.chars - |entries[0].key.s|)
    requires var (copy, between) := Copy(charged, entries[0].value, depth + 1);
             var (first, left) := Walk(charged.chars, entries[0].value, depth + 1);
             var (copies, after) := CopyEntries(between, entries[1..], index + 1, depth);
             var (later, rest) := WalkEntries(left, entries[1..], index + 1, depth);
             && Follows(b.nodes, between, Nodes(copy), first, left)
             && (if PaidIn(first) < b.nodes then Follows(between.nodes, after, EntryNodes(copies), later, rest)
                 else EntryNodes(copies) == 0 && after.nodes == 0)
    ensures var (r, after) := CopyEntries(b, entries, index, depth);
            var (marks, rest) := WalkEntries(b.chars, entries, index, depth);
            Follows(b.nodes, after, EntryNodes(r), marks, rest)
  {
    KeptCopy(b, entries, index, depth, charged);
    KeptWalk(b, entries, index, depth, charged.chars);
    var (copy, between) := Copy(charged, entries[0].value, depth + 1);
    var (first, left) := Walk(charged.chars, entries[0].value, depth + 1);
    var (copies, after) := CopyEntries(between, entries[1..], index + 1, depth);
    var (later, rest) := WalkEntries(left, entries[1..], index + 1, depth);
    FollowsBoth(b.nodes, between, after, Nodes(copy), EntryNodes(copies), first, later, left, rest);
  }

  lemma SpentEntries(b: Budget, entries: seq<Entry>, index: nat, depth: nat)
    requires b.nodes == 0
    ensures EntryNodes(CopyEntries(b, entries, index, depth).0) == 0 && CopyEntries(b, entries, index, depth).1.nodes == 0
  {
  }

  lemma {:induction false} EntriesFollowWalk(b: Budget, entries: seq<Entry>, index: nat, depth: nat)
    ensures var (r, after) := CopyEntries(b, entries, index, depth);
            var (marks, rest) := WalkEntries(b.chars, entries, index, depth);
            Follows(b.nodes, after, EntryNodes(r), marks, rest)
    decreases entries, 0
  {
    if Kept(b, entries, index) {
      assert entries[0].value < entries[0];
      var charged := b.(chars := b.chars - |entries[0].key.s|);
      CopyFollowsWalk(charged, entries[0].value, depth + 1);
      var between := Copy(charged, entries[0].value, depth + 1).1;
      CutPays(Walk(charged.chars, entries[0].value, depth + 1).0, b.nodes);
      EntriesFollowWalk(between, entries[1..], index + 1, depth);
      if between.nodes == 0 { SpentEntries(between, entries[1..], index + 1, depth); }
      KeptFollows(b, entries, index, depth, charged);
    } else if entries != [] && index < MAX_ENTRIES && !Spent(b) && (entries[0].key.OtherKey? || |entries[0].key.s| > MAX_KEY) {
      EntriesFollowWalk(Omit(b, 1), entries[1..], index + 1, depth);
    }
  }

  // ---------------------------------------------------------------- when the total stays within the node budget

  /** The values whose turn comes when the node budget is gone: each still puts out one placeholder. */
  function Late(chars: nat, values: seq<Value>, nodes: nat): nat
    decreases |values|
  {
    if values == [] || nodes == 0 then |values|
    else
      var (first, left) := Walk(chars, values[0], 0);
      if PaidIn(first) < nodes then Late(left, values[1..], nodes - PaidIn(first)) else |values| - 1
  }

  lemma {:induction false} SpentExport(b: Budget, values: seq<Value>)
    requires b.nodes == 0
    ensures ItemNodes(CopyAll(b, values).0) == |values| && CopyAll(b, values).1.nodes == 0
    decreases |values|
  {
    if values != [] {
      var (copy, after) := Copy(b, values[0], 0);
      SpentExport(after, values[1..]);
      var rest := CopyAll(after, values[1..]).0;
      assert ([copy] + rest)[1..] == rest;
    }
  }

  lemma NextCopy(b: Budget, values: seq<Value>)
    requires values != []
    ensures var (copy, between) := Copy(b, values[0], 0);
            var (copies, after) := CopyAll(between, values[1..]);
            && ItemNodes(CopyAll(b, values).0) == Nodes(copy) + ItemNodes(copies)
            && CopyAll(b, values).1 == after
  {
    var (copy, between) := Copy(b, values[0], 0);
    var copies := CopyAll(between, values[1..]).0;
    assert ([copy] + copies)[1..] == copies;
  }

  /** `out` nodes came out of an export: the walk cut at the last node that could be paid, and the late placeholders. */
  ghost predicate Totals(nodes: nat, after: Budget, out: nat, marks: seq<Mark>, late: nat) {
    out == |Cut(marks, nodes)| + late && after.nodes + PaidIn(Cut(marks, nodes)) == nodes
  }

  lemma TotalsBoth(nodes: nat, between: Budget, after: Budget, m: nat, n: nat, u: seq<Mark>, v: seq<Mark>, left: nat, late: nat)
    requires Follows(nodes, between, m, u, left)
    requires if PaidIn(u) < nodes then Totals(between.nodes, after, n, v, late) else n == late && after.nodes == 0
    ensures Totals(nodes, after, m + n, u + v, late)
  {
    CutPays(u, nodes);
    CutConcat(u, v, nodes);
    if PaidIn(u) < nodes { PaidConcat(u, Cut(v, nodes - PaidIn(u))); }
  }

  lemma {:induction false} ExportTotal(b: Budget, values: seq<Value>)
    ensures var (copies, after) := CopyAll(b, values);
            Totals(b.nodes, after, ItemNodes(copies), WalkAll(b.chars, values).0, Late(b.chars, values, b.nodes))
    decreases |values|
  {
    if b.nodes == 0 {
      SpentExport(b, values);
    } else if values != [] {
      CopyFollowsWalk(b, values[0], 0);
      NextCopy(b, values);
      var (copy, between) := Copy(b, values[0], 0);
      var (first, left) := Walk(b.chars, values[0], 0);
      CutPays(first, b.nodes);
      if PaidIn(first) < b.nodes {
        ExportTotal(between, values[1..]);
      } else {
        SpentExport(between, values[1..]);
      }
      var (copies, after) := CopyAll(between, values[1..]);
      TotalsBoth(b.nodes, between, after, Nodes(copy), ItemNodes(copies), first, WalkAll(left, values[1..]).0, left,
                 Late(b.chars, values, b.nodes));
    }
  }

  lemma {:induction false} PaidAtMost(marks: seq<Mark>)
    ensures PaidIn(marks) <= |marks|
  {
    if marks != [] { PaidAtMost(marks[1..]); }
  }

  lemma {:induction false} CutLength(marks: seq<Mark>, n: nat)
    requires n <= PaidIn(marks)
    ensures n <= |Cut(marks, n)| && n <= |marks|
    ensures |Cut(marks, n)| == n <==> PaidIn(marks[..n]) == n
    decreases |marks|
  {
    PaidAtMost(marks);
    if n > 0 {
      var m := if marks[0].Paid? then n - 1 else n;
      CutLength(marks[1..], m);
      assert marks[..n][1..] == marks[1..][..n - 1];
      PaidAtMost(marks[1..][..n - 1]);
    }
  }

  lemma Reassociate(u: seq<Mark>, v: seq<Mark>, w: seq<Mark>)
    ensures u + (v + w) == (u + v) + w
  {
  }

  lemma {:induction false} WalkAllFront(chars: nat, values: seq<Value>)
    requires values != []
    ensures var n := |values| - 1;
            var (front, left) := WalkAll(chars, values[..n]);
            WalkAll(chars, values).0 == front + Walk(left, values[n], 0).0
    decreases |values|
  {
    var n := |values| - 1;
    var (first, left) := Walk(chars, values[0], 0);
    if n == 0 {
      assert values[..n] == [] && values[1..] == [];
      assert first + [] == first && [] + first == first;
    } else {
      WalkAllFront(left, values[1..]);
      assert values[..n][0] == values[0] && values[..n][1..] == values[1..][..n - 1];
      var (front, last) := WalkAll(left, values[1..][..n - 1]);
      Reassociate(first, front, Walk(last, values[n], 0).0);
    }
  }

  /** No value comes late exactly when the budget outlasts all values but the last. */
  lemma {:induction false} LateExactly(chars: nat, values: seq<Value>, nodes: nat)
    requires values != []
    ensures Late(chars, values, nodes) == 0 <==> nodes > PaidIn(WalkAll(chars, values[..|values| - 1]).0)
    decreases |values|
  {
    var n := |values| - 1;
    var (first, left) := Walk(chars, values[0], 0);
    if n > 0 && nodes > 0 {
      assert values[..n][0] == values[0] && values[..n][1..] == values[1..][..n - 1];
      PaidConcat(first, WalkAll(left, values[1..][..n - 1]).0);
      if PaidIn(first) < nodes { LateExactly(left, values[1..], nodes - PaidIn(first)); }
    }
  }

  /** The first `n` nodes of the walk are all paid, and the last value is reached before they are. */
  ghost predicate SpentInTheLast(chars: nat, values: seq<Value>, n: nat)
    requires values != []
  {
    var marks := WalkAll(chars, values).0;
    n <= |marks| && PaidIn(marks[..n]) == n && PaidIn(WalkAll(chars, values[..|values| - 1]).0) < n
  }

  lemma CutWithinExactly(marks: seq<Mark>, n: nat, paid: nat, late: nat)
    requires n > 0 && paid <= PaidIn(marks) && (paid == |marks| ==> paid < n) && (late == 0 <==> paid < n)
    ensures |Cut(marks, n)| + late <= n <==> (|marks| <= n && paid < n) || (n <= |marks| && PaidIn(marks[..n]) == n && paid < n)
  {
    PaidAtMost(marks);
    CutPays(marks, n);
    if PaidIn(marks) < n {
      if |marks| >= n { FewerPaid(marks, n); }
    } else {
      CutLength(marks, n);
      if |marks| == n { assert marks[..n] == marks; }
    }
  }

  /**
   For every export and every budget: the output has no more nodes than the budget exactly when the walk has
   no more, or its first nodes are all paid and the budget outlasts all values but the last.
   */
  lemma TotalWithinBudgetExactly(b: Budget, values: seq<Value>)
    requires b.nodes > 0 && values != []
    ensures ItemNodes(CopyAll(b, values).0) <= b.nodes <==>
            |WalkAll(b.chars, values).0| <= b.nodes || SpentInTheLast(b.chars, values, b.nodes)
  {
    var marks := WalkAll(b.chars, values).0;
    var (front, left) := WalkAll(b.chars, values[..|values| - 1]);
    var last := Walk(left, values[|values| - 1], 0).0;
    ExportTotal(b, values);
    LateExactly(b.chars, values, b.nodes);
    WalkAllFront(b.chars, values);
    PaidConcat(front, last);
    PaidAtMost(front);
    assert |last| >= 1 && |marks| == |front| + |last|;
    CutWithinExactly(marks, b.nodes, PaidIn(front), Late(b.chars, values, b.nodes));
  }

  lemma FewerPaid(marks: seq<Mark>, n: nat)
    requires n <= |marks| && PaidIn(marks) < n
    ensures PaidIn(marks[..n]) < n
  {
    assert marks == marks[..n] + marks[n..];
    PaidConcat(marks[..n], marks[n..]);
  }

  // ---------------------------------------------------------------- what a caller sees on the value itself

  /** What can be reached within the limits of the copy: nodes, their characters, and that none lies too deep. */
  datatype Size = Size(nodes: nat, chars: nat, shallow: bool)

  function Plus(a: Size, b: Size): Size { Size(a.nodes + b.nodes, a.chars + b.chars, a.shallow && b.shallow) }

  function SizeOf(v: Value, depth: nat): Size
    decreases v, 1
  {
    if depth > MAX_DEPTH then Size(1, 0, false)
    else
      match v
      case Str(s) => Size(1, if |s| < MAX_STRING then |s| else MAX_STRING, true)
      case Tuple(items) => Plus(Size(1, 0, true), SizeOfItems(items, 0, depth))
      case List(items) => Plus(Size(1, 0, true), SizeOfItems(items, 0, depth))
      case Dict(entries) => Plus(Size(1, 0, true), SizeOfEntries(entries, 0, depth))
      case _ => Size(1, 0, true)
  }

  function SizeOfItems(items: seq<Value>, index: nat, depth: nat): Size
    decreases items, 0
  {
    if items == [] || index >= MAX_ITEMS then Size(0, 0, true)
    else Plus(SizeOf(items[0], depth + 1), SizeOfItems(items[1..], index + 1, depth))
  }

  function SizeOfEntries(entries: seq<Entry>, index: nat, depth: nat): Size
    decreases entries, 0
  {
    if entries == [] || index >= MAX_ENTRIES then Size(0, 0, true)
    else
      var Entry(key, item) := entries[0];
      assert item < entries[0];
      var later := SizeOfEntries(entries[1..], index + 1, depth);
      if key.OtherKey? || |key.s| > MAX_KEY then later
      else Plus(Plus(Size(0, |key.s|, true), SizeOf(item, depth + 1)), later)
  }

  function SizeOfAll(values: seq<Value>): Size {
    if values == [] then Size(0, 0, true) else Plus(SizeOf(values[0], 0), SizeOfAll(values[1..]))
  }

  /** A walk that characters do not cut short has this size. */
  ghost predicate Measures(size: Size, chars: nat, marks: seq<Mark>, rest: nat) {
    && size.chars + rest == chars && |marks| == size.nodes
    && (size.shallow <==> PaidIn(marks) == |marks|)
  }

  lemma MeasuresBoth(a: Size, b: Size, chars: nat, u: seq<Mark>, v: seq<Mark>, left: nat, rest: nat)
    requires Measures(a, chars, u, left) && Measures(b, left, v, rest)
    ensures Measures(Plus(a, b), chars, u + v, rest)
  {
    PaidConcat(u, v);
    PaidAtMost(u);
    PaidAtMost(v);
  }

  lemma OneMark(mark: Mark)
    ensures PaidIn([mark]) == if mark.Paid? then 1 else 0
  {
    assert [mark][1..] == [];
  }

  lemma {:induction false} WalkHasItsSize(chars: nat, v: Value, depth: nat)
    requires SizeOf(v, depth).chars < chars
    ensures var (marks, rest) := Walk(chars, v, depth); Measures(SizeOf(v, depth), chars, marks, rest)
    decreases v, 1
  {
    OneMark(Paid);
    OneMark(Free);
    if depth <= MAX_DEPTH {
      match v
      case Tuple(items) =>
        ItemsHaveTheirSize(chars, items, 0, depth);
        var (marks, rest) := WalkItems(chars, items, 0, depth);
        MeasuresBoth(Size(1, 0, true), SizeOfItems(items, 0, depth), chars, [Paid], marks, chars, rest);
      case List(items) =>
        ItemsHaveTheirSize(chars, items, 0, depth);
        var (marks, rest) := WalkItems(chars, items, 0, depth);
        MeasuresBoth(Size(1, 0, true), SizeOfItems(items, 0, depth), chars, [Paid], marks, chars, rest);
      case Dict(entries) =>
        EntriesHaveTheirSize(chars, entries, 0, depth);
        var (marks, rest) := WalkEntries(chars, entries, 0, depth);
        MeasuresBoth(Size(1, 0, true), SizeOfEntries(entries, 0, depth), chars, [Paid], marks, chars, rest);
      case _ =>
    }
  }

  lemma {:induction false} ItemsHaveTheirSize(chars: nat, items: seq<Value>, index: nat, depth: nat)
    requires SizeOfItems(items, index, depth).chars < chars
    ensures var (marks, rest) := WalkItems(chars, items, index, depth);
            Measures(SizeOfItems(items, index, depth), chars, marks, rest)
    decreases items, 0
  {
    if items != [] && index < MAX_ITEMS {
      WalkHasItsSize(chars, items[0], depth + 1);
      var (first, left) := Walk(chars, items[0], depth + 1);
      ItemsHaveTheirSize(left, items[1..], index + 1, depth);
      var (later, rest) := WalkItems(left, items[1..], index + 1, depth);
      MeasuresBoth(SizeOf(items[0], depth + 1), SizeOfItems(items[1..], index + 1, depth), chars, first, later, left, rest);
    }
  }

  lemma {:induction false} EntriesHaveTheirSize(chars: nat, entries: seq<Entry>, index: nat, depth: nat)
    requires SizeOfEntries(entries, index, depth).chars < chars
    ensures var (marks, rest) := WalkEntries(chars, entries, index, depth);
            Measures(SizeOfEntries(entries, index, depth), chars, marks, rest)
    decreases entries, 0
  {
    if entries != [] && index < MAX_ENTRIES {
      var Entry(key, item) := entries[0];
      assert item < entries[0];
      if key.OtherKey? || |key.s| > MAX_KEY {
        EntriesHaveTheirSize(chars, entries[1..], index + 1, depth);
      } else {
        var charged := chars - |key.s|;
        WalkHasItsSize(charged, item, depth + 1);
        var (first, left) := Walk(charged, item, depth + 1);
        EntriesHaveTheirSize(left, entries[1..], index + 1, depth);
        var (later, rest) := WalkEntries(left, entries[1..], index + 1, depth);
        MeasuresBoth(Plus(Size(0, |key.s|, true), SizeOf(item, depth + 1)), SizeOfEntries(entries[1..], index + 1, depth),
                     chars, first, later, left, rest);
      }
    }
  }

  lemma {:induction false} AllHaveTheirSize(chars: nat, values: seq<Value>)
    requires SizeOfAll(values).chars < chars
    ensures var (marks, rest) := WalkAll(chars, values); Measures(SizeOfAll(values), chars, marks, rest)
  {
    if values != [] {
      WalkHasItsSize(chars, values[0], 0);
      var (first, left) := Walk(chars, values[0], 0);
      AllHaveTheirSize(left, values[1..]);
      var (later, rest) := WalkAll(left, values[1..]);
      MeasuresBoth(SizeOf(values[0], 0), SizeOfAll(values[1..]), chars, first, later, left, rest);
    }
  }

  /**
   While characters do not run out: the output stays within the node budget exactly when what can be reached
   does, or the budget is spent inside the last value before anything too deep.
   */
  lemma AmpleTotalExactly(b: Budget, values: seq<Value>)
    requires b.nodes > 0 && values != [] && SizeOfAll(values).chars < b.chars
    ensures ItemNodes(CopyAll(b, values).0) <= b.nodes <==>
            SizeOfAll(values).nodes <= b.nodes || SpentInTheLast(b.chars, values, b.nodes)
  {
    AllHaveTheirSize(b.chars, values);
    TotalWithinBudgetExactly(b, values);
  }

  /** And when no budget runs out all that can be reached comes out, all of it paid exactly when nothing lies too deep. */
  lemma AmpleTotal(b: Budget, values: seq<Value>)
    requires values != [] && SizeOfAll(values).chars < b.chars && PaidIn(WalkAll(b.chars, values).0) < b.nodes
    ensures var (copies, after) := CopyAll(b, values);
            && ItemNodes(copies) == SizeOfAll(values).nodes
            && (ItemNodes(copies) == b.nodes - after.nodes <==> SizeOfAll(values).shallow)
  {
    var marks := WalkAll(b.chars, values).0;
    AllHaveTheirSize(b.chars, values);
    ExportTotal(b, values);
    CutPays(marks, b.nodes);
    WalkAllFront(b.chars, values);
    var (front, left) := WalkAll(b.chars, values[..|values| - 1]);
    PaidConcat(front, Walk(left, values[|values| - 1], 0).0);
    LateExactly(b.chars, values, b.nodes);
  }

  // ---------------------------------------------------------------- an input that exceeds the budget

  function Repeat(v: Value, n: nat): seq<Value> { if n == 0 then [] else [v] + Repeat(v, n - 1) }

  function Copies(marks: seq<Mark>, n: nat): seq<Mark> { if n == 0 then [] else marks + Copies(marks, n - 1) }

  lemma {:induction false} CopiesCount(marks: seq<Mark>, n: nat)
    ensures |Copies(marks, n)| == n * |marks| && PaidIn(Copies(marks, n)) == n * PaidIn(marks)
  {
    if n > 0 {
      CopiesCount(marks, n - 1);
      PaidConcat(marks, Copies(marks, n - 1));
      assert n * |marks| == |marks| + (n - 1) * |marks| && n * PaidIn(marks) == PaidIn(marks) + (n - 1) * PaidIn(marks);
    }
  }

  /** One item in front of others that charge no characters either. */
  lemma OneMoreItem(chars: nat, v: Value, items: seq<Value>, index: nat, depth: nat, first: seq<Mark>, later: seq<Mark>)
    requires index < MAX_ITEMS && chars > 0 && Walk(chars, v, depth + 1) == (first, chars)
    requires WalkItems(chars, items, index + 1, depth) == (later, chars)
    ensures WalkItems(chars, [v] + items, index, depth) == (first + later, chars)
  {
    assert ([v] + items)[1..] == items;
  }

  lemma {:induction false} RepeatedWalk(chars: nat, v: Value, n: nat, index: nat, depth: nat, marks: seq<Mark>)
    requires index + n <= MAX_ITEMS && chars > 0 && Walk(chars, v, depth + 1) == (marks, chars)
    ensures WalkItems(chars, Repeat(v, n), index, depth) == (Copies(marks, n), chars)
    decreases n
  {
    if n > 0 {
      RepeatedWalk(chars, v, n - 1, index + 1, depth, marks);
      OneMoreItem(chars, v, Repeat(v, n - 1), index, depth, marks, Copies(marks, n - 1));
    }
  }

  /** The copy of `v` charges no characters, puts out `nodes` nodes and pays for `paid` of them. */
  ghost predicate Weighs(chars: nat, v: Value, depth: nat, nodes: int, paid: int) {
    var (marks, rest) := Walk(chars, v, depth);
    |marks| == nodes && PaidIn(marks) == paid && rest == chars
  }

  lemma ListWeight(chars: nat, v: Value, n: nat, depth: nat, nodes: int, paid: int)
    requires n <= MAX_ITEMS && chars > 0 && depth <= MAX_DEPTH && Weighs(chars, v, depth + 1, nodes, paid)
    ensures Weighs(chars, List(Repeat(v, n)), depth, 1 + n * nodes, 1 + n * paid)
  {
    var marks := Walk(chars, v, depth + 1).0;
    RepeatedWalk(chars, v, n, 0, depth, marks);
    CopiesCount(marks, n);
    OneMark(Paid);
    PaidConcat([Paid], Copies(marks, n));
  }

  /** A list of `m` lists of `m` None, inside `n` lists of one. */
  function Wide(m: nat, n: nat): Value {
    if n == 0 then List(Repeat(List(Repeat(None, m)), m)) else List(Repeat(Wide(m, n - 1), 1))
  }

  lemma RowWeight(chars: nat, m: nat)
    requires chars > 0 && m <= MAX_ITEMS
    ensures Weighs(chars, List(Repeat(None, m)), 4, m + 1, 1)
  {
    OneMark(Free);
    ListWeight(chars, None, m, 4, 1, 0);
  }

  lemma Distribute(m: nat)
    ensures m * (m + 1) == m * m + m
  {
  }

  lemma SquareWeight(chars: nat, m: nat, row: Value)
    requires chars > 0 && m <= MAX_ITEMS && Weighs(chars, row, 4, m + 1, 1)
    ensures Weighs(chars, List(Repeat(row, m)), 3, m * m + m + 1, m + 1)
  {
    Distribute(m);
    ListWeight(chars, row, m, 3, m + 1, 1);
  }

  lemma {:induction false} WideWeight(chars: nat, m: nat, n: nat)
    requires chars > 0 && m <= MAX_ITEMS && n <= 3
    ensures Weighs(chars, Wide(m, n), 3 - n, m * m + m + 1 + n, m + 1 + n)
    decreases n
  {
    if n == 0 {
      RowWeight(chars, m);
      SquareWeight(chars, m, List(Repeat(None, m)));
    } else {
      WideWeight(chars, m, n - 1);
      ListWeight(chars, Wide(m, n - 1), 1, 3 - n, m * m + m + n, m + n);
    }
  }

  lemma OneCopy(b: Budget, v: Value, nodes: nat, paid: nat)
    requires Weighs(b.chars, v, 0, nodes, paid) && b.chars > 0 && paid < b.nodes
    ensures var (r, after) := Copy(b, v, 0); Nodes(r) == nodes && b.nodes - after.nodes == paid
  {
    CopyFollowsWalk(b, v, 0);
    CutPays(Walk(b.chars, v, 0).0, b.nodes);
  }

  /** Placeholders below the depth limit are free: `m + 4` nodes are paid for and `m * m + m + 4` come out. */
  lemma PlaceholdersAreNotPaid(b: Budget, m: nat, v: Value)
    requires m <= MAX_ITEMS && v == Wide(m, 3) && b.chars > 0 && m + 4 < b.nodes
    ensures var (r, after) := Copy(b, v, 0); Nodes(r) == m * m + m + 4 && b.nodes - after.nodes == m + 4
  {
    WideWeight(b.chars, m, 3);
    OneCopy(b, v, m * m + m + 4, m + 4);
  }

  lemma Squares(m: nat)
    ensures m * m + m + 4 > GUI_NODES <==> m >= 45
  {
    if m >= 45 { assert m * m >= 45 * m; } else { assert m * m <= 44 * m; }
  }

  /** So a fresh budget does not bound the output: of these values those with rows of 45 and more exceed it. */
  lemma NodesExceedTheBudget(m: nat, v: Value)
    requires m <= MAX_ITEMS && v == Wide(m, 3)
    ensures ItemNodes(CopyAll(Budget(GUI_CHARS, GUI_NODES, 0), [v]).0) == m * m + m + 4
    ensures ItemNodes(CopyAll(Budget(GUI_CHARS, GUI_NODES, 0), [v]).0) > GUI_NODES <==> m >= 45
  {
    var b := Budget(GUI_CHARS, GUI_NODES, 0);
    PlaceholdersAreNotPaid(b, m, v);
    NextCopy(b, [v]);
    assert [v][1..] == [];
    Squares(m);
  }

  // ---------------------------------------------------------------- a bound that always holds

  const PER_NODE := 65

  /** What `paid` nodes may bring out: each of them itself and at most 64 placeholders. */
  ghost predicate Bounded(before: Budget, after: Budget, out: nat, extra: nat) {
    after.nodes <= before.nodes && out <= PER_NODE * (before.nodes - after.nodes) + extra
  }

  lemma {:induction false} CopyIsBounded(b: Budget, v: Value, depth: nat)
    ensures var (r, after) := Copy(b, v, depth);
            Bounded(b, after, Nodes(r), if after.nodes == b.nodes then 1 else 0)
    decreases v, 1
  {
    CopyIsAccounted(b, v, depth);
    if !(Spent(b) || depth > MAX_DEPTH) {
      var b := b.(nodes := b.nodes - 1);
      match v
      case Tuple(items) => ItemsAreBounded(b, items, 0, depth);
      case List(items) => ItemsAreBounded(b, items, 0, depth);
      case Dict(entries) => EntriesAreBounded(b, entries, 0, depth);
      case _ =>
    }
  }

  lemma {:induction false} ItemsAreBounded(b: Budget, items: seq<Value>, index: nat, depth: nat)
    ensures var (r, after) := CopyItems(b, items, index, depth);
            Bounded(b, after, ItemNodes(r), if index < MAX_ITEMS then MAX_ITEMS - index else 0)
    decreases items, 0
  {
    if items != [] && index < MAX_ITEMS && !Spent(b) {
      var (copy, between) := Copy(b, items[0], depth + 1);
      CopyIsBounded(b, items[0], depth + 1);
      ItemsAreBounded(between, items[1..], index + 1, depth);
      var copies := CopyItems(between, items[1..], index + 1, depth).0;
      assert ([copy] + copies)[1..] == copies;
    }
  }

  lemma {:induction false} EntriesAreBounded(b: Budget, entries: seq<Entry>, index: nat, depth: nat)
    ensures var (r, after) := CopyEntries(b, entries, index, depth);
            Bounded(b, after, EntryNodes(r), if index < MAX_ENTRIES then MAX_ENTRIES - index else 0)
    decreases entries, 0
  {
    if entries != [] && index < MAX_ENTRIES && !Spent(b) {
      var Entry(key, item) := entries[0];
      assert item < entries[0];
      if key.OtherKey? || |key.s| > MAX_KEY {
        EntriesAreBounded(Omit(b, 1), entries[1..], index + 1, depth);
      } else if |key.s| <= b.chars {
        var charged := b.(chars := b.chars - |key.s|);
        var (copy, between) := Copy(charged, item, depth + 1);
        CopyIsBounded(charged, item, depth + 1);
        EntriesAreBounded(between, entries[1..], index + 1, depth);
        var copies := CopyEntries(between, entries[1..], index + 1, depth).0;
        assert ([Entry(key, copy)] + copies)[1..] == copies;
      }
    }
  }

  /** Over any number of copies: at most one node a call and 65 for each of the 2048 that can be paid. */
  lemma {:induction false} WholeExportHasABound(b: Budget, values: seq<Value>)
    ensures ItemNodes(CopyAll(b, values).0) <= |values| + PER_NODE * (b.nodes - CopyAll(b, values).1.nodes)
    ensures CopyAll(b, values).1.nodes <= b.nodes
    ensures b.nodes == GUI_NODES ==> ItemNodes(CopyAll(b, values).0) <= |values| + PER_NODE * GUI_NODES
    decreases |values|
  {
    if values != [] {
      var (copy, after) := Copy(b, values[0], 0);
      CopyIsBounded(b, values[0], 0);
      WholeExportHasABound(after, values[1..]);
      var rest := CopyAll(after, values[1..]).0;
      assert ([copy] + rest)[1..] == rest;
    }
  }
}
