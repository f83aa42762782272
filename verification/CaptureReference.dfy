/**
 What a budgeted copy puts out, without its budgets: the value cut at fixed limits.  While no budget runs
 out the copy is that, to the last character; and when one does, it is a cut of the value all the same.
 */
module CaptureReference {
  import opened BundleCapture

  /** A cut value, with the nodes and characters that are charged for it and the number of things left out. */
  datatype Clipped = Clipped(value: Value, nodes: nat, chars: nat, lost: nat)
  datatype ClippedItems = ClippedItems(values: seq<Value>, nodes: nat, chars: nat, lost: nat)
  datatype ClippedEntries = ClippedEntries(entries: seq<Entry>, nodes: nat, chars: nat, lost: nat)

  function Clip(v: Value, depth: nat): Clipped
    decreases v, 1
  {
    if depth > 4 then Clipped(None, 0, 0, 1)
    else
      match v
      case None | Bool(_) => Clipped(v, 1, 0, 0)
      case Int(n) =>
        if -0x1_0000_0000_0000_0000 < n < 0x1_0000_0000_0000_0000 then Clipped(v, 1, 0, 0) else Clipped(None, 1, 0, 1)
      case Float(finite, _) => if finite then Clipped(v, 1, 0, 0) else Clipped(None, 1, 0, 1)
      case Str(s) => if |s| <= 512 then Clipped(v, 1, |s|, 0) else Clipped(Str(s[..512]), 1, 512, 1)
      case Tuple(items) => var c := ClipItems(items, 64, depth); Clipped(List(c.values), c.nodes + 1, c.chars, c.lost)
      case List(items) => var c := ClipItems(items, 64, depth); Clipped(List(c.values), c.nodes + 1, c.chars, c.lost)
      case Dict(entries) => var c := ClipEntries(entries, 32, depth); Clipped(Dict(c.entries), c.nodes + 1, c.chars, c.lost)
      case Other => Clipped(None, 1, 0, 1)
  }

  /** The first `room` items, each cut; those beyond are lost. */
  function ClipItems(items: seq<Value>, room: nat, depth: nat): ClippedItems
    decreases items, 0
  {
    if items == [] then ClippedItems([], 0, 0, 0)
    else if room == 0 then ClippedItems([], 0, 0, |items|)
    else
      var first, rest := Clip(items[0], depth + 1), ClipItems(items[1..], room - 1, depth);
      ClippedItems([first.value] + rest.values, first.nodes + rest.nodes, first.chars + rest.chars, first.lost + rest.lost)
  }

  /** The first `room` entries, each cut but for those without a short textual key; the others are lost. */
  function ClipEntries(entries: seq<Entry>, room: nat, depth: nat): ClippedEntries
    decreases entries, 0
  {
    if entries == [] then ClippedEntries([], 0, 0, 0)
    else if room == 0 then ClippedEntries([], 0, 0, |entries|)
    else
      var Entry(key, item) := entries[0];
      assert item < entries[0];
      var rest := ClipEntries(entries[1..], room - 1, depth);
      if key.StrKey? && |key.s| <= 64 then
        var first := Clip(item, depth + 1);
        ClippedEntries([Entry(key, first.value)] + rest.entries, first.nodes + rest.nodes,
                       |key.s| + first.chars + rest.chars, first.lost + rest.lost)
      else rest.(lost := rest.lost + 1)
  }

  /** What is left of a budget. */
  function Less(b: Budget, nodes: nat, chars: nat, lost: nat): Budget
    requires nodes <= b.nodes && chars <= b.chars
  {
    Budget(b.chars - chars, b.nodes - nodes, b.omitted + lost)
  }

  /** While no budget runs out, the copy is the cut value at its price, and exactly what was left out is counted. */
  lemma {:induction false} AmpleCopyIsClipped(b: Budget, v: Value, depth: nat)
    requires Clip(v, depth).nodes < b.nodes && Clip(v, depth).chars < b.chars
    ensures var c := Clip(v, depth); Copy(b, v, depth) == (c.value, Less(b, c.nodes, c.chars, c.lost))
    decreases v, 1
  {
    if depth <= 4 {
      var b := b.(nodes := b.nodes - 1);
      match v
      case Tuple(items) => AmpleItemsAreClipped(b, items, 0, depth);
      case List(items) => AmpleItemsAreClipped(b, items, 0, depth);
      case Dict(entries) => AmpleEntriesAreClipped(b, entries, 0, depth);
      case _ =>
    }
  }

  lemma {:induction false} AmpleItemsAreClipped(b: Budget, items: seq<Value>, index: nat, depth: nat)
    requires index <= 64
    requires ClipItems(items, 64 - index, depth).nodes < b.nodes && ClipItems(items, 64 - index, depth).chars < b.chars
    ensures var c := ClipItems(items, 64 - index, depth);
            CopyItems(b, items, index, depth) == (c.values, Less(b, c.nodes, c.chars, c.lost))
    decreases items, 0
  {
    if items != [] && index < 64 {
      AmpleCopyIsClipped(b, items[0], depth + 1);
      var first := Clip(items[0], depth + 1);
      AmpleItemsAreClipped(Less(b, first.nodes, first.chars, first.lost), items[1..], index + 1, depth);
    }
  }

  /** What the cut makes of an entry that is kept, and of those after it. */
  lemma KeptIsClipped(entries: seq<Entry>, room: nat, depth: nat)
    requires entries != [] && room > 0 && entries[0].key.StrKey? && |entries[0].key.s| <= 64
    ensures var first, rest := Clip(entries[0].value, depth + 1), ClipEntries(entries[1..], room - 1, depth);
            ClipEntries(entries, room, depth) ==
            ClippedEntries([Entry(entries[0].key, first.value)] + rest.entries, first.nodes + rest.nodes,
                           |entries[0].key.s| + first.chars + rest.chars, first.lost + rest.lost)
  {
  }

  /** And what the copy makes of them. */
  lemma KeptIsCopied(b: Budget, entries: seq<Entry>, index: nat, depth: nat, first: Clipped)
    requires entries != [] && index < 32 && !Spent(b) && entries[0].key.StrKey? && |entries[0].key.s| <= 64
    requires |entries[0].key.s| <= b.chars
    requires first.nodes <= b.nodes && first.chars <= b.chars - |entries[0].key.s|
    requires var charged := b.(chars := b.chars - |entries[0].key.s|);
             Copy(charged, entries[0].value, depth + 1) == (first.value, Less(charged, first.nodes, first.chars, first.lost))
    ensures var charged := b.(chars := b.chars - |entries[0].key.s|);
            var (rest, after) := CopyEntries(Less(charged, first.nodes, first.chars, first.lost), entries[1..], index + 1, depth);
            CopyEntries(b, entries, index, depth) == ([Entry(entries[0].key, first.value)] + rest, after)
  {
  }

  /** The two together, when the entries after it are copied as they are cut. */
  lemma KeptFollows(b: Budget, entries: seq<Entry>, index: nat, depth: nat)
    requires entries != [] && index < 32 && entries[0].key.StrKey? && |entries[0].key.s| <= 64
    requires var c := ClipEntries(entries, 32 - index, depth); c.nodes < b.nodes && c.chars < b.chars
    requires var first, rest := Clip(entries[0].value, depth + 1), ClipEntries(entries[1..], 31 - index, depth);
             var charged := b.(chars := b.chars - |entries[0].key.s|);
             var left := Less(charged, first.nodes, first.chars, first.lost);
             && Copy(charged, entries[0].value, depth + 1) == (first.value, left)
             && CopyEntries(left, entries[1..], index + 1, depth) == (rest.entries, Less(left, rest.nodes, rest.chars, rest.lost))
    ensures var c := ClipEntries(entries, 32 - index, depth);
            CopyEntries(b, entries, index, depth) == (c.entries, Less(b, c.nodes, c.chars, c.lost))
  {
    KeptIsClipped(entries, 32 - index, depth);
    KeptIsCopied(b, entries, index, depth, Clip(entries[0].value, depth + 1));
  }

  /** An entry that is left out, likewise. */
  lemma DroppedFollows(b: Budget, entries: seq<Entry>, index: nat, depth: nat)
    requires entries != [] && index < 32 && !(entries[0].key.StrKey? && |entries[0].key.s| <= 64)
    requires var c := ClipEntries(entries, 32 - index, depth); c.nodes < b.nodes && c.chars < b.chars
    requires var rest := ClipEntries(entries[1..], 31 - index, depth);
             CopyEntries(Omit(b, 1), entries[1..], index + 1, depth) == (rest.entries, Less(Omit(b, 1), rest.nodes, rest.chars, rest.lost))
    ensures var c := ClipEntries(entries, 32 - index, depth);
            CopyEntries(b, entries, index, depth) == (c.entries, Less(b, c.nodes, c.chars, c.lost))
  {
  }

  lemma {:induction false} AmpleEntriesAreClipped(b: Budget, entries: seq<Entry>, index: nat, depth: nat)
    requires index <= 32
    requires ClipEntries(entries, 32 - index, depth).nodes < b.nodes && ClipEntries(entries, 32 - index, depth).chars < b.chars
    ensures var c := ClipEntries(entries, 32 - index, depth);
            CopyEntries(b, entries, index, depth) == (c.entries, Less(b, c.nodes, c.chars, c.lost))
    decreases entries, 0
  {
    if entries != [] && index < 32 {
      var Entry(key, item) := entries[0];
      assert item < entries[0];
      if key.StrKey? && |key.s| <= 64 {
        var charged := b.(chars := b.chars - |key.s|);
        var first := Clip(item, depth + 1);
        KeptIsClipped(entries, 32 - index, depth);
        AmpleCopyIsClipped(charged, item, depth + 1);
        AmpleEntriesAreClipped(Less(charged, first.nodes, first.chars, first.lost), entries[1..], index + 1, depth);
        KeptFollows(b, entries, index, depth);
      } else {
        AmpleEntriesAreClipped(Omit(b, 1), entries[1..], index + 1, depth);
        DroppedFollows(b, entries, index, depth);
      }
    }
  }

  // ---------------------------------------------------------------- any budget

  /** A placeholder, or the value with text, items and entries cut at their ends and some entries left out. */
  ghost predicate IsCut(r: Value, v: Value)
    decreases v, 1
  {
    r == None ||
    match v
    case Str(s) => r.Str? && r.s <= s
    case Tuple(items) => r.List? && AreCuts(r.items, items)
    case List(items) => r.List? && AreCuts(r.items, items)
    case Dict(entries) => r.Dict? && AreCutEntries(r.entries, entries)
    case _ => r == v
  }

  ghost predicate AreCuts(rs: seq<Value>, items: seq<Value>)
    decreases items, 0
  {
    rs == [] || (items != [] && IsCut(rs[0], items[0]) && AreCuts(rs[1..], items[1..]))
  }

  ghost predicate AreCutEntries(rs: seq<Entry>, entries: seq<Entry>)
    decreases entries, 0
  {
    rs == [] ||
    (&& entries != []
     && (|| (match entries[0] case Entry(key, item) =>
               assert item < entries[0]; rs[0].key == key && IsCut(rs[0].value, item) && AreCutEntries(rs[1..], entries[1..]))
         || AreCutEntries(rs, entries[1..])))
  }

  lemma {:induction false} CopyIsACut(b: Budget, v: Value, depth: nat)
    ensures IsCut(Copy(b, v, depth).0, v)
    decreases v, 1
  {
    if !(Spent(b) || depth > MAX_DEPTH) {
      var b := b.(nodes := b.nodes - 1);
      match v
      case Tuple(items) => CopiesAreCuts(b, items, 0, depth);
      case List(items) => CopiesAreCuts(b, items, 0, depth);
      case Dict(entries) => CopiedEntriesAreCuts(b, entries, 0, depth);
      case _ =>
    }
  }

  lemma {:induction false} CopiesAreCuts(b: Budget, items: seq<Value>, index: nat, depth: nat)
    ensures AreCuts(CopyItems(b, items, index, depth).0, items)
    decreases items, 0
  {
    if items != [] && index < MAX_ITEMS && !Spent(b) {
      CopyIsACut(b, items[0], depth + 1);
      var (copy, after) := Copy(b, items[0], depth + 1);
      CopiesAreCuts(after, items[1..], index + 1, depth);
      var rest := CopyItems(after, items[1..], index + 1, depth).0;
      assert ([copy] + rest)[1..] == rest;
    }
  }

  lemma {:induction false} CopiedEntriesAreCuts(b: Budget, entries: seq<Entry>, index: nat, depth: nat)
    ensures AreCutEntries(CopyEntries(b, entries, index, depth).0, entries)
    decreases entries, 0
  {
    if entries != [] && index < MAX_ENTRIES && !Spent(b) {
      var Entry(key, item) := entries[0];
      assert item < entries[0];
      if key.OtherKey? || |key.s| > MAX_KEY {
        CopiedEntriesAreCuts(Omit(b, 1), entries[1..], index + 1, depth);
      } else if |key.s| <= b.chars {
        var charged := b.(chars := b.chars - |key.s|);
        CopyIsACut(charged, item, depth + 1);
        var (copy, after) := Copy(charged, item, depth + 1);
        CopiedEntriesAreCuts(after, entries[1..], index + 1, depth);
        var rest := CopyEntries(after, entries[1..], index + 1, depth).0;
        assert ([Entry(key, copy)] + rest)[1..] == rest;
      }
    }
  }
}
