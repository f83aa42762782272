/**
 The budgeted deep copy `_BundleCapture.copy` in blackbox_recorder.py: GUI values are copied under one
 budget of nodes and one of characters, and everything left out is counted.
 */
module BundleCapture {

  const GUI_CHARS := 32 * 1024
  const GUI_NODES := 2048
  const MAX_DEPTH := 4
  const MAX_STRING := 512
  const MAX_ITEMS := 64
  const MAX_ENTRIES := 32
  const MAX_KEY := 64

  datatype Key = StrKey(s: string) | OtherKey

  /** A Python value; `Other` stands for every type that is not copied. */
  datatype Value =
    | None
    | Bool(b: bool)
    | Int(n: int)
    | Float(finite: bool, x: real)
    | Str(s: string)
    | Tuple(items: seq<Value>)
    | List(items: seq<Value>)
    | Dict(entries: seq<Entry>)
    | Other

  datatype Entry = Entry(key: Key, value: Value)

  datatype Budget = Budget(chars: nat, nodes: nat, omitted: nat)

  predicate Spent(b: Budget) { b.nodes == 0 || b.chars == 0 }

  predicate WithinWord(n: int) { -0x1_0000_0000_0000_0000 < n < 0x1_0000_0000_0000_0000 }

  function Omit(b: Budget, n: nat): Budget { b.(omitted := b.omitted + n) }

  // ---------------------------------------------------------------- the copy as a function

  function Prefix(s: string, chars: nat): string {
    var cap := if chars < MAX_STRING then chars else MAX_STRING;
    if |s| <= cap then s else s[..cap]
  }

  function Copy(b: Budget, v: Value, depth: nat): (Value, Budget)
    decreases v, 1
  {
    if Spent(b) || depth > MAX_DEPTH then (None, Omit(b, 1))
    else
      var b := b.(nodes := b.nodes - 1);
      match v
      case None | Bool(_) => (v, b)
      case Int(n) => if WithinWord(n) then (v, b) else (None, Omit(b, 1))
      case Float(finite, _) => if finite then (v, b) else (None, Omit(b, 1))
      case Str(s) =>
        var t := Prefix(s, b.chars);
        (Str(t), Omit(b.(chars := b.chars - |t|), if |s| > |t| then 1 else 0))
      case Tuple(items) => var (copies, rest) := CopyItems(b, items, 0, depth); (List(copies), rest)
      case List(items) => var (copies, rest) := CopyItems(b, items, 0, depth); (List(copies), rest)
      case Dict(entries) => var (copies, rest) := CopyEntries(b, entries, 0, depth); (Dict(copies), rest)
      case Other => (None, Omit(b, 1))
  }

  /** The items from position `index` on. */
  function CopyItems(b: Budget, items: seq<Value>, index: nat, depth: nat): (seq<Value>, Budget)
    decreases items, 0
  {
    if items == [] then ([], b)
    else if index >= MAX_ITEMS || Spent(b) then ([], Omit(b, |items|))
    else
      var (copy, after) := Copy(b, items[0], depth + 1);
      var (copies, rest) := CopyItems(after, items[1..], index + 1, depth);
      ([copy] + copies, rest)
  }

  function CopyEntries(b: Budget, entries: seq<Entry>, index: nat, depth: nat): (seq<Entry>, Budget)
    decreases entries, 0
  {
    if entries == [] then ([], b)
    else if index >= MAX_ENTRIES || Spent(b) then ([], Omit(b, |entries|))
    else
      var Entry(key, item) := entries[0];
      assert item < entries[0];
      if key.OtherKey? || |key.s| > MAX_KEY then CopyEntries(Omit(b, 1), entries[1..], index + 1, depth)
      else if |key.s| > b.chars then ([], Omit(b, |entries|))
      else
        var (copy, after) := Copy(b.(chars := b.chars - |key.s|), item, depth + 1);
        var (copies, rest) := CopyEntries(after, entries[1..], index + 1, depth);
        ([Entry(key, copy)] + copies, rest)
  }

  // ---------------------------------------------------------------- the copy as it runs

  class BundleCapture {
    var chars: nat
    var nodes: nat
    var omitted: nat

    ghost function Left(): Budget
      reads this
    {
      Budget(chars, nodes, omitted)
    }

    constructor ()
      ensures Left() == Budget(GUI_CHARS, GUI_NODES, 0)
    {
      chars, nodes, omitted := GUI_CHARS, GUI_NODES, 0;
    }

    method CopyValue(v: Value, depth: nat) returns (result: Value)
      modifies this
      ensures (result, Left()) == Copy(old(Left()), v, depth)
      decreases v, 1
    {
      if nodes <= 0 || chars <= 0 || depth > MAX_DEPTH {
        omitted := omitted + 1;
        return None;
      }
      nodes := nodes - 1;
      match v {
        case None | Bool(_) => return v;
        case Int(n) =>
          if WithinWord(n) { return v; }
          omitted := omitted + 1;
          return None;
        case Float(finite, _) =>
          if finite { return v; }
          omitted := omitted + 1;
          return None;
        case Str(s) =>
          var text := Prefix(s, chars);
          chars := chars - |text|;
          omitted := omitted + if |s| > |text| then 1 else 0;
          return Str(text);
        case Tuple(items) =>
          var copies := CopyList(items, depth);
          return List(copies);
        case List(items) =>
          var copies := CopyList(items, depth);
          return List(copies);
        case Dict(entries) =>
          var copies := CopyDict(entries, depth);
          return Dict(copies);
        case Other =>
          omitted := omitted + 1;
          return None;
      }
    }

    method CopyList(items: seq<Value>, depth: nat) returns (copies: seq<Value>)
      modifies this
      ensures (copies, Left()) == CopyItems(old(Left()), items, 0, depth)
      decreases items, 0
    {
      copies := [];
      ghost var whole := CopyItems(Left(), items, 0, depth);
      assert items[0..] == items;
      for index := 0 to |items|
        invariant whole.0 == copies + CopyItems(Left(), items[index..], index, depth).0
        invariant whole.1 == CopyItems(Left(), items[index..], index, depth).1
      {
        assert items[index..][0] == items[index] && items[index..][1..] == items[index + 1..];
        if index >= MAX_ITEMS || nodes <= 0 || chars <= 0 {
          assert copies + [] == copies;
          omitted := omitted + |items| - index;
          return;
        }
        var copy := CopyValue(items[index], depth + 1);
        copies := copies + [copy];
      }
      assert items[|items|..] == [] && copies + [] == copies;
    }

    method CopyDict(entries: seq<Entry>, depth: nat) returns (copies: seq<Entry>)
      modifies this
      ensures (copies, Left()) == CopyEntries(old(Left()), entries, 0, depth)
      decreases entries, 0
    {
      copies := [];
      ghost var whole := CopyEntries(Left(), entries, 0, depth);
      assert entries[0..] == entries;
      for index := 0 to |entries|
        invariant whole.0 == copies + CopyEntries(Left(), entries[index..], index, depth).0
        invariant whole.1 == CopyEntries(Left(), entries[index..], index, depth).1
      {
        assert entries[index..][0] == entries[index] && entries[index..][1..] == entries[index + 1..];
        if index >= MAX_ENTRIES || nodes <= 0 || chars <= 0 {
          assert copies + [] == copies;
          omitted := omitted + |entries| - index;
          return;
        }
        var Entry(key, item) := entries[index];
        assert item < entries[index] && entries[index] == entries[index..][0];
        if key.OtherKey? || |key.s| > MAX_KEY {
          omitted := omitted + 1;
          continue;
        }
        if |key.s| > chars {
          assert copies + [] == copies;
          omitted := omitted + |entries| - index;
          return;
        }
        chars := chars - |key.s|;
        var copy := CopyValue(item, depth + 1);
        copies := copies + [Entry(key, copy)];
      }
      assert entries[|entries|..] == [] && copies + [] == copies;
    }
  }

  // ---------------------------------------------------------------- accounting

  /** Every node of a value, placeholders included. */
  function Nodes(v: Value): nat
    decreases v, 1
  {
    match v
    case Tuple(items) => 1 + ItemNodes(items)
    case List(items) => 1 + ItemNodes(items)
    case Dict(entries) => 1 + EntryNodes(entries)
    case _ => 1
  }

  function ItemNodes(items: seq<Value>): nat
    decreases items, 0
  {
    if items == [] then 0 else Nodes(items[0]) + ItemNodes(items[1..])
  }

  function EntryNodes(entries: seq<Entry>): nat
    decreases entries, 0
  {
    if entries == [] then 0
    else match entries[0] case Entry(_, v) => assert v < entries[0]; Nodes(v) + EntryNodes(entries[1..])
  }

  /** Every character of a value's strings and string keys. */
  function Chars(v: Value): nat
    decreases v, 1
  {
    match v
    case Str(s) => |s|
    case Tuple(items) => ItemChars(items)
    case List(items) => ItemChars(items)
    case Dict(entries) => EntryChars(entries)
    case _ => 0
  }

  function ItemChars(items: seq<Value>): nat
    decreases items, 0
  {
    if items == [] then 0 else Chars(items[0]) + ItemChars(items[1..])
  }

  function EntryChars(entries: seq<Entry>): nat
    decreases entries, 0
  {
    if entries == [] then 0
    else match entries[0] case Entry(k, v) => assert v < entries[0]; (if k.StrKey? then |k.s| else 0) + Chars(v) + EntryChars(entries[1..])
  }

  /** What left the budget and what came out: characters exactly, nodes up to placeholders that were counted as omitted. */
  ghost predicate Accounted(before: Budget, after: Budget, nodes: nat, chars: nat) {
    && after.nodes <= before.nodes && after.chars <= before.chars && before.omitted <= after.omitted
    && chars == before.chars - after.chars
    && before.nodes - after.nodes <= nodes <= before.nodes - after.nodes + (after.omitted - before.omitted)
  }

  lemma {:induction false} CopyIsAccounted(b: Budget, v: Value, depth: nat)
    ensures var (r, after) := Copy(b, v, depth); Accounted(b, after, Nodes(r), Chars(r))
    decreases v, 1
  {
    if !(Spent(b) || depth > MAX_DEPTH) {
      var b := b.(nodes := b.nodes - 1);
      match v
      case Tuple(items) => ItemsAreAccounted(b, items, 0, depth);
      case List(items) => ItemsAreAccounted(b, items, 0, depth);
      case Dict(entries) => EntriesAreAccounted(b, entries, 0, depth);
      case _ =>
    }
  }

  lemma {:induction false} ItemsAreAccounted(b: Budget, items: seq<Value>, index: nat, depth: nat)
    ensures var (r, after) := CopyItems(b, items, index, depth); Accounted(b, after, ItemNodes(r), ItemChars(r))
    decreases items, 0
  {
    if items != [] && index < MAX_ITEMS && !Spent(b) {
      var (copy, after) := Copy(b, items[0], depth + 1);
      CopyIsAccounted(b, items[0], depth + 1);
      ItemsAreAccounted(after, items[1..], index + 1, depth);
      var rest := CopyItems(after, items[1..], index + 1, depth).0;
      assert ([copy] + rest)[1..] == rest;
    }
  }

  lemma {:induction false} EntriesAreAccounted(b: Budget, entries: seq<Entry>, index: nat, depth: nat)
    ensures var (r, after) := CopyEntries(b, entries, index, depth); Accounted(b, after, EntryNodes(r), EntryChars(r))
    decreases entries, 0
  {
    if entries != [] && index < MAX_ENTRIES && !Spent(b) {
      var Entry(key, item) := entries[0];
      assert item < entries[0];
      if key.OtherKey? || |key.s| > MAX_KEY {
        EntriesAreAccounted(Omit(b, 1), entries[1..], index + 1, depth);
      } else if |key.s| <= b.chars {
        var charged := b.(chars := b.chars - |key.s|);
        var (copy, after) := Copy(charged, item, depth + 1);
        CopyIsAccounted(charged, item, depth + 1);
        EntriesAreAccounted(after, entries[1..], index + 1, depth);
        var rest := CopyEntries(after, entries[1..], index + 1, depth).0;
        assert ([Entry(key, copy)] + rest)[1..] == rest;
      }
    }
  }

  /** Any number of copies from one budget, one after the other. */
  function CopyAll(b: Budget, values: seq<Value>): (seq<Value>, Budget)
    decreases |values|
  {
    if values == [] then ([], b)
    else
      var (copy, after) := Copy(b, values[0], 0);
      var (copies, rest) := CopyAll(after, values[1..]);
      ([copy] + copies, rest)
  }

  /** Over all copies of one export: at most 32768 characters; the nodes are accounted for, see CaptureTotals for their bound. */
  lemma {:induction false} WholeExportIsBounded(b: Budget, values: seq<Value>)
    ensures var (copies, after) := CopyAll(b, values);
            && Accounted(b, after, ItemNodes(copies), ItemChars(copies))
            && (b == Budget(GUI_CHARS, GUI_NODES, 0) ==>
                  ItemChars(copies) <= GUI_CHARS && ItemNodes(copies) <= GUI_NODES + after.omitted)
    decreases |values|
  {
    if values != [] {
      var (copy, after) := Copy(b, values[0], 0);
      CopyIsAccounted(b, values[0], 0);
      WholeExportIsBounded(after, values[1..]);
      var rest := CopyAll(after, values[1..]).0;
      assert ([copy] + rest)[1..] == rest;
    }
  }

  // ---------------------------------------------------------------- fidelity

  /** The value with tuples turned into lists, all the way down. */
  function Listed(v: Value): Value
    decreases v, 1
  {
    match v
    case Tuple(items) => List(ListedItems(items))
    case List(items) => List(ListedItems(items))
    case Dict(entries) => Dict(ListedEntries(entries))
    case _ => v
  }

  function ListedItems(items: seq<Value>): seq<Value>
    decreases items, 0
  {
    if items == [] then [] else [Listed(items[0])] + ListedItems(items[1..])
  }

  function ListedEntries(entries: seq<Entry>): seq<Entry>
    decreases entries, 0
  {
    if entries == [] then []
    else match entries[0] case Entry(k, v) => assert v < entries[0]; [Entry(k, Listed(v))] + ListedEntries(entries[1..])
  }

  /** When nothing was counted as omitted, the copy is the value. */
  lemma {:induction false} UncountedCopyIsFaithful(b: Budget, v: Value, depth: nat)
    ensures var (r, after) := Copy(b, v, depth); after.omitted == b.omitted ==> r == Listed(v)
    decreases v, 1
  {
    if !(Spent(b) || depth > MAX_DEPTH) {
      var b := b.(nodes := b.nodes - 1);
      match v
      case Tuple(items) => ItemsAreFaithful(b, items, 0, depth);
      case List(items) => ItemsAreFaithful(b, items, 0, depth);
      case Dict(entries) => EntriesAreFaithful(b, entries, 0, depth);
      case _ =>
    }
  }

  lemma {:induction false} ItemsAreFaithful(b: Budget, items: seq<Value>, index: nat, depth: nat)
    ensures var (r, after) := CopyItems(b, items, index, depth); after.omitted == b.omitted ==> r == ListedItems(items)
    decreases items, 0
  {
    if items != [] && index < MAX_ITEMS && !Spent(b) {
      var (copy, after) := Copy(b, items[0], depth + 1);
      CopyIsAccounted(b, items[0], depth + 1);
      UncountedCopyIsFaithful(b, items[0], depth + 1);
      ItemsAreAccounted(after, items[1..], index + 1, depth);
      ItemsAreFaithful(after, items[1..], index + 1, depth);
    }
  }

  lemma {:induction false} EntriesAreFaithful(b: Budget, entries: seq<Entry>, index: nat, depth: nat)
    ensures var (r, after) := CopyEntries(b, entries, index, depth); after.omitted == b.omitted ==> r == ListedEntries(entries)
    decreases entries, 0
  {
    if entries != [] && index < MAX_ENTRIES && !Spent(b) {
      var Entry(key, item) := entries[0];
      assert item < entries[0];
      if key.OtherKey? || |key.s| > MAX_KEY {
        EntriesAreAccounted(Omit(b, 1), entries[1..], index + 1, depth);
      } else if |key.s| <= b.chars {
        var charged := b.(chars := b.chars - |key.s|);
        var (copy, after) := Copy(charged, item, depth + 1);
        CopyIsAccounted(charged, item, depth + 1);
        UncountedCopyIsFaithful(charged, item, depth + 1);
        EntriesAreAccounted(after, entries[1..], index + 1, depth);
        EntriesAreFaithful(after, entries[1..], index + 1, depth);
      }
    }
  }

  /** Within every fixed limit of the copy at this depth. */
  predicate Fits(v: Value, depth: nat)
    decreases v, 1
  {
    depth <= MAX_DEPTH &&
    match v
    case None | Bool(_) => true
    case Int(n) => WithinWord(n)
    case Float(finite, _) => finite
    case Str(s) => |s| <= MAX_STRING
    case Tuple(items) => |items| <= MAX_ITEMS && ItemsFit(items, depth)
    case List(items) => |items| <= MAX_ITEMS && ItemsFit(items, depth)
    case Dict(entries) => |entries| <= MAX_ENTRIES && EntriesFit(entries, depth)
    case Other => false
  }

  predicate ItemsFit(items: seq<Value>, depth: nat)
    decreases items, 0
  {
    items == [] || (Fits(items[0], depth + 1) && ItemsFit(items[1..], depth))
  }

  predicate EntriesFit(entries: seq<Entry>, depth: nat)
    decreases entries, 0
  {
    if entries == [] then true
    else
      match entries[0]
      case Entry(k, v) =>
        assert v < entries[0];
        k.StrKey? && |k.s| <= MAX_KEY && Fits(v, depth + 1) && EntriesFit(entries[1..], depth)
  }

  /** What is paid for a value that is copied whole. */
  function Pay(b: Budget, nodes: nat, chars: nat): Budget
    requires nodes <= b.nodes && chars <= b.chars
  {
    b.(nodes := b.nodes - nodes, chars := b.chars - chars)
  }

  /** A value within the limits and within the budget is copied whole, at exactly its own price, and nothing is counted. */
  lemma {:induction false} FittingValueIsCopiedWhole(b: Budget, v: Value, depth: nat)
    requires Fits(v, depth) && Nodes(v) <= b.nodes && Chars(v) < b.chars
    ensures Copy(b, v, depth) == (Listed(v), Pay(b, Nodes(v), Chars(v)))
    decreases v, 1
  {
    var b := b.(nodes := b.nodes - 1);
    match v
    case Tuple(items) => ItemsAreCopiedWhole(b, items, 0, depth);
    case List(items) => ItemsAreCopiedWhole(b, items, 0, depth);
    case Dict(entries) => EntriesAreCopiedWhole(b, entries, 0, depth);
    case _ =>
  }

  lemma {:induction false} ItemsAreCopiedWhole(b: Budget, items: seq<Value>, index: nat, depth: nat)
    requires ItemsFit(items, depth) && index + |items| <= MAX_ITEMS && ItemNodes(items) <= b.nodes && ItemChars(items) < b.chars
    ensures CopyItems(b, items, index, depth) == (ListedItems(items), Pay(b, ItemNodes(items), ItemChars(items)))
    decreases items, 0
  {
    if items != [] {
      assert Nodes(items[0]) >= 1;
      FittingValueIsCopiedWhole(b, items[0], depth + 1);
      ItemsAreCopiedWhole(Pay(b, Nodes(items[0]), Chars(items[0])), items[1..], index + 1, depth);
    }
  }

  lemma {:induction false} EntriesAreCopiedWhole(b: Budget, entries: seq<Entry>, index: nat, depth: nat)
    requires EntriesFit(entries, depth) && index + |entries| <= MAX_ENTRIES
    requires EntryNodes(entries) <= b.nodes && EntryChars(entries) < b.chars
    ensures CopyEntries(b, entries, index, depth) == (ListedEntries(entries), Pay(b, EntryNodes(entries), EntryChars(entries)))
    decreases entries, 0
  {
    if entries != [] {
      var Entry(key, item) := entries[0];
      assert item < entries[0];
      assert Nodes(item) >= 1;
      var charged := b.(chars := b.chars - |key.s|);
      FittingValueIsCopiedWhole(charged, item, depth + 1);
      EntriesAreCopiedWhole(Pay(charged, Nodes(item), Chars(item)), entries[1..], index + 1, depth);
    }
  }
}
