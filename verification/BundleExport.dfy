/**
 The diagnostic export of `_BundleBuilder` in blackbox_recorder.py: bounded reads, bounded ZIP input and
 a publication that never replaces a file, against any other actor in the destination directory.

 Whatever the world decides (cancellation, clocks, file contents, errors) is chosen arbitrarily.  One
 identity check together with the operation it guards is one step.
 */
module BundleExport {
  import opened Wrappers
  import opened GapLedger

  const CHUNK_BYTES := 64 * 1024
  const FILE_BYTES := 4 * 1024 * 1024
  const CRASH_BYTES := 512 * 1024
  const SETTINGS_BYTES := 256 * 1024
  const ENV_BYTES := 1024 * 1024
  const TOTAL_BYTES := 16 * 1024 * 1024
  const READ_BYTES := 18 * 1024 * 1024
  const MANIFEST_BYTES := 64 * 1024
  const MEMBER_LIMIT := 32
  const SCAN_ENTRIES := 64
  const CRASH_FILES := 16
  const UI_BYTES := 256 * 1024

  /** The ways in which an export is cut short: the exceptions of the builder, the operating system's own apart. */
  datatype Stop = Cancelled | Deadline | OsError | Error

  /** What the export does to the file system. */
  datatype Op = Made(id: nat) | Linked(occupied: bool) | Removed(id: nat) | Held(look: Look)

  datatype Look = Vanished | Failing | Found(id: nat, regular: bool)

  /** The destination and temporary paths, which any other actor may change between two steps. */
  class World {
    var destination: Option<nat>
    var partial: Look
    ghost var log: seq<Op>
    /** What the identity check before publication saw, and whether the last checkpoint, after it if any, was passed. */
    ghost var checked: Look
    ghost var passed: bool

    constructor ()
      ensures log == []
    {
      destination, partial, log, checked, passed := None, Vanished, [], Vanished, false;
    }

    method Others()
      modifies this`destination, this`partial
    {
      destination := *;
      partial := *;
    }

    method Checkpoint() returns (stop: Option<Stop>)
      modifies this`destination, this`partial, this`passed
      ensures stop.Some? ==> stop.value.Cancelled? || stop.value.Deadline?
      ensures passed <==> stop.None?
    {
      Others();
      var cancelled: bool, late: bool := *, *;
      stop := if cancelled then Some(Cancelled) else if late then Some(Deadline) else None;
      passed := stop.None?;
    }

    /** Some step that may fail with an ordinary exception. */
    method Fails() returns (failed: bool)
      modifies this`destination, this`partial
    {
      Others();
      failed := *;
    }

    method MakeTemporary() returns (id: Option<nat>)
      modifies this`destination, this`partial, this`log
      ensures log == if id.Some? then old(log) + [Made(id.value)] else old(log)
    {
      Others();
      id := *;
      if id.Some? {
        partial := Found(id.value, true);
        log := log + [Made(id.value)];
      }
    }

    method LookAtTemporary() returns (look: Look)
      modifies this`destination, this`partial, this`checked, this`passed
      ensures checked == look && !passed
    {
      Others();
      look := partial;
      checked, passed := look, false;
    }

    /** os.link fails when the destination exists, and may fail for any other reason. */
    method Link() returns (ok: bool)
      modifies this`destination, this`partial, this`log
      ensures log == if ok then old(log) + [Linked(false)] else old(log)
    {
      Others();
      var possible: bool := *;
      ok := destination.None? && partial.Found? && possible;
      if ok {
        log := log + [Linked(destination.Some?)];
        destination := Some(partial.id);
      }
    }

    /** Look at the temporary path and, if it is the owned regular file, unlink it. */
    method RemoveIfOwned(owned: nat) returns (look: Look, removed: bool)
      modifies this`destination, this`partial, this`log
      ensures removed <==> look == Found(owned, true)
      ensures log == old(log) + [if removed then Removed(owned) else Held(look)]
    {
      Others();
      look, removed := partial, false;
      if look == Found(owned, true) {
        var works: bool := *;
        if works {
          removed, partial, log := true, Vanished, log + [Removed(owned)];
        } else {
          look := Failing;
        }
      }
      if !removed { log := log + [Held(look)]; }
    }

    method Bytes() returns (data: seq<Byte>) { data := *; }

    method Source() returns (source: Source) { source := *; }

    method Entry() returns (entry: CrashEntry) { entry := *; }
  }

  /** One source as a read of it finds it: the first failure if any, its size at open, and what each read gives. */
  datatype Source = Source(
    opening: Option<string>,
    regular: bool,
    size: nat,
    chunks: seq<Option<seq<Byte>>>,
    closing: Option<string>,
    changed: bool)

  datatype CrashEntry = NoMore | ScanFails | Irregular | Regular(name: string)

  datatype Receipt = Receipt(source: string, bytes: nat, offset: nat, sizeAtOpen: nat, truncated: bool, changed: bool)

  /** A receipt tells the truth: it is marked truncated exactly when fewer bytes than the size at open were returned. */
  ghost predicate Honest(r: Receipt) {
    r.offset + r.bytes <= r.sizeAtOpen && (r.truncated <==> r.bytes < r.sizeAtOpen)
  }

  /** All of a source that did not change under the read. */
  predicate Whole(r: Receipt) { r.bytes == r.sizeAtOpen && !r.truncated && !r.changed }

  ghost predicate AllHonest(rs: seq<Receipt>) { rs == [] || (AllHonest(rs[..|rs| - 1]) && Honest(rs[|rs| - 1])) }

  ghost predicate AllWhole(rs: seq<Receipt>) { rs == [] || (AllWhole(rs[..|rs| - 1]) && Whole(rs[|rs| - 1])) }

  lemma OneMoreReceipt(rs: seq<Receipt>, r: Receipt)
    ensures AllHonest(rs + [r]) <==> AllHonest(rs) && Honest(r)
    ensures AllWhole(rs + [r]) <==> AllWhole(rs) && Whole(r)
  {
    assert (rs + [r])[..|rs|] == rs;
  }

  lemma {:induction false} EachReceipt(rs: seq<Receipt>)
    ensures AllHonest(rs) <==> forall i :: 0 <= i < |rs| ==> Honest(rs[i])
    ensures AllWhole(rs) <==> forall i :: 0 <= i < |rs| ==> Whole(rs[i])
    decreases |rs|
  {
    if rs != [] {
      EachReceipt(rs[..|rs| - 1]);
      assert forall i :: 0 <= i < |rs| - 1 ==> rs[..|rs| - 1][i] == rs[i];
    }
  }

  function Min(a: nat, b: nat): nat { if a < b then a else b }

  // ---------------------------------------------------------------- what an archive holds

  /** A member of the archive, whole, and a source that was read and returned. */
  datatype Member = Member(name: string, data: seq<Byte>)
  datatype Read = Read(origin: string, data: seq<Byte>)

  /** A member that an export should have: its source, its name, and whether it is a copy of what was read. */
  datatype Item = Item(origin: string, name: string, copied: bool)

  const UI := Item("ui_snapshot", "ui_snapshot.json", false)
  const SETTINGS := Item("settings", "settings.sanitized.json", false)
  const DIAGNOSTICS: seq<Item> :=
    [Item("not_responding.log", "diagnostics/not_responding.log.snapshot", true),
     Item("selftest_failures.json", "diagnostics/selftest_failures.json.snapshot", true),
     Item("crash.log", "diagnostics/crash.log.snapshot", true),
     Item("status.json", "diagnostics/status.json.snapshot", true),
     Item("flow_metrics.json", "diagnostics/flow_metrics.json.snapshot", true)]

  /** How much of a source is read at most. */
  function ReadLimit(origin: string): nat {
    if origin == "settings" then 256 * 1024
    else if origin == "env" then 1024 * 1024
    else if "crash:" <= origin then 512 * 1024
    else 4 * 1024 * 1024
  }

  ghost predicate AllLimited(rs: seq<Read>) {
    rs == [] || (AllLimited(rs[..|rs| - 1]) && |rs[|rs| - 1].data| <= ReadLimit(rs[|rs| - 1].origin))
  }

  lemma LimitedRead(rs: seq<Read>, r: Read)
    requires AllLimited(rs) && |r.data| <= ReadLimit(r.origin)
    ensures AllLimited(rs + [r])
  {
    assert (rs + [r])[..|rs|] == rs;
  }

  lemma {:induction false} EachRead(rs: seq<Read>)
    ensures AllLimited(rs) <==> forall i :: 0 <= i < |rs| ==> |rs[i].data| <= ReadLimit(rs[i].origin)
    decreases |rs|
  {
    if rs != [] {
      EachRead(rs[..|rs| - 1]);
      assert forall i :: 0 <= i < |rs| - 1 ==> rs[..|rs| - 1][i] == rs[i];
    }
  }

  /** The archive holds the items in their order, each copy with the bytes read, but for those with a gap. */
  ghost predicate Covered(archive: seq<Member>, items: seq<Item>, taken: seq<Read>, reported: set<string>)
    decreases |items|
  {
    if items == [] then archive == []
    else
      var front, item := items[..|items| - 1], items[|items| - 1];
      || ((item.origin in reported || item.name in reported) && Covered(archive, front, taken, reported))
      || (&& archive != [] && archive[|archive| - 1].name == item.name
          && (item.copied ==> Read(item.origin, archive[|archive| - 1].data) in taken)
          && Covered(archive[..|archive| - 1], front, taken, reported))
  }

  lemma {:induction false} CoveredLater(archive: seq<Member>, items: seq<Item>, taken: seq<Read>, reported: set<string>,
                                        more: seq<Read>, gaps: set<string>)
    requires Covered(archive, items, taken, reported) && taken <= more && reported <= gaps
    ensures Covered(archive, items, more, gaps)
    decreases |items|
  {
    if items != [] {
      var front, item := items[..|items| - 1], items[|items| - 1];
      if (item.origin in reported || item.name in reported) && Covered(archive, front, taken, reported) {
        CoveredLater(archive, front, taken, reported, more, gaps);
      } else {
        CoveredLater(archive[..|archive| - 1], front, taken, reported, more, gaps);
      }
    }
  }

  /** The archive after one more item: with it, or without it and with a gap. */
  ghost predicate Added(before: seq<Member>, after: seq<Member>, item: Item, taken: seq<Read>, reported: set<string>) {
    || (after == before && (item.origin in reported || item.name in reported))
    || (&& |after| == |before| + 1 && after[..|before|] == before && after[|before|].name == item.name
        && (item.copied ==> Read(item.origin, after[|before|].data) in taken))
  }

  lemma OneMoreItem(before: seq<Member>, after: seq<Member>, items: seq<Item>, item: Item, former: seq<Read>,
                    gaps: set<string>, taken: seq<Read>, reported: set<string>)
    requires Covered(before, items, former, gaps) && former <= taken && gaps <= reported
    requires Added(before, after, item, taken, reported)
    ensures Covered(after, items + [item], taken, reported)
  {
    CoveredLater(before, items, former, gaps, taken, reported);
    assert (items + [item])[..|items|] == items;
  }

  /** Without a gap every item is in the archive, in its place. */
  lemma {:induction false} CoveredWithoutGaps(archive: seq<Member>, items: seq<Item>, taken: seq<Read>)
    requires Covered(archive, items, taken, {})
    ensures |archive| == |items|
    ensures forall i :: 0 <= i < |items| ==>
              archive[i].name == items[i].name && (items[i].copied ==> Read(items[i].origin, archive[i].data) in taken)
    decreases |items|
  {
    if items != [] { CoveredWithoutGaps(archive[..|archive| - 1], items[..|items| - 1], taken); }
  }

  /** `crash_snapshots/{k:04d}.snapshot` */
  function CrashName(k: nat): string
    requires k < 100
  {
    "crash_snapshots/00" + [('0' as int + k / 10) as char, ('0' as int + k % 10) as char] + ".snapshot"
  }

  function CrashItem(name: string, k: nat): Item
    requires k < 100
  {
    Item("crash:" + Cut(name, 96), CrashName(k), true)
  }

  /** The crash files that were taken up, numbered in the order in which they were met. */
  function CrashItems(names: seq<string>): seq<Item>
    requires |names| < 100
  {
    if names == [] then []
    else
      CrashItems(names[..|names| - 1])
      + [CrashItem(names[|names| - 1], |names|)]
  }

  /** A scan of the crash directory: the entries met, and the files of which a copy was taken up. */
  datatype Scan = Scan(seen: seq<CrashEntry>, names: seq<string>)

  /** The scan came to its end with every regular file taken up, or the directory has a gap. */
  ghost predicate Scanned(scan: Scan, reported: set<string>) {
    && |scan.names| <= CRASH_FILES
    && (|| (scan.names == Regulars(scan.seen) && scan.seen != [] && scan.seen[|scan.seen| - 1] == NoMore)
        || (scan.names <= Regulars(scan.seen) && |Regulars(scan.seen)| <= |scan.names| + 1 && "crash_snapshots" in reported))
    && (Irregular in scan.seen ==> "crash_snapshots" in reported)
  }

  /** The regular files among the entries met. */
  function Regulars(seen: seq<CrashEntry>): seq<string> {
    if seen == [] then []
    else
      Regulars(seen[..|seen| - 1]) + (if seen[|seen| - 1].Regular? then [seen[|seen| - 1].name] else [])
  }

  /** What bounded reads of an open source deliver before they fail, end or reach `want` bytes. */
  function Delivered(chunks: seq<Option<seq<Byte>>>, want: nat): seq<Byte> {
    if want == 0 || chunks == [] || chunks[0].None? then []
    else
      var got := chunks[0].value[..Min(|chunks[0].value|, Min(want, CHUNK_BYTES))];
      if got == [] then [] else got + Delivered(chunks[1..], want - |got|)
  }

  lemma DeliveryEnds(chunks: seq<Option<seq<Byte>>>, next: nat, want: nat, data: seq<Byte>)
    requires next <= |chunks| && |data| < want
    requires next < |chunks| ==> chunks[next] == Some([])
    requires Delivered(chunks, want) == data + Delivered(chunks[next..], want - |data|)
    ensures Delivered(chunks, want) == data
  {
    assert data + [] == data;
  }

  lemma DeliveryGoesOn(chunks: seq<Option<seq<Byte>>>, next: nat, want: nat, data: seq<Byte>)
    requires next < |chunks| && |data| < want && chunks[next].Some? && chunks[next].value != []
    requires Delivered(chunks, want) == data + Delivered(chunks[next..], want - |data|)
    ensures var got := chunks[next].value[..Min(|chunks[next].value|, Min(want - |data|, CHUNK_BYTES))];
            && got != [] && |data + got| <= want
            && Delivered(chunks, want) == (data + got) + Delivered(chunks[next + 1..], want - |data + got|)
  {
    assert chunks[next..][0] == chunks[next] && chunks[next..][1..] == chunks[next + 1..];
  }

  function Concat(chunks: seq<Option<seq<Byte>>>): seq<Byte> {
    if chunks == [] || chunks[0].None? then [] else chunks[0].value + Concat(chunks[1..])
  }

  /** Reads that neither fail nor end early deliver the front of the source, as much as was wanted. */
  lemma {:induction false} DeliveredIsTheFront(chunks: seq<Option<seq<Byte>>>, want: nat)
    requires forall c :: c in chunks ==> c.Some? && 0 < |c.value| <= 65536
    ensures Delivered(chunks, want) == Concat(chunks)[..if want < |Concat(chunks)| then want else |Concat(chunks)|]
    decreases |chunks|
  {
    if want > 0 && chunks != [] {
      var got := chunks[0].value[..Min(|chunks[0].value|, Min(want, CHUNK_BYTES))];
      if |got| == |chunks[0].value| { assert got == chunks[0].value; }
      DeliveredIsTheFront(chunks[1..], want - |got|);
    }
  }

  /** Why a source is not read at all. */
  function Refusal(source: Source, cap: nat, complete: bool): (r: Option<string>)
    ensures r.None? <==> cap > 0 && source.opening.None? && source.regular && (complete ==> source.size <= cap)
  {
    if cap == 0 then Some("aggregate-read-limit")
    else if source.opening.Some? then source.opening
    else if !source.regular then Some("nonregular-or-reparse-source-omitted")
    else if complete && source.size > cap then Some("complete-source-exceeds-limit")
    else None
  }

  lemma DiagnosticIsNotPartial(i: nat)
    requires i < |DIAGNOSTICS|
    ensures DIAGNOSTICS[i].origin != PARTIAL && DIAGNOSTICS[i].name != PARTIAL && DIAGNOSTICS[i].copied
    ensures ReadLimit(DIAGNOSTICS[i].origin) == 4 * 1024 * 1024
  {
    assert "crash:"[5] != "crash.log"[5];
    assert |DIAGNOSTICS[i].origin| != |PARTIAL| && |DIAGNOSTICS[i].name| != |PARTIAL|;
  }

  lemma SeeEntry(seen: seq<CrashEntry>, entry: CrashEntry)
    ensures Regulars(seen + [entry]) == Regulars(seen) + if entry.Regular? then [entry.name] else []
  {
    assert (seen + [entry])[..|seen|] == seen;
  }

  lemma NextCrashItem(items: seq<Item>, names: seq<string>, name: string)
    requires |names| < 99
    ensures items + CrashItems(names + [name]) ==
            (items + CrashItems(names)) + [CrashItem(name, |names| + 1)]
  {
    assert (names + [name])[..|names|] == names;
    AppendItem(items, CrashItems(names), CrashItem(name, |names| + 1));
  }

  lemma AppendItem(items: seq<Item>, crash: seq<Item>, item: Item)
    ensures items + (crash + [item]) == (items + crash) + [item]
  {
  }

  class Builder {
    const ledger: Ledger
    var readLeft: nat
    var writeLeft: nat
    var members: nat
    var sources: seq<Receipt>
    /** Source bytes that reads returned, and bytes and members that the archive was given, also those cut short. */
    ghost var bytesRead: nat
    ghost var zipInput: nat
    ghost var begun: nat
    /** The members in the archive, and what reads have returned. */
    ghost var archive: seq<Member>
    ghost var taken: seq<Read>

    /** Holds at every moment, also when an exception has cut a member short. */
    ghost predicate Bounded()
      reads this, ledger
    {
      && ledger.Valid()
      && bytesRead + readLeft == READ_BYTES
      && zipInput <= TOTAL_BYTES - MANIFEST_BYTES && |archive| == members <= begun <= MEMBER_LIMIT - 1
      && AllHonest(sources) && (AllWhole(sources) || ledger.calls > 0) && AllLimited(taken)
    }

    ghost predicate Valid()
      reads this, ledger
    {
      Bounded() && zipInput + writeLeft == TOTAL_BYTES - MANIFEST_BYTES && begun == members
    }

    constructor ()
      ensures Valid() && fresh(ledger) && ledger.calls == 0 && !ledger.cleanupGap && archive == [] && taken == []
    {
      ledger := new Ledger();
      readLeft, writeLeft, members, sources := READ_BYTES, TOTAL_BYTES - MANIFEST_BYTES, 0, [];
      bytesRead, zipInput, begun, archive, taken := 0, 0, 0, [], [];
    }

    /** What nothing takes back: reads, reported gaps, and that only a cleanup gap is one of cleanup. */
    twostate predicate Onwards()
      reads this, ledger
    {
      && old(taken) <= taken && old(ledger.reported) <= ledger.reported
      && ledger.calls >= old(ledger.calls) && ledger.cleanupGap == old(ledger.cleanupGap)
    }

    /** The archive so far holds these items, but for those with a gap. */
    ghost predicate Holds(items: seq<Item>)
      reads this, ledger
    {
      Covered(archive, items, taken, ledger.reported)
    }

    /** The source was read, or has a gap. */
    ghost predicate ReadOrGap(origin: string)
      reads this, ledger
    {
      origin in ledger.reported || exists d :: Read(origin, d) in taken
    }

    method Gap(source: string, reason: string)
      requires ledger.Valid()
      modifies ledger
      ensures ledger.Valid() && ledger.calls == old(ledger.calls) + 1 && ledger.reported == old(ledger.reported) + {source}
      ensures ledger.cleanupGap == (old(ledger.cleanupGap) || source == PARTIAL)
    {
      ledger.Gap(source, reason);
    }

    /** The chunk loop of one open source: bytes are charged as they come, until enough, none or a failure. */
    method Pull(world: World, source: Source, want: nat)
      returns (stop: Option<Stop>, failure: Option<string>, data: seq<Byte>)
      requires want <= readLeft
      modifies this`readLeft, this`bytesRead, world`destination, world`partial, world`passed
      ensures |data| <= want && readLeft == old(readLeft) - |data| && bytesRead == old(bytesRead) + |data|
      ensures stop.None? && failure.None? ==> data == Delivered(source.chunks, want)
      ensures failure.Some? ==> None in source.chunks
    {
      stop, failure, data := None, None, [];
      var next := 0;
      assert source.chunks[0..] == source.chunks;
      while |data| < want
        invariant next <= |source.chunks| && |data| <= want
        invariant Delivered(source.chunks, want) == data + Delivered(source.chunks[next..], want - |data|)
        invariant readLeft == old(readLeft) - |data| && bytesRead == old(bytesRead) + |data|
        decreases want - |data|
      {
        stop := world.Checkpoint();
        if stop.Some? { return; }
        var chunk := if next < |source.chunks| then source.chunks[next] else Some([]);
        if chunk.None? {
          failure := Some("source-read-failed");
          return;
        }
        var request := Min(want - |data|, CHUNK_BYTES);
        var got := chunk.value[..Min(|chunk.value|, request)];
        if got == [] {
          DeliveryEnds(source.chunks, next, want, data);
          return;
        }
        DeliveryGoesOn(source.chunks, next, want, data);
        next := next + 1;
        readLeft, bytesRead := readLeft - |got|, bytesRead + |got|;
        data := data + got;
      }
    }

    /** The reads of one open source: at most `want` bytes, in chunks of at most 64 KiB; too few are a gap. */
    method ReadChunks(world: World, origin: string, source: Source, want: nat)
      returns (stop: Option<Stop>, failure: Option<string>, data: seq<Byte>)
      requires Valid() && want <= readLeft && origin != PARTIAL
      modifies this`readLeft, this`bytesRead, ledger, world`destination, world`partial, world`passed
      ensures Valid() && readLeft == old(readLeft) - |data| && |data| <= want
      ensures stop.None? && failure.None? ==> data == Delivered(source.chunks, want)
      ensures stop.None? && failure.None? && |data| < want ==> ledger.calls > old(ledger.calls)
      ensures failure.Some? ==> None in source.chunks
      ensures Onwards()
    {
      stop, failure, data := Pull(world, source, want);
      if stop.None? && failure.None? && |data| < want { Gap(origin, "short-read"); }
    }

    /** The reads and what follows them before the receipt: a failure of either is a gap. */
    method Fetch(world: World, origin: string, source: Source, want: nat)
      returns (stop: Option<Stop>, failure: Option<string>, data: seq<Byte>)
      requires Valid() && want <= readLeft && origin != PARTIAL
      modifies this`readLeft, this`bytesRead, ledger, world`destination, world`partial, world`passed
      ensures Valid() && readLeft == old(readLeft) - |data| && |data| <= want
      ensures stop.None? && failure.None? ==> data == Delivered(source.chunks, want)
      ensures stop.None? && failure.Some? ==> ledger.calls > old(ledger.calls) && origin in ledger.reported
      ensures failure.Some? ==> None in source.chunks || source.closing.Some?
      ensures Onwards()
    {
      stop, failure, data := ReadChunks(world, origin, source, want);
      if stop.Some? { return; }
      if failure.None? {
        stop := world.Checkpoint();
        if stop.Some? { return; }
        failure := source.closing;
      }
      if failure.Some? { Gap(origin, failure.value); }
    }

    /** A source comes back with an honest receipt, or with None and at least one gap on record. */
    method ReadSource(world: World, source: Source, origin: string, limit: nat, tail: bool, complete: bool)
      returns (stop: Option<Stop>, data: Option<seq<Byte>>)
      requires Valid() && origin != PARTIAL && limit <= ReadLimit(origin)
      modifies this`readLeft, this`bytesRead, this`sources, this`taken, ledger, world`destination, world`partial, world`passed
      ensures Valid() && Onwards()
      ensures stop.Some? ==> data.None?
      ensures stop.None? && data.None? ==> ledger.calls > old(ledger.calls) && origin in ledger.reported
      ensures data.None? ==> sources == old(sources) && taken == old(taken)
      ensures data.Some? ==> taken == old(taken) + [Read(origin, data.value)]
      ensures data.Some? ==> Refusal(source, Min(limit, old(readLeft)), complete).None?
      ensures stop.None? && data.None? ==>
                || Refusal(source, Min(limit, old(readLeft)), complete).Some? || None in source.chunks || source.closing.Some?
                || (complete && (source.changed || |Delivered(source.chunks, source.size)| < source.size))
      ensures data.Some? ==>
                var cap := Min(limit, old(readLeft));
                var offset := if tail && source.size > cap then source.size - cap else 0;
                && data.value == Delivered(source.chunks, Min(source.size - offset, cap)) && |data.value| <= cap
                && readLeft == old(readLeft) - |data.value|
                && (complete ==> |data.value| == source.size && !source.changed)
                && (|data.value| < source.size || source.changed ==> ledger.calls > old(ledger.calls))
                && sources == old(sources) + [Receipt(Cut(origin, MAX_SOURCE), |data.value|, offset, source.size,
                                                      |data.value| < source.size, source.changed)]
    {
      data := None;
      stop := world.Checkpoint();
      if stop.Some? { return; }
      var cap := Min(limit, readLeft);
      var refusal := Refusal(source, cap, complete);
      if refusal.Some? {
        Gap(origin, refusal.value);
        return;
      }
      var offset := if tail && source.size > cap then source.size - cap else 0;
      stop, data := ReadOpen(world, source, origin, cap, offset, complete);
    }

    /** A source that is not refused, from `offset` on. */
    method ReadOpen(world: World, source: Source, origin: string, cap: nat, offset: nat, complete: bool)
      returns (stop: Option<Stop>, data: Option<seq<Byte>>)
      requires Valid() && origin != PARTIAL && cap <= ReadLimit(origin)
      requires cap <= readLeft && offset <= source.size && (complete ==> offset == 0 && source.size <= cap)
      modifies this`readLeft, this`bytesRead, this`sources, this`taken, ledger, world`destination, world`partial, world`passed
      ensures Valid() && Onwards()
      ensures stop.Some? ==> data.None?
      ensures stop.None? && data.None? ==> ledger.calls > old(ledger.calls) && origin in ledger.reported
      ensures data.None? ==> sources == old(sources) && taken == old(taken)
      ensures stop.None? && data.None? ==>
                || None in source.chunks || source.closing.Some?
                || (complete && (source.changed || |Delivered(source.chunks, source.size)| < source.size))
      ensures data.Some? ==>
                && data.value == Delivered(source.chunks, Min(source.size - offset, cap)) && |data.value| <= cap
                && offset + |data.value| <= source.size
                && readLeft == old(readLeft) - |data.value|
                && taken == old(taken) + [Read(origin, data.value)]
                && (complete ==> |data.value| == source.size && !source.changed)
                && (|data.value| < source.size || source.changed ==> ledger.calls > old(ledger.calls))
                && sources == old(sources) + [Receipt(Cut(origin, MAX_SOURCE), |data.value|, offset, source.size,
                                                      |data.value| < source.size, source.changed)]
    {
      data := None;
      var failure, bytes;
      stop, failure, bytes := Fetch(world, origin, source, Min(source.size - offset, cap));
      if stop.Some? || failure.Some? { return; }
      data := Settle(source, origin, offset, bytes, complete);
    }

    /** The receipt of a finished read; a source wanted complete is dropped unless it is whole and unchanged. */
    method Settle(source: Source, origin: string, offset: nat, bytes: seq<Byte>, complete: bool) returns (data: Option<seq<Byte>>)
      requires Valid() && origin != PARTIAL && offset + |bytes| <= source.size && |bytes| <= ReadLimit(origin)
      modifies this`sources, this`taken, ledger
      ensures Valid() && Onwards()
      ensures data.None? ==> sources == old(sources) && taken == old(taken) && ledger.calls > old(ledger.calls) && origin in ledger.reported
      ensures data.None? <==> complete && (source.changed || |bytes| < source.size)
      ensures data.Some? ==>
                && data.value == bytes && taken == old(taken) + [Read(origin, bytes)]
                && (|bytes| < source.size || source.changed ==> ledger.calls > old(ledger.calls))
                && sources == old(sources) + [Receipt(Cut(origin, MAX_SOURCE), |bytes|, offset, source.size,
                                                      |bytes| < source.size, source.changed)]
    {
      var truncated := offset > 0 || |bytes| < source.size;
      if source.changed { Gap(origin, "source-changed-during-read"); }
      if truncated { Gap(origin, "source-byte-limit-or-short-read"); }
      if complete && (source.changed || truncated) { return None; }
      Record(Receipt(Cut(origin, MAX_SOURCE), |bytes|, offset, source.size, truncated, source.changed), Read(origin, bytes));
      data := Some(bytes);
    }

    method Record(receipt: Receipt, ghost read: Read)
      requires Valid() && Honest(receipt) && (Whole(receipt) || ledger.calls > 0) && |read.data| <= ReadLimit(read.origin)
      modifies this`sources, this`taken
      ensures Valid() && sources == old(sources) + [receipt] && taken == old(taken) + [read]
    {
      OneMoreReceipt(sources, receipt);
      LimitedRead(taken, read);
      sources, taken := sources + [receipt], taken + [read];
    }

    /** The chunks of one member: all of them, or those before the export was cut short. */
    method WriteChunks(world: World, data: seq<Byte>) returns (stop: Option<Stop>)
      modifies this`zipInput, world`destination, world`partial, world`passed
      ensures old(zipInput) <= zipInput <= old(zipInput) + |data|
      ensures stop.None? ==> zipInput == old(zipInput) + |data|
    {
      stop := None;
      var offset := 0;
      while offset < |data|
        invariant 0 <= offset <= |data| && zipInput == old(zipInput) + offset && stop.None?
      {
        stop := world.Checkpoint();
        if stop.Some? { return; }
        var failed := world.Fails();
        if failed {
          var os: bool := *;
          return Some(if os then OsError else Error);
        }
        var size := Min(|data| - offset, CHUNK_BYTES);
        zipInput := zipInput + size;
        offset := offset + size;
      }
    }

    /** Members are given to the archive whole and within both limits, or left out with a gap. */
    method WriteMember(world: World, name: string, data: seq<Byte>) returns (stop: Option<Stop>)
      requires Valid() && name != PARTIAL
      modifies this`writeLeft, this`members, this`zipInput, this`begun, this`archive, ledger, world`destination, world`partial, world`passed
      ensures Bounded() && Onwards()
      ensures stop.Some? ==> archive == old(archive)
      ensures stop.None? ==> Valid()
      ensures stop.None? ==>
                if old(members) < MEMBER_LIMIT - 1 && |data| <= old(writeLeft)
                then archive == old(archive) + [Member(name, data)]
                     && zipInput == old(zipInput) + |data| && ledger.calls == old(ledger.calls)
                else archive == old(archive) && zipInput == old(zipInput)
                     && ledger.calls == old(ledger.calls) + 1 && name in ledger.reported
    {
      stop := world.Checkpoint();
      if stop.Some? { return; }
      if members >= MEMBER_LIMIT - 1 || |data| > writeLeft {
        Gap(name, "aggregate-zip-input-or-member-limit-omitted");
        return;
      }
      begun := begun + 1;
      stop := WriteChunks(world, data);
      if stop.Some? { return; }
      writeLeft := writeLeft - |data|;
      members := members + 1;
      archive := archive + [Member(name, data)];
    }

    method Settings(world: World, ghost items: seq<Item>) returns (stop: Option<Stop>)
      requires Valid() && Holds(items)
      modifies this, ledger, world`destination, world`partial, world`passed
      ensures Bounded() && Onwards()
      ensures stop.None? ==> Valid() && Holds(items + [SETTINGS]) && ReadOrGap("settings")
    {
      var source := world.Source();
      var raw;
      stop, raw := ReadSource(world, source, "settings", SETTINGS_BYTES, false, true);
      if stop.Some? { return; }
      if raw.Some? { stop := SanitizedSettings(world); }
      if stop.None? {
        OneMoreItem(old(archive), archive, items, SETTINGS, old(taken), old(ledger.reported), taken, ledger.reported);
        assert raw.Some? ==> Read("settings", raw.value) in taken;
      }
    }

    /** What the allowlist leaves of settings that were read. */
    method SanitizedSettings(world: World) returns (stop: Option<Stop>)
      requires Valid()
      modifies this`writeLeft, this`members, this`zipInput, this`begun, this`archive, ledger, world`destination, world`partial, world`passed
      ensures Bounded() && Onwards()
      ensures stop.None? ==> Valid() && Added(old(archive), archive, SETTINGS, taken, ledger.reported)
    {
      stop := None;
      var malformed := world.Fails();
      if malformed {
        Gap("settings", "invalid-settings-omitted");
        return;
      }
      var nonboolean := world.Fails();
      if nonboolean { Gap("settings", "nonboolean-allowlisted-values-omitted"); }
      var json := world.Bytes();
      stop := WriteMember(world, "settings.sanitized.json", json);
    }

    /** One file: the tail that fits what is left of both limits, under its name in the archive. */
    method CopyTail(world: World, item: Item, limit: nat, ghost items: seq<Item>) returns (stop: Option<Stop>)
      requires Valid() && item.origin != PARTIAL && item.name != PARTIAL && item.copied && Holds(items)
      requires limit <= ReadLimit(item.origin)
      modifies this, ledger, world`destination, world`partial, world`passed
      ensures Bounded() && Onwards()
      ensures stop.Some? ==> Holds(items)
      ensures stop.None? ==> Valid() && Holds(items + [item])
    {
      var source := world.Source();
      var data;
      stop, data := ReadSource(world, source, item.origin, Min(limit, writeLeft), true, false);
      if stop.None? && data.Some? {
        assert Read(item.origin, data.value) in taken;
        stop := WriteMember(world, item.name, data.value);
      }
      CoveredLater(old(archive), items, old(taken), old(ledger.reported), taken, ledger.reported);
      if stop.None? {
        OneMoreItem(old(archive), archive, items, item, old(taken), old(ledger.reported), taken, ledger.reported);
      }
    }

    method CrashFile(world: World, name: string, k: nat, ghost items: seq<Item>) returns (stop: Option<Stop>)
      requires Valid() && k < 100 && Holds(items)
      modifies this, ledger, world`destination, world`partial, world`passed
      ensures Bounded() && Onwards()
      ensures stop.Some? ==> Holds(items)
      ensures stop.None? ==> Valid() && Holds(items + [CrashItem(name, k)])
    {
      if |name| > 96 { Gap("crash_snapshots", "source-label-truncated"); }
      CoveredLater(old(archive), items, old(taken), old(ledger.reported), taken, ledger.reported);
      var item := CrashItem(name, k);
      assert item.origin[0] == 'c' && item.name[0] == 'c' && PARTIAL[0] == 'p';
      stop := CopyTail(world, item, CRASH_BYTES, items);
    }

    /** One entry of the directory; the scan ends when it fails, or when the archive does. */
    method ScanEntry(world: World, entry: CrashEntry, k: nat, ghost items: seq<Item>)
      returns (stop: Option<Stop>, ended: bool)
      requires Valid() && k < 100 && Holds(items) && !entry.NoMore?
      modifies this, ledger, world`destination, world`partial, world`passed
      ensures Bounded() && Onwards() && stop != Some(OsError)
      ensures stop.None? && ended ==> Holds(items) && "crash_snapshots" in ledger.reported
      ensures stop.None? && !ended ==> Valid() && !entry.ScanFails?
      ensures stop.None? && !ended && entry.Irregular? ==> Holds(items) && "crash_snapshots" in ledger.reported
      ensures stop.None? && !ended && entry.Regular? ==>
                Holds(items + [CrashItem(entry.name, k)])
    {
      stop, ended := None, false;
      if entry.ScanFails? {
        ScanGap("enumeration-failed", items);
        return None, true;
      }
      if entry.Irregular? {
        ScanGap("nonregular-entry-omitted", items);
        return;
      }
      stop := CrashFile(world, entry.name, k, items);
      if stop == Some(OsError) {
        ScanGap("enumeration-failed", items);
        return None, true;
      }
    }

    /**
     At most 64 directory entries are looked at, and at most 16 of them are read.  An OSError of the
     archive itself is taken for one of the directory: the export goes on with a member cut short.
     */
    method CrashSnapshots(world: World, ghost items: seq<Item>)
      returns (stop: Option<Stop>, scanned: nat, included: nat, ghost seen: seq<CrashEntry>, ghost names: seq<string>)
      requires Valid() && Holds(items)
      modifies this, ledger, world`destination, world`partial, world`passed
      ensures Bounded() && Onwards()
      ensures stop.None? ==> Valid() || "crash_snapshots" in ledger.reported
      ensures stop != Some(OsError)
      ensures included <= scanned <= 64 && included <= 16
      ensures |names| <= CRASH_FILES && (stop.None? ==> Holds(items + CrashItems(names)))
      ensures stop.None? ==> Scanned(Scan(seen, names), ledger.reported)
    {
      stop, scanned, included, seen, names := None, 0, 0, [], [];
      assert items + CrashItems([]) == items;
      while scanned < SCAN_ENTRIES
        invariant Valid() && Onwards() && stop.None?
        invariant included == |names| <= scanned <= SCAN_ENTRIES && included <= CRASH_FILES
        invariant Scanning(items, seen, names)
      {
        stop := world.Checkpoint();
        if stop.Some? { return; }
        if included >= CRASH_FILES { break; }
        var ended, entry;
        stop, ended, entry := ScanNext(world, included, items, seen, names);
        SeeEntry(seen, entry);
        seen := seen + [entry];
        if !entry.NoMore? && !entry.ScanFails? { scanned := scanned + 1; }
        if entry.Regular? { included := included + 1; }
        if stop.Some? || ended { return; }
        names := names + if entry.Regular? then [entry.name] else [];
      }
      var limit := if scanned < SCAN_ENTRIES then "file-count" else "entry-scan";
      ScanGap(limit + "-limit-remainder-unknown", items + CrashItems(names));
    }

    /** Between two entries: all regular files met so far are in the archive or have a gap, and so has any other entry. */
    ghost predicate Scanning(items: seq<Item>, seen: seq<CrashEntry>, names: seq<string>)
      reads this, ledger
      requires |names| < 100
    {
      && Holds(items + CrashItems(names)) && names == Regulars(seen)
      && (Irregular in seen ==> "crash_snapshots" in ledger.reported)
    }

    method ScanNext(world: World, k: nat, ghost items: seq<Item>, ghost seen: seq<CrashEntry>, ghost names: seq<string>)
      returns (stop: Option<Stop>, ended: bool, entry: CrashEntry)
      requires Valid() && k == |names| < CRASH_FILES && Scanning(items, seen, names)
      modifies this, ledger, world`destination, world`partial, world`passed
      ensures Bounded() && Onwards() && stop != Some(OsError)
      ensures stop.None? && ended ==>
                && Holds(items + CrashItems(names))
                && ((entry.NoMore? && Valid()) || "crash_snapshots" in ledger.reported)
      ensures stop.None? && !ended ==>
                && Valid() && !entry.NoMore? && !entry.ScanFails?
                && Scanning(items, seen + [entry], names + if entry.Regular? then [entry.name] else [])
    {
      entry := world.Entry();
      if entry.NoMore? { return None, true, entry; }
      SeeEntry(seen, entry);
      if entry.Regular? { NextCrashItem(items, names, entry.name); }
      stop, ended := ScanEntry(world, entry, k + 1, items + CrashItems(names));
      if entry.Irregular? { assert names + [] == names; }
    }

    /** A gap of the directory scan. */
    method ScanGap(reason: string, ghost items: seq<Item>)
      requires Bounded() && Holds(items)
      modifies ledger
      ensures Bounded() && Onwards() && Holds(items) && "crash_snapshots" in ledger.reported
      ensures old(Valid()) ==> Valid()
    {
      ghost var gaps := ledger.reported;
      Gap("crash_snapshots", reason);
      CoveredLater(archive, items, taken, gaps, taken, ledger.reported);
    }

    method DiagnosticFiles(world: World, ghost items: seq<Item>) returns (stop: Option<Stop>)
      requires Valid() && Holds(items)
      modifies this, ledger, world`destination, world`partial, world`passed
      ensures Bounded() && Onwards()
      ensures stop.None? ==> Valid() && Holds(items + DIAGNOSTICS)
    {
      stop := None;
      assert items + DIAGNOSTICS[..0] == items;
      for i := 0 to |DIAGNOSTICS|
        invariant Valid() && Onwards() && Holds(items + DIAGNOSTICS[..i])
      {
        DiagnosticIsNotPartial(i);
        assert (items + DIAGNOSTICS[..i]) + [DIAGNOSTICS[i]] == items + DIAGNOSTICS[..i + 1];
        stop := CopyTail(world, DIAGNOSTICS[i], FILE_BYTES, items + DIAGNOSTICS[..i]);
        if stop.Some? { return; }
      }
      assert DIAGNOSTICS[..|DIAGNOSTICS|] == DIAGNOSTICS;
    }

    /** The environment file is read for its digest only. */
    method Environment(world: World, ghost items: seq<Item>) returns (stop: Option<Stop>)
      requires Valid() && Holds(items)
      modifies this, ledger, world`destination, world`partial, world`passed
      ensures Bounded() && Onwards()
      ensures stop.None? ==> Valid() && Holds(items) && ReadOrGap("env")
    {
      var env := world.Source();
      var raw;
      stop, raw := ReadSource(world, env, "env", ENV_BYTES, false, true);
      CoveredLater(archive, items, old(taken), old(ledger.reported), taken, ledger.reported);
      assert stop.None? && raw.Some? ==> Read("env", raw.value) in taken;
    }

    method Interface(world: World, uiOmitted: bool) returns (stop: Option<Stop>)
      requires Valid() && archive == []
      modifies this, ledger, world`destination, world`partial, world`passed
      ensures Bounded() && Onwards()
      ensures stop.None? ==> Valid() && Holds([UI]) && (uiOmitted ==> "ui_snapshot" in ledger.reported)
    {
      var raw := world.Bytes();
      if |raw| > UI_BYTES { return Some(Error); }
      stop := WriteMember(world, "ui_snapshot.json", raw);
      if stop.Some? { return; }
      if uiOmitted { Gap("ui_snapshot", "bounded-ui-snapshot-truncated"); }
      OneMoreItem([], archive, [], UI, [], {}, taken, ledger.reported);
      assert [] + [UI] == [UI];
    }

    /** Every member but the manifest. */
    method PopulateMembers(world: World, uiOmitted: bool) returns (stop: Option<Stop>, ghost scan: Scan)
      requires Valid() && archive == []
      modifies this, ledger, world`destination, world`partial, world`passed
      ensures Bounded() && Onwards() && |scan.names| <= CRASH_FILES
      ensures stop.None? ==> begun == members || ledger.calls > 0
      ensures stop.None? ==> Scanned(scan, ledger.reported) && Holds([UI, SETTINGS] + DIAGNOSTICS + CrashItems(scan.names))
      ensures stop.None? ==> ReadOrGap("settings") && ReadOrGap("env") && (uiOmitted ==> "ui_snapshot" in ledger.reported)
    {
      scan := Scan([], []);
      stop := Interface(world, uiOmitted);
      if stop.Some? { return; }
      stop := Settings(world, [UI]);
      if stop.Some? { return; }
      assert [UI] + [SETTINGS] == [UI, SETTINGS];
      stop := Environment(world, [UI, SETTINGS]);
      if stop.Some? { return; }
      stop := DiagnosticFiles(world, [UI, SETTINGS]);
      if stop.Some? { return; }
      var scanned, included;
      ghost var seen, names;
      stop, scanned, included, seen, names := CrashSnapshots(world, [UI, SETTINGS] + DIAGNOSTICS);
      scan := Scan(seen, names);
    }

    /** All that an export should hold is in the archive or has a gap, and the manifest is the last member. */
    ghost predicate Complete(uiOmitted: bool, final: seq<Member>, scan: Scan)
      reads this, ledger
      requires |scan.names| <= CRASH_FILES
    {
      && |final| == |archive| + 1 && final[..|archive|] == archive && final[|archive|].name == "manifest.json"
      && Scanned(scan, ledger.reported) && Holds([UI, SETTINGS] + DIAGNOSTICS + CrashItems(scan.names))
      && ReadOrGap("settings") && ReadOrGap("env") && (uiOmitted ==> "ui_snapshot" in ledger.reported)
    }

    /** The archive as a whole, the manifest last: never more than 16 MiB of input in never more than 32 members. */
    method Populate(world: World, uiOmitted: bool)
      returns (stop: Option<Stop>, ghost archived: nat, ghost final: seq<Member>, ghost scan: Scan)
      requires Valid() && archive == []
      modifies this, ledger, world`destination, world`partial, world`passed
      ensures Bounded() && Onwards() && |scan.names| <= CRASH_FILES
      ensures archived <= 16 * 1024 * 1024 && |final| <= 32 && begun < 32 && bytesRead <= 18 * 1024 * 1024
      ensures stop.None? ==> begun == members || ledger.calls > 0
      ensures stop.None? ==> Complete(uiOmitted, final, scan)
    {
      stop, scan := PopulateMembers(world, uiOmitted);
      archived, final := zipInput, archive;
      if stop.Some? { return; }
      stop := world.Checkpoint();
      if stop.Some? { return; }
      var manifest := world.Bytes();
      if |manifest| > MANIFEST_BYTES { return Some(Error), archived, final, scan; }
      archived, final := zipInput + |manifest|, archive + [Member("manifest.json", manifest)];
      var failed := world.Fails();
      if failed { stop := Some(Error); }
    }

    // -------------------------------------------------------------- publication

    /** From a finished archive to the link step: the identity is checked and a checkpoint passed right before it. */
    method Publish(world: World, owned: nat) returns (stop: Option<Stop>, published: bool)
      modifies world
      ensures published <==> stop.None?
      ensures world.log == if published then old(world.log) + [Linked(false)] else old(world.log)
      ensures published ==> world.passed && world.checked.Found? && world.checked.id == owned
      ensures stop != Some(OsError)
    {
      published := false;
      stop := world.Checkpoint();
      if stop.Some? { return; }
      var failed := world.Fails();
      if failed { return Some(Error), false; }
      var look := world.LookAtTemporary();
      if !look.Found? || look.id != owned { return Some(Error), false; }
      stop := world.Checkpoint();
      if stop.Some? { return; }
      published := world.Link();
      if !published { stop := Some(Error); }
    }

    /** The body of the try block after the temporary exists: how it ended, and whether the link step happened. */
    method WriteAndPublish(world: World, owned: nat, uiOmitted: bool)
      returns (stop: Option<Stop>, published: bool, closeFailed: bool, ghost final: seq<Member>, ghost scan: Scan)
      requires Valid() && archive == []
      modifies this, ledger, world
      ensures Bounded() && ledger.cleanupGap == old(ledger.cleanupGap) && |scan.names| <= CRASH_FILES
      ensures world.log == if published then old(world.log) + [Linked(false)] else old(world.log)
      ensures stop.None? ==> published && !closeFailed
      ensures published && stop.Some? ==> stop == Some(Error) && closeFailed
      ensures published ==> begun == members || ledger.calls > 0
      ensures published ==> Complete(uiOmitted, final, scan)
      ensures published ==> world.passed && world.checked.Found? && world.checked.id == owned
      ensures stop.Some? && closeFailed ==> stop == Some(Error)
    {
      ghost var archived;
      published, closeFailed := false, false;
      stop, archived, final, scan := Populate(world, uiOmitted);
      if stop.None? { stop, published := Publish(world, owned); }
      // Leaving the with block closes the stream; a failure there replaces whatever was under way.
      closeFailed := world.Fails();
      if closeFailed { stop := Some(Error); }
    }

    /** The temporary is unlinked exactly while it is the owned regular file, otherwise it stays with a cleanup gap. */
    method RemoveTemporary(world: World, owned: nat) returns (ending: Op)
      requires Bounded()
      modifies ledger, world`destination, world`partial, world`log
      ensures Bounded() && ledger.calls >= old(ledger.calls) && (old(ledger.cleanupGap) ==> ledger.cleanupGap)
      ensures world.log == old(world.log) + [ending] && Ends(ending, owned)
      ensures ending.Held? ==> ledger.cleanupGap && ledger.calls > old(ledger.calls)
    {
      var look, removed := world.RemoveIfOwned(owned);
      ending := if removed then Removed(owned) else Held(look);
      if !removed {
        Gap(PARTIAL, if look.Found? then "owned-path-identity-changed-cleanup-held" else "cleanup-failed");
      }
    }

    /** The finally block: without a known identity nothing is removed and a cleanup gap is recorded. */
    method CleanUp(world: World, made: bool, owned: Option<nat>, descriptorOpen: bool) returns (ending: Option<Op>)
      requires Bounded() && (owned.Some? ==> made)
      modifies ledger, world`destination, world`partial, world`log
      ensures Bounded() && ledger.calls >= old(ledger.calls) && (old(ledger.cleanupGap) ==> ledger.cleanupGap)
      ensures ending.Some? <==> owned.Some?
      ensures ending.Some? ==> Ends(ending.value, owned.value)
      ensures world.log == if ending.Some? then old(world.log) + [ending.value] else old(world.log)
      ensures made && (ending.None? || ending.value.Held?) ==> ledger.cleanupGap && ledger.calls > old(ledger.calls)
    {
      ending := None;
      if descriptorOpen {
        var failed := world.Fails();
        if failed { Gap(PARTIAL, "descriptor-close-failed"); }
      }
      if owned.Some? {
        var last := RemoveTemporary(world, owned.value);
        ending := Some(last);
      } else if made {
        Gap(PARTIAL, "owned-identity-unavailable-cleanup-held");
      }
    }
  }

  datatype Status = Failed | Canceled | DeadlineExceeded | Created | CreatedWithGaps

  datatype Report = Report(status: Status, published: bool, gapCount: nat, cleanupGap: bool)

  function StatusOf(stop: Option<Stop>, gaps: bool): Status {
    match stop
    case None => if gaps then CreatedWithGaps else Created
    case Some(Cancelled) => Canceled
    case Some(Deadline) => DeadlineExceeded
    case Some(OsError) | Some(Error) => Failed
  }

  /**
   What one build did to the file system: a temporary of its own, at most one link, to a destination that
   was free at that moment, and at most one removal or one look that forbids it.
   */
  ghost function Footprint(made: Option<nat>, published: bool, ending: Option<Op>): seq<Op> {
    if made.None? then []
    else [Made(made.value)] + (if published then [Linked(false)] else []) + (if ending.Some? then [ending.value] else [])
  }

  /** The temporary of that identity was removed, or it could not be, or something else stood in its place. */
  ghost predicate Ends(ending: Op, owned: nat) {
    ending == Removed(owned) || (ending.Held? && ending.look != Found(owned, true))
  }

  /** The try block: how it ended, the temporary it made, its identity once known, and whether the link step happened. */
  method TryBuild(world: World, builder: Builder, uiOmitted: bool)
    returns (stop: Option<Stop>, made: Option<nat>, owned: Option<nat>, descriptorOpen: bool, published: bool,
             closeFailed: bool, ghost final: seq<Member>, ghost scan: Scan)
    requires builder.Valid() && builder.archive == []
    modifies builder, builder.ledger, world
    ensures |scan.names| <= CRASH_FILES && (published ==> builder.Complete(uiOmitted, final, scan))
    ensures builder.Bounded() && builder.ledger.cleanupGap == old(builder.ledger.cleanupGap)
    ensures owned.Some? ==> owned == made
    ensures made.Some? && owned.None? ==> stop == Some(Error) && !published
    ensures world.log == old(world.log) + Footprint(made, published, None)
    ensures published ==> made.Some? && world.passed && world.checked.Found? && world.checked.id == made.value
    ensures stop.None? ==> published && !closeFailed
    ensures published && stop.Some? ==> stop == Some(Error) && closeFailed
    ensures published ==> builder.begun == builder.members || builder.ledger.calls > 0
  {
    made, owned, descriptorOpen, published, closeFailed, final, scan := None, None, false, false, false, [], Scan([], []);
    stop := world.Checkpoint();
    if stop.Some? { return; }
    made := world.MakeTemporary();
    stop := Some(Error);
    if made.None? { return; }
    descriptorOpen := true;
    var unnamed := world.Fails();
    if unnamed { return; }
    owned := made;
    var unopened := world.Fails();
    if unopened { return; }
    descriptorOpen := false;
    stop, published, closeFailed, final, scan := builder.WriteAndPublish(world, made.value, uiOmitted);
  }

  /** The status follows from how the try block ended and from the gaps; what is published is never called cancelled. */
  method Concluded(stop: Option<Stop>, gaps: bool, published: bool, closeFailed: bool, count: nat) returns (status: Status)
    requires stop.None? ==> published && !closeFailed
    requires published && stop.Some? ==> stop == Some(Error) && closeFailed
    requires gaps ==> count > 0
    ensures published ==> status == if count > 0 then CreatedWithGaps else if closeFailed then Failed else Created
    ensures !published ==>
              && (status == Canceled <==> stop == Some(Cancelled))
              && (status == DeadlineExceeded <==> stop == Some(Deadline))
              && (status == Failed <==> stop == Some(OsError) || stop == Some(Error))
  {
    status := StatusOf(stop, gaps);
    if published && count > 0 { status := CreatedWithGaps; }
  }

  /**
   The build of one export.  Whatever stops it and whoever else writes to the directory, an existing
   destination is never replaced and the temporary is removed only while it is the owned file.
   */
  method Build(world: World, uiOmitted: bool)
    returns (report: Report, builder: Builder, ghost made: Option<nat>, ghost ending: Option<Op>, ghost closeFailed: bool,
             ghost stop: Option<Stop>, ghost final: seq<Member>, ghost scan: Scan)
    modifies world
    ensures fresh(builder) && fresh(builder.ledger) && builder.Bounded()
    ensures report.gapCount == builder.ledger.calls && report.cleanupGap == builder.ledger.cleanupGap
    ensures world.log == old(world.log) + Footprint(made, report.published, ending)
    ensures made.None? ==> !report.published && ending.None?
    ensures made.Some? && ending.None? ==> stop == Some(Error) && !report.published
    ensures ending.Some? ==> Ends(ending.value, made.value)
    ensures made.Some? && ending != Some(Removed(made.value)) ==> report.cleanupGap
    ensures report.published ==> world.passed && world.checked.Found? && world.checked.id == made.value
    ensures report.published ==>
              if report.gapCount > 0 then report.status == CreatedWithGaps
              else report.status == if closeFailed then Failed else Created
    ensures !report.published ==>
              && (report.status == Canceled <==> stop == Some(Cancelled))
              && (report.status == DeadlineExceeded <==> stop == Some(Deadline))
              && (report.status == Failed <==> stop == Some(OsError) || stop == Some(Error))
    ensures report.published && report.gapCount == 0 ==>
              && builder.begun == builder.members
              && forall i :: 0 <= i < |builder.sources| ==> Whole(builder.sources[i])
    ensures forall i :: 0 <= i < |builder.sources| ==> Honest(builder.sources[i])
    ensures forall i :: 0 <= i < |builder.taken| ==> |builder.taken[i].data| <= ReadLimit(builder.taken[i].origin)
    ensures |scan.names| <= CRASH_FILES && (report.published && report.gapCount == 0 ==> Full(final, scan, builder.taken))
  {
    builder := new Builder();
    var ended, temporary, owned, descriptorOpen, published, failed;
    ended, temporary, owned, descriptorOpen, published, failed, final, scan := TryBuild(world, builder, uiOmitted);
    stop, made, closeFailed := ended, temporary, failed;
    var gaps := builder.ledger.rows != [];
    EveryRowCounts(builder.ledger.rows);
    ghost var archive, taken, reported := builder.archive, builder.taken, builder.ledger.reported;
    ending := builder.CleanUp(world, temporary.Some?, owned, descriptorOpen);
    var count := builder.ledger.GapCount();
    var status := Concluded(ended, gaps, published, failed, count);
    report := Report(status, published, count, builder.ledger.cleanupGap);
    EachReceipt(builder.sources);
    EachRead(builder.taken);
    if published && count == 0 { CompleteIsFull(archive, final, scan, taken, reported); }
  }

  /** Every member by name, in order, each diagnostic and each crash file with the bytes that were read of it. */
  ghost predicate Full(final: seq<Member>, scan: Scan, taken: seq<Read>)
    requires |scan.names| <= CRASH_FILES
  {
    && HasMembers(final, scan.names, taken)
    && scan.names == Regulars(scan.seen) && scan.seen != [] && scan.seen[|scan.seen| - 1] == NoMore && Irregular !in scan.seen
  }

  ghost predicate HasMembers(final: seq<Member>, names: seq<string>, taken: seq<Read>)
    requires |names| <= CRASH_FILES
  {
    && |final| == 8 + |names|
    && (exists d :: Read("settings", d) in taken) && (exists d :: Read("env", d) in taken)
    && HasFixedMembers(final, taken) && HasCrashMembers(final, names, taken)
    && final[|final| - 1].name == "manifest.json"
  }

  ghost predicate HasFixedMembers(final: seq<Member>, taken: seq<Read>)
    requires |final| >= 7
  {
    && final[0].name == "ui_snapshot.json" && final[1].name == "settings.sanitized.json"
    && final[2].name == "diagnostics/not_responding.log.snapshot" && Read("not_responding.log", final[2].data) in taken
    && final[3].name == "diagnostics/selftest_failures.json.snapshot" && Read("selftest_failures.json", final[3].data) in taken
    && final[4].name == "diagnostics/crash.log.snapshot" && Read("crash.log", final[4].data) in taken
    && final[5].name == "diagnostics/status.json.snapshot" && Read("status.json", final[5].data) in taken
    && final[6].name == "diagnostics/flow_metrics.json.snapshot" && Read("flow_metrics.json", final[6].data) in taken
  }

  ghost predicate HasCrashMembers(final: seq<Member>, names: seq<string>, taken: seq<Read>)
    requires |names| <= CRASH_FILES && |final| >= 7 + |names|
  {
    forall k :: 0 <= k < |names| ==> IsCrashMember(final[7 + k], names[k], k + 1, taken)
  }

  ghost predicate IsCrashMember(m: Member, name: string, k: nat, taken: seq<Read>)
    requires k < 100
  {
    m.name == CrashName(k) && Read("crash:" + Cut(name, 96), m.data) in taken
  }

  lemma CrashMember(final: seq<Member>, i: nat, name: string, k: nat, taken: seq<Read>)
    requires k < 100 && IsItem(final, i, CrashItem(name, k), taken)
    ensures i < |final| && IsCrashMember(final[i], name, k, taken)
  {
  }

  /** The member at `i` is this item. */
  ghost predicate IsItem(final: seq<Member>, i: nat, item: Item, taken: seq<Read>) {
    i < |final| && final[i].name == item.name && (item.copied ==> Read(item.origin, final[i].data) in taken)
  }

  lemma FixedMembers(final: seq<Member>, taken: seq<Read>)
    requires |final| >= 7 && IsItem(final, 0, UI, taken) && IsItem(final, 1, SETTINGS, taken)
    requires forall i :: 0 <= i < 5 ==> IsItem(final, 2 + i, DIAGNOSTICS[i], taken)
    ensures HasFixedMembers(final, taken)
  {
    assert IsItem(final, 2 + 0, DIAGNOSTICS[0], taken) && IsItem(final, 2 + 1, DIAGNOSTICS[1], taken);
    assert IsItem(final, 2 + 2, DIAGNOSTICS[2], taken) && IsItem(final, 2 + 3, DIAGNOSTICS[3], taken);
    assert IsItem(final, 2 + 4, DIAGNOSTICS[4], taken);
  }

  lemma {:induction false} CrashItemsAt(names: seq<string>, k: nat)
    requires k < |names| < 100
    ensures |CrashItems(names)| == |names|
    ensures CrashItems(names)[k] == CrashItem(names[k], k + 1)
    decreases |names|
  {
    if |names| > 1 { CrashItemsAt(names[..|names| - 1], if k < |names| - 1 then k else 0); }
  }

  lemma ItemsInPlace(fixed: seq<Item>, crash: seq<Item>, archive: seq<Member>, final: seq<Member>, taken: seq<Read>)
    requires |fixed| == 7 && Covered(archive, fixed + crash, taken, {})
    requires |final| == |archive| + 1 && final[..|archive|] == archive
    ensures |archive| == 7 + |crash|
    ensures forall i :: 0 <= i < 7 ==> IsItem(final, i, fixed[i], taken)
    ensures forall k :: 0 <= k < |crash| ==> IsItem(final, 7 + k, crash[k], taken)
  {
    var items := fixed + crash;
    CoveredWithoutGaps(archive, items, taken);
    forall i | 0 <= i < |items| ensures IsItem(final, i, items[i], taken) {
      assert final[i] == archive[i];
    }
    forall i | 0 <= i < 7 ensures IsItem(final, i, fixed[i], taken) { assert items[i] == fixed[i]; }
    forall k | 0 <= k < |crash| ensures IsItem(final, 7 + k, crash[k], taken) { assert items[7 + k] == crash[k]; }
  }

  lemma CrashMembers(final: seq<Member>, names: seq<string>, taken: seq<Read>)
    requires |names| <= CRASH_FILES && |final| >= 7 + |names|
    requires |CrashItems(names)| == |names|
    requires forall k :: 0 <= k < |names| ==> IsItem(final, 7 + k, CrashItems(names)[k], taken)
    ensures HasCrashMembers(final, names, taken)
  {
    forall k | 0 <= k < |names| ensures IsCrashMember(final[7 + k], names[k], k + 1, taken) {
      CrashItemsAt(names, k);
      assert IsItem(final, 7 + k, CrashItems(names)[k], taken);
      CrashMember(final, 7 + k, names[k], k + 1, taken);
    }
  }

  lemma {:induction false} CrashItemsLength(names: seq<string>)
    requires |names| < 100
    ensures |CrashItems(names)| == |names|
    decreases |names|
  {
    if names != [] { CrashItemsLength(names[..|names| - 1]); }
  }

  lemma CompleteIsFull(archive: seq<Member>, final: seq<Member>, scan: Scan, taken: seq<Read>, reported: set<string>)
    requires Scanned(scan, reported) && reported == {}
    requires |final| == |archive| + 1 && final[..|archive|] == archive && final[|archive|].name == "manifest.json"
    requires Covered(archive, [UI, SETTINGS] + DIAGNOSTICS + CrashItems(scan.names), taken, reported)
    requires (exists d :: Read("settings", d) in taken) && (exists d :: Read("env", d) in taken)
    ensures Full(final, scan, taken)
  {
    var fixed, crash := [UI, SETTINGS] + DIAGNOSTICS, CrashItems(scan.names);
    CrashItemsLength(scan.names);
    ItemsInPlace(fixed, crash, archive, final, taken);
    assert fixed[0] == UI && fixed[1] == SETTINGS;
    forall i | 0 <= i < 5 ensures IsItem(final, 2 + i, DIAGNOSTICS[i], taken) { assert fixed[2 + i] == DIAGNOSTICS[i]; }
    FixedMembers(final, taken);
    CrashMembers(final, scan.names, taken);
  }
}
