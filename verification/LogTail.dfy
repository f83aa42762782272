/**
 The bounded incremental log tailer of blackbox_recorder.py: `safe_tail_bytes`, `_consume_tail` and
 the classification in `_emit_text`.  One poll of one file is one step.  The markers are literal.
 */
module LogTail {
  import opened Wrappers
  import opened Utf8Stream

  const MAX_READ := 16 * 1024
  const CONTEXT := 512
  const NEWLINE: CodePoint := 10

  type Path = string
  type Identity = (int, int)

  /** What a poll finds at the path: nothing, or a file that can be read or not. */
  datatype Snapshot = Missing | File(identity: Identity, content: seq<Byte>, readable: bool)

  /** The console block of one poll: the text shown, the text classified and the verdict. */
  datatype Emission = Emission(text: Text, classified: Text, critical: bool)

  // ---------------------------------------------------------------- text

  predicate At(text: Text, part: Text, i: int) {
    0 <= i <= |text| - |part| && text[i..i + |part|] == part
  }

  predicate Contains(text: Text, part: Text) {
    exists i :: 0 <= i <= |text| && At(text, part, i)
  }

  function StripLeft(text: Text): Text {
    if text != [] && text[0] == NEWLINE then StripLeft(text[1..]) else text
  }

  function StripRight(text: Text): Text {
    if text != [] && text[|text| - 1] == NEWLINE then StripRight(text[..|text| - 1]) else text
  }

  function Strip(text: Text): Text { StripRight(StripLeft(text)) }

  /** text[-512:] */
  function LastPart(text: Text): Text {
    if |text| <= CONTEXT then text else text[|text| - CONTEXT..]
  }

  predicate Critical(markers: seq<Text>, text: Text) {
    exists m :: m in markers && Contains(text, m)
  }

  function Emitted(markers: seq<Text>, context: Text, decoded: Text): Option<Emission> {
    var text := Strip(decoded);
    if text == [] then None else Some(Emission(text, context + text, Critical(markers, context + text)))
  }

  /** `text` is `decoded` cut by newlines at both ends, and by nothing else. */
  ghost predicate Trimmed(decoded: Text, text: Text) {
    && (text != [] ==> text[0] != 10 && text[|text| - 1] != 10)
    && exists a, b ::
         && 0 <= a <= b <= |decoded| && text == decoded[a..b]
         && forall i :: 0 <= i < a || b <= i < |decoded| ==> decoded[i] == 10
  }

  /** Some listed marker stands at some position of the text. */
  ghost predicate Marked(markers: seq<Text>, text: Text) {
    exists k, i :: 0 <= k < |markers| && StandsAt(text, markers[k], i)
  }

  ghost predicate StandsAt(text: Text, m: Text, i: int) {
    0 <= i <= |text| - |m| && forall j :: 0 <= j < |m| ==> text[i + j] == m[j]
  }

  /** What a poll shows of a chunk of text: the trimmed chunk alone, critical exactly when a marker stands in context and chunk. */
  ghost predicate Displays(markers: seq<Text>, context: Text, decoded: Text, shown: Option<Emission>) {
    && (shown.None? <==> forall i :: 0 <= i < |decoded| ==> decoded[i] == 10)
    && (shown.Some? ==>
          && Trimmed(decoded, shown.value.text) && shown.value.text != []
          && shown.value.classified == context + shown.value.text
          && (shown.value.critical <==> Marked(markers, context + shown.value.text)))
  }

  // ---------------------------------------------------------------- one poll as a function

  /** All that the tailer keeps about one path. */
  datatype Tail = Tail(offset: nat, decoder: Option<seq<Byte>>, context: Text, identity: Option<Identity>)

  /** The part of the file that one poll takes. */
  function Slice(content: seq<Byte>, offset: nat): seq<Byte>
    requires offset <= |content|
  {
    content[offset..if |content| - offset < MAX_READ then |content| else offset + MAX_READ]
  }

  predicate Restarts(tail: Tail, snap: Snapshot)
    requires snap.File?
  {
    (tail.identity.Some? && tail.identity.value != snap.identity) || |snap.content| < tail.offset
  }

  /** Where the tailer stands before it takes bytes: at the start with nothing carried after a restart. */
  function Positioned(tail: Tail, snap: Snapshot): (t: Tail)
    requires snap.File?
    ensures t.decoder.Some? && t.offset <= |snap.content|
  {
    if Restarts(tail, snap) then Tail(0, Some([]), [], Some(snap.identity))
    else if tail.decoder.None? then Tail(tail.offset, Some([]), [], Some(snap.identity))
    else tail.(identity := Some(snap.identity))
  }

  /** The bytes one poll takes. */
  function Taken(tail: Tail, snap: Snapshot): seq<Byte> {
    if snap.Missing? || !snap.readable then [] else Slice(snap.content, Positioned(tail, snap).offset)
  }

  function Advance(tail: Tail, snap: Snapshot): Tail {
    if snap.Missing? then tail
    else
      var t, data := Positioned(tail, snap), Taken(tail, snap);
      var d := Decode(t.decoder.value + data);
      if data == [] then t
      else Tail(t.offset + |data|, Some(d.rest), LastPart(t.context + d.text), t.identity)
  }

  function Shown(markers: seq<Text>, tail: Tail, snap: Snapshot): Option<Emission> {
    if Taken(tail, snap) == [] then None
    else
      var t := Positioned(tail, snap);
      Emitted(markers, t.context, Decode(t.decoder.value + Taken(tail, snap)).text)
  }

  // ---------------------------------------------------------------- the worker

  class LogTailWorker {
    var offsets: map<Path, nat>
    var decoders: map<Path, seq<Byte>>
    var contexts: map<Path, Text>
    var identities: map<Path, Identity>

    ghost predicate Valid()
      reads this
    {
      forall p :: p in decoders <==> p in contexts
    }

    ghost function TailOf(path: Path): Tail
      reads this
    {
      Tail(if path in offsets then offsets[path] else 0,
           if path in decoders then Some(decoders[path]) else None,
           if path in contexts then contexts[path] else [],
           if path in identities then Some(identities[path]) else None)
    }

    constructor ()
      ensures Valid() && forall p :: TailOf(p) == Tail(0, None, [], None)
    {
      offsets, decoders, contexts, identities := map[], map[], map[], map[];
    }

    /** prime_offset: a file that exists is read from its last `tailBytes` bytes on. */
    method Prime(path: Path, snap: Snapshot, tailBytes: nat)
      requires Valid()
      modifies this`offsets
      ensures Valid() && forall p :: p != path ==> TailOf(p) == old(TailOf(p))
      ensures TailOf(path) == old(TailOf(path)).(offset :=
                if snap.File? && |snap.content| > tailBytes then |snap.content| - tailBytes else 0)
    {
      var size := if snap.File? then |snap.content| else 0;
      offsets := offsets[path := if size > tailBytes then size - tailBytes else 0];
    }

    static method SafeTailBytes(snap: Snapshot, offset: nat) returns (data: seq<Byte>, following: nat)
      requires snap.File?
      ensures var start := if |snap.content| < offset then 0 else offset;
              && data == (if snap.readable then Slice(snap.content, start) else [])
              && following == start + |data|
    {
      var size, start := |snap.content|, offset;
      if size < start { start := 0; }
      if size == start { return [], start; }
      if !snap.readable { return [], start; }
      var count := if size - start < MAX_READ then size - start else MAX_READ;
      data := snap.content[start..start + count];
      following := start + |data|;
    }

    /** Decoder and context start afresh after a restart, and for a path that has none yet. */
    method Renew(path: Path, reset: bool)
      requires Valid()
      modifies this`decoders, this`contexts
      ensures Valid()
      ensures var keep := !reset && path in old(decoders);
              && decoders == old(decoders)[path := if keep then old(decoders)[path] else []]
              && contexts == old(contexts)[path := if keep then old(contexts)[path] else []]
    {
      if reset || path !in decoders {
        decoders, contexts := decoders[path := []], contexts[path := []];
      } else {
        assert decoders == decoders[path := decoders[path]] && contexts == contexts[path := contexts[path]];
      }
    }

    /** The bookkeeping before the decoder is fed: offset, decoder and context restart together or not at all. */
    method Reposition(path: Path, snap: Snapshot) returns (data: seq<Byte>)
      requires Valid() && snap.File?
      modifies this
      ensures Valid() && data == Taken(old(TailOf(path)), snap)
      ensures var t := Positioned(old(TailOf(path)), snap);
              && offsets == old(offsets)[path := t.offset + |data|] && identities == old(identities)[path := snap.identity]
              && decoders == old(decoders)[path := t.decoder.value] && contexts == old(contexts)[path := t.context]
    {
      ghost var before := TailOf(path);
      var offset := if path in offsets then offsets[path] else 0;
      var reset := (path in identities && identities[path] != snap.identity) || |snap.content| < offset;
      if reset { offset := 0; }
      assert reset == Restarts(before, snap) && offset == Positioned(before, snap).offset;
      var following;
      data, following := SafeTailBytes(snap, offset);
      assert following == offset + |data|;
      identities := identities[path := snap.identity];
      Renew(path, reset || following < offset);
      offsets := offsets[path := following];
    }

    method ConsumeTail(markers: seq<Text>, path: Path, snap: Snapshot) returns (shown: Option<Emission>)
      requires Valid()
      modifies this
      ensures Valid() && TailOf(path) == Advance(old(TailOf(path)), snap)
      ensures shown == Shown(markers, old(TailOf(path)), snap)
      ensures forall p :: p != path ==> TailOf(p) == old(TailOf(p))
    {
      shown := None;
      if snap.Missing? { return; }
      var data := Reposition(path, snap);
      if data != [] {
        var decoded := Decode(decoders[path] + data);
        decoders := decoders[path := decoded.rest];
        shown := Emitted(markers, contexts[path], decoded.text);
        contexts := contexts[path := LastPart(contexts[path] + decoded.text)];
      }
    }
  }

  // ---------------------------------------------------------------- sequences of polls

  /** After a rotation or a truncation the file is tailed as if it had never been seen. */
  lemma RestartIsAFreshStart(markers: seq<Text>, tail: Tail, snap: Snapshot)
    requires snap.File? && ((tail.identity.Some? && tail.identity.value != snap.identity) || |snap.content| < tail.offset)
    ensures Advance(tail, snap) == Advance(Tail(0, None, [], None), snap)
    ensures Shown(markers, tail, snap) == Shown(markers, Tail(0, None, [], None), snap)
    ensures Taken(tail, snap) == Taken(Tail(0, None, [], None), snap)
  {
  }

  /** The state after a sequence of polls, and the bytes and text each of them consumed. */
  function After(tail: Tail, snaps: seq<Snapshot>): Tail {
    if snaps == [] then tail else Advance(After(tail, snaps[..|snaps| - 1]), snaps[|snaps| - 1])
  }

  function Consumed(tail: Tail, snaps: seq<Snapshot>): seq<Byte> {
    if snaps == [] then []
    else Consumed(tail, snaps[..|snaps| - 1]) + Taken(After(tail, snaps[..|snaps| - 1]), snaps[|snaps| - 1])
  }

  const UNSEEN := Tail(0, None, [], None)

  /** After and Consumed for any way to advance and to take bytes: what follows about sequences needs no more. */
  function Folded(step: (Tail, Snapshot) -> Tail, tail: Tail, snaps: seq<Snapshot>): Tail {
    if snaps == [] then tail else step(Folded(step, tail, snaps[..|snaps| - 1]), snaps[|snaps| - 1])
  }

  function Gathered(step: (Tail, Snapshot) -> Tail, take: (Tail, Snapshot) -> seq<Byte>, tail: Tail, snaps: seq<Snapshot>): seq<Byte> {
    if snaps == [] then []
    else Gathered(step, take, tail, snaps[..|snaps| - 1]) + take(Folded(step, tail, snaps[..|snaps| - 1]), snaps[|snaps| - 1])
  }

  lemma {:induction false} PollsFold(tail: Tail, snaps: seq<Snapshot>)
    ensures After(tail, snaps) == Folded(Advance, tail, snaps)
    ensures Consumed(tail, snaps) == Gathered(Advance, Taken, tail, snaps)
    decreases |snaps|
  {
    if snaps != [] { PollsFold(tail, snaps[..|snaps| - 1]); }
  }

  /** Two tails that one poll brings together stay together. */
  lemma {:induction false} TailsMeet(step: (Tail, Snapshot) -> Tail, take: (Tail, Snapshot) -> seq<Byte>,
                                     tail: Tail, pre: seq<Snapshot>, other: Tail, since: seq<Snapshot>)
    requires since != []
    requires step(Folded(step, tail, pre), since[0]) == step(other, since[0])
    requires take(Folded(step, tail, pre), since[0]) == take(other, since[0])
    ensures Folded(step, tail, pre + since) == Folded(step, other, since)
    ensures Gathered(step, take, tail, pre + since) == Gathered(step, take, tail, pre) + Gathered(step, take, other, since)
    decreases |since|
  {
    var all, n := pre + since, |since| - 1;
    assert all[..|all| - 1] == pre + since[..n] && all[|all| - 1] == since[n];
    if n == 0 {
      assert since[..0] == [] && pre + since[..0] == pre;
      assert [] + take(other, since[0]) == take(other, since[0]);
    } else {
      TailsMeet(step, take, tail, pre, other, since[..n]);
      var former, later, last := Gathered(step, take, tail, pre), Gathered(step, take, other, since[..n]), take(Folded(step, other, since[..n]), since[n]);
      assert (former + later) + last == former + (later + last);
    }
  }

  /** What was seen of a path before it restarted leaves no trace in any later poll. */
  lemma RestartForgetsThePast(tail: Tail, pre: seq<Snapshot>, since: seq<Snapshot>)
    requires since != [] && since[0].File? && Restarts(After(tail, pre), since[0])
    ensures After(tail, pre + since) == After(UNSEEN, since)
    ensures Consumed(tail, pre + since) == Consumed(tail, pre) + Consumed(UNSEEN, since)
  {
    RestartIsAFreshStart([], After(tail, pre), since[0]);
    PollsFold(tail, pre);
    PollsFold(tail, pre + since);
    PollsFold(UNSEEN, since);
    TailsMeet(Advance, Taken, tail, pre, UNSEEN, since);
  }

  /** Nor in what any later poll shows. */
  lemma RestartShowsNothingOld(markers: seq<Text>, tail: Tail, pre: seq<Snapshot>, since: seq<Snapshot>, k: nat)
    requires k < |since| && since[0].File? && Restarts(After(tail, pre), since[0])
    ensures Shown(markers, After(tail, pre + since[..k]), since[k]) == Shown(markers, After(UNSEEN, since[..k]), since[k])
  {
    if k == 0 {
      assert pre + since[..0] == pre && since[..0] == [];
      RestartIsAFreshStart(markers, After(tail, pre), since[0]);
    } else {
      RestartForgetsThePast(tail, pre, since[..k]);
    }
  }

  /** One file that only grows: same identity, and every snapshot a prefix of the last content. */
  ghost predicate Growing(snaps: seq<Snapshot>, identity: Identity, content: seq<Byte>) {
    && (forall i :: 0 <= i < |snaps| && snaps[i].File? ==> snaps[i].identity == identity && snaps[i].content <= content)
    && (forall i, j :: 0 <= i <= j < |snaps| && snaps[i].File? && snaps[j].File? ==> snaps[i].content <= snaps[j].content)
  }

  /** Primed, not polled yet, and no further on than the first snapshot reaches. */
  ghost predicate Primed(tail: Tail, snaps: seq<Snapshot>) {
    && tail.decoder.None? && tail.context == [] && tail.identity.None?
    && forall i :: 0 <= i < |snaps| && snaps[i].File? ==> tail.offset <= |snaps[i].content|
  }

  /** What the state means: bytes since priming, their text decoded in one piece, the last 512 characters of it. */
  ghost predicate InStep(start: nat, tail: Tail, identity: Identity, content: seq<Byte>) {
    && start <= tail.offset <= |content|
    && (tail.identity.Some? ==> tail.identity.value == identity)
    && Decode(content[start..tail.offset]).rest == (if tail.decoder.Some? then tail.decoder.value else [])
    && tail.context == LastPart(Decode(content[start..tail.offset]).text)
    && (tail.decoder.None? ==> tail.offset == start)
  }

  lemma LastPartOfLastPart(a: Text, b: Text)
    ensures LastPart(LastPart(a) + b) == LastPart(a + b)
  {
  }

  lemma TakenExtends(start: nat, tail: Tail, snap: Snapshot, identity: Identity, content: seq<Byte>)
    requires InStep(start, tail, identity, content)
    requires snap.File? ==> snap.identity == identity && snap.content <= content && tail.offset <= |snap.content|
    ensures Advance(tail, snap).offset == tail.offset + |Taken(tail, snap)| && |Taken(tail, snap)| <= MAX_READ
    ensures Advance(tail, snap).offset <= if snap.File? then |snap.content| else tail.offset
    ensures content[start..Advance(tail, snap).offset] == content[start..tail.offset] + Taken(tail, snap)
  {
    if snap.File? && snap.readable {
      assert Positioned(tail, snap).offset == tail.offset;
      SliceOfPrefix(start, tail.offset, snap.content, content);
    }
  }

  lemma SliceOfPrefix(start: nat, offset: nat, prefix: seq<Byte>, content: seq<Byte>)
    requires start <= offset <= |prefix| && prefix <= content
    ensures content[start..offset + |Slice(prefix, offset)|] == content[start..offset] + Slice(prefix, offset)
  {
  }

  lemma StepKeepsInStep(start: nat, tail: Tail, snap: Snapshot, identity: Identity, content: seq<Byte>)
    requires InStep(start, tail, identity, content)
    requires snap.File? ==> snap.identity == identity && snap.content <= content && tail.offset <= |snap.content|
    ensures InStep(start, Advance(tail, snap), identity, content)
  {
    TakenExtends(start, tail, snap, identity, content);
    var data := Taken(tail, snap);
    if data != [] {
      var t, done := Positioned(tail, snap), content[start..tail.offset];
      assert tail.decoder.None? ==> done == [];
      DecodeInPieces(done, data);
      LastPartOfLastPart(Decode(done).text, Decode(t.decoder.value + data).text);
    }
  }

  lemma GrowingPrefix(snaps: seq<Snapshot>, identity: Identity, content: seq<Byte>, n: nat)
    requires Growing(snaps, identity, content) && n < |snaps| && snaps[n].File?
    ensures Growing(snaps[..n], identity, content) && Growing(snaps[..n], identity, snaps[n].content)
  {
  }

  /** Over any sequence of polls of a growing file the chunks are exactly the bytes since priming, each at most 16 KiB. */
  lemma {:induction false} EveryByteOnce(tail: Tail, snaps: seq<Snapshot>, identity: Identity, content: seq<Byte>)
    requires Growing(snaps, identity, content) && Primed(tail, snaps) && tail.offset <= |content|
    ensures InStep(tail.offset, After(tail, snaps), identity, content)
    ensures Consumed(tail, snaps) == content[tail.offset..After(tail, snaps).offset]
    decreases |snaps|
  {
    if snaps != [] {
      var front, snap := snaps[..|snaps| - 1], snaps[|snaps| - 1];
      EveryByteOnce(tail, front, identity, content);
      if snap.File? {
        GrowingPrefix(snaps, identity, content, |front|);
        EveryByteOnce(tail, front, identity, snap.content);
      }
      TakenExtends(tail.offset, After(tail, front), snap, identity, content);
      StepKeepsInStep(tail.offset, After(tail, front), snap, identity, content);
    }
  }

  /** A poll that can read never stands still before the end of the file. */
  lemma PollsMakeProgress(tail: Tail, snap: Snapshot)
    requires snap.File? && snap.readable && (tail.identity.None? || tail.identity.value == snap.identity)
    requires tail.offset <= |snap.content|
    ensures var end := if |snap.content| - tail.offset < 16384 then |snap.content| else tail.offset + 16384;
            Advance(tail, snap).offset == end && Taken(tail, snap) == snap.content[tail.offset..end]
  {
  }

  // ---------------------------------------------------------------- what a poll shows

  lemma StripTrims(decoded: Text)
    ensures Trimmed(decoded, Strip(decoded))
    ensures Strip(decoded) == [] <==> forall i :: 0 <= i < |decoded| ==> decoded[i] == 10
  {
    var a, b := StripCuts(decoded);
    StripEnds(decoded);
    assert Strip(decoded) == decoded[a..b];
    if Strip(decoded) != [] { assert decoded[a] == Strip(decoded)[0]; }
  }

  lemma {:induction false} StripRightEnds(text: Text)
    ensures StripRight(text) != [] ==> StripRight(text)[|StripRight(text)| - 1] != 10
    ensures StripRight(text) != [] ==> StripRight(text)[0] == text[0]
    decreases |text|
  {
    if text != [] && text[|text| - 1] == NEWLINE { StripRightEnds(text[..|text| - 1]); }
  }

  lemma {:induction false} StripLeftEnds(text: Text)
    ensures StripLeft(text) != [] ==> StripLeft(text)[0] != 10
  {
    if text != [] && text[0] == NEWLINE { StripLeftEnds(text[1..]); }
  }

  lemma StripEnds(text: Text)
    ensures Strip(text) != [] ==> Strip(text)[0] != 10 && Strip(text)[|Strip(text)| - 1] != 10
  {
    StripLeftEnds(text);
    StripRightEnds(StripLeft(text));
  }

  lemma CriticalMeansMarked(markers: seq<Text>, text: Text)
    ensures Critical(markers, text) <==> Marked(markers, text)
  {
    if Critical(markers, text) {
      var m :| m in markers && Contains(text, m);
      var k :| 0 <= k < |markers| && markers[k] == m;
      var i :| 0 <= i <= |text| && At(text, m, i);
      forall j | 0 <= j < |m| ensures text[i + j] == m[j] { assert text[i..i + |m|][j] == m[j]; }
      assert StandsAt(text, markers[k], i);
    }
    if Marked(markers, text) {
      var k, i :| 0 <= k < |markers| && StandsAt(text, markers[k], i);
      assert text[i..i + |markers[k]|] == markers[k];
      assert At(text, markers[k], i) && markers[k] in markers;
    }
  }

  lemma EmittedDisplays(markers: seq<Text>, context: Text, decoded: Text)
    ensures Displays(markers, context, decoded, Emitted(markers, context, decoded))
  {
    StripTrims(decoded);
    CriticalMeansMarked(markers, context + Strip(decoded));
  }

  /**
   Over any polls of a growing file: poll `k` shows the text that it decodes, trimmed, and calls it critical
   exactly when a listed marker stands in the last 512 characters decoded before, followed by what it shows.
   */
  lemma PollDisplays(markers: seq<Text>, tail: Tail, snaps: seq<Snapshot>, identity: Identity, content: seq<Byte>, k: nat)
    requires Growing(snaps, identity, content) && Primed(tail, snaps) && tail.offset <= |content| && k < |snaps|
    ensures var before, after := Decode(Consumed(tail, snaps[..k])).text, Decode(Consumed(tail, snaps[..k + 1])).text;
            && |before| <= |after| && before == after[..|before|]
            && Displays(markers, before[if |before| < 512 then 0 else |before| - 512..], after[|before|..],
                        Shown(markers, After(tail, snaps[..k]), snaps[k]))
  {
    var polls := snaps[..k + 1];
    assert polls[..|polls| - 1] == snaps[..k] && polls[k] == snaps[k];
    StreamGrows(tail, polls, identity, content);
    StepDisplays(markers, After(tail, snaps[..k]), snaps[k], Stream(tail, snaps[..k]), Stream(tail, polls));
  }

  /** And any single poll, after a restart too, shows what it decodes behind the context it starts from. */
  lemma AnyPollDisplays(markers: seq<Text>, tail: Tail, snap: Snapshot)
    ensures if snap.Missing? || Taken(tail, snap) == [] then Shown(markers, tail, snap).None?
            else
              var start := Positioned(tail, snap);
              Displays(markers, start.context, Decode(start.decoder.value + Taken(tail, snap)).text, Shown(markers, tail, snap))
  {
    if snap.File? && Taken(tail, snap) != [] {
      var start := Positioned(tail, snap);
      EmittedDisplays(markers, start.context, Decode(start.decoder.value + Taken(tail, snap)).text);
    }
  }

  lemma StepDisplays(markers: seq<Text>, state: Tail, snap: Snapshot, before: Text, after: Text)
    requires state.context == LastPart(before)
    requires Taken(state, snap) == [] ==> after == before
    requires Taken(state, snap) != [] ==>
               && Positioned(state, snap).context == state.context
               && after == before + Decode(Positioned(state, snap).decoder.value + Taken(state, snap)).text
    ensures |before| <= |after| && before == after[..|before|]
    ensures Displays(markers, before[if |before| < 512 then 0 else |before| - 512..], after[|before|..], Shown(markers, state, snap))
  {
    assert before[if |before| < 512 then 0 else |before| - 512..] == LastPart(before);
    if Taken(state, snap) != [] {
      EmittedDisplays(markers, LastPart(before), after[|before|..]);
    }
  }

  // ---------------------------------------------------------------- no marker is lost between polls

  predicate NoNewline(text: Text) { forall i :: 0 <= i < |text| ==> text[i] != NEWLINE }

  lemma {:induction false} StripLeftCuts(text: Text) returns (a: nat)
    ensures a <= |text| && StripLeft(text) == text[a..] && forall i :: 0 <= i < a ==> text[i] == NEWLINE
  {
    a := 0;
    if text != [] && text[0] == NEWLINE {
      var b := StripLeftCuts(text[1..]);
      a := b + 1;
    }
  }

  lemma {:induction false} StripRightCuts(text: Text) returns (b: nat)
    ensures b <= |text| && StripRight(text) == text[..b] && forall i :: b <= i < |text| ==> text[i] == NEWLINE
    decreases |text|
  {
    b := |text|;
    if text != [] && text[|text| - 1] == NEWLINE {
      b := StripRightCuts(text[..|text| - 1]);
    }
  }

  lemma StripCuts(text: Text) returns (a: nat, b: nat)
    ensures a <= b <= |text| && Strip(text) == text[a..b]
    ensures forall i :: 0 <= i < |text| && !(a <= i < b) ==> text[i] == NEWLINE
  {
    a := StripLeftCuts(text);
    var c := StripRightCuts(text[a..]);
    b := a + c;
    assert forall i :: b <= i < |text| ==> text[i] == text[a..][i - a];
  }

  /** The poll that decodes a marker's last character shows the whole marker to the classifier. */
  lemma MarkerInContextAndText(stream: Text, decoded: Text, marker: Text, p: nat)
    requires 1 <= |marker| <= CONTEXT + 1 && NoNewline(marker)
    requires At(stream + decoded, marker, p) && p + |marker| > |stream|
    ensures Strip(decoded) != [] && Contains(LastPart(stream) + Strip(decoded), marker)
  {
    var whole := stream + decoded;
    forall i | p <= i < p + |marker| ensures whole[i] != NEWLINE {
      assert whole[i] == whole[p..p + |marker|][i - p] == marker[i - p];
    }
    var a, b := StripCuts(decoded);
    var last := p + |marker| - 1 - |stream|;
    assert whole[p + |marker| - 1] == decoded[last];
    assert a <= last < b;
    var context := LastPart(stream);
    var classified := context + decoded[a..b];
    var at := |context| + p - |stream| - (if p >= |stream| then a else 0);
    if p < |stream| {
      assert whole[|stream|] == decoded[0];
      assert a == 0;
    } else {
      assert whole[p] == decoded[p - |stream|];
      assert a <= p - |stream|;
    }
    forall i | 0 <= i < |marker| ensures classified[at + i] == marker[i] {
      assert marker[i] == whole[p + i];
    }
    assert At(classified, marker, at);
  }

  /** The text decoded in the first `n` polls. */
  ghost function Stream(tail: Tail, snaps: seq<Snapshot>): Text { Decode(Consumed(tail, snaps)).text }

  ghost predicate SeenAt(markers: seq<Text>, tail: Tail, snaps: seq<Snapshot>, marker: Text, end: nat, k: int) {
    && 0 <= k < |snaps|
    && |Stream(tail, snaps[..k])| < end <= |Stream(tail, snaps[..k + 1])|
    && var shown := Shown(markers, After(tail, snaps[..k]), snaps[k]);
    && shown.Some? && Contains(shown.value.classified, marker)
    && (marker in markers ==> shown.value.critical)
  }

  /** The decoder continues the stream that all earlier polls have decoded. */
  lemma StreamGrows(tail: Tail, snaps: seq<Snapshot>, identity: Identity, content: seq<Byte>)
    requires Growing(snaps, identity, content) && Primed(tail, snaps) && tail.offset <= |content| && snaps != []
    ensures var front, snap := snaps[..|snaps| - 1], snaps[|snaps| - 1];
            var before, data := After(tail, front), Taken(After(tail, front), snap);
            && before.context == LastPart(Stream(tail, front))
            && (data == [] ==> Stream(tail, snaps) == Stream(tail, front))
            && (data != [] ==>
                  && Positioned(before, snap).context == before.context
                  && Stream(tail, snaps) == Stream(tail, front) + Decode(Positioned(before, snap).decoder.value + data).text)
  {
    var front, snap := snaps[..|snaps| - 1], snaps[|snaps| - 1];
    EveryByteOnce(tail, front, identity, content);
    if snap.File? {
      GrowingPrefix(snaps, identity, content, |front|);
      EveryByteOnce(tail, front, identity, snap.content);
    }
    var data := Taken(After(tail, front), snap);
    DecodeInPieces(Consumed(tail, front), data);
    if data == [] { assert Consumed(tail, snaps) == Consumed(tail, front); }
  }

  lemma LastPollShows(markers: seq<Text>, tail: Tail, snaps: seq<Snapshot>, identity: Identity, content: seq<Byte>,
                      marker: Text, p: nat)
    requires Growing(snaps, identity, content) && Primed(tail, snaps) && tail.offset <= |content| && snaps != []
    requires 1 <= |marker| <= CONTEXT + 1 && NoNewline(marker)
    requires At(Stream(tail, snaps), marker, p) && p + |marker| > |Stream(tail, snaps[..|snaps| - 1])|
    ensures SeenAt(markers, tail, snaps, marker, p + |marker|, |snaps| - 1)
  {
    var front, snap := snaps[..|snaps| - 1], snaps[|snaps| - 1];
    StreamGrows(tail, snaps, identity, content);
    assert snaps[..|snaps|] == snaps;
    var before, data := After(tail, front), Taken(After(tail, front), snap);
    MarkerInContextAndText(Stream(tail, front), Decode(Positioned(before, snap).decoder.value + data).text, marker, p);
  }

  lemma SeenEarlier(markers: seq<Text>, tail: Tail, snaps: seq<Snapshot>, marker: Text, end: nat, k: int)
    requires snaps != [] && SeenAt(markers, tail, snaps[..|snaps| - 1], marker, end, k)
    ensures SeenAt(markers, tail, snaps, marker, end, k)
  {
    var front := snaps[..|snaps| - 1];
    assert front[..k] == snaps[..k] && front[..k + 1] == snaps[..k + 1];
  }

  /**
   Every newline-free marker of at most 513 characters anywhere in the decoded stream is classified
   whole, in the very poll that decodes its last character, however the file grew and was cut.
   */
  lemma {:induction false} NoMarkerIsLost(markers: seq<Text>, tail: Tail, snaps: seq<Snapshot>, identity: Identity,
                                          content: seq<Byte>, marker: Text, p: nat) returns (k: nat)
    requires Growing(snaps, identity, content) && Primed(tail, snaps) && tail.offset <= |content|
    requires 1 <= |marker| <= CONTEXT + 1 && NoNewline(marker)
    requires At(Stream(tail, snaps), marker, p)
    ensures SeenAt(markers, tail, snaps, marker, p + |marker|, k)
    decreases |snaps|
  {
    NothingBeforeThePolls(tail, snaps, marker, p);
    var front := snaps[..|snaps| - 1];
    if p + |marker| > |Stream(tail, front)| {
      LastPollShows(markers, tail, snaps, identity, content, marker, p);
      k := |snaps| - 1;
    } else {
      MarkerInFront(tail, snaps, identity, content, marker, p);
      k := NoMarkerIsLost(markers, tail, front, identity, content, marker, p);
      SeenEarlier(markers, tail, snaps, marker, p + |marker|, k);
    }
  }

  /** From the last restart on every byte is consumed once, from the start of the file. */
  lemma EveryByteSinceTheRestart(tail: Tail, pre: seq<Snapshot>, since: seq<Snapshot>, identity: Identity, content: seq<Byte>)
    requires since != [] && since[0].File? && Restarts(After(tail, pre), since[0])
    requires Growing(since, identity, content)
    ensures InStep(0, After(tail, pre + since), identity, content)
    ensures Consumed(tail, pre + since) == Consumed(tail, pre) + content[..After(tail, pre + since).offset]
  {
    RestartForgetsThePast(tail, pre, since);
    EveryByteOnce(UNSEEN, since, identity, content);
    var offset := After(tail, pre + since).offset;
    assert content[0..offset] == content[..offset];
  }

  /** And every marker in the new file is classified whole in the poll that decodes its last character. */
  lemma NoMarkerIsLostSinceTheRestart(markers: seq<Text>, tail: Tail, pre: seq<Snapshot>, since: seq<Snapshot>,
                                      identity: Identity, content: seq<Byte>, marker: Text, p: nat) returns (k: nat)
    requires since != [] && since[0].File? && Restarts(After(tail, pre), since[0])
    requires Growing(since, identity, content)
    requires 1 <= |marker| <= CONTEXT + 1 && NoNewline(marker) && At(Stream(UNSEEN, since), marker, p)
    ensures k < |since| && |Stream(UNSEEN, since[..k])| < p + |marker| <= |Stream(UNSEEN, since[..k + 1])|
    ensures var shown := Shown(markers, After(tail, pre + since[..k]), since[k]);
            shown.Some? && Contains(shown.value.classified, marker) && (marker in markers ==> shown.value.critical)
  {
    k := NoMarkerIsLost(markers, UNSEEN, since, identity, content, marker, p);
    RestartShowsNothingOld(markers, tail, pre, since, k);
  }

  lemma NothingBeforeThePolls(tail: Tail, snaps: seq<Snapshot>, marker: Text, p: nat)
    requires |marker| > 0 && At(Stream(tail, snaps), marker, p)
    ensures snaps != []
  {
  }

  lemma MarkerInFront(tail: Tail, snaps: seq<Snapshot>, identity: Identity, content: seq<Byte>, marker: Text, p: nat)
    requires Growing(snaps, identity, content) && Primed(tail, snaps) && tail.offset <= |content| && snaps != []
    requires At(Stream(tail, snaps), marker, p) && p + |marker| <= |Stream(tail, snaps[..|snaps| - 1])|
    ensures Growing(snaps[..|snaps| - 1], identity, content) && Primed(tail, snaps[..|snaps| - 1])
    ensures At(Stream(tail, snaps[..|snaps| - 1]), marker, p)
  {
    StreamGrows(tail, snaps, identity, content);
    var front := Stream(tail, snaps[..|snaps| - 1]);
    assert Stream(tail, snaps)[..|front|] == front;
    assert Stream(tail, snaps)[p..p + |marker|] == front[p..p + |marker|];
  }

  /** A marker that is classified was in the stream, unless stripping joined the context to a later line. */
  lemma ClassifiedMarkerIsReal(stream: Text, decoded: Text, marker: Text)
    requires stream == [] || decoded == [] || decoded[0] != NEWLINE
    requires Contains(LastPart(stream) + Strip(decoded), marker)
    ensures Contains(stream + decoded, marker)
  {
    var a, b := StripCuts(decoded);
    var context, whole := LastPart(stream), stream + decoded;
    var classified := context + decoded[a..b];
    var shift := |stream| - |context| + (if stream == [] then a else 0);
    StrippedInPlace(stream, decoded, a, b);
    PartOfPart(whole, shift, classified, marker);
  }

  lemma StrippedInPlace(stream: Text, decoded: Text, a: nat, b: nat)
    requires a <= b <= |decoded| && (stream != [] && a < b ==> a == 0)
    ensures var classified, whole := LastPart(stream) + decoded[a..b], stream + decoded;
            var shift := |stream| - |LastPart(stream)| + (if stream == [] then a else 0);
            shift + |classified| <= |whole| && classified == whole[shift..shift + |classified|]
  {
    var context, whole := LastPart(stream), stream + decoded;
    var classified, shift := context + decoded[a..b], |stream| - |context| + (if stream == [] then a else 0);
    forall k | 0 <= k < |classified| ensures classified[k] == whole[shift + k] {
      if k < |context| { assert whole[shift + k] == stream[shift + k]; }
    }
  }

  lemma PartOfPart(whole: Text, shift: nat, part: Text, marker: Text)
    requires shift + |part| <= |whole| && part == whole[shift..shift + |part|] && Contains(part, marker)
    ensures Contains(whole, marker)
  {
    var i :| 0 <= i <= |part| && At(part, marker, i);
    forall j | 0 <= j < |marker| ensures whole[shift + i + j] == marker[j] {
      assert part[i + j] == part[i..i + |marker|][j];
    }
    assert whole[shift + i..shift + i + |marker|] == marker;
    assert At(whole, marker, shift + i);
  }

  // ---------------------------------------------------------------- exactly when classified markers are real

  /** What follows the last newline, and what precedes the first. */
  function LastLine(text: Text): Text {
    if text == [] || text[|text| - 1] == NEWLINE then [] else LastLine(text[..|text| - 1]) + [text[|text| - 1]]
  }

  function FirstLine(text: Text): Text {
    if text == [] || text[0] == NEWLINE then [] else [text[0]] + FirstLine(text[1..])
  }

  lemma {:induction false} LastLineCuts(text: Text) returns (a: nat)
    ensures a <= |text| && LastLine(text) == text[a..] && NoNewline(LastLine(text))
    ensures a > 0 ==> text[a - 1] == NEWLINE
    decreases |text|
  {
    a := |text|;
    if text != [] && text[|text| - 1] != NEWLINE {
      a := LastLineCuts(text[..|text| - 1]);
    }
  }

  lemma {:induction false} FirstLineCuts(text: Text) returns (b: nat)
    ensures b <= |text| && FirstLine(text) == text[..b] && NoNewline(FirstLine(text))
    ensures b < |text| ==> text[b] == NEWLINE
  {
    b := 0;
    if text != [] && text[0] != NEWLINE {
      var c := FirstLineCuts(text[1..]);
      b := c + 1;
    }
  }

  /** The one line of the classified text that need not be a line of the stream. */
  function Seam(stream: Text, decoded: Text): Text {
    LastLine(LastPart(stream)) + FirstLine(Strip(decoded))
  }

  /** No marker without a newline is classified that the stream does not hold. */
  ghost predicate OnlyRealMarkers(stream: Text, decoded: Text) {
    forall m | NoNewline(m) && Contains(LastPart(stream) + Strip(decoded), m) :: Contains(stream + decoded, m)
  }

  /** Nothing is joined: nothing to join, no newline stripped between the two, or the stream ended its line. */
  predicate NothingJoined(stream: Text, decoded: Text) {
    || stream == [] || Strip(decoded) == []
    || decoded[0] != NEWLINE || stream[|stream| - 1] == NEWLINE
  }

  lemma ContainsAt(whole: Text, part: Text, i: nat)
    requires i + |part| <= |whole| && forall k :: 0 <= k < |part| ==> whole[i + k] == part[k]
    ensures Contains(whole, part)
  {
    assert whole[i..i + |part|] == part;
    assert At(whole, part, i);
  }

  /** A marker without a newline that starts in one text and ends in the next lies in the line they form. */
  lemma CrossingMarker(context: Text, text: Text, m: Text, i: nat)
    requires NoNewline(m) && i < |context| < i + |m| <= |context + text|
    requires forall k :: 0 <= k < |m| ==> (context + text)[i + k] == m[k]
    ensures LastLine(context) != [] && FirstLine(text) != []
    ensures Contains(LastLine(context) + FirstLine(text), m)
  {
    var a := LastLineCuts(context);
    var b := FirstLineCuts(text);
    StaysInLine(context, text, m, i, a, b);
    InLine(context, text, m, i, a, b);
  }

  lemma StaysInLine(context: Text, text: Text, m: Text, i: nat, a: nat, b: nat)
    requires NoNewline(m) && i < |context| < i + |m| <= |context + text| && a <= |context| && b <= |text|
    requires forall k :: 0 <= k < |m| ==> (context + text)[i + k] == m[k]
    requires (a > 0 ==> context[a - 1] == NEWLINE) && (b < |text| ==> text[b] == NEWLINE)
    ensures a <= i && i + |m| <= |context| + b
  {
    var both := context + text;
    forall k | i <= k < i + |m| ensures both[k] != NEWLINE {
      assert both[i + (k - i)] == m[k - i];
    }
    assert a > 0 ==> both[a - 1] == NEWLINE;
    assert b < |text| ==> both[|context| + b] == NEWLINE;
  }

  lemma InLine(context: Text, text: Text, m: Text, i: nat, a: nat, b: nat)
    requires a <= i < |context| < i + |m| <= |context| + b && b <= |text|
    requires forall k :: 0 <= k < |m| ==> (context + text)[i + k] == m[k]
    ensures Contains(context[a..] + text[..b], m)
  {
    var line := context[a..] + text[..b];
    forall k | 0 <= k < |m| ensures line[i - a + k] == m[k] {
      assert (context + text)[i + k] == m[k];
    }
    ContainsAt(line, m, i - a);
  }

  /** A marker without a newline lies in one of two adjoining texts, or in the line that they form. */
  lemma MarkerPlace(context: Text, text: Text, m: Text)
    requires NoNewline(m) && Contains(context + text, m)
    ensures || Contains(context, m) || Contains(text, m)
            || (LastLine(context) != [] && FirstLine(text) != [] && Contains(LastLine(context) + FirstLine(text), m))
  {
    var both := context + text;
    var i :| 0 <= i <= |both| && At(both, m, i);
    assert forall k :: 0 <= k < |m| ==> both[i + k] == both[i..i + |m|][k] == m[k];
    if i + |m| <= |context| {
      ContainsAt(context, m, i);
    } else if i >= |context| {
      ContainsAt(text, m, i - |context|);
    } else {
      CrossingMarker(context, text, m, i);
    }
  }

  lemma PartsAreReal(stream: Text, decoded: Text, m: Text)
    requires Contains(LastPart(stream), m) || Contains(Strip(decoded), m)
    ensures Contains(stream + decoded, m)
  {
    var whole, context := stream + decoded, LastPart(stream);
    if Contains(context, m) {
      assert context == whole[|stream| - |context|..|stream| - |context| + |context|];
      PartOfPart(whole, |stream| - |context|, context, m);
    } else {
      var a, b := StripCuts(decoded);
      assert Strip(decoded) == whole[|stream| + a..|stream| + a + (b - a)];
      PartOfPart(whole, |stream| + a, Strip(decoded), m);
    }
  }

  /** The joined line is classified, and is neither empty nor broken when something was joined. */
  lemma SeamIsClassified(stream: Text, decoded: Text)
    ensures NoNewline(Seam(stream, decoded)) && Contains(LastPart(stream) + Strip(decoded), Seam(stream, decoded))
  {
    var context, text := LastPart(stream), Strip(decoded);
    var a := LastLineCuts(context);
    var b := FirstLineCuts(text);
    ContainsAt(context + text, Seam(stream, decoded), a);
  }

  lemma JoinedSeamSpans(stream: Text, decoded: Text)
    requires stream == [] || Strip(decoded) == [] || stream[|stream| - 1] == NEWLINE
    ensures LastLine(LastPart(stream)) == [] || FirstLine(Strip(decoded)) == []
  {
  }

  /**
   For every stream and every chunk: only markers that the stream holds are classified, exactly when
   nothing was joined or the stream holds the joined line as well.
   */
  lemma ClassifiedMarkersAreRealExactly(stream: Text, decoded: Text)
    ensures OnlyRealMarkers(stream, decoded) <==>
            NothingJoined(stream, decoded) || Contains(stream + decoded, Seam(stream, decoded))
  {
    var context, text, seam := LastPart(stream), Strip(decoded), Seam(stream, decoded);
    SeamIsClassified(stream, decoded);
    if NothingJoined(stream, decoded) || Contains(stream + decoded, seam) {
      forall m | NoNewline(m) && Contains(context + text, m) ensures Contains(stream + decoded, m) {
        if stream == [] || text == [] || stream[|stream| - 1] == NEWLINE || decoded[0] == NEWLINE {
          MarkerPlace(context, text, m);
          if Contains(context, m) || Contains(text, m) {
            PartsAreReal(stream, decoded, m);
          } else {
            if stream == [] || text == [] || stream[|stream| - 1] == NEWLINE {
              JoinedSeamSpans(stream, decoded);
              assert false;
            }
            SeamHolds(stream + decoded, seam, m);
          }
        } else {
          ClassifiedMarkerIsReal(stream, decoded, m);
        }
      }
    }
  }

  lemma SeamHolds(whole: Text, seam: Text, m: Text)
    requires Contains(whole, seam) && Contains(seam, m)
    ensures Contains(whole, m)
  {
    var i :| 0 <= i <= |whole| && At(whole, seam, i);
    PartOfPart(whole, i, seam, m);
  }

  /** Such a join exists: "FATA", then a chunk that starts with a newline and "L", is classified as FATAL. */
  lemma StrippingCanJoin()
    ensures var stream: Text, decoded: Text, marker: Text := [70, 65, 84, 65], [10, 76], [70, 65, 84, 65, 76];
            Contains(LastPart(stream) + Strip(decoded), marker) && !Contains(stream + decoded, marker)
  {
    var stream: Text, decoded: Text, marker: Text := [70, 65, 84, 65], [10, 76], [70, 65, 84, 65, 76];
    assert decoded[1..] == [76];
    assert StripLeft(decoded) == StripLeft(decoded[1..]) == [76];
    assert Strip(decoded) == [76];
    assert At(LastPart(stream) + Strip(decoded), marker, 0);
    forall i | 0 <= i <= 6 ensures !At(stream + decoded, marker, i) {
      assert i <= 1 ==> (stream + decoded)[i..i + 5][4 - i] == 10;
    }
  }
}
