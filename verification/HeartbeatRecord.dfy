/**
 The 32-byte heartbeat record: written by frz/angerona_watchdog.go, read and authenticated by
 frz/frz_watchdog.go.  HMAC-SHA-256 and SHA-256 are uninterpreted functions that return 32 bytes.
 */
module HeartbeatRecord {
  import opened Wrappers

  type U32 = x: int | 0 <= x < 0x1_0000_0000
  type U64 = x: int | 0 <= x < 0x1_0000_0000_0000_0000
  type Digest = d: seq<Byte> | |d| == 32 witness seq(32, _ => 0)
  type Key = seq<Byte>

  const MAGIC: U32 := 0x4157_4447
  const FLAG_RUNNING: U32 := 1
  const FLAG_V2_AUTH: U32 := 0x8000_0000
  const RECORD_SIZE := 32
  /** The component name "frz-core" and the text before it in the key derivation, as ASCII bytes. */
  const COMPONENT: seq<Byte> := [102, 114, 122, 45, 99, 111, 114, 101]
  const AUTH_CONTEXT: seq<Byte> :=
    [97, 110, 103, 101, 114, 111, 110, 97, 45, 114, 101, 115, 105, 108, 105, 101, 110, 99, 101, 45,
     104, 101, 97, 114, 116, 98, 101, 97, 116, 45, 118, 50, 0]

  datatype Record = Record(magic: U32, tsNs: U64, pid: U32, proof: U64, counter: U32, flags: U32)

  // ---------------------------------------------------------------- little-endian words

  function Bound(n: nat): nat { if n == 0 then 1 else 0x100 * Bound(n - 1) }

  /** The `n` bytes of `x`, least significant first. */
  function Little(n: nat, x: nat): (bytes: seq<Byte>)
    ensures |bytes| == n
  {
    if n == 0 then [] else [x % 0x100] + Little(n - 1, x / 0x100)
  }

  function FromLittle(bytes: seq<Byte>): nat {
    if bytes == [] then 0 else bytes[0] + 0x100 * FromLittle(bytes[1..])
  }

  /** The first byte is the lowest, and each following one counts 256 times as much. */
  lemma LittleFour(a: Byte, b: Byte, c: Byte, d: Byte)
    ensures Little(4, a + 0x100 * b + 0x1_0000 * c + 0x100_0000 * d) == [a, b, c, d]
  {
    Digits(a, b + 0x100 * c + 0x1_0000 * d);
    Digits(b, c + 0x100 * d);
    Digits(c, d);
    Digits(d, 0);
    assert Little(1, d) == [d] && Little(2, c + 0x100 * d) == [c] + Little(1, d);
    assert Little(3, b + 0x100 * (c + 0x100 * d)) == [b] + Little(2, c + 0x100 * d);
  }

  lemma {:induction false} LittleThenBack(n: nat, x: nat)
    requires x < Bound(n)
    ensures FromLittle(Little(n, x)) == x
  {
    if n > 0 {
      LittleThenBack(n - 1, x / 0x100);
      assert Little(n, x)[1..] == Little(n - 1, x / 0x100);
    }
  }

  lemma Digits(b: Byte, rest: nat)
    ensures (b + 0x100 * rest) % 0x100 == b && (b + 0x100 * rest) / 0x100 == rest
  {
  }

  lemma {:induction false} BackThenLittle(bytes: seq<Byte>)
    ensures FromLittle(bytes) < Bound(|bytes|)
    ensures Little(|bytes|, FromLittle(bytes)) == bytes
  {
    if bytes != [] {
      BackThenLittle(bytes[1..]);
      Digits(bytes[0], FromLittle(bytes[1..]));
      assert bytes == [bytes[0]] + bytes[1..];
    }
  }

  lemma WordBounds()
    ensures Bound(4) == 0x1_0000_0000 && Bound(8) == 0x1_0000_0000_0000_0000
  {
    assert Bound(2) == 0x1_0000;
    assert Bound(4) == 0x1_0000_0000;
    assert Bound(6) == 0x1_0000_0000_0000;
  }

  /** One PutUint32 or PutUint64 into a buffer. */
  method Put(buffer: array<Byte>, at: nat, n: nat, x: nat)
    requires at + n <= buffer.Length
    modifies buffer
    ensures buffer[..] == old(buffer[..at]) + Little(n, x) + old(buffer[at + n..])
  {
    var rest := x;
    for i := 0 to n
      invariant buffer[..at] == old(buffer[..at]) && buffer[at + i..] == old(buffer[at + i..])
      invariant buffer[at..at + i] + Little(n - i, rest) == Little(n, x)
    {
      assert Little(n - i, rest) == [rest % 0x100] + Little(n - i - 1, rest / 0x100);
      buffer[at + i] := rest % 0x100;
      assert buffer[at..at + i + 1] == buffer[at..at + i] + [rest % 0x100];
      rest := rest / 0x100;
    }
    assert buffer[..] == buffer[..at] + buffer[at..at + n] + buffer[at + n..];
  }

  // ---------------------------------------------------------------- the record on the wire

  function Encode(r: Record): (bytes: seq<Byte>)
    ensures |bytes| == RECORD_SIZE
  {
    Little(4, r.magic) + Little(8, r.tsNs) + Little(4, r.pid) + Little(8, r.proof) + Little(4, r.counter) + Little(4, r.flags)
  }

  /** The reader: fixed slices of the mapped region. */
  function Decode(bytes: seq<Byte>): Record
    requires |bytes| == RECORD_SIZE
  {
    BackThenLittle(bytes[0..4]); BackThenLittle(bytes[4..12]); BackThenLittle(bytes[12..16]);
    BackThenLittle(bytes[16..24]); BackThenLittle(bytes[24..28]); BackThenLittle(bytes[28..32]);
    WordBounds();
    Record(FromLittle(bytes[0..4]), FromLittle(bytes[4..12]), FromLittle(bytes[12..16]),
           FromLittle(bytes[16..24]), FromLittle(bytes[24..28]), FromLittle(bytes[28..32]))
  }

  lemma LastField(front: seq<Byte>, last: seq<Byte>)
    ensures (front + last)[|front|..|front| + |last|] == last
  {
  }

  lemma RecordFields(r: Record)
    ensures var b := Encode(r);
            && b[0..4] == Little(4, r.magic) && b[4..12] == Little(8, r.tsNs) && b[12..16] == Little(4, r.pid)
            && b[16..24] == Little(8, r.proof) && b[24..28] == Little(4, r.counter) && b[28..32] == Little(4, r.flags)
  {
    var b := Encode(r);
    LastField(b[..28], Little(4, r.flags));
    assert b == b[..28] + Little(4, r.flags);
  }

  lemma ReaderInvertsWriter(r: Record)
    ensures Decode(Encode(r)) == r
  {
    WordBounds();
    RecordFields(r);
    LittleThenBack(4, r.magic); LittleThenBack(8, r.tsNs); LittleThenBack(4, r.pid);
    LittleThenBack(8, r.proof); LittleThenBack(4, r.counter); LittleThenBack(4, r.flags);
  }

  /** No byte of the region is lost: the layout has neither gap nor overlap. */
  lemma WriterInvertsReader(bytes: seq<Byte>)
    requires |bytes| == RECORD_SIZE
    ensures Encode(Decode(bytes)) == bytes
  {
    BackThenLittle(bytes[0..4]); BackThenLittle(bytes[4..12]); BackThenLittle(bytes[12..16]);
    BackThenLittle(bytes[16..24]); BackThenLittle(bytes[24..28]); BackThenLittle(bytes[28..32]);
    assert bytes == bytes[0..4] + bytes[4..12] + bytes[12..16] + bytes[16..24] + bytes[24..28] + bytes[28..32];
  }

  // ---------------------------------------------------------------- the older writer

  /** What writeWatchdogBeat puts in the file: the token proof, and the bare running flag. */
  function WatchdogBeat(sha256: seq<Byte> -> Digest, token: seq<Byte>, now: U64, pid: U32, counter: U32): Record {
    var sum: seq<Byte> := sha256(token + Little(4, counter));
    BackThenLittle(sum[..8]);
    WordBounds();
    Record(MAGIC, now, pid, FromLittle(sum[..8]), counter, FLAG_RUNNING)
  }

  /** The bytes of such a beat, place by place. */
  lemma BeatBytes(sha256: seq<Byte> -> Digest, token: seq<Byte>, now: U64, pid: U32, counter: U32)
    ensures var b := Encode(WatchdogBeat(sha256, token, now, pid, counter));
            && b[..4] == [0x47, 0x44, 0x57, 0x41] && b[4..12] == Little(8, now) && b[12..16] == Little(4, pid)
            && b[16..24] == sha256(token + Little(4, counter))[..8]
            && b[24..28] == Little(4, counter) && b[28..] == [1, 0, 0, 0]
  {
    LittleFour(0x47, 0x44, 0x57, 0x41);
    LittleFour(1, 0, 0, 0);
    BackThenLittle(sha256(token + Little(4, counter))[..8]);
    RecordFields(WatchdogBeat(sha256, token, now, pid, counter));
  }

  method WriteWatchdogBeat(sha256: seq<Byte> -> Digest, token: seq<Byte>, now: U64, pid: U32, counter: U32)
    returns (buffer: array<Byte>)
    ensures fresh(buffer) && buffer[..] == Encode(WatchdogBeat(sha256, token, now, pid, counter))
  {
    var beat := WatchdogBeat(sha256, token, now, pid, counter);
    buffer := new Byte[RECORD_SIZE];
    Put(buffer, 0, 4, beat.magic);
    Put(buffer, 4, 8, beat.tsNs);
    assert buffer[..12] == Little(4, beat.magic) + Little(8, beat.tsNs);
    Put(buffer, 12, 4, beat.pid);
    Put(buffer, 16, 8, beat.proof);
    assert buffer[..24] == Little(4, beat.magic) + Little(8, beat.tsNs) + Little(4, beat.pid) + Little(8, beat.proof);
    Put(buffer, 24, 4, beat.counter);
    Put(buffer, 28, 4, beat.flags);
    assert buffer[..] == Encode(beat);
    BeatBytes(sha256, token, now, pid, counter);
  }

  // ---------------------------------------------------------------- authentication

  /** The authenticated fields, behind the length-prefixed component name. */
  function Payload(r: Record): (bytes: seq<Byte>)
    ensures |bytes| == 2 + |COMPONENT| + 8 + 4 + 4 + 4
  {
    Little(2, |COMPONENT|) + COMPONENT + Little(8, r.tsNs) + Little(4, r.pid) + Little(4, r.counter) + Little(4, r.flags)
  }

  /** Some bit other than bit 0 (running) and bit 31 (authenticated) is set. */
  predicate HasUnknownFlag(flags: U32) { flags / 2 % 0x4000_0000 != 0 }

  predicate HasAuthFlag(flags: U32) { flags / 0x8000_0000 % 2 == 1 }

  predicate Running(r: Record) { r.flags % 2 == 1 }

  predicate ProofMatches(hmac: (Key, seq<Byte>) -> Digest, authority: Key, r: Record) {
    Little(8, r.proof) == hmac(hmac(authority, AUTH_CONTEXT + COMPONENT), Payload(r))[..8]
  }

  ghost predicate Authentic(hmac: (Key, seq<Byte>) -> Digest, authority: Key, targetPid: U32, r: Record) {
    && r.magic == MAGIC && r.pid == targetPid
    && (r.flags == FLAG_V2_AUTH || r.flags == FLAG_V2_AUTH + FLAG_RUNNING)
    && ProofMatches(hmac, authority, r)
  }

  method FillPayload(r: Record) returns (payload: array<Byte>)
    ensures fresh(payload) && payload[..] == Payload(r)
  {
    payload := new Byte[2 + |COMPONENT| + 8 + 4 + 4 + 4](_ => 0);
    Put(payload, 0, 2, |COMPONENT|);
    forall i | 0 <= i < |COMPONENT| { payload[2 + i] := COMPONENT[i]; }
    var offset := 2 + |COMPONENT|;
    assert payload[..offset] == Little(2, |COMPONENT|) + COMPONENT;
    Put(payload, offset, 8, r.tsNs);
    offset := offset + 8;
    assert payload[..offset] == Little(2, |COMPONENT|) + COMPONENT + Little(8, r.tsNs);
    Put(payload, offset, 4, r.pid);
    offset := offset + 4;
    assert payload[..offset] == Little(2, |COMPONENT|) + COMPONENT + Little(8, r.tsNs) + Little(4, r.pid);
    Put(payload, offset, 4, r.counter);
    offset := offset + 4;
    Put(payload, offset, 4, r.flags);
    assert payload[..] == Payload(r);
  }

  /** Of the four guards, the two on flags leave exactly two values. */
  method AuthenticateRecord(hmac: (Key, seq<Byte>) -> Digest, authority: Key, targetPid: U32, r: Record)
    returns (accepted: bool)
    ensures accepted <==> Authentic(hmac, authority, targetPid, r)
  {
    if r.magic != MAGIC || r.pid != targetPid || !HasAuthFlag(r.flags) { return false; }
    if HasUnknownFlag(r.flags) { return false; }
    var payload := FillPayload(r);
    var expected: seq<Byte> := hmac(hmac(authority, AUTH_CONTEXT + COMPONENT), payload[..]);
    accepted := Little(8, r.proof) == expected[..8];
  }

  lemma PayloadFields(r: Record)
    ensures Payload(r)[..2] == [8, 0] && Payload(r)[2..10] == COMPONENT
    ensures Payload(r)[10..18] == Little(8, r.tsNs) && Payload(r)[18..22] == Little(4, r.pid)
    ensures Payload(r)[22..26] == Little(4, r.counter) && Payload(r)[26..30] == Little(4, r.flags)
  {
    var head := Little(2, |COMPONENT|) + COMPONENT;
    var ts, pid, counter, flags := Little(8, r.tsNs), Little(4, r.pid), Little(4, r.counter), Little(4, r.flags);
    assert |head| == 10 && Little(2, 8) == [8] + Little(1, 0);
    assert (head + ts + pid + counter + flags)[26..30] == flags;
  }

  lemma PayloadIsInjective(r: Record, s: Record)
    requires Payload(r) == Payload(s)
    ensures (r.tsNs, r.pid, r.counter, r.flags) == (s.tsNs, s.pid, s.counter, s.flags)
  {
    WordBounds();
    PayloadFields(r);
    PayloadFields(s);
    LittleThenBack(8, r.tsNs); LittleThenBack(8, s.tsNs);
    LittleThenBack(4, r.pid); LittleThenBack(4, s.pid);
    LittleThenBack(4, r.counter); LittleThenBack(4, s.counter);
    LittleThenBack(4, r.flags); LittleThenBack(4, s.flags);
  }

  /** Two accepted records that claim the same payload are the same 32 bytes. */
  lemma AcceptedRecordIsUnique(hmac: (Key, seq<Byte>) -> Digest, authority: Key, pid: U32, r: Record, s: Record)
    requires Authentic(hmac, authority, pid, r) && Authentic(hmac, authority, pid, s)
    ensures Payload(r) == Payload(s) <==> r == s
  {
    if Payload(r) == Payload(s) {
      PayloadIsInjective(r, s);
      WordBounds();
      LittleThenBack(8, r.proof);
      LittleThenBack(8, s.proof);
    }
  }

  /** Whatever the digests are, a beat of the older writer reaches the reader intact and is refused. */
  lemma OlderWriterIsRefused(sha256: seq<Byte> -> Digest, hmac: (Key, seq<Byte>) -> Digest, authority: Key,
                             token: seq<Byte>, now: U64, pid: U32, counter: U32, targetPid: U32)
    ensures Decode(Encode(WatchdogBeat(sha256, token, now, pid, counter))) == WatchdogBeat(sha256, token, now, pid, counter)
    ensures !Authentic(hmac, authority, targetPid, Decode(Encode(WatchdogBeat(sha256, token, now, pid, counter))))
  {
    ReaderInvertsWriter(WatchdogBeat(sha256, token, now, pid, counter));
  }
}
