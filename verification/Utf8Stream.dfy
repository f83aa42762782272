/**
 Incremental UTF-8 decoding with replacement, as the codec that the log tailer keeps for each file:
 the encoding of section 3 of RFC 3629, each maximal ill-formed prefix read as one U+FFFD, and bytes
 that may still become a character carried over to the next chunk.
 */
module Utf8Stream {
  import opened Wrappers

  type CodePoint = c: int | 0 <= c < 0x11_0000
  type Text = seq<CodePoint>

  const REPLACEMENT: CodePoint := 0xFFFD

  /** One decoding step at the front of a non-empty input. */
  datatype Scan = NeedMore | Char(code: CodePoint, width: nat)

  predicate Continues(b: Byte) { 0x80 <= b < 0xC0 }

  /** May `b` follow the lead byte?  Overlong forms, surrogates and values past U+10FFFF are excluded here. */
  predicate Seconds(lead: Byte, b: Byte) {
    && Continues(b)
    && (lead == 0xE0 ==> b >= 0xA0) && (lead == 0xED ==> b < 0xA0)
    && (lead == 0xF0 ==> b >= 0x90) && (lead == 0xF4 ==> b < 0x90)
  }

  /** The value bits so far, and the six bits of one more continuation byte. */
  function Join(high: int, b: int): int { 0x40 * high + b - 0x80 }

  /** The continuation bytes from index `i` on, of a character of `n` bytes; no well-formed value reaches 0x110000. */
  function Follow(s: seq<Byte>, i: nat, n: nat, value: int): (scan: Scan)
    requires 1 <= i <= n && i <= |s| && 0 <= value
    ensures scan.Char? ==> 1 <= scan.width <= |s|
    ensures scan.NeedMore? ==> |s| < n
    decreases n - i
  {
    if i == n then Char(if value < 0x11_0000 then value else REPLACEMENT, n)
    else if i == |s| then NeedMore
    else if !(if i == 1 then Seconds(s[0], s[i]) else Continues(s[i])) then Char(REPLACEMENT, i)
    else Follow(s, i + 1, n, Join(value, s[i]))
  }

  function First(s: seq<Byte>): (scan: Scan)
    requires s != []
    ensures scan.Char? ==> 1 <= scan.width <= |s|
    ensures scan.NeedMore? ==> |s| <= 3
  {
    var b := s[0];
    if b < 0x80 then Char(b, 1)
    else if b < 0xC2 || b >= 0xF5 then Char(REPLACEMENT, 1)
    else if b < 0xE0 then Follow(s, 1, 2, b as int - 0xC0)
    else if b < 0xF0 then Follow(s, 1, 3, b as int - 0xE0)
    else Follow(s, 1, 4, b as int - 0xF0)
  }

  datatype Decoded = Decoded(text: Text, rest: seq<Byte>)

  /** Everything that can be decoded now, and the bytes to carry over. */
  function Decode(s: seq<Byte>): (d: Decoded)
    ensures |d.rest| <= 3
  {
    if s == [] then Decoded([], [])
    else
      match First(s)
      case NeedMore => Decoded([], s)
      case Char(c, w) =>
        var d := Decode(s[w..]);
        Decoded([c] + d.text, d.rest)
  }

  lemma {:induction false} FollowIsStable(s: seq<Byte>, t: seq<Byte>, i: nat, n: nat, value: int)
    requires 1 <= i <= n && i <= |s| && 0 <= value && Follow(s, i, n, value).Char?
    ensures Follow(s + t, i, n, value) == Follow(s, i, n, value)
    decreases n - i
  {
    if i < n && (if i == 1 then Seconds(s[0], s[i]) else Continues(s[i])) {
      FollowIsStable(s, t, i + 1, n, Join(value, s[i]));
    }
  }

  /** Bytes that arrive later never change a character that is already complete. */
  lemma FirstIsStable(s: seq<Byte>, t: seq<Byte>)
    requires s != [] && First(s).Char?
    ensures First(s + t) == First(s)
  {
    var b := s[0];
    if 0xC2 <= b < 0xE0 { FollowIsStable(s, t, 1, 2, b as int - 0xC0); }
    else if 0xE0 <= b < 0xF0 { FollowIsStable(s, t, 1, 3, b as int - 0xE0); }
    else if 0xF0 <= b < 0xF5 { FollowIsStable(s, t, 1, 4, b as int - 0xF0); }
  }

  lemma DecodeOne(s: seq<Byte>)
    requires s != [] && First(s).Char?
    ensures Decode(s).text == [First(s).code] + Decode(s[First(s).width..]).text
    ensures Decode(s).rest == Decode(s[First(s).width..]).rest
  {
  }

  ghost predicate Splits(s: seq<Byte>, t: seq<Byte>) {
    && Decode(s + t).text == Decode(s).text + Decode(Decode(s).rest + t).text
    && Decode(s + t).rest == Decode(Decode(s).rest + t).rest
  }

  lemma Prepend(c: CodePoint, whole: Text, tail: Text, tailWhole: Text, front: Text, back: Text)
    requires front == [c] + tail && whole == [c] + tailWhole && tailWhole == tail + back
    ensures whole == front + back
  {
  }

  lemma OneMoreChar(s: seq<Byte>, t: seq<Byte>)
    requires s != [] && First(s).Char? && Splits(s[First(s).width..], t)
    ensures Splits(s, t)
  {
    var c, tail := First(s).code, s[First(s).width..];
    var whole, tailWhole := Decode(s + t), Decode(tail + t);
    assert whole == Decoded([c] + tailWhole.text, tailWhole.rest) by {
      FirstIsStable(s, t);
      DecodeOne(s + t);
      assert (s + t)[First(s).width..] == tail + t;
    }
    var front, tailFront := Decode(s), Decode(tail);
    assert front == Decoded([c] + tailFront.text, tailFront.rest) by { DecodeOne(s); }
    var back := Decode(tailFront.rest + t);
    Prepend(c, whole.text, tailFront.text, tailWhole.text, front.text, back.text);
  }

  /** Wherever a stream is cut, decoding the pieces with the carried bytes gives the text of the whole. */
  lemma {:induction false} DecodeInPieces(s: seq<Byte>, t: seq<Byte>)
    ensures Decode(s + t).text == Decode(s).text + Decode(Decode(s).rest + t).text
    ensures Decode(s + t).rest == Decode(Decode(s).rest + t).rest
    decreases |s|
  {
    if s == [] {
      assert s + t == t;
    } else if First(s).Char? {
      DecodeInPieces(s[First(s).width..], t);
      OneMoreChar(s, t);
    }
  }

  /** A decoder is fed chunk by chunk. */
  function Feed(buffer: seq<Byte>, chunks: seq<seq<Byte>>): Decoded
    decreases |chunks|
  {
    if chunks == [] then Decoded([], buffer)
    else
      var d := Decode(buffer + chunks[0]);
      var e := Feed(d.rest, chunks[1..]);
      Decoded(d.text + e.text, e.rest)
  }

  function Concat(chunks: seq<seq<Byte>>): seq<Byte> {
    if chunks == [] then [] else chunks[0] + Concat(chunks[1..])
  }

  // ---------------------------------------------------------------- round trip with the encoder of RFC 3629

  predicate Scalar(c: CodePoint) { !(0xD800 <= c < 0xE000) }

  function EncodeChar(c: CodePoint): (bytes: seq<Byte>)
    ensures bytes != []
  {
    if c < 0x80 then [c]
    else if c < 0x800 then [0xC0 + c / 0x40, 0x80 + c % 0x40]
    else if c < 0x1_0000 then [0xE0 + c / 0x1000, 0x80 + c / 0x40 % 0x40, 0x80 + c % 0x40]
    else [0xF0 + c / 0x4_0000, 0x80 + c / 0x1000 % 0x40, 0x80 + c / 0x40 % 0x40, 0x80 + c % 0x40]
  }

  function Encode(text: Text): seq<Byte> {
    if text == [] then [] else EncodeChar(text[0]) + Encode(text[1..])
  }

  /** The value read from `k` continuation bytes after the lead value. */
  function Joined(value: int, tail: seq<Byte>): int
    decreases |tail|
  {
    if tail == [] then value else Joined(Join(value, tail[0]), tail[1..])
  }

  lemma {:induction false} FollowAccepts(s: seq<Byte>, i: nat, n: nat, value: int)
    requires 1 <= i <= n <= |s| && 0 <= value
    requires i < n ==> if i == 1 then Seconds(s[0], s[1]) else Continues(s[i])
    requires forall j :: i < j < n ==> Continues(s[j])
    requires 0 <= Joined(value, s[i..n]) < 0x11_0000
    ensures Follow(s, i, n, value) == Char(Joined(value, s[i..n]), n)
    decreases n - i
  {
    if i < n {
      assert s[i..n][1..] == s[i + 1..n];
      FollowAccepts(s, i + 1, n, Join(value, s[i]));
    }
  }

  lemma FirstOfEncoded(c: CodePoint, t: seq<Byte>)
    requires Scalar(c)
    ensures First(EncodeChar(c) + t) == Char(c, |EncodeChar(c)|)
  {
    var e := EncodeChar(c);
    var s, n := e + t, |e|;
    assert forall i :: 0 <= i < n ==> s[i] == e[i];
    if n > 1 {
      assert s[1..n] == e[1..];
      EncodedValue(c);
      FollowAccepts(s, 1, n, LeadValue(e[0]));
    }
  }

  function LeadValue(b: Byte): int {
    if b < 0xE0 then b as int - 0xC0 else if b < 0xF0 then b as int - 0xE0 else b as int - 0xF0
  }

  lemma EncodedValue(c: CodePoint)
    requires c >= 0x80 && Scalar(c)
    ensures var e := EncodeChar(c);
            Joined(LeadValue(e[0]), e[1..]) == c && LeadValue(e[0]) >= 0 && Seconds(e[0], e[1])
  {
    var e := EncodeChar(c);
    if c < 0x800 {
      assert Joined(Join(c / 0x40, e[1]), e[1..][1..]) == c;
    } else if c < 0x1_0000 {
      ThreeDigits(c);
      assert e[1..][1..][1..] == [];
      assert Joined(Join(Join(c / 0x1000, e[1]), e[2]), []) == c;
      assert Joined(Join(c / 0x1000, e[1]), e[1..][1..]) == c;
    } else {
      ThreeDigits(c / 0x40);
      assert c / 0x40 / 0x1000 == c / 0x4_0000 && c / 0x40 / 0x40 == c / 0x1000;
      assert e[1..][1..][1..][1..] == [];
      assert Joined(Join(Join(Join(c / 0x4_0000, e[1]), e[2]), e[3]), []) == c;
      assert Joined(Join(Join(c / 0x4_0000, e[1]), e[2]), e[1..][1..][1..]) == c;
      assert Joined(Join(c / 0x4_0000, e[1]), e[1..][1..]) == c;
    }
  }

  lemma ThreeDigits(c: int)
    requires c >= 0
    ensures Join(Join(c / 0x1000, 0x80 + c / 0x40 % 0x40), 0x80 + c % 0x40) == c
  {
    assert c / 0x40 / 0x40 == c / 0x1000;
  }

  lemma {:induction false} DecodeInvertsEncode(text: Text)
    requires forall c :: c in text ==> Scalar(c)
    ensures Decode(Encode(text)) == Decoded(text, [])
  {
    if text != [] {
      var c, tail := text[0], Encode(text[1..]);
      FirstOfEncoded(c, tail);
      assert (EncodeChar(c) + tail)[|EncodeChar(c)|..] == tail;
      DecodeInvertsEncode(text[1..]);
    }
  }

  lemma {:induction false} FeedDecodes(buffer: seq<Byte>, chunks: seq<seq<Byte>>)
    requires Decode(buffer) == Decoded([], buffer)
    ensures Feed(buffer, chunks) == Decode(buffer + Concat(chunks))
    decreases |chunks|
  {
    if chunks == [] {
      assert buffer + Concat(chunks) == buffer;
    } else {
      var first, later := buffer + chunks[0], Concat(chunks[1..]);
      RestIsUndecoded(first);
      FeedDecodes(Decode(first).rest, chunks[1..]);
      DecodeInPieces(first, later);
      assert buffer + (chunks[0] + later) == first + later;
      assert Decode(first + later) == Feed(buffer, chunks);
    }
  }

  /** The carried bytes hold no complete character. */
  lemma {:induction false} RestIsUndecoded(s: seq<Byte>)
    ensures Decode(Decode(s).rest) == Decoded([], Decode(s).rest)
    decreases |s|
  {
    if s != [] && First(s).Char? { RestIsUndecoded(s[First(s).width..]); }
  }

  /** Encoded text survives any chunking: no cut inside a character can be seen in the result. */
  lemma ChunkingIsInvisible(text: Text, chunks: seq<seq<Byte>>)
    requires forall c :: c in text ==> Scalar(c)
    requires Concat(chunks) == Encode(text)
    ensures Feed([], chunks) == Decoded(text, [])
  {
    FeedDecodes([], chunks);
    assert [] + Concat(chunks) == Encode(text);
    DecodeInvertsEncode(text);
  }
}
