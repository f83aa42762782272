/**
 Which bytes a UTF-8 decoding step takes, for any input: well-formed sequences are those of section 4 of
 RFC 3629, and of an ill-formed one the longest front that could have become a character is replaced.
 */
module Utf8WellFormed {
  import opened Wrappers
  import opened Utf8Stream

  predicate IsTail(b: Byte) { 0x80 <= b <= 0xBF }

  /** The byte sequences of section 4 of RFC 3629. */
  predicate WellFormed(s: seq<Byte>) {
    match |s|
    case 1 => s[0] <= 0x7F
    case 2 => 0xC2 <= s[0] <= 0xDF && IsTail(s[1])
    case 3 =>
      && IsTail(s[2])
      && (|| (s[0] == 0xE0 && 0xA0 <= s[1] <= 0xBF)
          || (0xE1 <= s[0] <= 0xEC && IsTail(s[1]))
          || (s[0] == 0xED && 0x80 <= s[1] <= 0x9F)
          || (0xEE <= s[0] <= 0xEF && IsTail(s[1])))
    case 4 =>
      && IsTail(s[2]) && IsTail(s[3])
      && (|| (s[0] == 0xF0 && 0x90 <= s[1] <= 0xBF)
          || (0xF1 <= s[0] <= 0xF3 && IsTail(s[1]))
          || (s[0] == 0xF4 && 0x80 <= s[1] <= 0x8F))
    case _ => false
  }

  /** The character that a well-formed sequence encodes. */
  function CodeOf(s: seq<Byte>): int
    requires WellFormed(s)
  {
    match |s|
    case 1 => s[0]
    case 2 => (s[0] as int - 0xC0) * 0x40 + s[1] - 0x80
    case 3 => (s[0] as int - 0xE0) * 0x1000 + (s[1] as int - 0x80) * 0x40 + s[2] - 0x80
    case _ =>
      (s[0] as int - 0xF0) * 0x4_0000 + (s[1] as int - 0x80) * 0x1000 + (s[2] as int - 0x80) * 0x40 + s[3] - 0x80
  }

  lemma TwoBytes(a: int, b: int)
    requires 0xC2 <= a <= 0xDF && 0x80 <= b <= 0xBF
    ensures var c := (a - 0xC0) * 0x40 + b - 0x80; 0x80 <= c < 0x800 && EncodeChar(c) == [a, b]
  {
    Parted(a - 0xC0, b - 0x80);
  }

  lemma ThreeBytes(a: int, b: int, d: int)
    requires 0xE0 <= a <= 0xEF && 0x80 <= b <= 0xBF && 0x80 <= d <= 0xBF && (a == 0xE0 ==> b >= 0xA0)
    ensures var c := (a - 0xE0) * 0x1000 + (b - 0x80) * 0x40 + d - 0x80; 0x800 <= c < 0x1_0000 && EncodeChar(c) == [a, b, d]
  {
    var c := (a - 0xE0) * 0x1000 + (b - 0x80) * 0x40 + d - 0x80;
    Parted((a - 0xE0) * 0x40 + (b - 0x80), d - 0x80);
    Parted(a - 0xE0, b - 0x80);
    assert c / 0x1000 == c / 0x40 / 0x40;
  }

  lemma FourBytes(a: int, b: int, d: int, e: int)
    requires 0xF0 <= a <= 0xF4 && 0x80 <= b <= 0xBF && 0x80 <= d <= 0xBF && 0x80 <= e <= 0xBF
    requires (a == 0xF0 ==> b >= 0x90) && (a == 0xF4 ==> b < 0x90)
    ensures var c := (a - 0xF0) * 0x4_0000 + (b - 0x80) * 0x1000 + (d - 0x80) * 0x40 + e - 0x80;
            0x1_0000 <= c < 0x11_0000 && EncodeChar(c) == [a, b, d, e]
  {
    var c := (a - 0xF0) * 0x4_0000 + (b - 0x80) * 0x1000 + (d - 0x80) * 0x40 + e - 0x80;
    Parted((a - 0xF0) * 0x1000 + (b - 0x80) * 0x40 + (d - 0x80), e - 0x80);
    Parted((a - 0xF0) * 0x40 + (b - 0x80), d - 0x80);
    Parted(a - 0xF0, b - 0x80);
    assert c / 0x1000 == c / 0x40 / 0x40 && c / 0x4_0000 == c / 0x40 / 0x40 / 0x40;
  }

  /** Well-formed sequences are exactly the encodings of characters. */
  lemma WellFormedIsEncoded(s: seq<Byte>)
    requires WellFormed(s)
    ensures 0 <= CodeOf(s) < 0x11_0000 && Scalar(CodeOf(s)) && EncodeChar(CodeOf(s)) == s
  {
    match |s|
    case 1 => assert s == [s[0]];
    case 2 =>
      TwoBytes(s[0], s[1]);
      assert s == [s[0], s[1]];
    case 3 =>
      ThreeBytes(s[0], s[1], s[2]);
      assert s == [s[0], s[1], s[2]];
    case _ =>
      FourBytes(s[0], s[1], s[2], s[3]);
      assert s == [s[0], s[1], s[2], s[3]];
  }

  lemma Parted(high: int, low: int)
    requires high >= 0 && 0 <= low < 0x40
    ensures (high * 0x40 + low) / 0x40 == high && (high * 0x40 + low) % 0x40 == low
  {
  }

  lemma EncodedIsWellFormed(c: CodePoint)
    requires Scalar(c)
    ensures WellFormed(EncodeChar(c)) && CodeOf(EncodeChar(c)) == c
  {
    if 0x800 <= c < 0x1_0000 {
      assert c / 0x40 / 0x40 == c / 0x1000;
    } else if c >= 0x1_0000 {
      assert c / 0x40 / 0x40 == c / 0x1000 && c / 0x1000 / 0x40 == c / 0x4_0000;
    }
  }

  /** These bytes may still become a character, or are one. */
  ghost predicate Begins(p: seq<Byte>) { exists s :: WellFormed(s) && p <= s }

  /** The least bytes that complete `p`, whose lead byte allows `n`. */
  function Completed(p: seq<Byte>, n: nat): seq<Byte>
    requires 1 <= |p| <= n <= 4
  {
    var second: Byte := if p[0] == 0xE0 then 0xA0 else if p[0] == 0xF0 then 0x90 else 0x80;
    var tail: seq<Byte> := [0x80, 0x80];
    (if |p| == 1 && n > 1 then p + [second] else p) + tail[..n - (if |p| == 1 && n > 1 then 2 else |p|)]
  }

  function Width(lead: Byte): nat {
    if lead < 0x80 then 1 else if lead < 0xC2 then 0 else if lead < 0xE0 then 2 else if lead < 0xF0 then 3
    else if lead < 0xF5 then 4 else 0
  }

  /** Lead and following bytes are all allowed, up to the width that the lead announces. */
  predicate Allowed(p: seq<Byte>) {
    && 1 <= |p| <= Width(p[0])
    && (|p| > 1 ==> Seconds(p[0], p[1]))
    && (|p| > 2 ==> Continues(p[2])) && (|p| > 3 ==> Continues(p[3]))
  }

  lemma AllowedBegins(p: seq<Byte>)
    ensures p != [] ==> (Allowed(p) <==> Begins(p))
    ensures WellFormed(p) <==> Allowed(p) && |p| == Width(p[0])
  {
    if p != [] && Allowed(p) {
      var s := Completed(p, Width(p[0]));
      assert p <= s;
      assert WellFormed(s);
    }
    if s :| p != [] && WellFormed(s) && p <= s {
      assert forall i :: 0 <= i < |p| ==> p[i] == s[i];
    }
  }

  lemma {:induction false} FollowExactly(s: seq<Byte>, i: nat, n: nat, value: int)
    requires 1 <= i <= n && i <= |s| && n == Width(s[0]) && 0 <= value && Allowed(s[..i])
    ensures match Follow(s, i, n, value)
            case NeedMore => |s| < n && Allowed(s)
            case Char(_, w) =>
              || (w == n <= |s| && Allowed(s[..n]))
              || (i <= w < n && w < |s| && Allowed(s[..w]) && !Allowed(s[..w + 1]) && Follow(s, i, n, value).code == REPLACEMENT)
    decreases n - i
  {
    if i == |s| { assert s[..i] == s; }
    if i < n && i < |s| {
      assert s[..i + 1] == s[..i] + [s[i]];
      if (if i == 1 then Seconds(s[0], s[i]) else Continues(s[i])) {
        FollowExactly(s, i + 1, n, Join(value, s[i]));
      }
    }
  }

  /**
   One decoding step on any input: a whole character; or nothing yet, while the input may become one; or
   one replacement for the longest front that could have become a character, or for a single wrong byte.
   */
  lemma StepExactly(s: seq<Byte>)
    requires s != []
    ensures match First(s)
            case NeedMore => Begins(s) && !WellFormed(s)
            case Char(c, w) =>
              || (1 <= w <= |s| && WellFormed(s[..w]) && c == CodeOf(s[..w]))
              || (1 <= w <= |s| && c == REPLACEMENT && !WellFormed(s[..w])
                  && if w == 1 && !Begins(s[..1]) then true else w < |s| && Begins(s[..w]) && !Begins(s[..w + 1]))
  {
    var n := Width(s[0]);
    AllowedBegins(s);
    AllowedBegins(s[..1]);
    if n > 1 {
      FollowExactly(s, 1, n, LeadValue(s[0]));
    }
    if First(s).Char? {
      var w := First(s).width;
      AllowedBegins(s[..w]);
      if w < |s| { AllowedBegins(s[..w + 1]); }
      if n > 0 && w == n && Allowed(s[..w]) {
        WellFormedIsEncoded(s[..w]);
        FirstOfEncoded(CodeOf(s[..w]), s[w..]);
        assert EncodeChar(CodeOf(s[..w])) + s[w..] == s;
      }
    }
  }
}
