/**
 Base64url without padding, as tools/build_release_authorization.py writes (`_public_text`) and reads it
 (`_decode_urlsafe`): the URL-safe alphabet of section 5 of RFC 4648, padding stripped and restored.
 Like the decoder used there, reading also takes the standard alphabet's two characters, ignores the
 unused low bits of a last group and takes any run of padding signs after whole groups.
 */
module Base64Url {
  import opened Wrappers

  type Sextet = v: int | 0 <= v < 64

  function Symbol(v: Sextet): char {
    if v < 26 then ('A' as int + v) as char
    else if v < 52 then ('a' as int + v - 26) as char
    else if v < 62 then ('0' as int + v - 52) as char
    else if v == 62 then '-' else '_'
  }

  function FromSymbol(c: char): Option<Sextet> {
    if 'A' <= c <= 'Z' then Some(c as int - 'A' as int)
    else if 'a' <= c <= 'z' then Some(c as int - 'a' as int + 26)
    else if '0' <= c <= '9' then Some(c as int - '0' as int + 52)
    else if c == '-' || c == '+' then Some(62)
    else if c == '_' || c == '/' then Some(63)
    else None
  }

  lemma SymbolRoundTrip(v: Sextet)
    ensures FromSymbol(Symbol(v)) == Some(v) && UrlSymbol(Symbol(v))
  {
  }

  /** The characters of one to three bytes, without padding. */
  function Group(b: seq<Byte>): (s: string)
    requires 1 <= |b| <= 3
    ensures |s| == |b| + 1
  {
    match |b|
    case 1 => [Symbol(b[0] / 4), Symbol(b[0] % 4 * 16)]
    case 2 => [Symbol(b[0] / 4), Symbol(b[0] % 4 * 16 + b[1] / 16), Symbol(b[1] % 16 * 4)]
    case _ => [Symbol(b[0] / 4), Symbol(b[0] % 4 * 16 + b[1] / 16), Symbol(b[1] % 16 * 4 + b[2] / 64), Symbol(b[2] % 64)]
  }

  function Pad(n: nat): string { seq(n, _ => '=') }

  /** The padded standard form. */
  function Encode(b: seq<Byte>): string {
    if b == [] then ""
    else if |b| <= 3 then Group(b) + Pad(3 - |b|)
    else Group(b[..3]) + Encode(b[3..])
  }

  /** The bytes of one group of two to four characters. */
  function Ungroup(s: string): Option<seq<Byte>>
    requires 2 <= |s| <= 4
  {
    var v, w := FromSymbol(s[0]), FromSymbol(s[1]);
    if v.None? || w.None? then None
    else if |s| == 2 then Some([v.value * 4 + w.value / 16])
    else
      var x := FromSymbol(s[2]);
      if x.None? then None
      else if |s| == 3 then Some([v.value * 4 + w.value / 16, w.value % 16 * 16 + x.value / 4])
      else
        var y := FromSymbol(s[3]);
        if y.None? then None
        else Some([v.value * 4 + w.value / 16, w.value % 16 * 16 + x.value / 4, x.value % 4 * 64 + y.value])
  }

  /** The last group without its padding: one or two signs at its end are padding. */
  function Unpadded(s: string): string
    requires |s| == 4
  {
    if s[3] != '=' then s else if s[2] != '=' then s[..3] else s[..2]
  }

  predicate OnlyPadding(s: string) { forall i :: 0 <= i < |s| ==> s[i] == '=' }

  /** Strict decoding: whole groups of four, then a last padded one or nothing but padding signs. */
  function Decode(s: string): Option<seq<Byte>> {
    if s == "" then Some([])
    else if |s| < 4 then None
    else if |s| == 4 then Ungroup(Unpadded(s))
    else
      match Ungroup(s[..4])
      case None => None
      case Some(front) =>
        if OnlyPadding(s[4..]) then Some(front)
        else
          match Decode(s[4..])
          case None => None
          case Some(rest) => Some(front + rest)
  }

  /** rstrip("=") */
  function Strip(s: string): string {
    if s != "" && s[|s| - 1] == '=' then Strip(s[..|s| - 1]) else s
  }

  /** value + "=" * (-len(value) % 4) */
  function Restore(s: string): string { s + Pad((4 - |s| % 4) % 4) }

  /** `_public_text` */
  function PublicText(b: seq<Byte>): string { Strip(Encode(b)) }

  /** `_decode_urlsafe` */
  function DecodeUrlsafe(value: string, length: nat): Option<seq<Byte>> {
    match Decode(Restore(value))
    case None => None
    case Some(raw) => if |raw| == length then Some(raw) else None
  }

  // ---------------------------------------------------------------- round trips

  /** How the bits of three bytes are dealt out to four sextets and collected again. */
  lemma Sextets(x: Byte, y: Byte, z: Byte)
    ensures x / 4 * 4 + (x % 4 * 16 + y / 16) / 16 == x
    ensures (x % 4 * 16 + y / 16) % 16 * 16 + (y % 16 * 4 + z / 64) / 4 == y
    ensures (y % 16 * 4 + z / 64) % 4 * 64 + z % 64 == z
  {
    assert (x % 4 * 16 + y / 16) / 16 == x % 4 && (x % 4 * 16 + y / 16) % 16 == y / 16;
    assert (y % 16 * 4 + z / 64) / 4 == y % 16 && (y % 16 * 4 + z / 64) % 4 == z / 64;
  }

  lemma GroupSymbols(b: seq<Byte>)
    requires 1 <= |b| <= 3
    ensures forall k :: 0 <= k < |Group(b)| ==> FromSymbol(Group(b)[k]).Some? && Group(b)[k] != '='
  {
  }

  lemma GroupValues(b: seq<Byte>)
    requires 1 <= |b| <= 3
    ensures var y, z := if |b| > 1 then b[1] else 0, if |b| > 2 then b[2] else 0;
            && FromSymbol(Group(b)[0]) == Some(b[0] / 4)
            && FromSymbol(Group(b)[1]) == Some(b[0] % 4 * 16 + y / 16)
            && (|b| > 1 ==> FromSymbol(Group(b)[2]) == Some(y % 16 * 4 + z / 64))
            && (|b| > 2 ==> FromSymbol(Group(b)[3]) == Some(z % 64))
  {
    var y, z := if |b| > 1 then b[1] else 0, if |b| > 2 then b[2] else 0;
    SymbolRoundTrip(b[0] / 4);
    SymbolRoundTrip(b[0] % 4 * 16 + y / 16);
    SymbolRoundTrip(y % 16 * 4 + z / 64);
    SymbolRoundTrip(z % 64);
  }

  lemma OneByteRoundTrip(x: Byte)
    ensures Ungroup(Group([x])) == Some([x])
  {
    GroupValues([x]);
    Sextets(x, 0, 0);
  }

  lemma TwoBytesRoundTrip(x: Byte, y: Byte)
    ensures Ungroup(Group([x, y])) == Some([x, y])
  {
    GroupValues([x, y]);
    Sextets(x, y, 0);
  }

  lemma ThreeBytesRoundTrip(x: Byte, y: Byte, z: Byte)
    ensures Ungroup(Group([x, y, z])) == Some([x, y, z])
  {
    GroupValues([x, y, z]);
    Sextets(x, y, z);
  }

  lemma LastGroup(b: seq<Byte>)
    requires 1 <= |b| <= 3
    ensures Unpadded(Group(b) + Pad(3 - |b|)) == Group(b)
  {
    GroupSymbols(b);
    var g, s := Group(b), Group(b) + Pad(3 - |b|);
    assert forall k :: 0 <= k < |g| ==> s[k] == g[k];
    assert s[..|g|] == g;
  }

  lemma DecodeLast(b: seq<Byte>)
    requires 1 <= |b| <= 3
    ensures Decode(Group(b) + Pad(3 - |b|)) == Some(b)
  {
    if |b| == 1 {
      assert b == [b[0]];
      OneByteRoundTrip(b[0]);
    } else if |b| == 2 {
      assert b == [b[0], b[1]];
      TwoBytesRoundTrip(b[0], b[1]);
    } else {
      assert b == [b[0], b[1], b[2]];
      ThreeBytesRoundTrip(b[0], b[1], b[2]);
    }
    LastGroup(b);
  }

  lemma {:induction false} EncodeLength(b: seq<Byte>) returns (groups: nat)
    ensures |Encode(b)| == 4 * groups && (b != [] ==> groups > 0)
    decreases |b|
  {
    if b == [] {
      groups := 0;
    } else if |b| <= 3 {
      groups := 1;
    } else {
      var rest := EncodeLength(b[3..]);
      assert |Encode(b)| == |Group(b[..3])| + |Encode(b[3..])|;
      groups := rest + 1;
    }
  }

  lemma {:induction false} DecodeInvertsEncode(b: seq<Byte>)
    ensures Decode(Encode(b)) == Some(b)
    decreases |b|
  {
    if b == [] {
    } else if |b| <= 3 {
      DecodeLast(b);
    } else {
      var front, back := b[..3], b[3..];
      assert front == [b[0], b[1], b[2]];
      ThreeBytesRoundTrip(b[0], b[1], b[2]);
      DecodeInvertsEncode(back);
      var groups := EncodeLength(back);
      GroupSymbols(if |back| <= 3 then back else back[..3]);
      assert Encode(back)[0] != '=';
      DecodeFront(Group(front), Encode(back));
      assert front + back == b;
    }
  }

  lemma DecodeFront(g: string, rest: string)
    requires |g| == 4 && |rest| >= 4 && rest[0] != '=' && Ungroup(g).Some?
    ensures Decode(g + rest) ==
            if Decode(rest).None? then None else Some(Ungroup(g).value + Decode(rest).value)
  {
    assert (g + rest)[..4] == g && (g + rest)[4..] == rest;
  }

  lemma {:induction false} StripPadding(s: string, n: nat)
    requires s != "" ==> s[|s| - 1] != '='
    ensures Strip(s + Pad(n)) == s
    decreases n
  {
    if n == 0 {
      assert s + Pad(0) == s;
    } else {
      assert (s + Pad(n))[..|s + Pad(n)| - 1] == s + Pad(n - 1);
      StripPadding(s, n - 1);
    }
  }

  lemma PaddingFits(m: nat, n: nat, groups: nat)
    requires m + n == 4 * groups && n <= 2
    ensures (4 - m % 4) % 4 == n
  {
  }

  /** The padding that was stripped is what its length asks for. */
  lemma PaddingLength(b: seq<Byte>, s: string, n: nat)
    requires Encode(b) == s + Pad(n) && n <= 2
    ensures (4 - |s| % 4) % 4 == n
  {
    var groups := EncodeLength(b);
    assert |s + Pad(n)| == |s| + n;
    PaddingFits(|s|, n, groups);
  }

  /** Stripping and restoring the padding is the identity for every byte length. */
  lemma StrippedPaddingIsRestored(b: seq<Byte>)
    ensures Restore(PublicText(b)) == Encode(b)
  {
    var s, n := EncodeIsTidy(b);
    TidyEnd(s);
    StripPadding(s, n);
    PaddingLength(b, s, n);
  }

  lemma PublicTextIsDecoded(b: seq<Byte>)
    ensures DecodeUrlsafe(PublicText(b), |b|) == Some(b)
    ensures forall n: nat :: n != |b| ==> DecodeUrlsafe(PublicText(b), n) == None
  {
    StrippedPaddingIsRestored(b);
    DecodeInvertsEncode(b);
  }

  /** The text determines the bytes, and each value has one text of its own. */
  lemma PublicTextIsInjective(b: seq<Byte>, c: seq<Byte>)
    ensures PublicText(b) == PublicText(c) <==> b == c
  {
    StrippedPaddingIsRestored(b);
    StrippedPaddingIsRestored(c);
    DecodeInvertsEncode(b);
    DecodeInvertsEncode(c);
  }

  // ---------------------------------------------------------------- which texts are printed

  /** One of the 64 characters that are ever printed. */
  predicate UrlSymbol(c: char) { FromSymbol(c).Some? && c != '+' && c != '/' }

  /** Nothing but printed characters, and no bit set in a last group that no byte carries. */
  predicate Tidy(t: string) {
    && (forall i :: 0 <= i < |t| ==> UrlSymbol(t[i]))
    && (|t| % 4 == 2 ==> FromSymbol(t[|t| - 1]).value % 16 == 0)
    && (|t| % 4 == 3 ==> FromSymbol(t[|t| - 1]).value % 4 == 0)
  }

  lemma UrlSymbolIsPrinted(c: char)
    requires UrlSymbol(c)
    ensures Symbol(FromSymbol(c).value) == c && c != '='
  {
  }

  /** How the bits of four sextets are collected in three bytes and dealt out again. */
  lemma Octets(v: Sextet, w: Sextet, x: Sextet, y: Sextet)
    ensures (v * 4 + w / 16) / 4 == v && (v * 4 + w / 16) % 4 == w / 16
    ensures (w % 16 * 16 + x / 4) / 16 == w % 16 && (w % 16 * 16 + x / 4) % 16 == x / 4
    ensures (x % 4 * 64 + y) / 64 == x % 4 && (x % 4 * 64 + y) % 64 == y
    ensures w / 16 * 16 + w % 16 == w && x / 4 * 4 + x % 4 == x
  {
  }

  /** The four characters whose first ones are the group of some bytes, and those bytes. */
  lemma GroupOf(v: Sextet, w: Sextet, x: Sextet, y: Sextet, b: seq<Byte>)
    requires 1 <= |b| <= 3 && b[0] == v * 4 + w / 16
    requires if |b| > 1 then b[1] == w % 16 * 16 + x / 4 else w % 16 == 0
    requires if |b| > 2 then b[2] == x % 4 * 64 + y else |b| > 1 ==> x % 4 == 0
    ensures Group(b) == [Symbol(v), Symbol(w), Symbol(x), Symbol(y)][..|b| + 1]
  {
    Octets(v, w, x, y);
  }

  /** A tidy last group is what its bytes print as. */
  lemma TidyGroup(g: string)
    requires 2 <= |g| <= 4 && Tidy(g)
    ensures Ungroup(g).Some? && |Ungroup(g).value| == |g| - 1 && Group(Ungroup(g).value) == g
  {
    forall i | 0 <= i < |g| ensures FromSymbol(g[i]).Some? && Symbol(FromSymbol(g[i]).value) == g[i] {
      UrlSymbolIsPrinted(g[i]);
    }
    var v, w := FromSymbol(g[0]).value, FromSymbol(g[1]).value;
    var x := if |g| > 2 then FromSymbol(g[2]).value else 0;
    var y := if |g| > 3 then FromSymbol(g[3]).value else 0;
    GroupOf(v, w, x, y, Ungroup(g).value);
    assert g == [Symbol(v), Symbol(w), Symbol(x), Symbol(y)][..|g|];
  }

  lemma GroupIsTidy(b: seq<Byte>)
    requires 1 <= |b| <= 3
    ensures Tidy(Group(b))
  {
    var x, y, z := b[0], if |b| > 1 then b[1] else 0, if |b| > 2 then b[2] else 0;
    SymbolRoundTrip(x / 4);
    SymbolRoundTrip(x % 4 * 16 + y / 16);
    SymbolRoundTrip(y % 16 * 4 + z / 64);
    SymbolRoundTrip(z % 64);
  }

  lemma TidyTail(t: string)
    requires |t| > 4
    ensures Tidy(t) <==> Tidy(t[..4]) && Tidy(t[4..])
    ensures Restore(t) == t[..4] + Restore(t[4..])
  {
    var g, u := t[..4], t[4..];
    assert t == g + u && u[|u| - 1] == t[|t| - 1] && |t| % 4 == |u| % 4;
    assert forall i :: 0 <= i < |u| ==> u[i] == t[i + 4];
    assert forall i :: 4 <= i < |t| ==> t[i] == u[i - 4];
  }

  lemma ShortTidyText(t: string, s: string) returns (b: seq<Byte>)
    requires 1 <= |t| <= 4 && Tidy(t) && s == Restore(t)
    ensures ReadBack(|t|, s, b)
  {
    b := [];
    assert |s| == 4 && forall i :: 0 <= i < 4 ==> s[i] == if i < |t| then t[i] else '=';
    forall i | 0 <= i < |t| ensures t[i] != '=' { UrlSymbolIsPrinted(t[i]); }
    if |t| > 1 {
      assert Unpadded(s) == t;
      TidyGroup(t);
      b := Ungroup(t).value;
      assert Pad(3 - |b|) == Pad((4 - |t| % 4) % 4);
    }
  }

  lemma EncodeFront(front: seq<Byte>, rest: seq<Byte>)
    requires |front| == 3 && rest != []
    ensures Encode(front + rest) == Group(front) + Encode(rest)
  {
    assert (front + rest)[..3] == front && (front + rest)[3..] == rest;
  }

  ghost predicate RoundTrips(s: string, b: seq<Byte>) { Decode(s) == Some(b) && Encode(b) == s }

  /** One more whole group in front of a padded text. */
  lemma OneMoreGroup(g: string, s: string, b: seq<Byte>)
    requires |g| == 4 && Tidy(g) && |s| >= 4 && s[0] != '=' && RoundTrips(s, b)
    ensures Ungroup(g).Some? && RoundTrips(g + s, Ungroup(g).value + b)
  {
    TidyGroup(g);
    DecodeFront(g, s);
    EncodeFront(Ungroup(g).value, b);
  }

  lemma OneMoreGroupFails(g: string, s: string)
    requires |g| == 4 && Tidy(g) && |s| >= 4 && s[0] != '=' && Decode(s).None?
    ensures Decode(g + s).None?
  {
    TidyGroup(g);
    DecodeFront(g, s);
  }

  lemma RestoredFront(t: string)
    requires t != "" && Tidy(t)
    ensures |Restore(t)| >= 4 && Restore(t)[0] != '='
  {
    UrlSymbolIsPrinted(t[0]);
  }

  /** The padded form of a tidy text is decoded unless one character is left over, and encoded back. */
  ghost predicate ReadBack(n: nat, s: string, b: seq<Byte>) {
    if n % 4 == 1 then Decode(s).None? else RoundTrips(s, b)
  }

  lemma EmptyIsReadBack(s: string) returns (b: seq<Byte>)
    requires s == ""
    ensures ReadBack(0, s, b)
  {
    b := [];
  }

  lemma LongTidyText(n: nat, g: string, s: string, rest: seq<Byte>) returns (b: seq<Byte>)
    requires |g| == 4 && Tidy(g) && |s| >= 4 && s[0] != '=' && ReadBack(n, s, rest)
    ensures ReadBack(n + 4, g + s, b)
  {
    b := [];
    if n % 4 == 1 {
      OneMoreGroupFails(g, s);
    } else {
      OneMoreGroup(g, s, rest);
      b := Ungroup(g).value + rest;
    }
  }

  /** Encoding inverts decoding on tidy texts. */
  lemma {:induction false} EncodeInvertsDecode(t: string, s: string) returns (b: seq<Byte>)
    requires Tidy(t) && s == Restore(t)
    ensures ReadBack(|t|, s, b)
    decreases |t|
  {
    if t == "" {
      b := EmptyIsReadBack(s);
    } else if |t| <= 4 {
      b := ShortTidyText(t, s);
    } else {
      TidyTail(t);
      RestoredFront(t[4..]);
      var rest := EncodeInvertsDecode(t[4..], Restore(t[4..]));
      b := LongTidyText(|t| - 4, t[..4], Restore(t[4..]), rest);
    }
  }

  lemma TidyFront(b: seq<Byte>, t: string)
    requires |b| == 3 && Tidy(t) && |t| % 4 != 1
    ensures Tidy(Group(b) + t) && |Group(b) + t| % 4 != 1
  {
    GroupIsTidy(b);
    var s := Group(b) + t;
    assert s[..4] == Group(b) && s[4..] == t;
    if t != "" { TidyTail(s); }
  }

  /** The padded form is a tidy text and its padding. */
  lemma {:induction false} EncodeIsTidy(b: seq<Byte>) returns (s: string, n: nat)
    ensures Encode(b) == s + Pad(n) && n <= 2 && Tidy(s) && |s| % 4 != 1
    decreases |b|
  {
    if b == [] {
      s, n := "", 0;
    } else if |b| <= 3 {
      GroupIsTidy(b);
      s, n := Group(b), 3 - |b|;
    } else {
      var t;
      t, n := EncodeIsTidy(b[3..]);
      TidyFront(b[..3], t);
      s := Group(b[..3]) + t;
      assert b == b[..3] + b[3..];
      EncodeFront(b[..3], b[3..]);
      assert Group(b[..3]) + (t + Pad(n)) == s + Pad(n);
    }
  }

  lemma TidyEnd(s: string)
    requires Tidy(s)
    ensures s != "" ==> s[|s| - 1] != '='
  {
    if s != "" { UrlSymbolIsPrinted(s[|s| - 1]); }
  }

  /** Exactly the tidy texts without a left-over character are ever printed. */
  lemma PrintedTexts(t: string)
    ensures (exists b :: t == PublicText(b)) <==> Tidy(t) && |t| % 4 != 1
  {
    if b :| t == PublicText(b) {
      var s, n := EncodeIsTidy(b);
      TidyEnd(s);
      StripPadding(s, n);
    }
    if Tidy(t) && |t| % 4 != 1 {
      var b := EncodeInvertsDecode(t, Restore(t));
      TidyEnd(t);
      StripPadding(t, (4 - |t| % 4) % 4);
      assert t == PublicText(b);
    }
  }

  /** Of all texts that are read as `b`, exactly the tidy one is what `b` prints as. */
  lemma PrintedExactlyWhenTidy(t: string, n: nat, b: seq<Byte>)
    requires DecodeUrlsafe(t, n) == Some(b)
    ensures t == PublicText(b) <==> Tidy(t)
  {
    if t == PublicText(b) {
      PrintedTexts(t);
    } else if Tidy(t) {
      var c := EncodeInvertsDecode(t, Restore(t));
      TidyEnd(t);
      StripPadding(t, (4 - |t| % 4) % 4);
    }
  }

  /** Texts that are not tidy may be read all the same: the unused bits of the last group are ignored. */
  lemma DecodingIsNotInjective(v: Sextet)
    requires v < 16
    ensures DecodeUrlsafe(['A', Symbol(v)], 1) == Some([0])
  {
    SymbolRoundTrip(v);
    var s := Restore(['A', Symbol(v)]);
    assert s == ['A', Symbol(v)] + "==" && s[..2] == ['A', Symbol(v)];
    assert Ungroup(s[..2]) == Some([0]);
  }

  /** So are padding signs after whole groups, and the standard alphabet is taken for the other. */
  lemma UntidyTextsAreRead()
    ensures DecodeUrlsafe("AAAA=", 3) == Some([0, 0, 0]) && !Tidy("AAAA=")
    ensures DecodeUrlsafe("AA+/", 3) == DecodeUrlsafe("AA-_", 3) && !Tidy("AA+/")
  {
    var s := Restore("AAAA=");
    assert s == "AAAA====" && s[..4] == "AAAA" && s[4..] == "====";
    assert Decode(s) == Ungroup("AAAA");
    assert "AAAA="[4] == '=' && "AA+/"[2] == '+';
    assert Restore("AA+/") == "AA+/" && Restore("AA-_") == "AA-_";
  }

  const UPPER := "ABCDEFGHIJKLMNOPQRSTUVWXYZ"
  const LOWER := "abcdefghijklmnopqrstuvwxyz"
  const DIGITS := "0123456789"

  /** The alphabet, in the order of section 5 of RFC 4648. */
  lemma SymbolsInOrder(v: Sextet)
    ensures Symbol(v) ==
            if v < 26 then UPPER[v] else if v < 52 then LOWER[v - 26] else if v < 62 then DIGITS[v - 52] else "-_"[v - 62]
  {
  }
}
