/**
 Release versions: `version_sequence` in tools/build_release_authorization.py packs the parts of a version
 into one integer, `four_part_version` in tools/build_msix_package.py prints them.
 */
module ReleaseVersion {
  import opened Wrappers

  const PART_LIMIT := 65536

  // ---------------------------------------------------------------- text

  function Split(s: string): (parts: seq<string>)
    ensures parts != []
  {
    if s == "" then [""]
    else
      var rest := Split(s[1..]);
      if s[0] == '.' then [""] + rest else [[s[0]] + rest[0]] + rest[1..]
  }

  function Join(parts: seq<string>): string
    requires parts != []
  {
    if |parts| == 1 then parts[0] else parts[0] + "." + Join(parts[1..])
  }

  predicate IsDigit(c: char) { '0' <= c <= '9' }

  predicate Digits(s: string) { s != "" && forall i :: 0 <= i < |s| ==> IsDigit(s[i]) }

  /** int(part), digit by digit from the left. */
  function Value(s: string): nat
    requires forall i :: 0 <= i < |s| ==> IsDigit(s[i])
  {
    if s == "" then 0
    else
      assert IsDigit(s[|s| - 1]);
      10 * Value(s[..|s| - 1]) + (s[|s| - 1] as int - '0' as int)
  }

  /** str(n) */
  function Print(n: nat): (s: string)
    ensures Digits(s)
  {
    if n < 10 then [('0' as int + n) as char] else Print(n / 10) + [('0' as int + n % 10) as char]
  }

  lemma {:induction false} PrintThenValue(n: nat)
    ensures Value(Print(n)) == n
  {
    if n >= 10 {
      PrintThenValue(n / 10);
      assert Print(n)[..|Print(n)| - 1] == Print(n / 10);
    } else {
      assert Print(n)[..0] == "";
    }
  }

  lemma {:induction false} SplitOfPlain(s: string)
    requires forall i :: 0 <= i < |s| ==> s[i] != '.'
    ensures Split(s) == [s]
  {
    if s != "" {
      SplitOfPlain(s[1..]);
      assert [s[0]] + s[1..] == s;
    }
  }

  lemma {:induction false} SplitAtDot(s: string, rest: string)
    requires forall i :: 0 <= i < |s| ==> s[i] != '.'
    ensures Split(s + "." + rest) == [s] + Split(rest)
  {
    if s == "" {
      assert s + "." + rest == "." + rest && ("." + rest)[1..] == rest;
    } else {
      SplitAtDot(s[1..], rest);
      assert (s + "." + rest)[1..] == s[1..] + "." + rest;
      assert [s[0]] + s[1..] == s;
      assert ([s[1..]] + Split(rest))[1..] == Split(rest);
    }
  }

  lemma {:induction false} SplitInvertsJoin(parts: seq<string>)
    requires parts != [] && forall k :: 0 <= k < |parts| ==> Digits(parts[k])
    ensures Split(Join(parts)) == parts
    decreases |parts|
  {
    if |parts| == 1 {
      SplitOfPlain(parts[0]);
    } else {
      SplitInvertsJoin(parts[1..]);
      SplitAtDot(parts[0], Join(parts[1..]));
    }
  }

  // ---------------------------------------------------------------- the four parts of a version

  datatype Parts = Parts(a: nat, b: nat, c: nat, d: nat) {
    predicate Fit() { a < PART_LIMIT && b < PART_LIMIT && c < PART_LIMIT && d < PART_LIMIT }

    predicate Less(that: Parts) {
      || a < that.a
      || (a == that.a && (|| b < that.b
                          || (b == that.b && (c < that.c || (c == that.c && d < that.d)))))
    }
  }

  /** Three or four numeric parts that fit 16 bits, padded with zeros; anything else is refused. */
  function Parse(version: string): Option<Parts> {
    var texts := Split(version);
    if !(3 <= |texts| <= 4) || exists k :: 0 <= k < |texts| && !Digits(texts[k]) then None
    else
      var parts := Parts(Value(texts[0]), Value(texts[1]), Value(texts[2]), if |texts| == 4 then Value(texts[3]) else 0);
      if parts.Fit() then Some(parts) else None
  }

  function FourPartVersion(version: string): Option<string> {
    match Parse(version)
    case None => None
    case Some(p) => Some(Join([Print(p.a), Print(p.b), Print(p.c), Print(p.d)]))
  }

  lemma {:induction false} JoinInvertsSplit(s: string)
    ensures Join(Split(s)) == s
  {
    if s != "" {
      JoinInvertsSplit(s[1..]);
      var rest := Split(s[1..]);
      if s[0] == '.' {
        assert ([""] + rest)[1..] == rest;
        assert "" + "." + s[1..] == s;
      } else if |rest| == 1 {
        assert [s[0]] + rest[0] == s;
      } else {
        assert ([[s[0]] + rest[0]] + rest[1..])[1..] == rest[1..];
        assert [s[0]] + (rest[0] + "." + Join(rest[1..])) == ([s[0]] + rest[0]) + "." + Join(rest[1..]);
      }
    }
  }

  /** Three or four digit texts between dots, with these values. */
  ghost predicate Spells(version: string, texts: seq<string>, p: Parts) {
    && (|texts| == 3 || |texts| == 4) && Join(texts) == version
    && (forall k :: 0 <= k < |texts| ==> texts[k] != "" && forall i :: 0 <= i < |texts[k]| ==> '0' <= texts[k][i] <= '9')
    && p == Parts(Value(texts[0]), Value(texts[1]), Value(texts[2]), if |texts| == 4 then Value(texts[3]) else 0)
    && p.a <= 65535 && p.b <= 65535 && p.c <= 65535 && p.d <= 65535
  }

  /** A version is accepted exactly when it is so spelt, and then it has those parts. */
  lemma ParsesExactly(version: string, p: Parts)
    ensures Parse(version) == Some(p) <==> exists texts :: Spells(version, texts, p)
  {
    if Parse(version) == Some(p) {
      JoinInvertsSplit(version);
      assert Spells(version, Split(version), p);
    }
    if texts :| Spells(version, texts, p) {
      assert forall k :: 0 <= k < |texts| ==> Digits(texts[k]);
      SplitInvertsJoin(texts);
    }
  }

  // ---------------------------------------------------------------- packing

  function ShiftLeft(x: nat, n: nat): nat { if n == 0 then x else 2 * ShiftLeft(x, n - 1) }

  /** Bitwise or of unbounded non-negative integers. */
  function Or(x: nat, y: nat): nat {
    if x == 0 && y == 0 then 0
    else (if x % 2 == 1 || y % 2 == 1 then 1 else 0) + 2 * Or(x / 2, y / 2)
  }

  function VersionSequence(version: string): Option<nat> {
    match Parse(version)
    case None => None
    case Some(p) => Some(Or(Or(Or(ShiftLeft(p.a, 48), ShiftLeft(p.b, 32)), ShiftLeft(p.c, 16)), p.d))
  }

  lemma {:induction false} OrZero(x: nat)
    ensures Or(x, 0) == x
  {
    if x > 0 { OrZero(x / 2); }
  }

  /** Bits below a shift do not meet the bits above it. */
  lemma {:induction false} OrOfDisjoint(x: nat, n: nat, y: nat)
    requires y < TwoTo(n)
    ensures Or(ShiftLeft(x, n), y) == ShiftLeft(x, n) + y
    decreases n
  {
    if n == 0 {
      OrZero(x);
    } else {
      OrOfDisjoint(x, n - 1, y / 2);
    }
  }

  lemma {:induction false} ShiftTwice(x: nat, m: nat, n: nat)
    ensures ShiftLeft(x, m + n) == ShiftLeft(ShiftLeft(x, m), n)
    decreases n
  {
    if n > 0 { ShiftTwice(x, m, n - 1); }
  }

  lemma {:induction false} ShiftAdds(x: nat, y: nat, n: nat)
    ensures ShiftLeft(x, n) + ShiftLeft(y, n) == ShiftLeft(x + y, n)
  {
    if n > 0 { ShiftAdds(x, y, n - 1); }
  }

  lemma {:induction false} FieldFits(y: nat, n: nat)
    requires y < TwoTo(16)
    ensures ShiftLeft(y, n) < TwoTo(16 + n)
  {
    if n > 0 { FieldFits(y, n - 1); }
  }

  lemma NibbleShift(x: nat)
    ensures ShiftLeft(x, 4) == 0x10 * x
  {
    assert ShiftLeft(x, 1) == 2 * x;
    assert ShiftLeft(x, 2) == 2 * ShiftLeft(x, 1);
    assert ShiftLeft(x, 3) == 2 * ShiftLeft(x, 2);
  }

  lemma OneField(x: nat)
    ensures ShiftLeft(x, 16) == PART_LIMIT * x && TwoTo(16) == PART_LIMIT
  {
    NibbleShift(x);
    NibbleShift(ShiftLeft(x, 4));
    NibbleShift(ShiftLeft(x, 8));
    NibbleShift(ShiftLeft(x, 12));
    ShiftTwice(x, 4, 4);
    ShiftTwice(x, 8, 4);
    ShiftTwice(x, 12, 4);
    assert TwoTo(4) == 0x10 && TwoTo(8) == 0x100 && TwoTo(12) == 0x1000;
  }

  /** A field under the words above it: or puts them side by side. */
  lemma OrFields(high: nat, field: nat, n: nat)
    requires field < PART_LIMIT
    ensures Or(ShiftLeft(high, 16 + n), ShiftLeft(field, n)) == ShiftLeft(PART_LIMIT * high + field, n)
  {
    OneField(high);
    FieldFits(field, n);
    OrOfDisjoint(high, 16 + n, ShiftLeft(field, n));
    ShiftTwice(high, 16, n);
    ShiftAdds(PART_LIMIT * high, field, n);
  }

  function Packed(p: Parts): nat {
    PART_LIMIT * (PART_LIMIT * (PART_LIMIT * p.a + p.b) + p.c) + p.d
  }

  lemma PackedBits(p: Parts)
    requires p.Fit()
    ensures Or(Or(Or(ShiftLeft(p.a, 48), ShiftLeft(p.b, 32)), ShiftLeft(p.c, 16)), p.d) == Packed(p)
  {
    OrFields(p.a, p.b, 32);
    OrFields(PART_LIMIT * p.a + p.b, p.c, 16);
    OrFields(PART_LIMIT * (PART_LIMIT * p.a + p.b) + p.c, p.d, 0);
  }

  lemma SequenceIsPacked(version: string)
    requires Parse(version).Some?
    ensures VersionSequence(version) == Some(Packed(Parse(version).value))
    ensures Packed(Parse(version).value) < 0x1_0000_0000_0000_0000
  {
    PackedBits(Parse(version).value);
  }

  // ---------------------------------------------------------------- what releases rely on

  /** Sequences order releases as their zero-padded parts do, and fit 64 bits. */
  lemma SequenceOrdersVersions(v: string, w: string)
    requires Parse(v).Some? && Parse(w).Some?
    ensures VersionSequence(v).Some? && VersionSequence(w).Some?
    ensures VersionSequence(v).value < 0x1_0000_0000_0000_0000
    ensures VersionSequence(v).value < VersionSequence(w).value <==> Parse(v).value.Less(Parse(w).value)
    ensures VersionSequence(v).value == VersionSequence(w).value <==> Parse(v) == Parse(w)
  {
    SequenceIsPacked(v);
    SequenceIsPacked(w);
  }

  lemma PrintedParts(p: Parts)
    requires p.Fit()
    ensures Parse(Join([Print(p.a), Print(p.b), Print(p.c), Print(p.d)])) == Some(p)
  {
    SplitInvertsJoin([Print(p.a), Print(p.b), Print(p.c), Print(p.d)]);
    PrintThenValue(p.a);
    PrintThenValue(p.b);
    PrintThenValue(p.c);
    PrintThenValue(p.d);
  }

  /** Packer and printer accept the same versions, and printing loses nothing that the sequence sees. */
  lemma PrintingKeepsTheSequence(v: string)
    ensures FourPartVersion(v).Some? <==> VersionSequence(v).Some?
    ensures FourPartVersion(v).Some? ==>
              && VersionSequence(FourPartVersion(v).value) == VersionSequence(v)
              && FourPartVersion(FourPartVersion(v).value) == FourPartVersion(v)
  {
    if Parse(v).Some? { PrintedParts(Parse(v).value); }
  }

  /** Two versions have one sequence exactly when they have one printed form. */
  lemma SameSequenceSameText(v: string, w: string)
    requires Parse(v).Some? && Parse(w).Some?
    ensures VersionSequence(v) == VersionSequence(w) <==> FourPartVersion(v) == FourPartVersion(w)
  {
    SequenceOrdersVersions(v, w);
    PrintedParts(Parse(v).value);
    PrintedParts(Parse(w).value);
  }
}
