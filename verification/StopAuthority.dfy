/**
 `authenticatedStop` in frz/angerona_watchdog.go: only this launch's token authorises a stop file.
 HMAC-SHA-256 is an uninterpreted function of token, nonce and time; JSON parsing is left out.
 */
module StopAuthority {
  import opened Wrappers
  import opened HeartbeatRecord

  type Token = seq<Byte>
  type StopMac = (Token, string, int) -> Digest

  datatype StopCommand = StopCommand(schema: int, nonce: string, ts: int, sig: string)

  /** The file as read through a 4097-byte limit: absent, too long, not JSON, or a command. */
  datatype StopFile = Absent | TooLong | Malformed | Parsed(command: StopCommand)

  const MAX_AGE := 3600
  const MAX_SKEW := 30

  function HexValue(c: char): Option<int> {
    if '0' <= c <= '9' then Some(c as int - '0' as int)
    else if 'a' <= c <= 'f' then Some(c as int - 'a' as int + 10)
    else if 'A' <= c <= 'F' then Some(c as int - 'A' as int + 10)
    else None
  }

  /** hex.DecodeString: an odd length or any other character is an error. */
  function HexDecode(text: string): Option<seq<Byte>> {
    if text == "" then Some([])
    else if |text| == 1 || HexValue(text[0]).None? || HexValue(text[1]).None? then None
    else
      match HexDecode(text[2..])
      case None => None
      case Some(rest) => Some([16 * HexValue(text[0]).value + HexValue(text[1]).value] + rest)
  }

  ghost predicate Authorises(mac: StopMac, now: int, token: Token, file: StopFile) {
    && |token| == 32 && file.Parsed?
    && file.command.schema == 1
    && |file.command.nonce| == 32 && HexDecode(file.command.nonce).Some?
    && |file.command.sig| == 64
    && -30 <= now - file.command.ts <= 3600
    && HexDecode(file.command.sig) == Some(mac(token, file.command.nonce, file.command.ts))
  }

  method AuthenticatedStop(mac: StopMac, now: int, token: Token, file: StopFile) returns (stop: bool)
    ensures stop <==> Authorises(mac, now, token, file)
  {
    if |token| != 32 { return false; }
    if !file.Parsed? { return false; }
    var command := file.command;
    if command.schema != 1 || |command.nonce| != 32 || |command.sig| != 64 { return false; }
    if HexDecode(command.nonce).None? { return false; }
    var sig := HexDecode(command.sig);
    var age := now - command.ts;
    if sig.None? || age < -MAX_SKEW || age > MAX_AGE { return false; }
    return mac(token, command.nonce, command.ts) == sig.value;
  }

  const HEX := "0123456789abcdef"
  const UPPER_HEX := "0123456789ABCDEF"

  /** The two digits of each byte, in either case. */
  ghost predicate Spells(text: string, bytes: seq<Byte>) {
    && |text| == 2 * |bytes|
    && forall i :: 0 <= i < |bytes| ==> IsDigit(text[2 * i], bytes[i] / 16) && IsDigit(text[2 * i + 1], bytes[i] % 16)
  }

  predicate IsDigit(c: char, v: int)
    requires 0 <= v < 16
  {
    c == HEX[v] || c == UPPER_HEX[v]
  }

  lemma HexValueExactly(c: char, v: int)
    requires 0 <= v < 16
    ensures HexValue(c) == Some(v) <==> IsDigit(c, v)
  {
    assert HEX[v] == if v < 10 then ('0' as int + v) as char else ('a' as int + v - 10) as char;
    assert UPPER_HEX[v] == if v < 10 then ('0' as int + v) as char else ('A' as int + v - 10) as char;
  }

  lemma HexValueRange(c: char)
    ensures HexValue(c).Some? ==> 0 <= HexValue(c).value < 16
  {
  }

  lemma HexPair(text: string, bytes: seq<Byte>)
    requires |text| >= 2 && bytes != []
    ensures HexDecode(text) == Some(bytes) <==>
            && HexValue(text[0]) == Some(bytes[0] / 16) && HexValue(text[1]) == Some(bytes[0] % 16)
            && HexDecode(text[2..]) == Some(bytes[1..])
  {
    HexValueRange(text[0]);
    HexValueRange(text[1]);
    assert bytes == [bytes[0]] + bytes[1..];
    if HexValue(text[0]).Some? && HexValue(text[1]).Some? && HexDecode(text[2..]).Some? {
      var b := 16 * HexValue(text[0]).value + HexValue(text[1]).value;
      assert b / 16 == HexValue(text[0]).value && b % 16 == HexValue(text[1]).value;
      assert ([b] + HexDecode(text[2..]).value)[1..] == HexDecode(text[2..]).value;
    }
  }

  /** A text decodes to exactly the bytes that it spells. */
  lemma {:induction false} HexDecodesExactly(text: string, bytes: seq<Byte>)
    ensures HexDecode(text) == Some(bytes) <==> Spells(text, bytes)
    decreases |text|
  {
    if |text| >= 2 && bytes != [] {
      HexPair(text, bytes);
      HexDecodesExactly(text[2..], bytes[1..]);
      HexValueExactly(text[0], bytes[0] / 16);
      HexValueExactly(text[1], bytes[0] % 16);
      SpellsTail(text, bytes);
    }
  }

  lemma SpellsTail(text: string, bytes: seq<Byte>)
    requires |text| >= 2 && bytes != []
    ensures Spells(text, bytes) <==>
            IsDigit(text[0], bytes[0] / 16) && IsDigit(text[1], bytes[0] % 16) && Spells(text[2..], bytes[1..])
  {
    if IsDigit(text[0], bytes[0] / 16) && IsDigit(text[1], bytes[0] % 16) && Spells(text[2..], bytes[1..]) {
      forall i | 0 <= i < |bytes| ensures IsDigit(text[2 * i], bytes[i] / 16) && IsDigit(text[2 * i + 1], bytes[i] % 16) {
        if i > 0 {
          assert bytes[i] == bytes[1..][i - 1];
          assert text[2 * i] == text[2..][2 * (i - 1)] && text[2 * i + 1] == text[2..][2 * (i - 1) + 1];
        }
      }
    }
    if Spells(text, bytes) {
      assert IsDigit(text[2 * 0], bytes[0] / 16) && IsDigit(text[2 * 0 + 1], bytes[0] % 16);
      forall i | 0 <= i < |bytes[1..]|
        ensures IsDigit(text[2..][2 * i], bytes[1..][i] / 16) && IsDigit(text[2..][2 * i + 1], bytes[1..][i] % 16)
      {
        assert IsDigit(text[2 * (i + 1)], bytes[i + 1] / 16) && IsDigit(text[2 * (i + 1) + 1], bytes[i + 1] % 16);
      }
    }
  }
}
