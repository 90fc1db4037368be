/** Decimal numbers and standard base64, as a checkpoint body uses them. */
module Encodings {
  import opened Wrappers
  import opened Hashing

  const Uint64Limit := 0x1_0000_0000_0000_0000

  // ---------- Decimal ----------

  predicate IsDigit(c: byte) { '0' <= c <= '9' }

  function DigitOf(v: nat): byte
    requires v < 10
  {
    ('0' as int + v) as char
  }

  /** A number in decimal. */
  function Decimal(n: nat): (s: bytes)
    ensures |s| > 0 && forall i :: 0 <= i < |s| ==> IsDigit(s[i])
  {
    if n < 10 then [DigitOf(n)] else Decimal(n / 10) + [DigitOf(n % 10)]
  }

  /** The value of a string of digits. */
  function DecimalValue(s: bytes): nat
    requires forall i :: 0 <= i < |s| ==> IsDigit(s[i])
  {
    if s == [] then 0
    else
      assert IsDigit(s[|s| - 1]);
      10 * DecimalValue(s[..|s| - 1]) + (s[|s| - 1] as int - '0' as int)
  }

  /** `strconv.ParseUint(s, 10, 64)` */
  function ParseUint64(s: bytes): Option<nat> {
    if s == [] || exists i :: 0 <= i < |s| && !IsDigit(s[i]) then None
    else if DecimalValue(s) >= Uint64Limit then None
    else Some(DecimalValue(s))
  }

  lemma {:induction false} DecimalRoundTrip(n: nat)
    ensures DecimalValue(Decimal(n)) == n
  {
    if n >= 10 {
      DecimalRoundTrip(n / 10);
      assert Decimal(n)[..|Decimal(n)| - 1] == Decimal(n / 10);
    }
  }

  /** A size reads back exactly if it fits 64 bits. */
  lemma ParseUint64RoundTrip(n: nat)
    ensures ParseUint64(Decimal(n)) == if n < Uint64Limit then Some(n) else None
  {
    DecimalRoundTrip(n);
  }

  // ---------- Base64 ----------

  function Base64Digit(v: nat): byte
    requires v < 64
  {
    if v < 26 then ('A' as int + v) as char
    else if v < 52 then ('a' as int + v - 26) as char
    else if v < 62 then ('0' as int + v - 52) as char
    else if v == 62 then '+'
    else '/'
  }

  function Base64Value(c: byte): (v: Option<nat>)
    ensures v.Some? ==> v.value < 64
  {
    if 'A' <= c <= 'Z' then Some(c as int - 'A' as int)
    else if 'a' <= c <= 'z' then Some(c as int - 'a' as int + 26)
    else if '0' <= c <= '9' then Some(c as int - '0' as int + 52)
    else if c == '+' then Some(62)
    else if c == '/' then Some(63)
    else None
  }

  /** Three bytes as four digits. */
  function EncodeGroup(a: byte, b: byte, c: byte): (t: bytes)
    ensures |t| == 4
  {
    var x, y, z := a as int, b as int, c as int;
    [Base64Digit(x / 4), Base64Digit(x % 4 * 16 + y / 16), Base64Digit(y % 16 * 4 + z / 64), Base64Digit(z % 64)]
  }

  /** Four digits as three bytes. */
  function DecodeGroup(t: bytes): (r: Option<bytes>)
    requires |t| == 4
    ensures r.Some? ==> |r.value| == 3
  {
    var v0, v1, v2, v3 := Base64Value(t[0]), Base64Value(t[1]), Base64Value(t[2]), Base64Value(t[3]);
    if v0.None? || v1.None? || v2.None? || v3.None? then None
    else Some([(v0.value * 4 + v1.value / 16) as char,
               (v1.value % 16 * 16 + v2.value / 4) as char,
               (v2.value % 4 * 64 + v3.value) as char])
  }

  /** Standard base64: a last group that is not full is padded. */
  function Base64(s: bytes): bytes {
    if |s| == 0 then []
    else if |s| == 1 then EncodeGroup(s[0], '\0', '\0')[..2] + "=="
    else if |s| == 2 then EncodeGroup(s[0], s[1], '\0')[..3] + "="
    else EncodeGroup(s[0], s[1], s[2]) + Base64(s[3..])
  }

  /** The bytes a base64 text stands for. */
  function FromBase64(t: bytes): Option<bytes> {
    if |t| == 0 then Some([])
    else if |t| < 4 then None
    else if t[2..] == "==" then
      match DecodeGroup(t[..2] + "AA")
      case None => None
      case Some(group) => Some(group[..1])
    else if t[3..] == "=" then
      match DecodeGroup(t[..3] + "A")
      case None => None
      case Some(group) => Some(group[..2])
    else
      match (DecodeGroup(t[..4]), FromBase64(t[4..]))
      case (Some(group), Some(rest)) => Some(group + rest)
      case _ => None
  }

  lemma Base64DigitRoundTrip(v: nat)
    requires v < 64
    ensures Base64Value(Base64Digit(v)) == Some(v) && Base64Digit(v) != '='
  {
  }

  lemma SixBits(x: nat, y: nat, z: nat)
    requires x < 256 && y < 256 && z < 256
    ensures var v1, v2 := x % 4 * 16 + y / 16, y % 16 * 4 + z / 64;
            && v1 < 64 && v2 < 64
            && x / 4 * 4 + v1 / 16 == x && v1 % 16 * 16 + v2 / 4 == y && v2 % 4 * 64 + z % 64 == z
  {
  }

  lemma GroupRoundTrip(a: byte, b: byte, c: byte)
    ensures DecodeGroup(EncodeGroup(a, b, c)) == Some([a, b, c])
    ensures EncodeGroup(a, b, c)[2] != '=' && EncodeGroup(a, b, c)[3] != '='
  {
    var x, y, z := a as int, b as int, c as int;
    SixBits(x, y, z);
    DecodeDigits(a, b, c, x / 4, x % 4 * 16 + y / 16, y % 16 * 4 + z / 64, z % 64);
  }

  /** What four digits decode to, by their values. */
  lemma DecodeDigits(a: byte, b: byte, c: byte, v0: nat, v1: nat, v2: nat, v3: nat)
    requires v0 < 64 && v1 < 64 && v2 < 64 && v3 < 64
    requires v0 * 4 + v1 / 16 == a as int && v1 % 16 * 16 + v2 / 4 == b as int && v2 % 4 * 64 + v3 == c as int
    ensures DecodeGroup([Base64Digit(v0), Base64Digit(v1), Base64Digit(v2), Base64Digit(v3)]) == Some([a, b, c])
    ensures Base64Digit(v2) != '=' && Base64Digit(v3) != '='
  {
    Base64DigitRoundTrip(v0);
    Base64DigitRoundTrip(v1);
    Base64DigitRoundTrip(v2);
    Base64DigitRoundTrip(v3);
  }

  lemma LastByte(a: byte)
    ensures FromBase64(Base64([a])) == Some([a])
  {
    GroupRoundTrip(a, '\0', '\0');
    assert Base64([a])[..2] + "AA" == EncodeGroup(a, '\0', '\0');
    assert Base64([a])[2..] == "==";
    assert [a, '\0', '\0'][..1] == [a];
  }

  lemma LastTwoBytes(a: byte, b: byte)
    ensures FromBase64(Base64([a, b])) == Some([a, b])
  {
    GroupRoundTrip(a, b, '\0');
    var t := Base64([a, b]);
    assert t[..3] + "A" == EncodeGroup(a, b, '\0');
    assert t[3..] == "=" && t[2..][0] != '=';
    assert [a, b, '\0'][..2] == [a, b];
  }

  /** A full group in front of a text. */
  lemma FirstGroup(group: bytes, rest: bytes)
    requires |group| == 4 && group[2] != '=' && group[3] != '='
    requires DecodeGroup(group).Some? && FromBase64(rest).Some?
    ensures FromBase64(group + rest) == Some(DecodeGroup(group).value + FromBase64(rest).value)
  {
    var t := group + rest;
    assert t[..4] == group && t[4..] == rest;
    assert t[2..][0] != '=' && t[3..][0] != '=';
  }

  lemma FirstThreeBytes(a: byte, b: byte, c: byte, rest: bytes)
    requires FromBase64(Base64(rest)) == Some(rest)
    ensures FromBase64(EncodeGroup(a, b, c) + Base64(rest)) == Some([a, b, c] + rest)
  {
    GroupRoundTrip(a, b, c);
    FirstGroup(EncodeGroup(a, b, c), Base64(rest));
  }

  lemma {:induction false} Base64RoundTrip(s: bytes)
    ensures FromBase64(Base64(s)) == Some(s)
  {
    if |s| == 1 {
      assert s == [s[0]];
      LastByte(s[0]);
    } else if |s| == 2 {
      assert s == [s[0], s[1]];
      LastTwoBytes(s[0], s[1]);
    } else if |s| > 2 {
      Base64RoundTrip(s[3..]);
      FirstThreeBytes(s[0], s[1], s[2], s[3..]);
      assert s == [s[0], s[1], s[2]] + s[3..];
    }
  }

  lemma {:induction false} Base64HasNoNewline(s: bytes)
    ensures '\n' !in Base64(s)
    ensures s != [] ==> Base64(s) != []
  {
    if |s| > 2 { Base64HasNoNewline(s[3..]); }
  }

  lemma DecimalHasNoNewline(n: nat)
    ensures '\n' !in Decimal(n)
  {
  }
}
