/** `encodeURIComponent` on ASCII strings, and the percent-decoding of
    section 2.1 of RFC 3986 that undoes it. */
module JsUri {

  import opened Wrappers

  predicate IsAscii(c: char)
  {
    (c as int) < 128
  }

  predicate AllAscii(s: string)
  {
    forall i | 0 <= i < |s| :: IsAscii(s[i])
  }

  /** The characters `encodeURIComponent` leaves as they are: the
      unreserved characters of section 2.3 of RFC 3986 (letters, digits,
      `-`, `.`, `_`, `~`) together with `!`, `'`, `(`, `)` and `*`. */
  predicate IsUnescaped(c: char)
  {
    || ('A' <= c <= 'Z') || ('a' <= c <= 'z') || ('0' <= c <= '9')
    || c == '-' || c == '_' || c == '.' || c == '!' || c == '~'
    || c == '*' || c == '\'' || c == '(' || c == ')'
  }

  /** The hexadecimal digits the encoder writes: `0`-`9` and `A`-`F`. */
  predicate IsUpperHex(c: char)
  {
    ('0' <= c <= '9') || ('A' <= c <= 'F')
  }

  /** An upper-case hexadecimal digit, as the encoder writes them; reading
      it back gives `n`. */
  function HexDigit(n: nat): (c: char)
    requires n < 16
    ensures IsUnescaped(c) && IsUpperHex(c)
    ensures IsHexDigit(c) && HexValue(c) == n
  {
    if n < 10 then ('0' as int + n) as char else ('A' as int + n - 10) as char
  }

  predicate IsHexDigit(c: char)
  {
    ('0' <= c <= '9') || ('A' <= c <= 'F') || ('a' <= c <= 'f')
  }

  function HexValue(c: char): (n: nat)
    requires IsHexDigit(c)
    ensures n < 16
  {
    if '0' <= c <= '9' then (c as int) - ('0' as int)
    else if 'A' <= c <= 'F' then (c as int) - ('A' as int) + 10
    else (c as int) - ('a' as int) + 10
  }

  /** One character of `encodeURIComponent`: itself when unescaped,
      otherwise `%` and its code as two upper-case hexadecimal digits. */
  function EncodeChar(c: char): (e: string)
    requires IsAscii(c)
    ensures IsUnescaped(c) ==> e == [c]
    ensures !IsUnescaped(c) ==> |e| == 3 && e[0] == '%'
    ensures !IsUnescaped(c) ==> IsUpperHex(e[1]) && IsUpperHex(e[2])
    ensures !IsUnescaped(c) ==> HexValue(e[1]) * 16 + HexValue(e[2]) == c as int
  {
    if IsUnescaped(c) then [c]
    else ['%', HexDigit((c as int) / 16), HexDigit((c as int) % 16)]
  }

  /** `encodeURIComponent` on ASCII text. Every character of the result is
      either unescaped or the `%` of an escape. */
  function EncodeURIComponent(s: string): (e: string)
    requires AllAscii(s)
    ensures forall i | 0 <= i < |e| :: IsUnescaped(e[i]) || e[i] == '%'
  {
    if s == [] then [] else EncodeChar(s[0]) + EncodeURIComponent(s[1..])
  }

  /** Percent-decoding: `%XY` stands for the character with code `XY`;
      `None` for a `%` that is not followed by two hexadecimal digits. */
  function PercentDecode(e: string): Option<string>
  {
    if e == [] then Some([])
    else if e[0] != '%' then
      match PercentDecode(e[1..])
      case None => None
      case Some(rest) => Some([e[0]] + rest)
    else if |e| >= 3 && IsHexDigit(e[1]) && IsHexDigit(e[2]) then
      match PercentDecode(e[3..])
      case None => None
      case Some(rest) => Some([(HexValue(e[1]) * 16 + HexValue(e[2])) as char] + rest)
    else None
  }

  lemma DecodeEncodedChar(c: char, rest: string)
    requires IsAscii(c)
    ensures PercentDecode(EncodeChar(c) + rest) ==
      match PercentDecode(rest)
      case None => None
      case Some(r) => Some([c] + r)
  {
    var e := EncodeChar(c) + rest;
    if IsUnescaped(c) {
      assert e[0] == c && e[1..] == rest;
    } else {
      var n := c as int;
      assert e[1] == HexDigit(n / 16) && e[2] == HexDigit(n % 16);
      assert e[3..] == rest;
      assert (HexValue(e[1]) * 16 + HexValue(e[2])) as char == c;
    }
  }

  /** Percent-decoding undoes `encodeURIComponent`. */
  lemma {:induction false} DecodeEncode(s: string)
    requires AllAscii(s)
    ensures PercentDecode(EncodeURIComponent(s)) == Some(s)
  {
    if s != [] {
      DecodeEncode(s[1..]);
      DecodeEncodedChar(s[0], EncodeURIComponent(s[1..]));
      assert [s[0]] + s[1..] == s;
    }
  }
}
