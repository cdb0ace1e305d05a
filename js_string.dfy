/** The ECMAScript string built-ins the app relies on, on Dafny strings:
    `String.prototype.trim`, `String.prototype.split` on one character,
    `parseInt(_, 10)` and `Number` applied to a string of decimal digits. */
module JsString {

  import opened Wrappers

  // ---------------------------------------------------------------------
  // White space and trim

  /** The ECMAScript WhiteSpace and LineTerminator code points: the
      characters that `trim` removes and `parseInt` skips. */
  predicate IsWhiteSpace(c: char)
  {
    || c == '\t' || c == '\n' || c == '\U{000B}' || c == '\U{000C}' || c == '\r'
    || c == ' ' || c == '\U{00A0}' || c == '\U{1680}'
    || ('\U{2000}' <= c <= '\U{200A}')
    || c == '\U{2028}' || c == '\U{2029}' || c == '\U{202F}' || c == '\U{205F}'
    || c == '\U{3000}' || c == '\U{FEFF}'
  }

  predicate AllWhiteSpace(s: string)
  {
    forall i | 0 <= i < |s| :: IsWhiteSpace(s[i])
  }

  /** Removes the leading white space: the result is the suffix of `s`
      that starts at its first non-white-space character. */
  function TrimStart(s: string): (r: string)
    ensures |r| <= |s| && r == s[|s| - |r|..]
    ensures AllWhiteSpace(s[..|s| - |r|])
    ensures r == [] || !IsWhiteSpace(r[0])
  {
    if s != [] && IsWhiteSpace(s[0]) then
      var r := TrimStart(s[1..]);
      TrimStartStep(s, r);
      r
    else s
  }

  /** One white-space character in front extends the trimmed-off part. */
  lemma TrimStartStep(s: string, r: string)
    requires s != [] && IsWhiteSpace(s[0])
    requires |r| <= |s| - 1 && r == s[1..][|s| - 1 - |r|..]
    requires AllWhiteSpace(s[1..][..|s| - 1 - |r|])
    ensures r == s[|s| - |r|..]
    ensures AllWhiteSpace(s[..|s| - |r|])
  {
    var k := |s| - |r|;
    forall i | 0 <= i < k ensures IsWhiteSpace(s[i]) {
      if i > 0 { assert s[i] == s[1..][..k - 1][i - 1]; }
    }
  }

  /** Removes the trailing white space: the result is the prefix of `s`
      that ends at its last non-white-space character. */
  function TrimEnd(s: string): (r: string)
    ensures |r| <= |s| && r == s[..|r|]
    ensures AllWhiteSpace(s[|r|..])
    ensures r == [] || !IsWhiteSpace(r[|r| - 1])
  {
    if s != [] && IsWhiteSpace(s[|s| - 1]) then
      var r := TrimEnd(s[..|s| - 1]);
      TrimEndStep(s, r);
      r
    else s
  }

  /** One white-space character at the back extends the trimmed-off part. */
  lemma TrimEndStep(s: string, r: string)
    requires s != [] && IsWhiteSpace(s[|s| - 1])
    requires |r| <= |s| - 1 && r == s[..|s| - 1][..|r|]
    requires AllWhiteSpace(s[..|s| - 1][|r|..])
    ensures r == s[..|r|]
    ensures AllWhiteSpace(s[|r|..])
  {
    forall i | |r| <= i < |s| ensures IsWhiteSpace(s[i]) {
      if i < |s| - 1 { assert s[i] == s[..|s| - 1][|r|..][i - |r|]; }
    }
  }

  /** `String.prototype.trim`. */
  function Trim(s: string): string
  {
    TrimEnd(TrimStart(s))
  }

  lemma {:induction false} TrimStartOfWhiteSpace(ws: string)
    requires AllWhiteSpace(ws)
    ensures TrimStart(ws) == []
  {
    if ws != [] {
      TrimStartOfWhiteSpace(ws[1..]);
    }
  }

  /** Trimming the front of `s + t` looks past `s` only when `s` is all
      white space. */
  lemma {:induction false} TrimStartAppend(s: string, t: string)
    ensures TrimStart(s + t) == if AllWhiteSpace(s) then TrimStart(t) else TrimStart(s) + t
  {
    if s == [] {
      assert s + t == t;
    } else if IsWhiteSpace(s[0]) {
      assert (s + t)[1..] == s[1..] + t;
      TrimStartAppend(s[1..], t);
      WhiteSpaceTail(s);
    } else {
      assert (s + t)[0] == s[0];
    }
  }

  lemma WhiteSpaceTail(s: string)
    requires s != [] && IsWhiteSpace(s[0])
    ensures AllWhiteSpace(s) <==> AllWhiteSpace(s[1..])
  {
    if AllWhiteSpace(s[1..]) {
      forall i | 0 < i < |s| ensures IsWhiteSpace(s[i]) {
        assert s[i] == s[1..][i - 1];
      }
    }
  }

  /** Trimming the back of `s + ws` for white space `ws` is trimming `s`. */
  lemma {:induction false} TrimEndWhiteSpaceSuffix(s: string, ws: string)
    requires AllWhiteSpace(ws)
    ensures TrimEnd(s + ws) == TrimEnd(s)
  {
    if ws != [] {
      var n := |s + ws|;
      assert (s + ws)[n - 1] == ws[|ws| - 1];
      assert (s + ws)[..n - 1] == s + ws[..|ws| - 1];
      TrimEndWhiteSpaceSuffix(s, ws[..|ws| - 1]);
    } else {
      assert s + ws == s;
    }
  }

  /** Trimming the back of `a + b` stays inside `b` when `b` is not all
      white space. */
  lemma {:induction false} TrimEndAppend(a: string, b: string)
    requires !AllWhiteSpace(b)
    ensures TrimEnd(a + b) == a + TrimEnd(b)
  {
    var n := |a + b|;
    assert (a + b)[n - 1] == b[|b| - 1];
    if IsWhiteSpace(b[|b| - 1]) {
      var b' := b[..|b| - 1];
      assert !AllWhiteSpace(b') by {
        var i :| 0 <= i < |b| && !IsWhiteSpace(b[i]);
        assert i < |b| - 1;
        assert b'[i] == b[i];
      }
      assert (a + b)[..n - 1] == a + b';
      TrimEndAppend(a, b');
    }
  }

  /** Trimming the back never reaches a first character that is not
      white space. */
  lemma TrimEndKeepsFirst(b: string)
    requires b != [] && !IsWhiteSpace(b[0])
    ensures TrimEnd(b) != [] && TrimEnd(b)[0] == b[0]
  {
  }

  /** White space around a string does not change what `trim` returns. */
  lemma {:induction false} TrimSurrounded(ws1: string, s: string, ws2: string)
    requires AllWhiteSpace(ws1) && AllWhiteSpace(ws2)
    ensures Trim(ws1 + s + ws2) == Trim(s)
  {
    assert ws1 + s + ws2 == ws1 + (s + ws2);
    TrimStartAppend(ws1, s + ws2);
    TrimStartAppend(s, ws2);
    if AllWhiteSpace(s) {
      TrimStartOfWhiteSpace(s);
      TrimStartOfWhiteSpace(ws2);
    } else {
      TrimEndWhiteSpaceSuffix(TrimStart(s), ws2);
    }
  }

  /** Every character `trim` keeps was in the original string. */
  lemma TrimKeepsCharacters(s: string, c: char)
    requires c in Trim(s)
    ensures c in s
  {
    var t := TrimStart(s);
    var i :| 0 <= i < |Trim(s)| && Trim(s)[i] == c;
    assert t[i] == c;
    assert s[|s| - |t| + i] == c;
  }

  // ---------------------------------------------------------------------
  // split on one character

  /** `s.split(sep)` for a one-character separator: the pieces between the
      separators, in order, always at least one. */
  function Split(s: string, sep: char): (parts: seq<string>)
    ensures |parts| >= 1
    ensures forall i | 0 <= i < |parts| :: sep !in parts[i]
  {
    if s == [] then [[]]
    else
      var rest := Split(s[1..], sep);
      if s[0] == sep then [[]] + rest
      else [[s[0]] + rest[0]] + rest[1..]
  }

  /** `parts.join(sep)`: the inverse of `Split`. */
  function Join(parts: seq<string>, sep: char): string
  {
    if parts == [] then []
    else if |parts| == 1 then parts[0]
    else parts[0] + [sep] + Join(parts[1..], sep)
  }

  /** The pieces of a string made of digits and separators are digit
      strings. */
  lemma {:induction false} SplitDigits(s: string, sep: char)
    requires forall i | 0 <= i < |s| :: IsDigit(s[i]) || s[i] == sep
    ensures forall i | 0 <= i < |Split(s, sep)| :: AllDigits(Split(s, sep)[i])
  {
    if s != [] {
      SplitDigits(s[1..], sep);
      var rest := Split(s[1..], sep);
      if s[0] != sep {
        var first := [s[0]] + rest[0];
        assert forall j | 0 <= j < |first| :: IsDigit(first[j]) by {
          forall j | 0 <= j < |first| ensures IsDigit(first[j]) {
            if j > 0 { assert first[j] == rest[0][j - 1]; }
          }
        }
      }
    }
  }

  /** A piece without the separator splits into itself. */
  lemma {:induction false} SplitWithoutSeparator(a: string, sep: char)
    requires sep !in a
    ensures Split(a, sep) == [a]
  {
    if a != [] {
      SplitWithoutSeparator(a[1..], sep);
      assert [a[0]] + a[1..] == a;
    }
  }

  /** Splitting `a + [sep] + t` yields `a` followed by the pieces of `t`. */
  lemma {:induction false} SplitAtSeparator(a: string, sep: char, t: string)
    requires sep !in a
    ensures Split(a + [sep] + t, sep) == [a] + Split(t, sep)
  {
    var s := a + [sep] + t;
    if a == [] {
      assert s[0] == sep && s[1..] == t;
    } else {
      assert s[0] == a[0];
      assert s[1..] == a[1..] + [sep] + t;
      SplitAtSeparator(a[1..], sep, t);
      assert [a[0]] + a[1..] == a;
    }
  }

  /** Splitting and joining again gives back the string. */
  lemma {:induction false} JoinSplit(s: string, sep: char)
    ensures Join(Split(s, sep), sep) == s
  {
    if s != [] {
      JoinSplit(s[1..], sep);
      var rest := Split(s[1..], sep);
      if s[0] == sep {
        assert Split(s, sep)[1..] == rest;
        assert Join(Split(s, sep), sep) == [] + [sep] + Join(rest, sep);
      } else {
        var parts := Split(s, sep);
        assert parts[0] == [s[0]] + rest[0];
        if |rest| == 1 {
          assert Join(parts, sep) == [s[0]] + rest[0];
        } else {
          assert parts[1..] == rest[1..];
          assert Join(rest, sep) == rest[0] + [sep] + Join(rest[1..], sep);
          assert Join(parts, sep) == [s[0]] + rest[0] + [sep] + Join(rest[1..], sep);
        }
        assert [s[0]] + s[1..] == s;
      }
    }
  }

  /** Joining pieces that do not contain the separator and splitting again
      gives back the pieces. */
  lemma {:induction false} SplitJoin(parts: seq<string>, sep: char)
    requires |parts| >= 1
    requires forall i | 0 <= i < |parts| :: sep !in parts[i]
    ensures Split(Join(parts, sep), sep) == parts
  {
    if |parts| == 1 {
      SplitWithoutSeparator(parts[0], sep);
    } else {
      SplitJoin(parts[1..], sep);
      SplitAtSeparator(parts[0], sep, Join(parts[1..], sep));
      assert [parts[0]] + parts[1..] == parts;
    }
  }

  // ---------------------------------------------------------------------
  // Decimal digits

  predicate IsDigit(c: char)
  {
    '0' <= c <= '9'
  }

  predicate AllDigits(s: string)
  {
    forall i | 0 <= i < |s| :: IsDigit(s[i])
  }

  lemma NoneOutsideDigits(s: string, c: char)
    requires AllDigits(s) && !IsDigit(c)
    ensures c !in s
  {
  }

  function DigitValue(c: char): nat
    requires IsDigit(c)
  {
    (c as int) - ('0' as int)
  }

  function DigitChar(n: nat): (c: char)
    requires n < 10
    ensures IsDigit(c) && DigitValue(c) == n
  {
    ('0' as int + n) as char
  }

  /** The number a string of decimal digits denotes, most significant digit
      first; "" denotes 0, as `Number("")` does. */
  function DigitsValue(s: string): nat
    requires AllDigits(s)
  {
    if s == [] then 0 else 10 * DigitsValue(s[..|s| - 1]) + DigitValue(s[|s| - 1])
  }

  /** The usual decimal rendering of a natural number, without leading zeros. */
  function Decimal(n: nat): (s: string)
    ensures s != [] && AllDigits(s)
    ensures s[0] != '0' || n == 0
  {
    if n < 10 then [DigitChar(n)] else Decimal(n / 10) + [DigitChar(n % 10)]
  }

  /** `Decimal` and `DigitsValue` are inverse. */
  lemma {:induction false} DecimalValue(n: nat)
    ensures DigitsValue(Decimal(n)) == n
  {
    if n >= 10 {
      var s := Decimal(n);
      assert s[..|s| - 1] == Decimal(n / 10);
      DecimalValue(n / 10);
    }
  }

  /** Leading zeros do not change the value of a digit string. */
  lemma {:induction false} LeadingZeroValue(s: string)
    requires AllDigits(s)
    ensures DigitsValue("0" + s) == DigitsValue(s)
  {
    if s != [] {
      var z := "0" + s;
      assert z[..|z| - 1] == "0" + s[..|s| - 1];
      assert z[|z| - 1] == s[|s| - 1];
      LeadingZeroValue(s[..|s| - 1]);
    } else {
      assert DigitsValue("0"[..0]) == 0;
    }
  }

  /** The longest prefix of `s` made of decimal digits. */
  function LeadingDigits(s: string): (d: string)
    ensures |d| <= |s| && AllDigits(d) && d == s[..|d|]
    ensures |d| == |s| || !IsDigit(s[|d|])
  {
    if s != [] && IsDigit(s[0]) then [s[0]] + LeadingDigits(s[1..]) else []
  }

  lemma {:induction false} LeadingDigitsOf(d: string, junk: string)
    requires AllDigits(d)
    requires junk == [] || !IsDigit(junk[0])
    ensures LeadingDigits(d + junk) == d
  {
    if d != [] {
      assert (d + junk)[0] == d[0];
      assert (d + junk)[1..] == d[1..] + junk;
      LeadingDigitsOf(d[1..], junk);
    } else {
      assert d + junk == junk;
    }
  }

  // ---------------------------------------------------------------------
  // parseInt

  /** `parseInt(s, 10)`, with `None` standing for `NaN`: skip leading white
      space, read an optional sign, then the longest run of decimal digits;
      no digit at all gives `NaN`. (`-0` is 0 here; it compares like 0.) */
  function ParseInt(s: string): Option<int>
  {
    ParseSigned(TrimStart(s))
  }

  /** The part of `parseInt` after the white space: sign, then digits. */
  function ParseSigned(t: string): Option<int>
  {
    if t != [] && (t[0] == '-' || t[0] == '+') then
      match ParseDigits(t[1..])
      case None => None
      case Some(v) => Some(if t[0] == '-' then -v else v)
    else ParseDigits(t)
  }

  /** The digits part of `parseInt`: the longest leading run of digits. */
  function ParseDigits(u: string): Option<int>
  {
    var digits := LeadingDigits(u);
    if digits == [] then None else Some(DigitsValue(digits))
  }

  /** The text of an optional sign. */
  predicate IsSign(sign: string)
  {
    sign == "" || sign == "+" || sign == "-"
  }

  /** `parseInt` skips leading white space. */
  lemma ParseIntSkipsWhiteSpace(ws: string, s: string)
    requires AllWhiteSpace(ws)
    ensures ParseInt(ws + s) == ParseInt(s)
  {
    TrimStartAppend(ws, s);
  }

  /** A leading sign is not white space, nor is a leading digit. */
  lemma TrimStartOfSigned(sign: string, u: string)
    requires IsSign(sign) && u != [] && IsDigit(u[0])
    ensures TrimStart(sign + u) == sign + u
  {
    var s := sign + u;
    assert s[0] == (if sign == "" then u[0] else sign[0]);
    TrimStartUntouched(s);
  }

  lemma TrimStartUntouched(s: string)
    requires s == [] || !IsWhiteSpace(s[0])
    ensures TrimStart(s) == s
  {
  }

  lemma ParseSignedOf(sign: string, u: string)
    requires IsSign(sign)
    ensures ParseSigned(sign + u) ==
      if u != [] && (u[0] == '-' || u[0] == '+') && sign == "" then ParseSigned(u)
      else match ParseDigits(u)
        case None => None
        case Some(v) => Some(if sign == "-" then -v else v)
  {
    if sign == "" { assert sign + u == u; } else { assert (sign + u)[1..] == u; }
  }

  lemma ParseDigitsOfPrefix(d: string, junk: string)
    requires d != [] && AllDigits(d)
    requires junk == [] || !IsDigit(junk[0])
    ensures ParseDigits(d + junk) == Some(NumberOfDigits(d) as int)
  {
    LeadingDigitsOf(d, junk);
  }

  lemma ParseIntOfSigned(sign: string, u: string, v: int)
    requires IsSign(sign) && u != [] && IsDigit(u[0])
    requires ParseDigits(u) == Some(v)
    ensures ParseInt(sign + u) == Some(if sign == "-" then -v else v)
  {
    TrimStartOfSigned(sign, u);
    ParseSignedOf(sign, u);
  }

  lemma ConcatAssoc(a: string, b: string, c: string)
    ensures a + (b + c) == a + b + c
  {
  }

  lemma ParseIntRegroup(sign: string, d: string, junk: string)
    ensures ParseInt(sign + d + junk) == ParseInt(sign + (d + junk))
  {
    ConcatAssoc(sign, d, junk);
  }

  lemma FirstOfConcat(a: string, b: string)
    requires a != []
    ensures (a + b)[0] == a[0]
  {
  }

  lemma HeadThenTail(e: string)
    requires e != []
    ensures e == [e[0]] + e[1..]
  {
  }

  /** `parseInt` reads a signed run of digits and ignores whatever
      non-digit text follows it. */
  lemma ParseIntOfDigits(sign: string, d: string, junk: string)
    requires IsSign(sign) && d != [] && AllDigits(d)
    requires junk == [] || !IsDigit(junk[0])
    ensures ParseInt(sign + d + junk) == Some(if sign == "-" then -(NumberOfDigits(d) as int) else NumberOfDigits(d) as int)
  {
    var u := d + junk;
    ParseIntRegroup(sign, d, junk);
    FirstOfConcat(d, junk);
    ParseDigitsOfPrefix(d, junk);
    ParseIntOfSigned(sign, u, NumberOfDigits(d));
  }

  /** `parseInt` reads back a rendered integer and ignores whatever
      non-digit text follows it. */
  lemma ParseIntOfDecimal(sign: string, n: nat, junk: string)
    requires IsSign(sign)
    requires junk == [] || !IsDigit(junk[0])
    ensures ParseInt(sign + Decimal(n) + junk) == Some(if sign == "-" then -(n as int) else n as int)
  {
    ParseIntOfDigits(sign, Decimal(n), junk);
    DecimalValue(n);
  }

  /** `parseInt` gives `NaN` when, after an optional sign, the text does
      not start with a decimal digit. */
  lemma ParseIntNaN(s: string)
    requires s == [] || !IsWhiteSpace(s[0])
    requires var u := if s != [] && (s[0] == '-' || s[0] == '+') then s[1..] else s;
             u == [] || !IsDigit(u[0])
    ensures ParseInt(s) == None
  {
  }

  // ---------------------------------------------------------------------
  // Number on a digit string

  /** `Number(s)` for a string of decimal digits: its value, 0 for "". */
  function NumberOfDigits(s: string): (r: nat)
    requires AllDigits(s)
    ensures s == [] ==> r == 0
  {
    DigitsValue(s)
  }
}
