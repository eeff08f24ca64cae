/**
 * The JavaScript string built-ins the extension relies on, written out on
 * `seq<char>`: `trim`, `startsWith`, `parseInt(_, 10)`, the decimal rendering
 * of an integer in a template literal, `encodeURIComponent` and joining.
 */
module Strings {
  import opened Wrappers

  /** WhiteSpace and LineTerminator code points of ECMAScript (what `trim` strips). */
  predicate IsWhitespace(c: char) {
    c == '\t' || c == '\n' || c == '\U{000B}' || c == '\U{000C}' || c == '\r' || c == ' '
    || c == '\U{00A0}' || c == '\U{1680}' || ('\U{2000}' <= c <= '\U{200A}')
    || c == '\U{2028}' || c == '\U{2029}' || c == '\U{202F}' || c == '\U{205F}'
    || c == '\U{3000}' || c == '\U{FEFF}'
  }

  /** `s.trimStart()`: the suffix left after the leading whitespace. */
  function TrimStart(s: string): (r: string)
    ensures |r| <= |s| && r == s[|s| - |r|..]
    ensures forall i :: 0 <= i < |s| - |r| ==> IsWhitespace(s[i])
    ensures r == [] || !IsWhitespace(r[0])
  {
    if s != [] && IsWhitespace(s[0]) then TrimStart(s[1..]) else s
  }

  /** `s.trimEnd()`: the prefix left before the trailing whitespace. */
  function TrimEnd(s: string): (r: string)
    ensures |r| <= |s| && r == s[..|r|]
    ensures forall i :: |r| <= i < |s| ==> IsWhitespace(s[i])
    ensures r == [] || !IsWhitespace(r[|r| - 1])
  {
    if s != [] && IsWhitespace(s[|s| - 1]) then TrimEnd(s[..|s| - 1]) else s
  }

  /** `s.trim()`. */
  function Trim(s: string): string {
    TrimEnd(TrimStart(s))
  }

  /** `s.startsWith(p)`. */
  predicate StartsWith(s: string, p: string) {
    |p| <= |s| && s[..|p|] == p
  }

  predicate IsDigit(c: char) {
    '0' <= c <= '9'
  }

  predicate AllDigits(s: string) {
    forall i :: 0 <= i < |s| ==> IsDigit(s[i])
  }

  function DigitChar(d: nat): (c: char)
    requires d < 10
    ensures IsDigit(c)
  {
    "0123456789"[d]
  }

  function DigitValue(c: char): (d: nat)
    requires IsDigit(c)
    ensures d < 10
  {
    (c as int) - ('0' as int)
  }

  /** The decimal numeral of `n`, as a template literal renders a non-negative integer. */
  function NatToString(n: nat): (s: string)
    ensures s != [] && AllDigits(s)
  {
    if n < 10 then [DigitChar(n)] else NatToString(n / 10) + [DigitChar(n % 10)]
  }

  /** The decimal numeral of an integer, with a leading `-` when it is negative. */
  function IntToString(i: int): string {
    if i < 0 then "-" + NatToString(-i) else NatToString(i)
  }

  /** The value of a string of decimal digits. */
  function DigitsValue(d: string): nat
    requires AllDigits(d)
  {
    if d == [] then 0 else 10 * DigitsValue(d[..|d| - 1]) + DigitValue(d[|d| - 1])
  }

  /** The length of the longest prefix of `s` made of decimal digits. */
  function DigitPrefix(s: string): (k: nat)
    ensures k <= |s| && AllDigits(s[..k])
    ensures k < |s| ==> !IsDigit(s[k])
  {
    if s != [] && IsDigit(s[0]) then 1 + DigitPrefix(s[1..]) else 0
  }

  /**
   * `parseInt(s, 10)`: leading whitespace and one sign are skipped, then the
   * longest run of digits is read; `None` is `NaN` (no digit at all).
   */
  function ParseInt(s: string): Option<int> {
    var t := TrimStart(s);
    var negative := t != [] && t[0] == '-';
    var u := if t != [] && (t[0] == '-' || t[0] == '+') then t[1..] else t;
    var k := DigitPrefix(u);
    var magnitude: int := DigitsValue(u[..k]);
    if k == 0 then None else Some(if negative then -magnitude else magnitude)
  }

  lemma {:induction false} DigitsValueOfNatToString(n: nat)
    ensures DigitsValue(NatToString(n)) == n
  {
    if n >= 10 {
      var s := NatToString(n / 10) + [DigitChar(n % 10)];
      assert s[..|s| - 1] == NatToString(n / 10);
      DigitsValueOfNatToString(n / 10);
    }
  }

  /** `parseInt` reads back every numeral that `NatToString` writes. */
  lemma {:induction false} ParseIntOfNatToString(n: nat)
    ensures ParseInt(NatToString(n)) == Some(n)
  {
    var s := NatToString(n);
    assert IsDigit(s[0]);
    assert !IsWhitespace(s[0]);
    assert TrimStart(s) == s;
    assert s[0] != '-' && s[0] != '+';
    DigitPrefixOfDigits(s);
    assert s[..|s|] == s;
    DigitsValueOfNatToString(n);
  }

  lemma {:induction false} DigitPrefixOfDigits(s: string)
    requires AllDigits(s)
    ensures DigitPrefix(s) == |s|
  {
    if s != [] {
      DigitPrefixOfDigits(s[1..]);
    }
  }

  /** `parts.join(sep)`. */
  function Join(parts: seq<string>, sep: string): string {
    if parts == [] then ""
    else if |parts| == 1 then parts[0]
    else parts[0] + sep + Join(parts[1..], sep)
  }

  /** The characters `encodeURIComponent` leaves as they are. */
  predicate IsUnreserved(c: char) {
    ('A' <= c <= 'Z') || ('a' <= c <= 'z') || IsDigit(c)
    || c == '-' || c == '_' || c == '.' || c == '!' || c == '~' || c == '*'
    || c == '\'' || c == '(' || c == ')'
  }

  function HexDigit(n: nat): (c: char)
    requires n < 16
    ensures IsUnreserved(c)
  {
    "0123456789ABCDEF"[n]
  }

  /** `%XX` for one byte, in upper-case hexadecimal. */
  function PercentByte(b: nat): (s: string)
    requires b < 256
    ensures |s| == 3 && s[0] == '%' && IsUnreserved(s[1]) && IsUnreserved(s[2])
  {
    ['%', HexDigit(b / 16), HexDigit(b % 16)]
  }

  predicate UriSafe(s: string) {
    forall i :: 0 <= i < |s| ==> IsUnreserved(s[i]) || s[i] == '%'
  }

  /** The percent-encoded continuation byte carrying the low six bits of `n`. */
  function Continuation(n: nat): (s: string)
    ensures |s| == 3 && s[0] == '%' && UriSafe(s)
  {
    PercentByte(0x80 + n % 0x40)
  }

  /** The UTF-8 bytes of a code point below 0x800, percent-encoded. */
  function TwoBytes(cp: nat): (s: string)
    requires cp < 0x800
    ensures |s| == 6 && s[0] == '%' && UriSafe(s)
  {
    assert cp / 0x40 < 0x20;
    PercentByte(0xC0 + cp / 0x40) + Continuation(cp)
  }

  /** The UTF-8 bytes of a code point below 0x10000, percent-encoded. */
  function ThreeBytes(cp: nat): (s: string)
    requires cp < 0x10000
    ensures |s| == 9 && s[0] == '%' && UriSafe(s)
  {
    assert cp / 0x1000 < 0x10;
    PercentByte(0xE0 + cp / 0x1000) + Continuation(cp / 0x40) + Continuation(cp)
  }

  /** The UTF-8 bytes of a code point below 0x110000, percent-encoded. */
  function FourBytes(cp: nat): (s: string)
    requires cp < 0x110000
    ensures |s| == 12 && s[0] == '%' && UriSafe(s)
  {
    assert cp / 0x40000 < 0x5;
    var lead := PercentByte(0xF0 + cp / 0x40000) + Continuation(cp / 0x1000);
    var rest := Continuation(cp / 0x40) + Continuation(cp);
    UriSafeConcat(PercentByte(0xF0 + cp / 0x40000), Continuation(cp / 0x1000));
    UriSafeConcat(Continuation(cp / 0x40), Continuation(cp));
    UriSafeConcat(lead, rest);
    lead + rest
  }

  lemma UriSafeConcat(a: string, b: string)
    requires UriSafe(a) && UriSafe(b)
    ensures UriSafe(a + b)
  {
    forall i | 0 <= i < |a + b| ensures IsUnreserved((a + b)[i]) || (a + b)[i] == '%' {
      if i >= |a| {
        assert (a + b)[i] == b[i - |a|];
      }
    }
  }

  /** One character of `encodeURIComponent`: kept, or its UTF-8 bytes percent-encoded. */
  function EncodeChar(c: char): (s: string)
    ensures UriSafe(s)
    ensures IsUnreserved(c) ==> s == [c]
    ensures !IsUnreserved(c) ==> |s| >= 3 && s[0] == '%'
  {
    var cp := c as int;
    if IsUnreserved(c) then [c]
    else if cp < 0x80 then PercentByte(cp)
    else if cp < 0x800 then TwoBytes(cp)
    else if cp < 0x10000 then ThreeBytes(cp)
    else FourBytes(cp)
  }

  /**
   * `encodeURIComponent(s)`. Every character of the result is unreserved or
   * `%`, so an encoded value never holds a `&`, `=`, `?` or `#` that could end
   * a query parameter.
   */
  function EncodeUriComponent(s: string): (r: string)
    ensures UriSafe(r)
    ensures |r| >= |s|
  {
    if s == [] then [] else EncodeChar(s[0]) + EncodeUriComponent(s[1..])
  }

  /** Encoding leaves a string unchanged exactly when all its characters are unreserved. */
  lemma {:induction false} EncodeUriComponentIdentity(s: string)
    ensures EncodeUriComponent(s) == s <==> forall i :: 0 <= i < |s| ==> IsUnreserved(s[i])
  {
    if s != [] {
      EncodeUriComponentIdentity(s[1..]);
      var r := EncodeUriComponent(s[1..]);
      if !IsUnreserved(s[0]) {
        assert |EncodeUriComponent(s)| > |s|;
      } else {
        assert EncodeUriComponent(s) == [s[0]] + r;
        assert ([s[0]] + r)[1..] == r;
        if r == s[1..] {
          assert [s[0]] + r == s;
        }
        assert (forall i :: 0 <= i < |s| ==> IsUnreserved(s[i]))
          <==> (forall i :: 0 <= i < |s[1..]| ==> IsUnreserved(s[1..][i])) by {
          if forall i :: 0 <= i < |s[1..]| ==> IsUnreserved(s[1..][i]) {
            forall i | 0 <= i < |s| ensures IsUnreserved(s[i]) {
              if i > 0 { assert s[i] == s[1..][i - 1]; }
            }
          }
        }
      }
    }
  }
}
