/**
 * Bytes and the text conversions the adapter relies on: UTF-8 encoding
 * (Python's `str.encode()` and Node's `'utf8'`), latin-1 decoding, ASCII
 * lower-casing, and decimal integers (printing, and Python's `int(str)`).
 */
module Text {
  import opened Wrappers

  type byte = x: int | 0 <= x < 256

  predicate IsAscii(s: string) {
    forall i :: 0 <= i < |s| ==> s[i] as int < 128
  }

  /** The UTF-8 encoding of one Unicode scalar value. */
  function Utf8Char(c: char): (r: seq<byte>)
    ensures 1 <= |r| <= 4
    ensures c as int < 128 <==> r == [c as int]
  {
    var n := c as int;
    if n < 0x80 then [n]
    else if n < 0x800 then [0xC0 + n / 64, 0x80 + n % 64]
    else if n < 0x10000 then [0xE0 + n / 4096, 0x80 + (n / 64) % 64, 0x80 + n % 64]
    else [0xF0 + n / 262144, 0x80 + (n / 4096) % 64, 0x80 + (n / 64) % 64, 0x80 + n % 64]
  }

  /** `str.encode()` (UTF-8); Dafny strings hold no lone surrogates, so it never fails. */
  function Utf8(s: string): (r: seq<byte>)
    ensures |r| >= |s|
    ensures IsAscii(s) ==> |r| == |s| && forall i :: 0 <= i < |s| ==> r[i] == s[i] as int
  {
    if s == [] then [] else Utf8Char(s[0]) + Utf8(s[1..])
  }

  lemma {:induction false} Utf8Append(a: string, b: string)
    ensures Utf8(a + b) == Utf8(a) + Utf8(b)
  {
    if a == [] {
      assert a + b == b;
    } else {
      assert (a + b)[1..] == a[1..] + b;
      Utf8Append(a[1..], b);
    }
  }

  /** The bytes of an ASCII string, one per character (`str.encode('ascii')`). */
  function AsciiBytes(s: string): (r: seq<byte>)
    requires IsAscii(s)
    ensures |r| == |s| && forall i :: 0 <= i < |s| ==> r[i] == s[i] as int
  {
    seq(|s|, i requires 0 <= i < |s| => s[i] as int)
  }

  /** `bytes.decode('latin1')`: every byte becomes the character with the same code. */
  function Latin1(b: seq<byte>): (r: string)
    ensures |r| == |b| && forall i :: 0 <= i < |b| ==> r[i] as int == b[i]
  {
    seq(|b|, i requires 0 <= i < |b| => b[i] as char)
  }

  function LowerChar(c: char): char {
    if 'A' <= c <= 'Z' then (c as int + 32) as char else c
  }

  /** Lower-casing restricted to the ASCII letters. */
  function AsciiLower(s: string): (r: string)
    ensures |r| == |s|
    ensures forall i :: 0 <= i < |s| ==> r[i] == LowerChar(s[i])
  {
    seq(|s|, i requires 0 <= i < |s| => LowerChar(s[i]))
  }

  predicate HasNoUpper(s: string) {
    forall i :: 0 <= i < |s| ==> !('A' <= s[i] <= 'Z')
  }

  /** Lower-casing leaves no upper-case letter and is idempotent. */
  lemma AsciiLowerIdempotent(s: string)
    ensures HasNoUpper(AsciiLower(s))
    ensures AsciiLower(AsciiLower(s)) == AsciiLower(s)
  {
    assert forall i :: 0 <= i < |s| ==> LowerChar(LowerChar(s[i])) == LowerChar(s[i]);
  }

  // ---------------------------------------------------------------------------
  // Decimal integers

  predicate IsDigit(c: char) {
    '0' <= c <= '9'
  }

  predicate AllDigits(s: string) {
    forall i :: 0 <= i < |s| ==> IsDigit(s[i])
  }

  function DigitChar(d: nat): (c: char)
    requires d < 10
    ensures IsDigit(c) && c as int - '0' as int == d
  {
    ('0' as int + d) as char
  }

  /** The value of a string of decimal digits. */
  function DigitsValue(s: string): nat
    requires AllDigits(s)
  {
    if s == [] then 0 else DigitsValue(s[..|s| - 1]) * 10 + (s[|s| - 1] as int - '0' as int)
  }

  /** The shortest decimal spelling of a natural number. */
  function NatString(n: nat): (r: string)
    ensures |r| >= 1 && AllDigits(r)
    ensures r[0] == '0' ==> n == 0 && r == "0"
  {
    if n < 10 then [DigitChar(n)] else NatString(n / 10) + [DigitChar(n % 10)]
  }

  lemma {:induction false} NatStringValue(n: nat)
    ensures DigitsValue(NatString(n)) == n
  {
    if n >= 10 {
      var s := NatString(n);
      assert s[..|s| - 1] == NatString(n / 10);
      NatStringValue(n / 10);
    }
  }

  /** `str(n)` for an int. */
  function IntString(n: int): (r: string)
    ensures |r| >= 1
  {
    if n < 0 then "-" + NatString(-n) else NatString(n)
  }

  // ---------------------------------------------------------------------------
  // Python's int(str): surrounding whitespace, an optional sign, and digits
  // with single underscores between them.

  predicate IsSpace(c: char) {
    c == ' ' || c == '\t' || c == '\n' || c == '\r' || c == '\U{000B}' || c == '\U{000C}'
  }

  function TrimStart(s: string): (r: string)
    ensures |r| <= |s|
    ensures r == [] || !IsSpace(r[0])
  {
    if s != [] && IsSpace(s[0]) then TrimStart(s[1..]) else s
  }

  function TrimEnd(s: string): (r: string)
    ensures |r| <= |s|
    ensures r == [] || !IsSpace(r[|r| - 1])
  {
    if s != [] && IsSpace(s[|s| - 1]) then TrimEnd(s[..|s| - 1]) else s
  }

  /** Digits with optional single underscores between digit runs. */
  predicate IsDigitGroup(s: string) {
    && |s| >= 1 && IsDigit(s[0]) && IsDigit(s[|s| - 1])
    && (forall i :: 0 <= i < |s| ==> IsDigit(s[i]) || s[i] == '_')
    && (forall i, j :: 0 <= i < |s| && 0 <= j < |s| && j == i + 1 ==> !(s[i] == '_' && s[j] == '_'))
  }

  function WithoutUnderscores(s: string): (r: string)
    requires forall i :: 0 <= i < |s| ==> IsDigit(s[i]) || s[i] == '_'
    ensures AllDigits(r) && |r| <= |s|
  {
    if s == [] then []
    else if s[0] == '_' then WithoutUnderscores(s[1..])
    else [s[0]] + WithoutUnderscores(s[1..])
  }

  lemma AllDigitsWithoutUnderscores(s: string)
    requires AllDigits(s)
    ensures WithoutUnderscores(s) == s
  {
  }

  function ParseUnsigned(s: string): (r: Option<nat>)
    ensures AllDigits(s) && s != [] ==> r == Some(DigitsValue(s))
  {
    if !IsDigitGroup(s) then None
    else
      assert AllDigits(s) ==> WithoutUnderscores(s) == s by {
        if AllDigits(s) { AllDigitsWithoutUnderscores(s); }
      }
      Some(DigitsValue(WithoutUnderscores(s)))
  }

  /** Python's `int(s)` for a string `s`: `None` where it raises ValueError. */
  function ParseInt(s: string): (r: Option<int>)
  {
    ParseSigned(TrimEnd(TrimStart(s)))
  }

  /** `int` on text with no surrounding white space: an optional sign and a digit group. */
  function ParseSigned(t: string): (r: Option<int>)
    ensures t != [] && t[0] != '-' && t[0] != '+' ==> r == ParseUnsigned(t)
  {
    if t == [] then None
    else if t[0] == '-' then
      match ParseUnsigned(t[1..]) case Some(n) => Some(-(n as int)) case None => None
    else if t[0] == '+' then ParseUnsigned(t[1..])
    else ParseUnsigned(t)
  }

  lemma TrimUnchanged(s: string)
    requires s != [] && !IsSpace(s[0]) && !IsSpace(s[|s| - 1])
    ensures TrimEnd(TrimStart(s)) == s
  {
  }

  lemma ParseUnsignedDigits(d: string)
    requires d != [] && AllDigits(d)
    ensures ParseUnsigned(d) == Some(DigitsValue(d))
  {
  }

  lemma ParseIntSigned(d: string, negative: bool)
    requires d != [] && AllDigits(d)
    ensures ParseInt(if negative then "-" + d else d) == Some(if negative then -(DigitsValue(d) as int) else DigitsValue(d) as int)
  {
    if negative {
      NegativeUntrimmed(d, "-" + d);
      ParseIntNegative(d, "-" + d);
    } else {
      TrimUnchanged(d);
      ParseUnsignedDigits(d);
    }
  }

  lemma ParseIntNegative(d: string, s: string)
    requires d != [] && AllDigits(d)
    requires s != [] && s[0] == '-' && s[1..] == d && TrimEnd(TrimStart(s)) == s
    ensures ParseInt(s) == Some(-(DigitsValue(d) as int))
  {
    ParseUnsignedDigits(d);
    ParseNegative(d, s);
  }

  lemma NegativeUntrimmed(d: string, s: string)
    requires d != [] && AllDigits(d)
    requires s == "-" + d
    ensures s != [] && s[0] == '-' && s[1..] == d
    ensures TrimEnd(TrimStart(s)) == s
  {
    NegativeSpelled(d, d[|d| - 1], s);
    TrimUnchanged(s);
  }

  lemma NegativeSpelled(d: string, last: char, s: string)
    requires d != [] && d[|d| - 1] == last
    requires s == "-" + d
    ensures s != [] && s[0] == '-' && s[1..] == d && s[|s| - 1] == last
  {
  }

  lemma ParseNegative(d: string, s: string)
    requires s != [] && s[0] == '-' && s[1..] == d
    ensures ParseSigned(s) == match ParseUnsigned(d) case Some(n) => Some(-(n as int)) case None => None
  {
  }

  /** `int(str(n)) == n`. */
  lemma ParseIntString(n: int)
    ensures ParseInt(IntString(n)) == Some(n)
  {
    var m: nat := if n < 0 then -n else n;
    NatStringValue(m);
    ParseIntSigned(NatString(m), n < 0);
  }
}
