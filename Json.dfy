/**
 * JSON text as `JSON.parse` reads it and, for flat objects, as
 * `JSON.stringify(value, null, 2)` writes it. Numbers are kept as exact
 * decimals `mantissa * 10^exponent` rather than as binary floating point.
 */
module Json {
  import opened Wrappers
  import opened Text

  datatype Value =
    | Null
    | Bool(b: bool)
    | Number(mantissa: int, exponent: int)
    | String(s: string)
    | Array(items: seq<Value>)
    | Object(members: seq<(string, Value)>)

  predicate IsScalar(v: Value) {
    v.Null? || v.Bool? || v.Number? || v.String?
  }

  /** `obj[key]` after `JSON.parse`: with a repeated key the last one wins. */
  function Lookup(members: seq<(string, Value)>, key: string): (r: Option<Value>)
    ensures r.Some? <==> exists i :: 0 <= i < |members| && members[i].0 == key
  {
    if members == [] then None
    else if members[|members| - 1].0 == key then Some(members[|members| - 1].1)
    else Lookup(members[..|members| - 1], key)
  }

  // ---------------------------------------------------------------------------
  // Reading

  predicate IsWs(c: char) {
    c == ' ' || c == '\t' || c == '\n' || c == '\r'
  }

  function SkipWs(s: string): (r: string)
    ensures |r| <= |s|
    ensures r == [] || !IsWs(r[0])
  {
    if s != [] && IsWs(s[0]) then SkipWs(s[1..]) else s
  }

  /** The longest run of decimal digits at the front of `s`. */
  function TakeDigits(s: string): (r: (string, string))
    ensures AllDigits(r.0) && |r.0| + |r.1| == |s|
    ensures r.1 == [] || !IsDigit(r.1[0])
  {
    if s != [] && IsDigit(s[0]) then
      var (d, rest) := TakeDigits(s[1..]);
      ([s[0]] + d, rest)
    else ([], s)
  }

  function HexValue(c: char): (v: nat)
    ensures v <= 16
  {
    if '0' <= c <= '9' then c as int - '0' as int
    else if 'a' <= c <= 'f' then c as int - 'a' as int + 10
    else if 'A' <= c <= 'F' then c as int - 'A' as int + 10
    else 16
  }

  /** Four hexadecimal digits at the front of `s`, as one UTF-16 code unit. */
  function Hex4(s: string): (r: Option<nat>)
    ensures r.Some? ==> |s| >= 4 && r.value < 0x10000
  {
    if |s| < 4 then None
    else
      var a, b, c, d := HexValue(s[0]), HexValue(s[1]), HexValue(s[2]), HexValue(s[3]);
      if a == 16 || b == 16 || c == 16 || d == 16 then None
      else Some(((a * 16 + b) * 16 + c) * 16 + d)
  }

  /** The character named by a `\u` escape whose four digits start `s` (a
      surrogate pair takes a second `\u` escape); `None` for a lone surrogate. */
  function UnicodeEscape(s: string): (r: Option<(char, string)>)
    ensures r.Some? ==> |r.value.1| < |s|
  {
    match Hex4(s)
    case None => None
    case Some(h) =>
      if h < 0xD800 || 0xE000 <= h then Some((h as char, s[4..]))
      else if 0xDC00 <= h then None
      else if |s| >= 6 && s[4] == '\\' && s[5] == 'u' then
        match Hex4(s[6..])
        case Some(l) =>
          if 0xDC00 <= l < 0xE000 then Some(((0x10000 + (h - 0xD800) * 0x400 + (l - 0xDC00)) as char, s[10..]))
          else None
        case None => None
      else None
  }

  /** The body of a string literal after its opening quote, up to and
      including the closing quote: the characters it denotes and what follows. */
  function ParseChars(s: string): (r: Option<(string, string)>)
    ensures r.Some? ==> |r.value.1| < |s|
  {
    if s == [] then None
    else if s[0] == '"' then Some(([], s[1..]))
    else if s[0] == '\\' then
      if |s| < 2 then None
      else
        var e := s[1];
        var simple :=
          if e == '"' then Some('"') else if e == '\\' then Some('\\') else if e == '/' then Some('/')
          else if e == 'b' then Some('\U{0008}') else if e == 'f' then Some('\U{000C}')
          else if e == 'n' then Some('\n') else if e == 'r' then Some('\r') else if e == 't' then Some('\t')
          else None;
        if simple.Some? then
          match ParseChars(s[2..])
          case Some((t, rest)) => Some(([simple.value] + t, rest))
          case None => None
        else if e == 'u' then
          match UnicodeEscape(s[2..])
          case None => None
          case Some((c, after)) =>
            match ParseChars(after)
            case Some((t, rest)) => Some(([c] + t, rest))
            case None => None
        else None
    else if s[0] < ' ' then None
    else
      match ParseChars(s[1..])
      case Some((t, rest)) => Some(([s[0]] + t, rest))
      case None => None
  }

  /** The integer part of a number: `0` or a digit run not starting with `0`. */
  function ParseWhole(t: string): (r: Option<(string, string)>)
    ensures r.Some? ==> r.value.0 != [] && AllDigits(r.value.0) && |r.value.1| < |t|
  {
    if t == [] || !IsDigit(t[0]) then None
    else if t[0] == '0' then Some(("0", t[1..]))
    else Some(TakeDigits(t))
  }

  /** An optional `.` and the digits after it. */
  function ParseFraction(s: string): (r: Option<(string, string)>)
    ensures r.Some? ==> AllDigits(r.value.0) && |r.value.1| <= |s|
  {
    if s != [] && s[0] == '.' then
      var (digits, rest) := TakeDigits(s[1..]);
      if digits == [] then None else Some((digits, rest))
    else Some(([], s))
  }

  /** An optional exponent: `e` or `E`, an optional sign, digits. */
  function ParseExponent(s: string): (r: Option<(int, string)>)
    ensures r.Some? ==> |r.value.1| <= |s|
  {
    if s != [] && (s[0] == 'e' || s[0] == 'E') then SignedDigits(s[1..])
    else Some((0, s))
  }

  /** The exponent after its `e`: an optional sign and at least one digit. */
  function SignedDigits(u: string): (r: Option<(int, string)>)
    ensures r.Some? ==> |r.value.1| < |u|
  {
    var negative := u != [] && u[0] == '-';
    var v := if u != [] && (u[0] == '-' || u[0] == '+') then u[1..] else u;
    var (digits, rest) := TakeDigits(v);
    if digits == [] then None
    else Some((if negative then -(DigitsValue(digits) as int) else DigitsValue(digits), rest))
  }

  /** A JSON number: `-`? (`0` | [1-9][0-9]*) (`.` [0-9]+)? ([eE] [+-]? [0-9]+)? */
  function ParseNumber(s: string): (r: Option<(Value, string)>)
    ensures r.Some? ==> |r.value.1| < |s|
  {
    var negative := s != [] && s[0] == '-';
    var t := if negative then s[1..] else s;
    match ParseWhole(t)
    case None => None
    case Some((whole, afterWhole)) =>
      match ParseFraction(afterWhole)
      case None => None
      case Some((fraction, afterFraction)) =>
        match ParseExponent(afterFraction)
        case None => None
        case Some((exp, rest)) =>
          var magnitude := DigitsValue(whole + fraction);
          Some((Number(if negative then -(magnitude as int) else magnitude, exp - |fraction|), rest))
  }

  function ParseValue(s: string): (r: Option<(Value, string)>)
    ensures r.Some? ==> |r.value.1| < |s|
    decreases |s|, 0
  {
    if s == [] then None
    else if s[0] == '{' then ParseObject(s[1..])
    else if s[0] == '[' then ParseArray(s[1..])
    else if s[0] == '"' then
      match ParseChars(s[1..])
      case Some((t, rest)) => Some((String(t), rest))
      case None => None
    else if |s| >= 4 && s[..4] == "true" then Some((Bool(true), s[4..]))
    else if |s| >= 5 && s[..5] == "false" then Some((Bool(false), s[5..]))
    else if |s| >= 4 && s[..4] == "null" then Some((Null, s[4..]))
    else ParseNumber(s)
  }

  /** After `[`. */
  function ParseArray(s: string): (r: Option<(Value, string)>)
    ensures r.Some? ==> |r.value.1| < |s|
    decreases |s|, 3
  {
    var t := SkipWs(s);
    if t != [] && t[0] == ']' then Some((Array([]), t[1..]))
    else ParseElements(t, [])
  }

  /** Inside an array, before an element; `items` are the elements already read. */
  function ParseElements(s: string, items: seq<Value>): (r: Option<(Value, string)>)
    ensures r.Some? ==> |r.value.1| < |s|
    decreases |s|, 2
  {
    match ParseValue(SkipWs(s))
    case None => None
    case Some((v, rest)) =>
      var t := SkipWs(rest);
      if t == [] then None
      else if t[0] == ',' then ParseElements(t[1..], items + [v])
      else if t[0] == ']' then Some((Array(items + [v]), t[1..]))
      else None
  }

  /** After `{`. */
  function ParseObject(s: string): (r: Option<(Value, string)>)
    ensures r.Some? ==> |r.value.1| < |s|
    decreases |s|, 3
  {
    var t := SkipWs(s);
    if t != [] && t[0] == '}' then Some((Object([]), t[1..]))
    else ParseMembers(t, [])
  }

  /** Inside an object, before a member; `members` are the members already read. */
  function ParseMembers(s: string, members: seq<(string, Value)>): (r: Option<(Value, string)>)
    ensures r.Some? ==> |r.value.1| < |s|
    decreases |s|, 2
  {
    var t := SkipWs(s);
    if t == [] || t[0] != '"' then None
    else
      match ParseChars(t[1..])
      case None => None
      case Some((key, afterKey)) =>
        var u := SkipWs(afterKey);
        if u == [] || u[0] != ':' then None
        else
          match ParseValue(SkipWs(u[1..]))
          case None => None
          case Some((v, rest)) =>
            var w := SkipWs(rest);
            if w == [] then None
            else if w[0] == ',' then ParseMembers(w[1..], members + [(key, v)])
            else if w[0] == '}' then Some((Object(members + [(key, v)]), w[1..]))
            else None
  }

  /** `JSON.parse(text)`; `None` where it throws a SyntaxError. */
  function Parse(text: string): Option<Value> {
    match ParseValue(SkipWs(text))
    case Some((v, rest)) => if SkipWs(rest) == [] then Some(v) else None
    case None => None
  }

  // ---------------------------------------------------------------------------
  // Writing

  function HexDigit(d: nat): char
    requires d < 16
  {
    if d < 10 then ('0' as int + d) as char else ('a' as int + d - 10) as char
  }

  /** How `JSON.stringify` writes one character inside a string literal. */
  function EscapeChar(c: char): string {
    if c == '"' then "\\\""
    else if c == '\\' then "\\\\"
    else if c == '\U{0008}' then "\\b"
    else if c == '\U{000C}' then "\\f"
    else if c == '\n' then "\\n"
    else if c == '\r' then "\\r"
    else if c == '\t' then "\\t"
    else if c < ' ' then "\\u00" + [HexDigit(c as int / 16), HexDigit(c as int % 16)]
    else [c]
  }

  function Escape(s: string): string {
    if s == [] then [] else EscapeChar(s[0]) + Escape(s[1..])
  }

  function Quote(s: string): string {
    "\"" + Escape(s) + "\""
  }

  function NumberText(mantissa: int, exponent: int): string {
    IntString(mantissa) + ExponentText(exponent)
  }

  function ScalarText(v: Value): string
    requires IsScalar(v)
  {
    match v
    case Null => "null"
    case Bool(b) => if b then "true" else "false"
    case Number(m, e) => NumberText(m, e)
    case String(t) => Quote(t)
  }

  predicate AllScalar(members: seq<(string, Value)>) {
    forall i :: 0 <= i < |members| ==> IsScalar(members[i].1)
  }

  function MemberLines(members: seq<(string, Value)>): string
    requires members != [] && AllScalar(members)
  {
    "\n  " + Quote(members[0].0) + ": " + ScalarText(members[0].1)
    + if |members| == 1 then "" else "," + MemberLines(members[1..])
  }

  /** `JSON.stringify(object, null, 2)` for an object whose values are all scalars. */
  function Stringify(members: seq<(string, Value)>): string
    requires AllScalar(members)
  {
    if members == [] then "{}" else "{" + MemberLines(members) + "\n}"
  }

  // ---------------------------------------------------------------------------
  // Round trip

  /** What may follow a value in the printed form: nothing, a separator or white space. */
  predicate Delimited(s: string) {
    s == [] || s[0] == ',' || s[0] == '}' || s[0] == ']' || IsWs(s[0])
  }

  lemma {:induction false} SkipWsPrefix(w: string, s: string)
    requires forall i :: 0 <= i < |w| ==> IsWs(w[i])
    requires s == [] || !IsWs(s[0])
    ensures SkipWs(w + s) == s
  {
    if w == [] {
      assert w + s == s;
    } else {
      assert (w + s)[1..] == w[1..] + s;
      SkipWsPrefix(w[1..], s);
    }
  }

  lemma {:induction false} TakeDigitsOf(d: string, rest: string)
    requires AllDigits(d)
    requires rest == [] || !IsDigit(rest[0])
    ensures TakeDigits(d + rest) == (d, rest)
  {
    if d == [] {
      assert d + rest == rest;
    } else {
      assert (d + rest)[1..] == d[1..] + rest;
      TakeDigitsOf(d[1..], rest);
      assert [d[0]] + d[1..] == d;
    }
  }

  lemma EscapeCharReads(c: char, rest: string)
    ensures ParseChars(EscapeChar(c) + rest) == match ParseChars(rest) case Some((t, r)) => Some(([c] + t, r)) case None => None
  {
    if c < ' ' && c != '\U{0008}' && c != '\U{000C}' && c != '\n' && c != '\r' && c != '\t' {
      ControlEscapeReads(c, rest, EscapeChar(c) + rest);
    } else if c == '"' || c == '\\' || c == '\U{0008}' || c == '\U{000C}' || c == '\n' || c == '\r' || c == '\t' {
      ShortEscapeReads(c, rest, EscapeChar(c) + rest);
    } else {
      var e := EscapeChar(c) + rest;
      assert e[0] == c && e[1..] == rest;
    }
  }

  /** A control character without a short form, written `\u00XX`. */
  lemma ControlEscapeReads(c: char, rest: string, e: string)
    requires c < ' ' && c != '\U{0008}' && c != '\U{000C}' && c != '\n' && c != '\r' && c != '\t'
    requires e == EscapeChar(c) + rest
    ensures ParseChars(e) == match ParseChars(rest) case Some((t, r)) => Some(([c] + t, r)) case None => None
  {
    var hi, lo := c as int / 16, c as int % 16;
    assert e[..2] == "\\u";
    assert e[2..] == "00" + [HexDigit(hi), HexDigit(lo)] + rest;
    assert HexValue(HexDigit(hi)) == hi && HexValue(HexDigit(lo)) == lo;
    assert Hex4(e[2..]) == Some(c as int);
    assert UnicodeEscape(e[2..]) == Some((c, rest)) by {
      assert e[2..][4..] == rest;
    }
  }

  /** A character with a two-character escape such as `\n`. */
  lemma ShortEscapeReads(c: char, rest: string, e: string)
    requires c == '"' || c == '\\' || c == '\U{0008}' || c == '\U{000C}' || c == '\n' || c == '\r' || c == '\t'
    requires e == EscapeChar(c) + rest
    ensures ParseChars(e) == match ParseChars(rest) case Some((t, r)) => Some(([c] + t, r)) case None => None
  {
    assert e[0] == '\\' && e[2..] == rest;
  }

  lemma {:induction false} EscapeReads(s: string, rest: string)
    ensures ParseChars(Escape(s) + "\"" + rest) == Some((s, rest))
  {
    if s == [] {
      assert Escape(s) + "\"" + rest == "\"" + rest;
    } else {
      assert Escape(s) + "\"" + rest == EscapeChar(s[0]) + (Escape(s[1..]) + "\"" + rest);
      EscapeCharReads(s[0], Escape(s[1..]) + "\"" + rest);
      EscapeReads(s[1..], rest);
      assert [s[0]] + s[1..] == s;
    }
  }

  lemma WholeReads(n: nat, rest: string)
    requires rest == [] || !IsDigit(rest[0])
    ensures ParseWhole(NatString(n) + rest) == Some((NatString(n), rest))
  {
    var d := NatString(n);
    if d[0] == '0' {
      assert (d + rest)[1..] == rest;
    } else {
      TakeDigitsOf(d, rest);
    }
  }

  function ExponentText(e: int): string {
    if e == 0 then "" else "e" + IntString(e)
  }

  lemma ExponentDigitsReads(digits: string, negative: bool, rest: string)
    requires digits != [] && AllDigits(digits) && Delimited(rest)
    ensures ParseExponent("e" + (if negative then "-" else "") + digits + rest)
      == Some((if negative then -(DigitsValue(digits) as int) else DigitsValue(digits), rest))
  {
    var s := "e" + (if negative then "-" else "") + digits + rest;
    ExponentSpelled(digits, negative, rest, s);
    TakeDigitsOf(digits, rest);
    if negative {
      NegativeDigitsRead(digits, rest, s[1..]);
    } else {
      PositiveDigitsRead(digits, rest, s[1..]);
    }
  }

  /** Where the sign and the digits of a printed exponent sit. */
  lemma ExponentSpelled(digits: string, negative: bool, rest: string, s: string)
    requires digits != [] && AllDigits(digits)
    requires s == "e" + (if negative then "-" else "") + digits + rest
    ensures s != [] && s[0] == 'e'
    ensures negative ==> |s| > 1 && s[1] == '-' && s[2..] == digits + rest
    ensures !negative ==> s[1..] == digits + rest && IsDigit(s[1])
  {
    if negative {
      assert s == "e-" + (digits + rest);
    } else {
      assert s == "e" + (digits + rest);
    }
  }

  lemma NegativeDigitsRead(digits: string, rest: string, u: string)
    requires digits != [] && AllDigits(digits)
    requires u != [] && u[0] == '-' && TakeDigits(u[1..]) == (digits, rest)
    ensures SignedDigits(u) == Some((-(DigitsValue(digits) as int), rest))
  {
  }

  lemma PositiveDigitsRead(digits: string, rest: string, u: string)
    requires digits != [] && AllDigits(digits)
    requires u != [] && IsDigit(u[0]) && TakeDigits(u) == (digits, rest)
    ensures SignedDigits(u) == Some((DigitsValue(digits) as int, rest))
  {
  }

  lemma ExponentAbsent(rest: string)
    requires rest == [] || (rest[0] != 'e' && rest[0] != 'E')
    ensures ParseExponent(rest) == Some((0, rest))
  {
  }

  lemma ExponentReads(e: int, rest: string)
    requires Delimited(rest)
    ensures ParseExponent(ExponentText(e) + rest) == Some((e, rest))
  {
    if e == 0 {
      assert ExponentText(e) + rest == rest;
      ExponentAbsent(rest);
    } else {
      var magnitude: nat := if e < 0 then -e else e;
      NatStringValue(magnitude);
      ExponentDigitsReads(NatString(magnitude), e < 0, rest);
      ExponentTextSpelled(e);
    }
  }

  lemma ExponentTextSpelled(e: int)
    requires e != 0
    ensures ExponentText(e) == "e" + (if e < 0 then "-" else "") + NatString(if e < 0 then -e else e)
  {
  }

  lemma NumberTextSpelled(m: int, e: int, rest: string)
    ensures NumberText(m, e) + rest
      == (if m < 0 then "-" else "") + (NatString(if m < 0 then -m else m) + (ExponentText(e) + rest))
  {
    var d := NatString(if m < 0 then -m else m);
    var x := ExponentText(e);
    assert IntString(m) == (if m < 0 then "-" else "") + d;
    Regroup(if m < 0 then "-" else "", d, x, rest);
  }

  lemma Regroup(a: string, b: string, c: string, d: string)
    ensures (a + b) + c + d == a + (b + (c + d))
  {
  }

  /** How `ParseNumber` reads an integer written without fraction, given how its parts read. */
  lemma NumberParts(negative: bool, s: string, t: string, whole: string, afterWhole: string, e: int, rest: string)
    requires negative ==> s != [] && s[0] == '-' && s[1..] == t
    requires !negative ==> s == t && (t == [] || t[0] != '-')
    requires ParseWhole(t) == Some((whole, afterWhole))
    requires ParseFraction(afterWhole) == Some(([], afterWhole))
    requires ParseExponent(afterWhole) == Some((e, rest))
    ensures ParseNumber(s)
      == Some((Number(if negative then -(DigitsValue(whole) as int) else DigitsValue(whole), e), rest))
  {
    assert whole + [] == whole;
    if negative {
      NegativeNumberParts(s, t, whole, afterWhole, e, rest);
    } else {
      UnsignedNumberParts(s, whole, afterWhole, e, rest);
    }
  }

  lemma NegativeNumberParts(s: string, t: string, whole: string, afterWhole: string, e: int, rest: string)
    requires s != [] && s[0] == '-' && s[1..] == t
    requires ParseWhole(t) == Some((whole, afterWhole)) && whole + [] == whole
    requires ParseFraction(afterWhole) == Some(([], afterWhole))
    requires ParseExponent(afterWhole) == Some((e, rest))
    ensures ParseNumber(s) == Some((Number(-(DigitsValue(whole) as int), e), rest))
  {
  }

  lemma UnsignedNumberParts(s: string, whole: string, afterWhole: string, e: int, rest: string)
    requires s == [] || s[0] != '-'
    requires ParseWhole(s) == Some((whole, afterWhole)) && whole + [] == whole
    requires ParseFraction(afterWhole) == Some(([], afterWhole))
    requires ParseExponent(afterWhole) == Some((e, rest))
    ensures ParseNumber(s) == Some((Number(DigitsValue(whole), e), rest))
  {
  }

  lemma SignSpelled(negative: bool, t: string, s: string)
    requires t != [] && t[0] != '-'
    requires s == (if negative then "-" else "") + t
    ensures negative ==> s != [] && s[0] == '-' && s[1..] == t
    ensures !negative ==> s == t && (t == [] || t[0] != '-')
  {
    if negative {
      assert s == "-" + t;
    } else {
      assert s == "" + t;
    }
  }

  predicate EndsNumber(a: string) {
    a == [] || (!IsDigit(a[0]) && a[0] != '.')
  }

  lemma ExponentEndsWhole(e: int, rest: string)
    requires Delimited(rest)
    ensures EndsNumber(ExponentText(e) + rest)
  {
  }

  lemma NoFraction(a: string)
    requires EndsNumber(a)
    ensures ParseFraction(a) == Some(([], a))
  {
  }

  lemma SignedNumberReads(magnitude: nat, negative: bool, e: int, rest: string, s: string)
    requires Delimited(rest)
    requires s == (if negative then "-" else "") + (NatString(magnitude) + (ExponentText(e) + rest))
    ensures ParseNumber(s) == Some((Number(if negative then -(magnitude as int) else magnitude, e), rest))
  {
    var d := NatString(magnitude);
    NatStringValue(magnitude);
    var afterWhole := ExponentText(e) + rest;
    ExponentEndsWhole(e, rest);
    WholeReads(magnitude, afterWhole);
    NoFraction(afterWhole);
    ExponentReads(e, rest);
    SignSpelled(negative, d + afterWhole, s);
    NumberParts(negative, s, d + afterWhole, d, afterWhole, e, rest);
  }

  lemma NumberReads(m: int, e: int, rest: string)
    requires Delimited(rest)
    ensures ParseNumber(NumberText(m, e) + rest) == Some((Number(m, e), rest))
  {
    NumberTextSpelled(m, e, rest);
    SignedNumberReads(if m < 0 then -m else m, m < 0, e, rest, NumberText(m, e) + rest);
  }

  lemma QuoteSpelled(t: string, rest: string)
    ensures (Quote(t) + rest)[0] == '"' && (Quote(t) + rest)[1..] == Escape(t) + "\"" + rest
  {
    assert Quote(t) + rest == "\"" + (Escape(t) + "\"" + rest);
  }

  lemma StringReads(t: string, rest: string)
    ensures ParseValue(Quote(t) + rest) == Some((String(t), rest))
  {
    QuoteSpelled(t, rest);
    EscapeReads(t, rest);
  }

  lemma NumberTextStart(m: int, e: int, rest: string)
    ensures var s := NumberText(m, e) + rest; s != [] && (s[0] == '-' || IsDigit(s[0]))
  {
    NumberTextSpelled(m, e, rest);
  }

  lemma ValueIsNumber(s: string)
    requires s != [] && (s[0] == '-' || IsDigit(s[0]))
    ensures ParseValue(s) == ParseNumber(s)
  {
    var c := s[0];
    assert c != '{' && c != '[' && c != '"';
    assert |s| >= 4 ==> s[..4][0] == c;
    assert |s| >= 5 ==> s[..5][0] == c;
  }

  lemma NumberValueReads(m: int, e: int, rest: string)
    requires Delimited(rest)
    ensures ParseValue(NumberText(m, e) + rest) == Some((Number(m, e), rest))
  {
    NumberTextStart(m, e, rest);
    ValueIsNumber(NumberText(m, e) + rest);
    NumberReads(m, e, rest);
  }

  lemma ScalarReads(v: Value, rest: string)
    requires IsScalar(v) && Delimited(rest)
    ensures ParseValue(ScalarText(v) + rest) == Some((v, rest))
  {
    match v
    case Null =>
      var s := ScalarText(v) + rest;
      assert s[..4] == "null" && s[4..] == rest;
    case Bool(b) =>
      var s := ScalarText(v) + rest;
      if b { assert s[..4] == "true" && s[4..] == rest; }
      else { assert s[..5] == "false" && s[5..] == rest; }
    case String(t) =>
      StringReads(t, rest);
    case Number(m, e) =>
      NumberValueReads(m, e, rest);
  }

  lemma ScalarTextStart(v: Value, rest: string)
    requires IsScalar(v)
    ensures var s := ScalarText(v) + rest; s != [] && !IsWs(s[0])
  {
    match v
    case Number(m, e) => NumberTextStart(m, e, rest);
    case String(t) => QuoteSpelled(t, rest);
    case _ =>
  }

  /** The text after a key: a colon, one space, the value. */
  lemma ColonValueReads(v: Value, more: string)
    requires IsScalar(v) && Delimited(more)
    ensures var u := ": " + (ScalarText(v) + more);
      SkipWs(u) == u && u[0] == ':' && ParseValue(SkipWs(u[1..])) == Some((v, more))
  {
    var w := ScalarText(v) + more;
    ScalarTextStart(v, more);
    ColonSpace(": " + w, w);
    ScalarReads(v, more);
  }

  lemma ColonSpace(u: string, w: string)
    requires u == ": " + w && w != [] && !IsWs(w[0])
    ensures SkipWs(u) == u && u[0] == ':' && SkipWs(u[1..]) == w
  {
    assert u[1..] == " " + w;
    SkipWsPrefix(" ", w);
  }

  /** The text of one member line: a line break, the indentation, the quoted key. */
  lemma KeyReads(k: string, after: string)
    ensures var t := SkipWs("\n  " + (Quote(k) + after));
      t != [] && t[0] == '"' && ParseChars(t[1..]) == Some((k, after))
  {
    QuoteSpelled(k, after);
    SkipWsPrefix("\n  ", Quote(k) + after);
    EscapeReads(k, after);
  }

  /** A member followed by a comma: `ParseMembers` goes on with the next member. */
  lemma MemberThenMore(s: string, done: seq<(string, Value)>, k: string, v: Value, more: string)
    requires IsScalar(v)
    requires s == "\n  " + (Quote(k) + (": " + (ScalarText(v) + ("," + more))))
    ensures ParseMembers(s, done) == ParseMembers(more, done + [(k, v)])
  {
    KeyReads(k, ": " + (ScalarText(v) + ("," + more)));
    ColonValueReads(v, "," + more);
    assert ("," + more)[1..] == more;
  }

  /** The last member: `ParseMembers` closes the object. */
  lemma MemberThenEnd(s: string, done: seq<(string, Value)>, k: string, v: Value, tail: string)
    requires IsScalar(v)
    requires s == "\n  " + (Quote(k) + (": " + (ScalarText(v) + ("\n}" + tail))))
    ensures ParseMembers(s, done) == Some((Object(done + [(k, v)]), tail))
  {
    KeyReads(k, ": " + (ScalarText(v) + ("\n}" + tail)));
    ColonValueReads(v, "\n}" + tail);
    SkipWsPrefix("\n", "}" + tail);
    assert "\n}" + tail == "\n" + ("}" + tail);
  }

  function NextLines(members: seq<(string, Value)>): string
    requires members != [] && AllScalar(members)
  {
    if |members| == 1 then "" else "," + MemberLines(members[1..])
  }

  lemma MemberLinesUnfold(members: seq<(string, Value)>)
    requires members != [] && AllScalar(members)
    ensures MemberLines(members) == "\n  " + Quote(members[0].0) + ": " + ScalarText(members[0].1) + NextLines(members)
  {
  }

  lemma MemberLinesSpelled(members: seq<(string, Value)>, tail: string)
    requires members != [] && AllScalar(members)
    ensures MemberLines(members) + "\n}" + tail ==
      "\n  " + (Quote(members[0].0) + (": " + (ScalarText(members[0].1) + (NextLines(members) + ("\n}" + tail)))))
  {
    MemberLinesUnfold(members);
    Associate("\n  ", Quote(members[0].0), ": ", ScalarText(members[0].1), NextLines(members), "\n}" + tail);
    assert MemberLines(members) + "\n}" + tail == MemberLines(members) + ("\n}" + tail);
  }

  lemma Associate(a: string, b: string, c: string, d: string, e: string, f: string)
    ensures a + b + c + d + e + f == a + (b + (c + (d + (e + f))))
  {
  }

  lemma NextLinesSpelled(members: seq<(string, Value)>, tail: string)
    requires members != [] && AllScalar(members)
    ensures NextLines(members) + ("\n}" + tail) ==
      if |members| == 1 then "\n}" + tail else "," + (MemberLines(members[1..]) + "\n}" + tail)
  {
  }

  /** The last member line, followed by the closing brace. */
  lemma LastMemberLineReads(members: seq<(string, Value)>, done: seq<(string, Value)>, tail: string, s: string)
    requires |members| == 1 && AllScalar(members)
    requires s == MemberLines(members) + "\n}" + tail
    ensures ParseMembers(s, done) == Some((Object(done + members), tail))
  {
    MemberLinesSpelled(members, tail);
    NextLinesSpelled(members, tail);
    MemberThenEnd(s, done, members[0].0, members[0].1, tail);
    assert members == [(members[0].0, members[0].1)];
  }

  /** A member line followed by further member lines. */
  lemma MemberLineReads(members: seq<(string, Value)>, done: seq<(string, Value)>, tail: string, s: string)
    requires |members| > 1 && AllScalar(members)
    requires s == MemberLines(members) + "\n}" + tail
    ensures ParseMembers(s, done) == ParseMembers(MemberLines(members[1..]) + "\n}" + tail, done + [members[0]])
  {
    MemberLinesSpelled(members, tail);
    NextLinesSpelled(members, tail);
    MemberThenMore(s, done, members[0].0, members[0].1, MemberLines(members[1..]) + "\n}" + tail);
    assert members[0] == (members[0].0, members[0].1);
  }

  lemma {:induction false} MemberLinesRead(members: seq<(string, Value)>, done: seq<(string, Value)>, tail: string, s: string)
    requires members != [] && AllScalar(members)
    requires s == MemberLines(members) + "\n}" + tail
    ensures ParseMembers(s, done) == Some((Object(done + members), tail))
    decreases |members|
  {
    if |members| == 1 {
      LastMemberLineReads(members, done, tail, s);
    } else {
      MemberLineReads(members, done, tail, s);
      MemberLinesRead(members[1..], done + [members[0]], tail, MemberLines(members[1..]) + "\n}" + tail);
      assert done + [members[0]] + members[1..] == done + members;
    }
  }

  /** Round trip: `JSON.parse(JSON.stringify(object, null, 2) + "\n")` gives the object back. */
  lemma ParseStringify(members: seq<(string, Value)>)
    requires AllScalar(members)
    ensures Parse(Stringify(members) + "\n") == Some(Object(members))
  {
    if members == [] {
      EmptyObjectReads(Stringify(members) + "\n");
    } else {
      var body := MemberLines(members) + "\n}" + "\n";
      MemberLinesRead(members, [], "\n", body);
      assert [] + members == members;
      assert Stringify(members) + "\n" == "{" + body;
      MembersObjectReads(members, body, Stringify(members) + "\n");
    }
  }

  lemma EmptyObjectReads(text: string)
    requires text == "{}\n"
    ensures Parse(text) == Some(Object([]))
  {
    assert SkipWs(text) == text;
    assert SkipWs(text[1..]) == "}\n";
    assert ParseValue(text) == Some((Object([]), "\n"));
  }

  lemma MembersObjectReads(members: seq<(string, Value)>, body: string, text: string)
    requires text == "{" + body
    requires ParseMembers(body, []) == Some((Object(members), "\n"))
    ensures Parse(text) == Some(Object(members))
  {
    assert text[0] == '{' && text[1..] == body;
    assert SkipWs(text) == text;
    assert SkipWs(SkipWs(body)) == SkipWs(body);
    assert ParseMembers(SkipWs(body), []) == ParseMembers(body, []);
    assert ParseObject(body) == Some((Object(members), "\n"));
  }
}
