/**
 * The adapter's conversion helpers: grouping header pairs into a
 * name-to-values dictionary, decoding the request body of an invocation
 * payload, building the ASGI `http` scope from the payload, and moving
 * the vendored-dependencies directory to the front of the module search
 * path.
 */
module AdapterUtils {
  import opened Wrappers
  import opened Text
  import Base64

  type Bytes = seq<byte>

  // ---------------------------------------------------------------------------
  // Grouping header pairs

  function KeysOf(pairs: seq<(string, string)>): set<string> {
    set i | 0 <= i < |pairs| :: pairs[i].0
  }

  /** The values paired with `key`, in input order. */
  function ValuesFor(pairs: seq<(string, string)>, key: string): seq<string> {
    if pairs == [] then []
    else
      var last := pairs[|pairs| - 1];
      ValuesFor(pairs[..|pairs| - 1], key) + (if last.0 == key then [last.1] else [])
  }

  /** `r` maps each name that occurs in `pairs`, and only those, to its values in order. */
  predicate Grouped(r: map<string, seq<string>>, pairs: seq<(string, string)>) {
    r.Keys == KeysOf(pairs) && forall k :: k in r ==> r[k] == ValuesFor(pairs, k)
  }

  /** `result.setdefault(key, []).append(value)`. */
  function AddValue(r: map<string, seq<string>>, key: string, value: string): map<string, seq<string>> {
    r[key := (if key in r then r[key] else []) + [value]]
  }

  lemma {:induction false} ValuesForAbsent(pairs: seq<(string, string)>, key: string)
    requires key !in KeysOf(pairs)
    ensures ValuesFor(pairs, key) == []
  {
    if pairs != [] {
      var init := pairs[..|pairs| - 1];
      assert KeysOf(init) <= KeysOf(pairs) by {
        forall k | k in KeysOf(init) ensures k in KeysOf(pairs) {
          var i :| 0 <= i < |init| && init[i].0 == k;
          assert pairs[i].0 == k;
        }
      }
      assert pairs[|pairs| - 1].0 in KeysOf(pairs);
      ValuesForAbsent(init, key);
    }
  }

  lemma KeysOfSnoc(pairs: seq<(string, string)>, p: (string, string))
    ensures KeysOf(pairs + [p]) == KeysOf(pairs) + {p.0}
  {
    var s := pairs + [p];
    forall k | k in KeysOf(s) ensures k in KeysOf(pairs) + {p.0} {
      var i :| 0 <= i < |s| && s[i].0 == k;
      if i < |pairs| {
        assert pairs[i].0 == k;
      }
    }
    forall k | k in KeysOf(pairs) ensures k in KeysOf(s) {
      var i :| 0 <= i < |pairs| && pairs[i].0 == k;
      assert s[i].0 == k;
    }
    assert s[|pairs|].0 == p.0;
  }

  /** Adding one pair to a grouping groups the extended list. */
  lemma GroupStep(r: map<string, seq<string>>, pairs: seq<(string, string)>, key: string, value: string)
    requires Grouped(r, pairs)
    ensures Grouped(AddValue(r, key, value), pairs + [(key, value)])
  {
    var s := pairs + [(key, value)];
    assert s[..|s| - 1] == pairs;
    KeysOfSnoc(pairs, (key, value));
    if key !in r {
      ValuesForAbsent(pairs, key);
    }
  }

  /** A value is listed under a name exactly when the input pairs them. */
  lemma {:induction false} ValuesForMembers(pairs: seq<(string, string)>, key: string, value: string)
    ensures value in ValuesFor(pairs, key) <==> exists i :: 0 <= i < |pairs| && pairs[i] == (key, value)
  {
    if pairs != [] {
      var n := |pairs| - 1;
      var init := pairs[..n];
      ValuesForMembers(init, key, value);
      if exists i :: 0 <= i < |pairs| && pairs[i] == (key, value) {
        var i :| 0 <= i < |pairs| && pairs[i] == (key, value);
        if i < n {
          assert init[i] == (key, value);
        }
      }
      if exists i :: 0 <= i < |init| && init[i] == (key, value) {
        var i :| 0 <= i < |init| && init[i] == (key, value);
        assert pairs[i] == (key, value);
      }
    }
  }

  /** `format_headers(headers)` over the header pairs of an HTTP response, in order. */
  method FormatHeaders(headers: seq<(string, string)>) returns (r: map<string, seq<string>>)
    ensures Grouped(r, headers)
  {
    r := map[];
    var i := 0;
    while i < |headers|
      invariant 0 <= i <= |headers|
      invariant Grouped(r, headers[..i])
    {
      var (key, value) := headers[i];
      assert headers[..i + 1] == headers[..i] + [(key, value)];
      GroupStep(r, headers[..i], key, value);
      if key !in r {
        r := r[key := []];
      }
      r := r[key := r[key] + [value]];
      i := i + 1;
    }
    assert headers[..i] == headers;
  }

  /** An element of an ASGI header item: a byte string or a text string. */
  datatype Field = Raw(bytes: Bytes) | Text(text: string)

  /** `x.decode('latin1')` for bytes, `str(x)` for text. */
  function FieldText(f: Field): string {
    match f
    case Raw(b) => Latin1(b)
    case Text(s) => s
  }

  /** The `(name, value)` pairs of the items that unpack into two fields, decoded, in order. */
  function HeaderPairs(items: seq<seq<Field>>): seq<(string, string)> {
    if items == [] then []
    else
      var last := items[|items| - 1];
      HeaderPairs(items[..|items| - 1])
      + (if |last| == 2 then [(FieldText(last[0]), FieldText(last[1]))] else [])
  }

  lemma {:induction false} HeaderPairsAppend(a: seq<seq<Field>>, b: seq<seq<Field>>)
    ensures HeaderPairs(a + b) == HeaderPairs(a) + HeaderPairs(b)
    decreases |b|
  {
    if b == [] {
      assert a + b == a;
    } else {
      var n := |b| - 1;
      assert (a + b)[..|a + b| - 1] == a + b[..n];
      HeaderPairsAppend(a, b[..n]);
    }
  }

  /** An item that is empty or does not unpack into a name and a value is skipped. */
  lemma SkipsMalformedItem(a: seq<seq<Field>>, item: seq<Field>, b: seq<seq<Field>>)
    requires |item| != 2
    ensures HeaderPairs(a + [item] + b) == HeaderPairs(a + b)
  {
    HeaderPairsAppend(a + [item], b);
    HeaderPairsAppend(a, [item]);
    HeaderPairsAppend(a, b);
    assert [item][..0] == [];
  }

  /** Byte-string names and values are decoded as latin-1, which maps each byte to one character. */
  lemma RawHeaderDecoded(name: Bytes, value: Bytes)
    ensures HeaderPairs([[Raw(name), Raw(value)]]) == [(Latin1(name), Latin1(value))]
  {
    assert [[Raw(name), Raw(value)]][..0] == [];
  }

  /** `asgi_headers_to_multi_value(headers_bytes)`; `None` is a missing or `None` argument. */
  method AsgiHeadersToMultiValue(headers: Option<seq<seq<Field>>>) returns (r: map<string, seq<string>>)
    ensures Grouped(r, HeaderPairs(if headers.Some? then headers.value else []))
  {
    var items := if headers.Some? then headers.value else [];
    r := map[];
    var i := 0;
    while i < |items|
      invariant 0 <= i <= |items|
      invariant Grouped(r, HeaderPairs(items[..i]))
    {
      var item := items[i];
      assert items[..i + 1][..i] == items[..i];
      assert items[..i + 1][i] == item;
      assert HeaderPairs(items[..i + 1]) ==
        HeaderPairs(items[..i]) + (if |item| == 2 then [(FieldText(item[0]), FieldText(item[1]))] else []);
      if |item| == 2 {
        var key := FieldText(item[0]);
        var value := FieldText(item[1]);
        GroupStep(r, HeaderPairs(items[..i]), key, value);
        r := AddValue(r, key, value);
      } else {
        assert HeaderPairs(items[..i + 1]) == HeaderPairs(items[..i]);
      }
      i := i + 1;
    }
    assert items[..i] == items;
  }

  // ---------------------------------------------------------------------------
  // The request body

  /** The payload's `body` entry: missing, `None`, bytes, text, or any other value (by its `str`). */
  datatype Body =
    | Absent
    | NoneBody
    | RawBody(bytes: Bytes)
    | TextBody(text: string)
    | OtherBody(repr: string)

  /** `base64.b64decode(body)`; `None` where it raises. Text must be ASCII. */
  function B64Decode(body: Body): Option<Bytes> {
    match body
    case Absent => Base64.Decode([])
    case RawBody(b) => Base64.Decode(b)
    case TextBody(s) => if IsAscii(s) then Base64.Decode(AsciiBytes(s)) else None
    case NoneBody => None
    case OtherBody(_) => None
  }

  /**
   * The fallback after a failed decode: bytes as they are, text UTF-8
   * encoded, and `b''` for anything else (`None`, or a value without
   * `encode`, whose `AttributeError` is caught).
   */
  function RawFallback(body: Body): Bytes {
    match body
    case RawBody(b) => b
    case TextBody(s) => Utf8(s)
    case _ => []
  }

  /** `decode_body_from_payload(payload)`, for the payload's `body` and `encoding` entries. */
  function DecodeBody(body: Body, encoding: Option<string>): Bytes {
    if encoding == Some("base64") then
      match B64Decode(body)
      case Some(b) => b
      case None => RawFallback(body)
    else
      match body
      case RawBody(b) => b
      case Absent => []
      case NoneBody => []
      case TextBody(s) => Utf8(s)
      case OtherBody(repr) => Utf8(repr)
  }

  /** A base64-encoded body, given as bytes, decodes to what was encoded. */
  lemma DecodeEncodedBytes(b: Bytes)
    ensures DecodeBody(RawBody(Base64.Encode(b)), Some("base64")) == b
  {
    Base64.DecodeEncode(b);
  }

  /** A base64-encoded body, given as text, decodes to what was encoded. */
  lemma DecodeEncodedText(b: Bytes)
    ensures IsAscii(Latin1(Base64.Encode(b)))
    ensures DecodeBody(TextBody(Latin1(Base64.Encode(b))), Some("base64")) == b
  {
    var e := Base64.Encode(b);
    Base64.EncodeIsAscii(b);
    var t := Latin1(e);
    assert IsAscii(t);
    assert AsciiBytes(t) == e;
    Base64.DecodeEncode(b);
  }

  /** A body that is not valid base64 comes back as it was. */
  lemma UndecodableBodyKept()
    ensures DecodeBody(RawBody([65, 65, 65, 65, 65]), Some("base64")) == [65, 65, 65, 65, 65]
  {
    Base64.OneExtraCharacterFails();
  }

  /** Text that is not ASCII cannot be base64 decoded and is UTF-8 encoded instead. */
  lemma NonAsciiTextEncoded(s: string)
    requires !IsAscii(s)
    ensures DecodeBody(TextBody(s), Some("base64")) == Utf8(s)
  {
  }

  /** Without base64 encoding: bytes unchanged, no body or `None` is empty, text UTF-8 encoded. */
  lemma PlainBody(encoding: Option<string>, b: Bytes, s: string)
    requires encoding != Some("base64")
    ensures DecodeBody(RawBody(b), encoding) == b
    ensures DecodeBody(Absent, encoding) == [] && DecodeBody(NoneBody, encoding) == []
    ensures DecodeBody(TextBody(s), encoding) == Utf8(s)
  {
  }

  // ---------------------------------------------------------------------------
  // The ASGI scope

  /** A header value in the payload: a single value, or a list of values. */
  datatype HeaderValue = One(text: string) | Many(texts: seq<string>)

  predicate DistinctKeys(h: seq<(string, HeaderValue)>) {
    forall i, j :: 0 <= i < j < |h| ==> h[i].0 != h[j].0
  }

  /** A Python dictionary of headers, in insertion order. */
  type HeaderDict = h: seq<(string, HeaderValue)> | DistinctKeys(h)

  /** `headers.get(key)`. */
  function Get(h: seq<(string, HeaderValue)>, key: string): (r: Option<HeaderValue>)
    ensures r.Some? <==> exists i :: 0 <= i < |h| && h[i].0 == key
    ensures r.Some? ==> exists i :: 0 <= i < |h| && h[i] == (key, r.value)
  {
    if h == [] then None
    else if h[0].0 == key then Some(h[0].1)
    else
      var r := Get(h[1..], key);
      assert forall i :: 0 < i < |h| ==> h[i] == h[1..][i - 1];
      r
  }

  /** The invocation payload, as far as the scope and the body decoding read it. */
  datatype Payload = Payload(
    path: Option<string>,
    verb: Option<string>,
    headers: Option<HeaderDict>,
    trueClientIp: Option<string>,
    body: Body,
    encoding: Option<string>)

  /** `payload.get('headers', {}) or {}`. */
  function HeadersOf(p: Payload): HeaderDict {
    if p.headers.Some? then p.headers.value else []
  }

  /** One scope header: the lower-cased name and the value, both UTF-8 encoded. */
  function Encoded(key: string, value: string): (Bytes, Bytes) {
    (Utf8(AsciiLower(key)), Utf8(value))
  }

  function EncodedList(key: string, values: seq<string>): (r: seq<(Bytes, Bytes)>)
    ensures |r| == |values|
  {
    if values == [] then []
    else EncodedList(key, values[..|values| - 1]) + [Encoded(key, values[|values| - 1])]
  }

  function EntriesOf(key: string, v: HeaderValue): seq<(Bytes, Bytes)> {
    match v
    case One(s) => [Encoded(key, s)]
    case Many(vs) => EncodedList(key, vs)
  }

  /** The scope's `headers`: one pair per scalar header, one per element of a list-valued one. */
  function Expand(h: seq<(string, HeaderValue)>): seq<(Bytes, Bytes)> {
    if h == [] then []
    else Expand(h[..|h| - 1]) + EntriesOf(h[|h| - 1].0, h[|h| - 1].1)
  }

  function Width(v: HeaderValue): nat {
    match v
    case One(_) => 1
    case Many(vs) => |vs|
  }

  function HeaderCount(h: seq<(string, HeaderValue)>): nat {
    if h == [] then 0 else HeaderCount(h[..|h| - 1]) + Width(h[|h| - 1].1)
  }

  /** The number of scope headers is the sum of the list lengths plus one per scalar header. */
  lemma {:induction false} ExpandCount(h: seq<(string, HeaderValue)>)
    ensures |Expand(h)| == HeaderCount(h)
  {
    if h != [] {
      ExpandCount(h[..|h| - 1]);
    }
  }

  /** Every scope header name is a payload header name, lower-cased and encoded. */
  lemma {:induction false} ExpandNames(h: seq<(string, HeaderValue)>, n: nat)
    requires n < |Expand(h)|
    ensures exists j :: 0 <= j < |h| && Expand(h)[n].0 == Utf8(AsciiLower(h[j].0))
  {
    var init := h[..|h| - 1];
    var (k, v) := h[|h| - 1];
    if n < |Expand(init)| {
      ExpandNames(init, n);
      var j :| 0 <= j < |init| && Expand(init)[n].0 == Utf8(AsciiLower(init[j].0));
      assert h[j] == init[j];
    } else {
      var m := n - |Expand(init)|;
      assert Expand(h)[n] == EntriesOf(k, v)[m];
      EntriesNames(k, v, m);
    }
  }

  lemma EntriesNames(k: string, v: HeaderValue, m: nat)
    requires m < |EntriesOf(k, v)|
    ensures EntriesOf(k, v)[m].0 == Utf8(AsciiLower(k))
  {
    if v.Many? {
      EncodedListNames(k, v.texts, m);
    }
  }

  lemma {:induction false} EncodedListNames(k: string, values: seq<string>, m: nat)
    requires m < |values|
    ensures EncodedList(k, values)[m] == Encoded(k, values[m])
  {
    var init := values[..|values| - 1];
    if m < |init| {
      EncodedListNames(k, init, m);
    }
  }

  /** Builds the scope's headers the way the source does, one append at a time. */
  method ExpandHeaders(h: HeaderDict) returns (encoded: seq<(Bytes, Bytes)>)
    ensures encoded == Expand(h)
  {
    encoded := [];
    var i := 0;
    while i < |h|
      invariant 0 <= i <= |h|
      invariant encoded == Expand(h[..i])
      decreases |h| - i
    {
      var (k, v) := h[i];
      ExpandSnoc(h, i);
      match v {
        case One(s) =>
          encoded := encoded + [Encoded(k, s)];
        case Many(vs) =>
          encoded := AppendValues(encoded, k, vs);
      }
      i := i + 1;
    }
    assert h[..i] == h;
  }

  /** The inner loop over a list-valued header: one pair per element, in order. */
  method AppendValues(encoded: seq<(Bytes, Bytes)>, k: string, vs: seq<string>) returns (r: seq<(Bytes, Bytes)>)
    ensures r == encoded + EncodedList(k, vs)
  {
    r := encoded;
    var j := 0;
    while j < |vs|
      invariant 0 <= j <= |vs|
      invariant r == encoded + EncodedList(k, vs[..j])
    {
      EncodedListSnoc(k, vs, j);
      r := r + [Encoded(k, vs[j])];
      j := j + 1;
    }
    assert vs[..j] == vs;
  }

  lemma ExpandSnoc(h: seq<(string, HeaderValue)>, i: nat)
    requires i < |h|
    ensures Expand(h[..i + 1]) == Expand(h[..i]) + EntriesOf(h[i].0, h[i].1)
  {
    assert h[..i + 1][..i] == h[..i];
  }

  lemma EncodedListSnoc(k: string, vs: seq<string>, j: nat)
    requires j < |vs|
    ensures EncodedList(k, vs[..j + 1]) == EncodedList(k, vs[..j]) + [Encoded(k, vs[j])]
  {
    assert vs[..j + 1][..j] == vs[..j];
  }

  /** `int(headers.get('x-forwarded-port', 80))`, and 80 where `int` raises. */
  function ServerPort(h: HeaderDict): (r: int)
    ensures Get(h, "x-forwarded-port").None? ==> r == 80
    ensures r != 80 ==> exists s :: Get(h, "x-forwarded-port") == Some(One(s)) && ParseInt(s) == Some(r)
  {
    match Get(h, "x-forwarded-port")
    case None => 80
    case Some(One(s)) => if ParseInt(s).Some? then ParseInt(s).value else 80
    case Some(Many(_)) => 80
  }

  /** The forwarded port is used when it is a decimal integer, and 80 when the header is missing. */
  lemma ServerPortCases(h: HeaderDict, n: int)
    ensures Get(h, "x-forwarded-port") == Some(One(IntString(n))) ==> ServerPort(h) == n
    ensures Get(h, "x-forwarded-port").None? ==> ServerPort(h) == 80
  {
    ParseIntString(n);
  }

  /** A port that `int` cannot read falls back to 80. */
  lemma ServerPortUnparsable(h: HeaderDict)
    requires Get(h, "x-forwarded-port") == Some(One("eighty"))
    ensures ServerPort(h) == 80
  {
    var s := "eighty";
    assert TrimStart(s) == s;
    assert TrimEnd(s) == s;
    assert !IsDigitGroup(s) by {
      assert !IsDigit(s[0]);
    }
    assert ParseInt(s).None?;
  }

  /** `headers.get('x-forwarded-for', headers.get('x-real-ip', payload.get('true-client-ip', '')))`. */
  function ClientIp(h: HeaderDict, trueClientIp: Option<string>): HeaderValue {
    match Get(h, "x-forwarded-for")
    case Some(v) => v
    case None =>
      match Get(h, "x-real-ip")
      case Some(v) => v
      case None => One(if trueClientIp.Some? then trueClientIp.value else "")
  }

  /** In a dictionary each key has one entry, and `get` finds it. */
  lemma {:induction false} GetEntry(h: HeaderDict, i: nat)
    requires i < |h|
    ensures Get(h, h[i].0) == Some(h[i].1)
  {
    if i > 0 {
      assert h[0].0 != h[i].0;
      var t: HeaderDict := h[1..];
      assert t[i - 1] == h[i];
      GetEntry(t, i - 1);
    }
  }

  /** The client address is the first of x-forwarded-for, x-real-ip, the payload's true-client-ip, ''. */
  lemma ClientIpPrecedence(h: HeaderDict, t: Option<string>)
    ensures forall i :: 0 <= i < |h| && h[i].0 == "x-forwarded-for" ==> ClientIp(h, t) == h[i].1
    ensures forall i :: 0 <= i < |h| && h[i].0 == "x-real-ip" && Get(h, "x-forwarded-for").None? ==> ClientIp(h, t) == h[i].1
    ensures Get(h, "x-forwarded-for").None? && Get(h, "x-real-ip").None? ==>
      ClientIp(h, t) == One(if t.Some? then t.value else "")
  {
    forall i | 0 <= i < |h| {
      GetEntry(h, i);
    }
  }

  /** The parts `urllib.parse.urlparse` splits a URL into. */
  datatype Url = Url(scheme: string, netloc: string, path: string, params: string, query: string, fragment: string)

  /** The first index at or after `from` where `c` occurs. */
  function FindFrom(s: string, c: char, from: nat): (r: Option<nat>)
    requires from <= |s|
    ensures r.Some? ==> from <= r.value < |s| && s[r.value] == c && forall j :: from <= j < r.value ==> s[j] != c
    ensures r.None? ==> forall j :: from <= j < |s| ==> s[j] != c
    decreases |s| - from
  {
    if from == |s| then None
    else if s[from] == c then Some(from)
    else FindFrom(s, c, from + 1)
  }

  function Find(s: string, c: char): Option<nat> {
    FindFrom(s, c, 0)
  }

  /** The last index where `c` occurs. */
  function RFind(s: string, c: char): (r: Option<nat>)
    ensures r.Some? ==> r.value < |s| && s[r.value] == c
  {
    if s == [] then None
    else if s[|s| - 1] == c then Some(|s| - 1)
    else RFind(s[..|s| - 1], c)
  }

  predicate IsAsciiLetter(c: char) {
    'a' <= c <= 'z' || 'A' <= c <= 'Z'
  }

  predicate IsSchemeChar(c: char) {
    IsAsciiLetter(c) || '0' <= c <= '9' || c == '+' || c == '-' || c == '.'
  }

  /** WHATWG C0 control or space, stripped from the front. */
  function StripLeading(s: string): (r: string)
    ensures |r| <= |s|
  {
    if s != [] && s[0] <= ' ' then StripLeading(s[1..]) else s
  }

  /** Tab, carriage return and line feed are removed everywhere. */
  function RemoveUnsafe(s: string): (r: string)
    ensures forall i :: 0 <= i < |r| ==> r[i] != '\t' && r[i] != '\r' && r[i] != '\n'
  {
    if s == [] then []
    else (if s[0] == '\t' || s[0] == '\r' || s[0] == '\n' then [] else [s[0]]) + RemoveUnsafe(s[1..])
  }

  /** `split(c, 1)`: before and after the first `c`, or the whole string and '' when there is none. */
  function SplitAt(s: string, c: char): (string, string) {
    match Find(s, c)
    case None => (s, "")
    case Some(i) => (s[..i], s[i + 1..])
  }

  /** Schemes whose URLs `urlparse` splits parameters from. */
  const UsesParams: set<string> := {"", "ftp", "hdl", "prospero", "http", "imap", "https", "shttp",
    "rtsp", "rtsps", "rtspu", "sip", "sips", "mms", "sftp", "tel"}

  /** `_splitparams`: the parameters start at the first `;` of the last segment. */
  function SplitParams(url: string): (string, string) {
    var i := match RFind(url, '/')
      case Some(slash) => FindFrom(url, ';', slash)
      case None => Find(url, ';');
    match i
    case None => (url, "")
    case Some(j) => (url[..j], url[j + 1..])
  }

  /** `urllib.parse.urlparse(url)`. */
  function UrlParse(url0: string): Url {
    var url1 := RemoveUnsafe(StripLeading(url0));
    var colon := Find(url1, ':');
    var hasScheme := colon.Some? && colon.value > 0 && IsAsciiLetter(url1[0])
      && forall j :: 0 <= j < colon.value ==> IsSchemeChar(url1[j]);
    var scheme := if hasScheme then AsciiLower(url1[..colon.value]) else "";
    var url2 := if hasScheme then url1[colon.value + 1..] else url1;
    var hasNetloc := |url2| >= 2 && url2[..2] == "//";
    var delim := if hasNetloc then NetlocEnd(url2) else 0;
    var netloc := if hasNetloc then url2[2..delim] else "";
    var url3 := if hasNetloc then url2[delim..] else url2;
    var (url4, fragment) := SplitAt(url3, '#');
    var (url5, query) := SplitAt(url4, '?');
    var (path, params) := if scheme in UsesParams then SplitParams(url5) else (url5, "");
    Url(scheme, netloc, path, params, query, fragment)
  }

  /** `_splitnetloc(url, 2)`: the netloc ends at the first `/`, `?` or `#`. */
  function NetlocEnd(url: string): (r: nat)
    requires |url| >= 2
    ensures 2 <= r <= |url|
  {
    var a := FindFrom(url, '/', 2);
    var b := FindFrom(url, '?', 2);
    var c := FindFrom(url, '#', 2);
    var r := |url|;
    var r := if a.Some? && a.value < r then a.value else r;
    var r := if b.Some? && b.value < r then b.value else r;
    if c.Some? && c.value < r then c.value else r
  }

  /** An absolute path with no query, fragment, parameters, or characters `urlparse` strips. */
  predicate PlainPath(p: string) {
    |p| >= 1 && p[0] == '/' && (|p| == 1 || p[1] != '/')
    && forall i :: 0 <= i < |p| ==> p[i] != '?' && p[i] != '#' && p[i] != ';' && p[i] > ' '
  }

  lemma RemoveUnsafeKeeps(s: string)
    requires forall i :: 0 <= i < |s| ==> s[i] > ' '
    ensures RemoveUnsafe(s) == s
  {
  }

  /** A URL that starts with a single `/` has no scheme and no netloc. */
  lemma UrlParseAbsolute(u: string)
    requires |u| >= 1 && u[0] == '/' && (|u| == 1 || u[1] != '/')
    requires forall i :: 0 <= i < |u| ==> u[i] > ' ' && u[i] != '#'
    ensures var (rest, query) := SplitAt(u, '?');
      UrlParse(u) == Url("", "", SplitParams(rest).0, SplitParams(rest).1, query, "")
  {
    assert StripLeading(u) == u;
    RemoveUnsafeKeeps(u);
    assert !IsAsciiLetter(u[0]);
    assert |u| < 2 || u[..2] != "//" by {
      if |u| >= 2 { assert u[..2][1] == u[1]; }
    }
    assert Find(u, '#').None?;
  }

  /** A plain path with a query string splits into exactly the two. */
  lemma UrlParsePathQuery(p: string, q: string)
    requires PlainPath(p)
    requires forall i :: 0 <= i < |q| ==> q[i] != '#' && q[i] > ' '
    ensures UrlParse(p + "?" + q).path == p
    ensures UrlParse(p + "?" + q).query == q
  {
    var u := p + "?" + q;
    assert u[0] == p[0];
    assert |u| == 1 || u[1] != '/' by {
      if |p| == 1 { assert u[1] == '?'; } else { assert u[1] == p[1]; }
    }
    assert forall j :: 0 <= j < |u| ==> u[j] > ' ' && u[j] != '#' by {
      forall j | 0 <= j < |u| ensures u[j] > ' ' && u[j] != '#' {
        if j < |p| { assert u[j] == p[j]; }
        else if j > |p| { assert u[j] == q[j - |p| - 1]; }
      }
    }
    UrlParseAbsolute(u);
    assert Find(u, '?') == Some(|p|) by {
      assert u[|p|] == '?';
      assert forall j :: 0 <= j < |p| ==> u[j] == p[j];
    }
    assert u[..|p|] == p && u[|p| + 1..] == q;
    NoSemicolon(p);
  }

  /** A plain path is its own path, with an empty query. */
  lemma UrlParsePath(p: string)
    requires PlainPath(p)
    ensures UrlParse(p).path == p && UrlParse(p).query == ""
  {
    UrlParseAbsolute(p);
    assert Find(p, '?').None?;
    NoSemicolon(p);
  }

  lemma NoSemicolon(p: string)
    requires PlainPath(p)
    ensures SplitParams(p) == (p, "")
  {
    match RFind(p, '/')
    case Some(slash) =>
      var r := FindFrom(p, ';', slash);
      assert r.None?;
    case None =>
  }

  /** The ASGI `http` scope (`server` and `client` pair a host or address with a port). */
  datatype Scope = Scope(
    server: (HeaderValue, int),
    client: (HeaderValue, int),
    scheme: HeaderValue,
    rootPath: string,
    queryString: Bytes,
    headers: seq<(Bytes, Bytes)>,
    kind: string,
    httpVersion: string,
    verb: string,
    path: string,
    rawPath: Bytes)

  /** `build_asgi_scope_from_payload(payload)`; the error is the key whose lookup raises `KeyError`. */
  method BuildAsgiScope(payload: Payload) returns (r: Result<Scope, string>)
    ensures payload.path.None? ==> r == Err("path")
    ensures payload.path.Some? && payload.verb.None? ==> r == Err("method")
    ensures r.Ok? <==> payload.path.Some? && payload.verb.Some?
    ensures r.Ok? ==>
      var h := HeadersOf(payload);
      var url := UrlParse(payload.path.value);
      r.value.server == (if Get(h, "host").Some? then Get(h, "host").value else One("lambda"), ServerPort(h))
      && r.value.client == (ClientIp(h, payload.trueClientIp), 0)
      && r.value.scheme == (if Get(h, "x-forwarded-proto").Some? then Get(h, "x-forwarded-proto").value else One("http"))
      && r.value.rootPath == "" && r.value.kind == "http" && r.value.httpVersion == "1.1"
      && r.value.queryString == Utf8(url.query)
      && r.value.headers == Expand(h)
      && r.value.verb == payload.verb.value
      && r.value.path == url.path && r.value.rawPath == Utf8(url.path)
  {
    var headers := HeadersOf(payload);
    if payload.path.None? {
      return Err("path");
    }
    var url := UrlParse(payload.path.value);
    var encoded := ExpandHeaders(headers);
    var host := Get(headers, "host");
    var serverHost := if host.Some? then host.value else One("lambda");
    var serverPort := ServerPort(headers);
    var clientIp := ClientIp(headers, payload.trueClientIp);
    var proto := Get(headers, "x-forwarded-proto");
    if payload.verb.None? {
      return Err("method");
    }
    r := Ok(Scope(
      (serverHost, serverPort),
      (clientIp, 0),
      if proto.Some? then proto.value else One("http"),
      "",
      Utf8(url.query),
      encoded,
      "http",
      "1.1",
      payload.verb.value,
      url.path,
      Utf8(url.path)));
  }

  // ---------------------------------------------------------------------------
  // The module search path

  /** `s` with every occurrence of `v` removed, the rest in order. */
  function Without(s: seq<string>, v: string): (r: seq<string>)
    ensures v !in r
  {
    if s == [] then [] else (if s[0] == v then [] else [s[0]]) + Without(s[1..], v)
  }

  function Occurrences(s: seq<string>, v: string): nat {
    if s == [] then 0 else (if s[0] == v then 1 else 0) + Occurrences(s[1..], v)
  }

  /** Where the vendor directory goes: after the script directory when that leads the path. */
  function VendorIndex(s: seq<string>, entrypoint: string): (i: nat)
    ensures i <= |s|
  {
    if |s| > 0 && (s[0] == "" || s[0] == entrypoint) then 1 else 0
  }

  /** The path after the edit: every occurrence removed, then one inserted at the vendor index. */
  function Placed(s: seq<string>, entrypoint: string, vendor: string): seq<string> {
    var t := Without(s, vendor);
    var i := VendorIndex(t, entrypoint);
    t[..i] + [vendor] + t[i..]
  }

  lemma {:induction false} WithoutAppend(a: seq<string>, b: seq<string>, v: string)
    ensures Without(a + b, v) == Without(a, v) + Without(b, v)
  {
    if a == [] {
      assert a + b == b;
    } else {
      assert (a + b)[1..] == a[1..] + b;
      WithoutAppend(a[1..], b, v);
    }
  }

  lemma {:induction false} WithoutAbsent(s: seq<string>, v: string)
    requires v !in s
    ensures Without(s, v) == s
  {
    if s != [] {
      WithoutAbsent(s[1..], v);
    }
  }

  lemma {:induction false} OccurrencesAppend(a: seq<string>, b: seq<string>, v: string)
    ensures Occurrences(a + b, v) == Occurrences(a, v) + Occurrences(b, v)
  {
    if a == [] {
      assert a + b == b;
    } else {
      assert (a + b)[1..] == a[1..] + b;
      OccurrencesAppend(a[1..], b, v);
    }
  }

  lemma {:induction false} OccurrencesAbsent(s: seq<string>, v: string)
    requires v !in s
    ensures Occurrences(s, v) == 0
  {
    if s != [] {
      OccurrencesAbsent(s[1..], v);
    }
  }

  /**
   * After the edit the vendor directory is on the path exactly once, at
   * index 1 behind a leading '' or script directory and at 0 otherwise,
   * and the other entries keep their relative order.
   */
  lemma PlacedProperties(s: seq<string>, entrypoint: string, vendor: string)
    ensures var p := Placed(s, entrypoint, vendor);
      var t := Without(s, vendor);
      Occurrences(p, vendor) == 1
      && p[VendorIndex(t, entrypoint)] == vendor
      && (VendorIndex(t, entrypoint) == 1 <==> |t| > 0 && (t[0] == "" || t[0] == entrypoint))
      && Without(p, vendor) == t
  {
    var t := Without(s, vendor);
    var i := VendorIndex(t, entrypoint);
    var p := t[..i] + [vendor] + t[i..];
    assert t == t[..i] + t[i..];
    assert vendor !in t[..i] && vendor !in t[i..];
    OccurrencesAppend(t[..i] + [vendor], t[i..], vendor);
    OccurrencesAppend(t[..i], [vendor], vendor);
    OccurrencesAbsent(t[..i], vendor);
    OccurrencesAbsent(t[i..], vendor);
    assert Occurrences([vendor], vendor) == 1 by {
      assert [vendor][1..] == [];
    }
    WithoutAppend(t[..i] + [vendor], t[i..], vendor);
    WithoutAppend(t[..i], [vendor], vendor);
    WithoutAbsent(t[..i], vendor);
    WithoutAbsent(t[i..], vendor);
    assert Without([vendor], vendor) == [] by {
      assert [vendor][1..] == [];
    }
    assert p[i] == vendor;
  }

  /** Removing one occurrence of `v` does not change what is left once every `v` is gone. */
  lemma RemoveOne(s: seq<string>, i: nat, v: string)
    requires i < |s| && s[i] == v
    ensures Without(s[..i] + s[i + 1..], v) == Without(s, v)
  {
    assert s == s[..i] + [v] + s[i + 1..];
    WithoutSplice(s[..i], v, s[i + 1..]);
  }

  lemma {:induction false} WithoutSplice(a: seq<string>, v: string, b: seq<string>)
    ensures Without(a + [v] + b, v) == Without(a + b, v)
  {
    var s := a + [v] + b;
    if a == [] {
      assert s[0] == v && s[1..] == b && a + b == b;
    } else {
      assert s[0] == a[0] && (a + b)[0] == a[0];
      assert s[1..] == a[1..] + [v] + b;
      assert (a + b)[1..] == a[1..] + b;
      WithoutSplice(a[1..], v, b);
    }
  }

  /** `sys.path`. */
  class PythonPath {
    var entries: seq<string>

    constructor (initial: seq<string>)
      ensures entries == initial
    {
      entries := initial;
    }

    /**
     * `add_vendor_to_path(entrypoint, vendor)`. `isDir` is
     * `os.path.isdir(vendor)`; `siteAdditions` are the entries
     * `site.addsitedir(vendor)` appends (the directory itself, unless
     * already present, and the directories its `.pth` files name).
     */
    method AddVendor(entrypoint: string, vendor: string, isDir: bool, siteAdditions: seq<string>)
      modifies this
      ensures !isDir ==> entries == old(entries)
      ensures isDir ==> entries == Placed(old(entries) + siteAdditions, entrypoint, vendor)
    {
      if !isDir {
        return;
      }
      entries := entries + siteAdditions;
      ghost var added := entries;
      while vendor in entries
        invariant Without(entries, vendor) == Without(added, vendor)
        decreases |entries|
      {
        var i := FirstIndex(entries, vendor);
        RemoveOne(entries, i, vendor);
        entries := entries[..i] + entries[i + 1..];
      }
      WithoutAbsent(entries, vendor);
      var idx := if |entries| > 0 && (entries[0] == "" || entries[0] == entrypoint) then 1 else 0;
      entries := entries[..idx] + [vendor] + entries[idx..];
    }
  }

  /** `list.index(v)`: the first position of `v`. */
  function FirstIndex(s: seq<string>, v: string): (i: nat)
    requires v in s
    ensures i < |s| && s[i] == v && forall j :: 0 <= j < i ==> s[j] != v
  {
    if s[0] == v then 0 else 1 + FirstIndex(s[1..], v)
  }
}
