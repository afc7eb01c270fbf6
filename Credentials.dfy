/**
 * The CLI's `auth.json` credentials store: the schema the file is
 * validated against, the choice of the directory that holds it, and a
 * store object whose `get` reads and validates the file and whose
 * `update` overwrites it.
 */
module Credentials {
  import opened Wrappers
  import opened FileSystem
  import Json

  /** The validated contents of `auth.json`; every field is optional. */
  datatype Credentials = Credentials(
    token: Option<string>,
    refreshToken: Option<string>,
    expiresAt: Option<(int, int)>,  // a JSON number, as mantissa and decimal exponent
    skipWrite: Option<bool>,
    note: Option<string>,
    docs: Option<string>)

  /** What the schema demands beyond the field types: a refresh token is never empty. */
  predicate Conforms(c: Credentials) {
    c.refreshToken != Some("")
  }

  // ---------------------------------------------------------------------------
  // Schema

  const TokenKey := "token"
  const RefreshTokenKey := "refreshToken"
  const ExpiresAtKey := "expiresAt"
  const SkipWriteKey := "skipWrite"
  const NoteKey := "// Note"
  const DocsKey := "// Docs"

  /** The schema's keys in declaration order. */
  const SchemaKeys: seq<string> := [TokenKey, RefreshTokenKey, ExpiresAtKey, SkipWriteKey, NoteKey, DocsKey]

  datatype SchemaError =
    | NotAnObject
    | InvalidFields(keys: seq<string>)

  /** Whether one field, absent or present, satisfies its schema entry. */
  predicate FieldValid(key: string, v: Option<Json.Value>) {
    match v
    case None => true
    case Some(x) =>
      if key == RefreshTokenKey then x.String? && |x.s| >= 1
      else if key == ExpiresAtKey then x.Number?
      else if key == SkipWriteKey then x.Bool?
      else x.String?
  }

  /** The keys among `keys` whose field fails its schema entry, in order. */
  function Invalid(members: seq<(string, Json.Value)>, keys: seq<string>): (r: seq<string>)
    ensures forall k :: k in r <==> k in keys && !FieldValid(k, Json.Lookup(members, k))
  {
    if keys == [] then []
    else
      (if FieldValid(keys[0], Json.Lookup(members, keys[0])) then [] else [keys[0]])
      + Invalid(members, keys[1..])
  }

  function AsString(v: Option<Json.Value>): Option<string> {
    if v.Some? && v.value.String? then Some(v.value.s) else None
  }

  function AsNumber(v: Option<Json.Value>): Option<(int, int)> {
    if v.Some? && v.value.Number? then Some((v.value.mantissa, v.value.exponent)) else None
  }

  function AsBool(v: Option<Json.Value>): Option<bool> {
    if v.Some? && v.value.Bool? then Some(v.value.b) else None
  }

  /**
   * `Credentials.parse(value)`: an object whose six known fields have the
   * right types passes, and keys the schema does not name are dropped.
   */
  function Validate(v: Json.Value): (r: Result<Credentials, SchemaError>)
    ensures r.Ok? <==> v.Object? && forall k :: k in SchemaKeys ==> FieldValid(k, Json.Lookup(v.members, k))
    ensures r.Ok? ==> Conforms(r.value)
    ensures r.Ok? ==> v.Object? && (r.value.refreshToken.Some? <==> Json.Lookup(v.members, RefreshTokenKey).Some?)
    ensures r.Ok? ==> forall k :: k in SchemaKeys ==> FieldValue(r.value, k) == Json.Lookup(v.members, k)
    ensures r.Err? && v.Object? ==> r.error.InvalidFields? && r.error.keys != []
  {
    if !v.Object? then Err(NotAnObject)
    else
      var m := v.members;
      var bad := Invalid(m, SchemaKeys);
      if bad != [] then
        assert bad[0] in bad;
        Err(InvalidFields(bad))
      else
        assert FieldValid(RefreshTokenKey, Json.Lookup(m, RefreshTokenKey)) by {
          assert RefreshTokenKey in SchemaKeys;
        }
        FieldsAgree(m);
        Ok(Fields(m))
  }

  /** Where every schema field is valid, reading the fields out loses nothing. */
  lemma FieldsAgree(m: seq<(string, Json.Value)>)
    requires forall k :: k in SchemaKeys ==> FieldValid(k, Json.Lookup(m, k))
    ensures forall k :: k in SchemaKeys ==> FieldValue(Fields(m), k) == Json.Lookup(m, k)
  {
    forall k | k in SchemaKeys ensures FieldValue(Fields(m), k) == Json.Lookup(m, k) {
      assert FieldValid(k, Json.Lookup(m, k));
    }
  }

  /** The six schema fields read out of an object, whatever their types. */
  function Fields(m: seq<(string, Json.Value)>): Credentials {
    Credentials(
      AsString(Json.Lookup(m, TokenKey)),
      AsString(Json.Lookup(m, RefreshTokenKey)),
      AsNumber(Json.Lookup(m, ExpiresAtKey)),
      AsBool(Json.Lookup(m, SkipWriteKey)),
      AsString(Json.Lookup(m, NoteKey)),
      AsString(Json.Lookup(m, DocsKey)))
  }

  /** Unknown keys make no difference: two objects that agree on the schema's keys validate alike. */
  lemma ValidateIgnoresUnknownKeys(a: seq<(string, Json.Value)>, b: seq<(string, Json.Value)>)
    requires forall k :: k in SchemaKeys ==> Json.Lookup(a, k) == Json.Lookup(b, k)
    ensures Validate(Json.Object(a)) == Validate(Json.Object(b))
  {
    InvalidAgree(a, b, SchemaKeys);
  }

  lemma {:induction false} InvalidAgree(a: seq<(string, Json.Value)>, b: seq<(string, Json.Value)>, keys: seq<string>)
    requires forall k :: k in keys ==> Json.Lookup(a, k) == Json.Lookup(b, k)
    ensures Invalid(a, keys) == Invalid(b, keys)
  {
    if keys != [] {
      assert keys[0] in keys;
      InvalidAgree(a, b, keys[1..]);
    }
  }

  /** An empty refresh token is refused, and it is the only field named in the error. */
  lemma EmptyRefreshTokenRejected()
    ensures Validate(Json.Object([(RefreshTokenKey, Json.String(""))])) == Err(InvalidFields([RefreshTokenKey]))
  {
    var m := [(RefreshTokenKey, Json.String(""))];
    assert Json.Lookup(m, TokenKey) == None;
    assert Json.Lookup(m, ExpiresAtKey) == None;
    assert Json.Lookup(m, SkipWriteKey) == None;
    assert Json.Lookup(m, NoteKey) == None;
    assert Json.Lookup(m, DocsKey) == None;
    assert Invalid(m, [DocsKey]) == [];
    assert Invalid(m, [NoteKey, DocsKey]) == [] by {
      assert [NoteKey, DocsKey][1..] == [DocsKey];
    }
    assert Invalid(m, [SkipWriteKey, NoteKey, DocsKey]) == [] by {
      assert [SkipWriteKey, NoteKey, DocsKey][1..] == [NoteKey, DocsKey];
    }
    assert Invalid(m, [ExpiresAtKey, SkipWriteKey, NoteKey, DocsKey]) == [] by {
      assert [ExpiresAtKey, SkipWriteKey, NoteKey, DocsKey][1..] == [SkipWriteKey, NoteKey, DocsKey];
    }
    assert Invalid(m, SchemaKeys[1..]) == [RefreshTokenKey] by {
      assert SchemaKeys[1..][1..] == [ExpiresAtKey, SkipWriteKey, NoteKey, DocsKey];
    }
    assert Invalid(m, SchemaKeys) == [RefreshTokenKey];
  }

  // ---------------------------------------------------------------------------
  // Serialisation

  function Field(key: string, v: Option<Json.Value>): seq<(string, Json.Value)> {
    if v.Some? then [(key, v.value)] else []
  }

  function StringValue(s: Option<string>): Option<Json.Value> {
    if s.Some? then Some(Json.String(s.value)) else None
  }

  /** The JSON value of the field stored under `key`, if the credentials carry it. */
  function FieldValue(c: Credentials, key: string): (r: Option<Json.Value>)
    ensures r.Some? ==> Json.IsScalar(r.value)
  {
    if key == TokenKey then StringValue(c.token)
    else if key == RefreshTokenKey then StringValue(c.refreshToken)
    else if key == ExpiresAtKey then
      (if c.expiresAt.Some? then Some(Json.Number(c.expiresAt.value.0, c.expiresAt.value.1)) else None)
    else if key == SkipWriteKey then
      (if c.skipWrite.Some? then Some(Json.Bool(c.skipWrite.value)) else None)
    else if key == NoteKey then StringValue(c.note)
    else if key == DocsKey then StringValue(c.docs)
    else None
  }

  function MembersOf(c: Credentials, keys: seq<string>): (r: seq<(string, Json.Value)>)
    ensures Json.AllScalar(r)
  {
    if keys == [] then []
    else
      var head := Field(keys[0], FieldValue(c, keys[0]));
      var rest := MembersOf(c, keys[1..]);
      assert forall i :: |head| <= i < |head + rest| ==> (head + rest)[i] == rest[i - |head|];
      head + rest
  }

  /** The object `JSON.stringify` is given: the fields present, in schema order. */
  function Members(c: Credentials): (r: seq<(string, Json.Value)>)
    ensures Json.AllScalar(r)
  {
    MembersOf(c, SchemaKeys)
  }

  /** `JSON.stringify(config, null, 2) + '\n'`. */
  function Serialize(c: Credentials): string {
    Json.Stringify(Members(c)) + "\n"
  }

  lemma {:induction false} LookupAppend(a: seq<(string, Json.Value)>, b: seq<(string, Json.Value)>, k: string)
    ensures Json.Lookup(a + b, k) == if Json.Lookup(b, k).Some? then Json.Lookup(b, k) else Json.Lookup(a, k)
    decreases |b|
  {
    if b != [] {
      var n := |b| - 1;
      assert (a + b)[..|a + b| - 1] == a + b[..n];
      assert (a + b)[|a + b| - 1] == b[n];
      LookupAppend(a, b[..n], k);
    } else {
      assert a + b == a;
    }
  }

  lemma LookupField(key: string, v: Option<Json.Value>, k: string)
    ensures Json.Lookup(Field(key, v), k) == if k == key then v else None
  {
    if v.Some? {
      assert Field(key, v)[..0] == [];
    }
  }

  predicate Distinct(keys: seq<string>) {
    forall i, j :: 0 <= i < j < |keys| ==> keys[i] != keys[j]
  }

  lemma {:induction false} LookupMembersOf(c: Credentials, keys: seq<string>, k: string)
    requires Distinct(keys)
    ensures Json.Lookup(MembersOf(c, keys), k) == if k in keys then FieldValue(c, k) else None
  {
    if keys != [] {
      var head := Field(keys[0], FieldValue(c, keys[0]));
      LookupAppend(head, MembersOf(c, keys[1..]), k);
      LookupField(keys[0], FieldValue(c, keys[0]), k);
      assert Distinct(keys[1..]) by {
        forall i, j | 0 <= i < j < |keys[1..]| ensures keys[1..][i] != keys[1..][j] {
          assert keys[1..][i] == keys[i + 1] && keys[1..][j] == keys[j + 1];
        }
      }
      LookupMembersOf(c, keys[1..], k);
      assert k in keys <==> k == keys[0] || k in keys[1..];
      if k == keys[0] {
        assert k !in keys[1..] by {
          forall j | 0 <= j < |keys[1..]| ensures keys[1..][j] != k {
            assert keys[1..][j] == keys[j + 1];
          }
        }
      }
    }
  }

  /** Each schema key of the written object holds just that field of the credentials. */
  lemma LookupMembers(c: Credentials, k: string)
    ensures Json.Lookup(Members(c), k) == if k in SchemaKeys then FieldValue(c, k) else None
  {
    assert Distinct(SchemaKeys);
    LookupMembersOf(c, SchemaKeys, k);
  }

  /** Validating the object written for conforming credentials gives them back. */
  lemma ValidateMembers(c: Credentials)
    requires Conforms(c)
    ensures Validate(Json.Object(Members(c))) == Ok(c)
  {
    var m := Members(c);
    forall k | k in SchemaKeys ensures Json.Lookup(m, k) == FieldValue(c, k) {
      LookupMembers(c, k);
    }
    ValidateFields(c, m);
  }

  /** An object whose schema keys hold the fields of conforming credentials validates to them. */
  lemma ValidateFields(c: Credentials, m: seq<(string, Json.Value)>)
    requires Conforms(c)
    requires forall k :: k in SchemaKeys ==> Json.Lookup(m, k) == FieldValue(c, k)
    ensures Validate(Json.Object(m)) == Ok(c)
  {
    FieldsValid(c, m);
    NoneInvalid(m, SchemaKeys);
    FieldsOf(c, m);
  }

  lemma FieldsOf(c: Credentials, m: seq<(string, Json.Value)>)
    requires forall k :: k in SchemaKeys ==> Json.Lookup(m, k) == FieldValue(c, k)
    ensures Fields(m) == c
  {
    assert TokenKey in SchemaKeys && RefreshTokenKey in SchemaKeys && ExpiresAtKey in SchemaKeys;
    assert SkipWriteKey in SchemaKeys && NoteKey in SchemaKeys && DocsKey in SchemaKeys;
    assert Json.Lookup(m, TokenKey) == StringValue(c.token);
    assert Json.Lookup(m, RefreshTokenKey) == StringValue(c.refreshToken);
    assert Json.Lookup(m, NoteKey) == StringValue(c.note);
    assert Json.Lookup(m, DocsKey) == StringValue(c.docs);
  }

  lemma {:induction false} NoneInvalid(m: seq<(string, Json.Value)>, keys: seq<string>)
    requires forall k :: k in keys ==> FieldValid(k, Json.Lookup(m, k))
    ensures Invalid(m, keys) == []
  {
    if keys != [] {
      assert keys[0] in keys;
      NoneInvalid(m, keys[1..]);
    }
  }

  lemma FieldsValid(c: Credentials, m: seq<(string, Json.Value)>)
    requires Conforms(c)
    requires forall k :: k in SchemaKeys ==> Json.Lookup(m, k) == FieldValue(c, k)
    ensures forall k :: k in SchemaKeys ==> FieldValid(k, Json.Lookup(m, k))
  {
    forall k | k in SchemaKeys ensures FieldValid(k, Json.Lookup(m, k)) {
      assert Json.Lookup(m, k) == FieldValue(c, k);
    }
  }

  /** The file `update` writes reads back, through `JSON.parse` and the schema, as the credentials written. */
  lemma ParseSerialize(c: Credentials)
    requires Conforms(c)
    ensures Json.Parse(Serialize(c)).Some?
    ensures Validate(Json.Parse(Serialize(c)).value) == Ok(c)
  {
    Json.ParseStringify(Members(c));
    ValidateMembers(c);
  }

  // ---------------------------------------------------------------------------
  // Where the file lives

  /**
   * The directories looked at, in order: the tool's own XDG data
   * directories, the legacy `~/.now`, then the XDG data directories of
   * the legacy name `now`. `dataDirs` stands for `XDGAppPaths(name).dataDirs()`.
   */
  function Candidates(dataDirs: string -> seq<string>, home: string, dir: string): (r: seq<string>)
    ensures |r| == |dataDirs(dir)| + 1 + |dataDirs("now")|
    ensures r[..|dataDirs(dir)|] == dataDirs(dir)
    ensures r[|dataDirs(dir)|] == Join(home, ".now")
    ensures r[|dataDirs(dir)| + 1..] == dataDirs("now")
  {
    dataDirs(dir) + [Join(home, ".now")] + dataDirs("now")
  }

  /** `candidates.find(isDirectory)`. */
  function FirstDirectory(fs: Tree, candidates: seq<string>): (r: Option<string>)
    ensures r.Some? ==> exists i :: (0 <= i < |candidates| && candidates[i] == r.value
      && IsDirectory(fs, r.value) && forall j :: 0 <= j < i ==> !IsDirectory(fs, candidates[j]))
    ensures r.None? <==> forall j :: 0 <= j < |candidates| ==> !IsDirectory(fs, candidates[j])
  {
    if candidates == [] then None
    else if IsDirectory(fs, candidates[0]) then
      assert candidates[0] == candidates[0];
      Some(candidates[0])
    else
      var r := FirstDirectory(fs, candidates[1..]);
      if r.Some? then
        var i :| 0 <= i < |candidates[1..]| && candidates[1..][i] == r.value
          && IsDirectory(fs, r.value) && forall j :: 0 <= j < i ==> !IsDirectory(fs, candidates[1..][j]);
        assert candidates[i + 1] == r.value;
        assert forall j :: 0 <= j < i + 1 ==> !IsDirectory(fs, candidates[j]) by {
          forall j | 0 <= j < i + 1 ensures !IsDirectory(fs, candidates[j]) {
            if j > 0 {
              assert candidates[j] == candidates[1..][j - 1];
            }
          }
        }
        r
      else
        assert forall j :: 1 <= j < |candidates| ==> candidates[j] == candidates[1..][j - 1];
        r
  }

  /**
   * `getGlobalPathConfig(dir)`: the first candidate that is a directory,
   * else the tool's first data directory. With no data directory at all
   * the source reaches `path.join(undefined, ...)`, which throws; that is `None`.
   */
  function ConfigDir(fs: Tree, dataDirs: string -> seq<string>, home: string, dir: string): (r: Option<string>)
    ensures r.None? <==> dataDirs(dir) == [] && FirstDirectory(fs, Candidates(dataDirs, home, dir)).None?
    ensures var cs := Candidates(dataDirs, home, dir);
      (exists i :: 0 <= i < |cs| && IsDirectory(fs, cs[i])) ==>
        r.Some? && exists i :: (0 <= i < |cs| && cs[i] == r.value && IsDirectory(fs, cs[i])
                                 && forall j :: 0 <= j < i ==> !IsDirectory(fs, cs[j]))
    ensures var cs := Candidates(dataDirs, home, dir);
      (forall j :: 0 <= j < |cs| ==> !IsDirectory(fs, cs[j])) && dataDirs(dir) != [] ==>
        r == Some(dataDirs(dir)[0])
  {
    var found := FirstDirectory(fs, Candidates(dataDirs, home, dir));
    if found.Some? then found
    else if dataDirs(dir) != [] then Some(dataDirs(dir)[0])
    else None
  }

  /** With candidates A, B, C where only B and C are directories, B is chosen. */
  lemma PrefersEarlierDirectory(fs: Tree, a: string, b: string, c: string)
    requires !IsDirectory(fs, a) && IsDirectory(fs, b) && IsDirectory(fs, c)
    ensures FirstDirectory(fs, [a, b, c]) == Some(b)
  {
    assert [a, b, c][1..] == [b, c];
  }

  /** The tool's own directory wins over a legacy one whenever it exists. */
  lemma OwnDirectoryFirst(fs: Tree, dataDirs: string -> seq<string>, home: string, dir: string)
    requires dataDirs(dir) != [] && IsDirectory(fs, dataDirs(dir)[0])
    ensures ConfigDir(fs, dataDirs, home, dir) == Some(dataDirs(dir)[0])
  {
  }

  /** When no candidate exists, the fallback is the tool's first data directory, never a legacy path. */
  lemma FallbackIsOwnDirectory(fs: Tree, dataDirs: string -> seq<string>, home: string, dir: string)
    requires dataDirs(dir) != []
    requires forall p :: p in Candidates(dataDirs, home, dir) ==> !IsDirectory(fs, p)
    ensures ConfigDir(fs, dataDirs, home, dir) == Some(dataDirs(dir)[0])
  {
    var cs := Candidates(dataDirs, home, dir);
    assert forall j :: 0 <= j < |cs| ==> cs[j] in cs;
  }

  /** A chosen directory, when it is not the fallback, is a directory that exists. */
  lemma ChosenIsDirectoryOrFallback(fs: Tree, dataDirs: string -> seq<string>, home: string, dir: string)
    requires ConfigDir(fs, dataDirs, home, dir).Some?
    ensures var d := ConfigDir(fs, dataDirs, home, dir).value;
      IsDirectory(fs, d) || (d == dataDirs(dir)[0] && forall p :: p in Candidates(dataDirs, home, dir) ==> !IsDirectory(fs, p))
  {
    var cs := Candidates(dataDirs, home, dir);
    if FirstDirectory(fs, cs).None? {
      forall p | p in cs ensures !IsDirectory(fs, p) {
        var j :| 0 <= j < |cs| && cs[j] == p;
      }
    }
  }

  const AuthFile := "auth.json"

  // ---------------------------------------------------------------------------
  // Reading and writing

  datatype LoadError =
    | ReadFailed(io: FsError)
    | NotJson
    | SchemaFailed(schema: SchemaError)

  /** `get()` against the filesystem `fs`: read, `JSON.parse`, validate. */
  function Load(fs: Tree, path: string): (r: Result<Credentials, LoadError>)
    ensures r == Err(ReadFailed(NotFound(path))) <==> path !in fs
    ensures r.Err? && r.error.ReadFailed? <==> !(path in fs && fs[path].File?)
    ensures path in fs && fs[path].File? ==> (r == Err(NotJson) <==> Json.Parse(fs[path].contents).None?)
    ensures path in fs && fs[path].File? && Json.Parse(fs[path].contents).Some? ==>
      (r.Err? && r.error.SchemaFailed? <==> Validate(Json.Parse(fs[path].contents).value).Err?)
    ensures r.Ok? ==> (path in fs && fs[path].File? && Json.Parse(fs[path].contents).Some?
      && Validate(Json.Parse(fs[path].contents).value) == Ok(r.value) && Conforms(r.value))
  {
    match ReadFile(fs, path)
    case Err(e) => Err(ReadFailed(e))
    case Ok(text) =>
      match Json.Parse(text)
      case None => Err(NotJson)
      case Some(v) =>
        match Validate(v)
        case Err(e) => Err(SchemaFailed(e))
        case Ok(c) => Ok(c)
  }

  /** What an `update` leaves behind: the filesystem afterwards and the error it threw, if any. */
  datatype Outcome = Outcome(fs: Tree, error: Option<FsError>)

  const OwnerOnly := 0x180  // 0o600

  /**
   * The write in `update` as written: `mkdir -p` of the parent, then
   * `writeFileSync` with mode 0o600, which an existing file ignores.
   */
  function OverwriteAsWritten(fs: Tree, path: string, text: string): (r: Outcome)
    ensures r.error.None? ==> (IsDirectory(r.fs, Dirname(path)) && path in r.fs && r.fs[path].File?
      && r.fs[path].contents == text)
    ensures r.error.None? && path in fs && fs[path].File? ==> r.fs[path].mode == fs[path].mode
    ensures r.error.None? && path !in fs ==> r.fs[path].mode == OwnerOnly
    ensures forall q :: q in fs && q != path ==> q in r.fs && r.fs[q] == fs[q]
    ensures forall q :: q in r.fs && q !in fs ==> q == path || q in Ancestors(Dirname(path))
  {
    match MkdirAll(fs, Dirname(path))
    case Err(e) => Outcome(fs, Some(e))
    case Ok(fs1) =>
      assert Dirname(path) in Ancestors(Dirname(path));
      match WriteFile(fs1, path, text, OwnerOnly)
      case Err(e) => Outcome(fs1, Some(e))
      case Ok(fs2) => Outcome(fs2, None)
  }

  /** `update(config)` as written. */
  function UpdateAsWritten(fs: Tree, path: string, config: Credentials): (r: Outcome)
    ensures config.skipWrite == Some(true) ==> r == Outcome(fs, None)
    ensures config.skipWrite != Some(true) && r.error.None? ==>
      IsDirectory(r.fs, Dirname(path)) && path in r.fs && r.fs[path].File? && r.fs[path].contents == Serialize(config)
    ensures config.skipWrite != Some(true) && r.error.None? && path in fs && fs[path].File? ==>
      r.fs[path].mode == fs[path].mode
    ensures config.skipWrite != Some(true) && r.error.None? && path !in fs ==> r.fs[path].mode == OwnerOnly
    ensures forall q :: q in fs && q != path ==> q in r.fs && r.fs[q] == fs[q]
  {
    if config.skipWrite == Some(true) then Outcome(fs, None)
    else OverwriteAsWritten(fs, path, Serialize(config))
  }

  lemma OverwriteKeepsMode(fs: Tree, path: string, text: string)
    requires fs == map["/c" := Directory, path := File("{}", 0x1a4)]
    requires path == "/c/auth.json"
    ensures OverwriteAsWritten(fs, path, text).error.None?
    ensures OverwriteAsWritten(fs, path, text).fs[path].mode == 0x1a4
  {
    DirnameJoin("/c", AuthFile);
    assert Join("/c", AuthFile) == path;
    assert Dirname(path) == "/c";
    assert path !in Ancestors("/c");
    assert MkdirAll(fs, "/c").Ok?;
    WriteAfterMkdir(fs, path, text, OwnerOnly);
  }

  /** A credentials file left world-readable (0o644) is rewritten by `update` and stays world-readable. */
  lemma ExistingFileKeepsMode(config: Credentials, fs: Tree)
    requires config.skipWrite != Some(true)
    requires fs == map["/c" := Directory, "/c/auth.json" := File("{}", 0x1a4)]
    ensures UpdateAsWritten(fs, "/c/auth.json", config).error.None?
    ensures UpdateAsWritten(fs, "/c/auth.json", config).fs["/c/auth.json"].mode == 0x1a4
    ensures 0x1a4 != OwnerOnly
  {
    OverwriteKeepsMode(fs, "/c/auth.json", Serialize(config));
  }

  /**
   * The write in `update` with the mode forced to 0o600 whether or not
   * the file existed (`writeFileSync` followed by `chmodSync`).
   */
  function Overwrite(fs: Tree, path: string, text: string): (r: Outcome)
    ensures r.error.None? ==> IsDirectory(r.fs, Dirname(path)) && path in r.fs && r.fs[path] == File(text, OwnerOnly)
    ensures forall q :: q in fs && q != path ==> q in r.fs && r.fs[q] == fs[q]
    ensures forall q :: q in r.fs && q !in fs ==> q == path || q in Ancestors(Dirname(path))
  {
    match MkdirAll(fs, Dirname(path))
    case Err(e) => Outcome(fs, Some(e))
    case Ok(fs1) =>
      assert Dirname(path) in Ancestors(Dirname(path));
      match WriteFile(fs1, path, text, OwnerOnly)
      case Err(e) => Outcome(fs1, Some(e))
      case Ok(fs2) => Outcome(Chmod(fs2, path, OwnerOnly).value, None)
  }

  /** `update(config)`, writing the file owner-only in every case. */
  function UpdateOutcome(fs: Tree, path: string, config: Credentials): (r: Outcome)
    ensures config.skipWrite == Some(true) ==> r == Outcome(fs, None)
    ensures config.skipWrite != Some(true) && r.error.None? ==>
      IsDirectory(r.fs, Dirname(path)) && path in r.fs && r.fs[path] == File(Serialize(config), OwnerOnly)
    ensures forall q :: q in fs && q != path ==> q in r.fs && r.fs[q] == fs[q]
  {
    if config.skipWrite == Some(true) then Outcome(fs, None)
    else Overwrite(fs, path, Serialize(config))
  }

  /** Reading a file that holds serialised credentials: the schema's verdict on what was written. */
  lemma LoadSerialized(fs: Tree, path: string, c: Credentials)
    requires path in fs && fs[path].File? && fs[path].contents == Serialize(c)
    ensures Load(fs, path) == match Validate(Json.Object(Members(c)))
      case Ok(x) => Ok(x)
      case Err(e) => Err(SchemaFailed(e))
  {
    Json.ParseStringify(Members(c));
  }

  /** Round trip: after an `update` that succeeded, `get` returns exactly what was written. */
  lemma LoadAfterUpdate(fs: Tree, path: string, config: Credentials)
    requires Conforms(config) && config.skipWrite != Some(true)
    ensures UpdateOutcome(fs, path, config).error.None? ==> Load(UpdateOutcome(fs, path, config).fs, path) == Ok(config)
  {
    if UpdateOutcome(fs, path, config).error.None? {
      LoadSerialized(UpdateOutcome(fs, path, config).fs, path, config);
      ValidateMembers(config);
    }
  }

  /** The same round trip for `update` as written, whose file differs only in its mode. */
  lemma LoadAfterUpdateAsWritten(fs: Tree, path: string, config: Credentials)
    requires Conforms(config) && config.skipWrite != Some(true)
    ensures UpdateAsWritten(fs, path, config).error.None? ==> Load(UpdateAsWritten(fs, path, config).fs, path) == Ok(config)
  {
    if UpdateAsWritten(fs, path, config).error.None? {
      LoadSerialized(UpdateAsWritten(fs, path, config).fs, path, config);
      ValidateMembers(config);
    }
  }

  /** With `skipWrite` set, `update` changes nothing, whether the file was there or not. */
  lemma SkipWriteKeepsFile(fs: Tree, path: string, config: Credentials)
    requires config.skipWrite == Some(true)
    ensures UpdateOutcome(fs, path, config).fs == fs
    ensures Load(UpdateOutcome(fs, path, config).fs, path) == Load(fs, path)
  {
  }

  /** When the refresh token is the only field that fails, the error names it alone. */
  lemma OnlyRefreshTokenInvalid(m: seq<(string, Json.Value)>)
    requires !FieldValid(RefreshTokenKey, Json.Lookup(m, RefreshTokenKey))
    requires forall k :: k in SchemaKeys && k != RefreshTokenKey ==> FieldValid(k, Json.Lookup(m, k))
    ensures Invalid(m, SchemaKeys) == [RefreshTokenKey]
  {
    assert TokenKey in SchemaKeys && ExpiresAtKey in SchemaKeys && SkipWriteKey in SchemaKeys;
    assert NoteKey in SchemaKeys && DocsKey in SchemaKeys;
    assert Invalid(m, [DocsKey]) == [];
    assert Invalid(m, [NoteKey, DocsKey]) == [] by {
      assert [NoteKey, DocsKey][1..] == [DocsKey];
    }
    assert Invalid(m, [SkipWriteKey, NoteKey, DocsKey]) == [] by {
      assert [SkipWriteKey, NoteKey, DocsKey][1..] == [NoteKey, DocsKey];
    }
    assert Invalid(m, [ExpiresAtKey, SkipWriteKey, NoteKey, DocsKey]) == [] by {
      assert [ExpiresAtKey, SkipWriteKey, NoteKey, DocsKey][1..] == [SkipWriteKey, NoteKey, DocsKey];
    }
    assert Invalid(m, SchemaKeys[1..]) == [RefreshTokenKey] by {
      assert SchemaKeys[1..][1..] == [ExpiresAtKey, SkipWriteKey, NoteKey, DocsKey];
    }
  }

  /**
   * Credentials with an empty refresh token are written, whatever their
   * other fields, but then cannot be read back: the schema names the
   * refresh token, and only it.
   */
  lemma EmptyRefreshTokenUnreadable(fs: Tree, path: string, c: Credentials)
    requires c.refreshToken == Some("") && c.skipWrite != Some(true)
    ensures UpdateOutcome(fs, path, c).error.None? ==>
      Load(UpdateOutcome(fs, path, c).fs, path) == Err(SchemaFailed(InvalidFields([RefreshTokenKey])))
  {
    if UpdateOutcome(fs, path, c).error.None? {
      LoadSerialized(UpdateOutcome(fs, path, c).fs, path, c);
      EmptyRefreshTokenMembers(c);
    }
  }

  lemma EmptyRefreshTokenMembers(c: Credentials)
    requires c.refreshToken == Some("")
    ensures Validate(Json.Object(Members(c))) == Err(InvalidFields([RefreshTokenKey]))
  {
    var m := Members(c);
    forall k | k in SchemaKeys ensures Json.Lookup(m, k) == FieldValue(c, k) {
      LookupMembers(c, k);
    }
    assert RefreshTokenKey in SchemaKeys;
    OnlyRefreshTokenInvalid(m);
  }

  /** An `update` fails only when the parent cannot be created or the path is taken by a non-file. */
  lemma UpdateSucceeds(fs: Tree, path: string, config: Credentials)
    requires path != [] && path != "." && path[|path| - 1] != '/'
    requires MkdirAll(fs, Dirname(path)).Ok?
    requires path in fs ==> fs[path].File?
    ensures UpdateOutcome(fs, path, config).error.None?
  {
    WriteAfterMkdir(fs, path, Serialize(config), OwnerOnly);
  }

  // ---------------------------------------------------------------------------
  // The store

  /** `CredentialsStore(dir)`: an `auth.json` path fixed at construction, over a filesystem. */
  class CredentialsStore {
    var fs: Tree
    const configPath: string

    constructor (fs0: Tree, configDir: string)
      ensures fs == fs0 && configPath == Join(configDir, AuthFile)
    {
      fs := fs0;
      configPath := Join(configDir, AuthFile);
    }

    /** `CredentialsStore(dir)`; `None` where the source throws because there is no data directory. */
    static method Open(fs0: Tree, dataDirs: string -> seq<string>, home: string, dir: string)
      returns (store: Option<CredentialsStore>)
      ensures store.None? <==> ConfigDir(fs0, dataDirs, home, dir).None?
      ensures store.Some? ==> (fresh(store.value) && store.value.fs == fs0
        && store.value.configPath == Join(ConfigDir(fs0, dataDirs, home, dir).value, AuthFile))
    {
      var d := ConfigDir(fs0, dataDirs, home, dir);
      if d.None? {
        return None;
      }
      var s := new CredentialsStore(fs0, d.value);
      return Some(s);
    }

    /** `get()`. */
    function Get(): (r: Result<Credentials, LoadError>)
      reads this
      ensures r == Load(fs, configPath)
      ensures r == Err(ReadFailed(NotFound(configPath))) <==> configPath !in fs
      ensures configPath in fs && fs[configPath].File? ==>
        (r == Err(NotJson) <==> Json.Parse(fs[configPath].contents).None?)
      ensures r.Ok? ==> (fs[configPath].File? && Json.Parse(fs[configPath].contents).Some?
        && Validate(Json.Parse(fs[configPath].contents).value) == Ok(r.value) && Conforms(r.value))
    {
      Load(fs, configPath)
    }

    /** `update(config)`; the returned error is what the source throws. */
    method Update(config: Credentials) returns (error: Option<FsError>)
      modifies this
      ensures Outcome(fs, error) == UpdateOutcome(old(fs), configPath, config)
      ensures config.skipWrite == Some(true) ==> fs == old(fs) && error.None?
      ensures error.None? && config.skipWrite != Some(true) ==>
        IsDirectory(fs, Dirname(configPath)) && fs[configPath] == File(Serialize(config), OwnerOnly)
      ensures error.None? && config.skipWrite != Some(true) && Conforms(config) ==> Get() == Ok(config)
    {
      if config.skipWrite == Some(true) {
        return None;
      }
      var made := MkdirAll(fs, Dirname(configPath));
      if made.Err? {
        return Some(made.error);
      }
      fs := made.value;
      var text := Serialize(config);
      var written := WriteFile(fs, configPath, text, OwnerOnly);
      if written.Err? {
        return Some(written.error);
      }
      fs := written.value;
      fs := Chmod(fs, configPath, OwnerOnly).value;
      error := None;
      if Conforms(config) {
        LoadAfterUpdate(old(fs), configPath, config);
      }
    }
  }
}
