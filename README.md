# A verified model of the CLI credentials store and the Python runtime adapter helpers

This project models three pieces of the repository in Dafny and proves
properties about them.

- **The CLI's credentials store** (`packages/cli-auth/credentials-store.ts`):
  - It validates `auth.json` against a small schema: six optional fields, with `refreshToken` non-empty when present.
  - It chooses the directory that holds the file: the tool's XDG data directories, then `~/.now`, then the XDG data directories of `now`. The first that is a directory wins, else the tool's first data directory.
  - The store object has a fixed `configPath`. Its `get` reads, parses and validates the file. Its `update` overwrites the file with the pretty-printed JSON of the credentials, unless `skipWrite` is set.
  - The filesystem is a map from path to entry: a directory, a file with contents and a permission mode, or anything else.
  - `JSON.parse` is a parser for JSON text, except for strings that hold lone surrogates (see Left out). `JSON.stringify(x, null, 2)` is written out for the flat objects the store writes, with the layout of the 2-space form but not byte for byte (see Left out). Their round trip is proved.
- **The ASGI `http` cycle** (`packages/python/vc_adapter/protocols/http.py`):
  - `HTTPCycle` is a class with the Python object's fields. `send` accepts `http.response.start` in `REQUEST` and `http.response.body` in `RESPONSE`, buffers the body chunks, and raises on every other message.
  - `run` drives an application, given as the messages it sends and whether it raises. When the application raises, `run` produces the 500 response in a way that depends on the state.
  - Each method is proved against a value-level step function. The properties are proved about that function.
- **The adapter's helpers** (`packages/python/vc_adapter/utils.py`):
  - `format_headers` and `asgi_headers_to_multi_value` are loops that group header pairs by name.
  - `decode_body_from_payload` decodes the request body. Base64 follows section 4 of RFC 4648, with CPython's lenient decoder and the fallbacks.
  - `build_asgi_scope_from_payload` builds the scope. It expands and lower-cases the headers, reads the port with Python's `int` and a fallback to 80, chooses the client address by precedence, and splits the path with `urlparse`.
  - `add_vendor_to_path` is a method on a `sys.path` object: its `while`/`remove` loop, then the `insert`.

## Modules

| file | contents |
|---|---|
| `Wrappers.dfy` | `Option`, `Result` |
| `Text.dfy` | bytes, UTF-8 and latin-1, ASCII lower-casing, Python's `int(str)` and `str(int)` |
| `Base64.dfy` | the encoder and the lenient decoder |
| `Json.dfy` | the JSON value type, `JSON.parse`, the flat-object `JSON.stringify` |
| `FileSystem.dfy` | `path.join`, `path.dirname`, `lstat`, `mkdir -p`, `writeFileSync`, `chmodSync`, `readFileSync` |
| `Credentials.dfy` | the schema, directory resolution, `get`/`update`, the `CredentialsStore` class |
| `HttpCycle.dfy` | the `HTTPCycle` class and the step function it is proved against |
| `AdapterUtils.dfy` | the helpers of `utils.py` and the `sys.path` class |

## Model

| member | source | states |
|---|---|---|
| Credentials.Validate | packages/cli-auth/credentials-store.ts:7-21 | succeeds exactly on an object whose six known fields, when present, have their declared types, with `refreshToken` a non-empty string. A success satisfies the schema, and each of its fields is the object's value under that key (absent where the key is absent). A failure on an object names at least one field. |
| Credentials.ValidateIgnoresUnknownKeys | packages/cli-auth/credentials-store.ts:7-21 | two objects that agree on the six schema keys validate identically, so unknown keys are stripped, not refused |
| Credentials.EmptyRefreshTokenRejected | packages/cli-auth/credentials-store.ts:11 | `{"refreshToken": ""}` is refused, and the error names only `refreshToken` |
| Credentials.Candidates | packages/cli-auth/credentials-store.ts:37-43 | the candidate list is the tool's data directories, then `join(home, ".now")`, then the data directories of `now`, in that order |
| Credentials.FirstDirectory | packages/cli-auth/credentials-store.ts:49-50 | `find(isDirectory)`: the result is a candidate that is a directory and no earlier candidate is one; there is no result exactly when no candidate is a directory |
| Credentials.PrefersEarlierDirectory | packages/cli-auth/credentials-store.ts:49-50 | with candidates A, B, C where only B and C are directories, B is chosen |
| Credentials.ConfigDir | packages/cli-auth/credentials-store.ts:36-53 | when some candidate is a directory, the result is the first such candidate. When none is, the result is the tool's first data directory. The result is missing exactly when there are no data directories and no candidate is a directory (where the source throws). |
| Credentials.OwnDirectoryFirst | packages/cli-auth/credentials-store.ts:39-50 | when the tool's first data directory exists, it is chosen over every legacy location |
| Credentials.FallbackIsOwnDirectory | packages/cli-auth/credentials-store.ts:51 | when no candidate is a directory, the tool's first data directory is chosen, never a legacy path |
| Credentials.ChosenIsDirectoryOrFallback | packages/cli-auth/credentials-store.ts:49-51 | the chosen directory either is a directory or is the fallback taken when no candidate is one |
| Credentials.CredentialsStore.constructor | packages/cli-auth/credentials-store.ts:55-56 | `configPath` is the resolved directory joined with `auth.json`, fixed at construction |
| Credentials.CredentialsStore.Open | packages/cli-auth/credentials-store.ts:55-56 | opens a store exactly when a directory resolves; the store's `configPath` is that directory joined with `auth.json`, and the filesystem is untouched |
| Credentials.Load | packages/cli-auth/credentials-store.ts:59-60 | the read fails exactly when the path is not a regular file, with not-found exactly when it is absent. `NotJson` is given exactly when a regular file's contents do not parse. A schema failure is given exactly when they parse but do not validate. A success is the validated value of the parsed contents. |
| Credentials.CredentialsStore.Get | packages/cli-auth/credentials-store.ts:59-60 | `get()` is the read of the store's own `configPath`: not found exactly when it is absent, `NotJson` exactly when a file's contents do not parse, and a success is the validated value of the parsed contents |
| Credentials.UpdateOutcome | packages/cli-auth/credentials-store.ts:63-69 | with `skipWrite` set, nothing changes and nothing is thrown. After a writing success, the parent is a directory and the file holds exactly the serialisation plus a newline, with mode 0o600 whether or not it existed. Every other existing path is unchanged. |
| Credentials.Overwrite | packages/cli-auth/credentials-store.ts:65-68 | after a successful write, the parent is a directory and the file holds exactly the text with mode 0o600. Every other existing path is unchanged. The only new paths are the file and the parent's ancestors. |
| Credentials.CredentialsStore.Update | packages/cli-auth/credentials-store.ts:63-69 | the new filesystem and the thrown error are those of the owner-only update. With `skipWrite`, nothing changes. After a writing success, the parent is a directory and the file holds the serialisation with mode 0o600. For conforming credentials, `get()` then returns them. |
| Credentials.OverwriteAsWritten | packages/cli-auth/credentials-store.ts:65-68 | the write as the source has it. After a success the parent is a directory and the file holds the text. A newly created file gets 0o600, but a file that already existed keeps its old mode. Every other existing path is unchanged, and the only new paths are the file and the parent's ancestors. |
| Credentials.UpdateAsWritten | packages/cli-auth/credentials-store.ts:63-69 | `update` as the source has it. With `skipWrite` nothing changes. After a writing success the parent is a directory and the file holds the serialisation, with 0o600 if it was created and its old mode if it existed. Every other existing path is unchanged. |
| Credentials.OverwriteKeepsMode | packages/cli-auth/credentials-store.ts:66-68 | a file created with mode 0o644, when overwritten, still has mode 0o644 afterwards |
| Credentials.ExistingFileKeepsMode | packages/cli-auth/credentials-store.ts:66-68 | as written, `update` on an existing world-readable `auth.json` succeeds and leaves it world-readable (0o644, not 0o600) |
| Credentials.LoadAfterUpdate | packages/cli-auth/credentials-store.ts:59-69 | round trip: after an `update` of conforming credentials that wrote and succeeded, `get` returns exactly those credentials |
| Credentials.LoadAfterUpdateAsWritten | packages/cli-auth/credentials-store.ts:59-69 | the same round trip for `update` as written: after a writing success, `get` returns exactly the conforming credentials written |
| Credentials.SkipWriteKeepsFile | packages/cli-auth/credentials-store.ts:64 | with `skipWrite`, the filesystem and what `get` returns are unchanged, whether the file existed or not |
| Credentials.EmptyRefreshTokenUnreadable | packages/cli-auth/credentials-store.ts:59-68 | any credentials with an empty refresh token, whatever their other fields, are written, but `get` then fails on the schema, naming `refreshToken` and only it |
| Credentials.UpdateSucceeds | packages/cli-auth/credentials-store.ts:65-68 | in a filesystem whose links are not followed, `update` fails only when the parent cannot be created or the path is taken by something that is not a regular file |
| Credentials.ParseSerialize | packages/cli-auth/credentials-store.ts:60-66 | the text `update` writes parses as JSON and validates to the credentials written |
| Credentials.ValidateMembers | packages/cli-auth/credentials-store.ts:7-21 | validating the object written for conforming credentials gives those credentials back |
| Credentials.LookupMembers | packages/cli-auth/credentials-store.ts:66 | in the written object, each schema key holds exactly that field of the credentials, and no other key is present |
| Credentials.LoadSerialized | packages/cli-auth/credentials-store.ts:60 | reading a file that holds serialised credentials gives the schema's verdict on the object written |
| Json.ParseStringify | packages/cli-auth/credentials-store.ts:66 | `JSON.parse(JSON.stringify(obj, null, 2) + "\n")` gives back every flat object of scalar members |
| FileSystem.Join | packages/cli-auth/credentials-store.ts:56 | `path.join(dir, name)` ends in the name, after a `/` unless the directory is empty |
| FileSystem.DirnameJoin | packages/cli-auth/credentials-store.ts:56-65 | `dirname(join(d, "auth.json"))` is `d` again, so `update` creates the directory `get` reads from |
| FileSystem.MkdirAll | packages/cli-auth/credentials-store.ts:65 | `mkdir -p` fails exactly when the path is empty or it or an ancestor is a non-directory. On success every ancestor is a directory, existing entries are kept, and only ancestors are added. |
| FileSystem.WriteFile | packages/cli-auth/credentials-store.ts:66-68 | the write succeeds exactly when the parent is a directory and the path is a file or free. The file then holds the data, with the given mode only if it was created; nothing else changes. |
| FileSystem.ReadFile | packages/cli-auth/credentials-store.ts:60 | succeeds exactly on a regular file and gives its contents; not found exactly when the path is absent |
| FileSystem.ReadAfterWrite | packages/cli-auth/credentials-store.ts:60-66 | reading after a successful write gives the data written |
| FileSystem.WriteAfterMkdir | packages/cli-auth/credentials-store.ts:65-66 | after a successful `mkdir -p` of the parent, the write succeeds unless the path is taken by a non-file |
| HttpCycle.Initial | packages/python/vc_adapter/protocols/http.py:31-44 | a fresh cycle is in `REQUEST` with an empty, open buffer, and its queue holds exactly the `http.request` message with the body and `more_body` false |
| HttpCycle.HttpCycle.constructor | packages/python/vc_adapter/protocols/http.py:31-44 | the new object's fields are those of the fresh cycle |
| HttpCycle.StepAccepts | packages/python/vc_adapter/protocols/http.py:90-113 | a `send` succeeds exactly for a start message with a status in `REQUEST` or a body message in `RESPONSE`. Every other `send` raises: `KeyError('type')` without a type, `KeyError('status')` for a start without a status in `REQUEST`, and `UnexpectedMessage` for every other state and type (a second start in `RESPONSE`, an unknown type such as `http.response.trailers`) |
| HttpCycle.StepDefaults | packages/python/vc_adapter/protocols/http.py:93-97 | a missing `headers` acts as `[]`, a missing `body` as `b""` and a missing `more_body` as false. So a start without headers in `REQUEST` records the status and `[]` and moves to `RESPONSE`. A bare body message in `RESPONSE` appends nothing and completes the response. |
| HttpCycle.StepErrorUnchanged | packages/python/vc_adapter/protocols/http.py:112-113 | a `send` that raises leaves every field as it was |
| HttpCycle.StepForward | packages/python/vc_adapter/protocols/http.py:91-104 | the state only moves forward, by at most one phase per `send` |
| HttpCycle.HttpCycle.Send | packages/python/vc_adapter/protocols/http.py:90-113 | the new fields and the raised error are those of one step; an error leaves the object unchanged; the state never goes back |
| HttpCycle.DriveChunks | packages/python/vc_adapter/protocols/http.py:95-104 | in `RESPONSE`, a run of body chunks ends in `COMPLETE`. The body is the old buffer followed by the chunks in send order. Status and headers are kept, and one `http.disconnect` is queued. |
| HttpCycle.WellBehavedCycle | packages/python/vc_adapter/protocols/http.py:91-104 | a start followed by body chunks ends `COMPLETE` with the sent status and headers, and a body that concatenates the chunks. The queue is the request message followed by the disconnect. |
| HttpCycle.BodyBeforeStartRejected | packages/python/vc_adapter/protocols/http.py:91-113 | a body message in `REQUEST` raises `UnexpectedMessage` and changes nothing |
| HttpCycle.CompleteRejectsAll | packages/python/vc_adapter/protocols/http.py:112-113 | in `COMPLETE` every `send` raises (`UnexpectedMessage`, or `KeyError` without a type) and changes nothing |
| HttpCycle.RaiseInRequest | packages/python/vc_adapter/protocols/http.py:67-81 | an application raising in `REQUEST` leaves the cycle `COMPLETE` with status 500, the `text/plain; charset=utf-8` header and the error body |
| HttpCycle.RaiseInResponse | packages/python/vc_adapter/protocols/http.py:82-85 | raising in `RESPONSE` overwrites status, body and headers with the 500 values, and nothing else; the state stays `RESPONSE` |
| HttpCycle.RaiseInComplete | packages/python/vc_adapter/protocols/http.py:82 | raising in `COMPLETE` changes nothing |
| HttpCycle.RaisingAppOnFreshCycle | packages/python/vc_adapter/protocols/http.py:62-81 | an application that raises at once yields exactly the bare 500 response |
| HttpCycle.OutOfOrderSendIsServerError | packages/python/vc_adapter/protocols/http.py:62-81 | an application that sends a body first has its `UnexpectedMessage` turned into the 500 response |
| HttpCycle.ErrorBodyBytes | packages/python/vc_adapter/protocols/http.py:78 | the error body is the 21 bytes of `Internal Server Error` |
| HttpCycle.Drive | packages/python/vc_adapter/protocols/http.py:64 | running the application's sends never moves the state backwards |
| HttpCycle.RunForward | packages/python/vc_adapter/protocols/http.py:62-85 | `run`, including its exception branch, never moves the state backwards |
| HttpCycle.HttpCycle.Run | packages/python/vc_adapter/protocols/http.py:62-85 | the object's fields afterwards are those of the sends up to the first raise, followed by the exception branch if anything raised |
| AdapterUtils.FormatHeaders | packages/python/vc_adapter/utils.py:26-35 | every input name, and only those, is a key; each maps to the values paired with it, in input order |
| AdapterUtils.ValuesForMembers | packages/python/vc_adapter/utils.py:26-35 | a value is listed under a name exactly when some input pair joins them |
| AdapterUtils.AsgiHeadersToMultiValue | packages/python/vc_adapter/utils.py:259-280 | the result groups, in order, the decoded pairs of the items that unpack into two fields; a missing argument gives the empty dictionary |
| AdapterUtils.SkipsMalformedItem | packages/python/vc_adapter/utils.py:267-272 | an empty item, or one that does not unpack into a name and a value, contributes nothing |
| AdapterUtils.RawHeaderDecoded | packages/python/vc_adapter/utils.py:274-275 | byte-string names and values are decoded as latin-1 |
| AdapterUtils.HeaderPairsAppend | packages/python/vc_adapter/utils.py:265-279 | the pairs of two item lists, one after the other, are the pairs of each in order |
| AdapterUtils.DecodeEncodedBytes | packages/python/vc_adapter/utils.py:243-245 | a base64 body given as bytes decodes to exactly what was encoded |
| AdapterUtils.DecodeEncodedText | packages/python/vc_adapter/utils.py:243-245 | a base64 body given as text decodes to exactly what was encoded |
| AdapterUtils.UndecodableBodyKept | packages/python/vc_adapter/utils.py:246-249 | a body that is not valid base64 is returned as the raw bytes |
| AdapterUtils.NonAsciiTextEncoded | packages/python/vc_adapter/utils.py:246-249 | non-ASCII text marked base64 cannot be decoded, and its UTF-8 encoding is returned |
| AdapterUtils.PlainBody | packages/python/vc_adapter/utils.py:252-256 | without base64 encoding, bytes come back unchanged, a missing or `None` body is empty, and text is UTF-8 encoded |
| AdapterUtils.Get | packages/python/vc_adapter/utils.py:295 | `headers.get(key)` finds a value exactly when the key is present, and the value found is that key's entry |
| AdapterUtils.ExpandHeaders | packages/python/vc_adapter/utils.py:287-293 | the loop builds the scope headers, one pair per scalar header and one per list element, in order |
| AdapterUtils.AppendValues | packages/python/vc_adapter/utils.py:289-291 | the inner loop appends one encoded pair per list element, in order |
| AdapterUtils.ExpandCount | packages/python/vc_adapter/utils.py:287-293 | the number of scope headers is the sum of the list lengths plus one per scalar header |
| AdapterUtils.ExpandNames | packages/python/vc_adapter/utils.py:291-293 | every scope header name is a payload header name, lower-cased and encoded |
| AdapterUtils.EncodedListNames | packages/python/vc_adapter/utils.py:290-291 | the pair for the m-th element of a list-valued header carries that element under the header's lower-cased name |
| AdapterUtils.ServerPort | packages/python/vc_adapter/utils.py:296-299 | the port is 80 when the header is missing; any other port is the `int` of the header's single value |
| AdapterUtils.ServerPortCases | packages/python/vc_adapter/utils.py:296-299 | the port is the forwarded port when it is a decimal integer, and 80 when the header is missing |
| AdapterUtils.ServerPortUnparsable | packages/python/vc_adapter/utils.py:296-299 | a forwarded port that `int` refuses gives 80 |
| AdapterUtils.GetEntry | packages/python/vc_adapter/utils.py:295-301 | in a dictionary, `get` on an entry's key finds that entry's value |
| AdapterUtils.ClientIpPrecedence | packages/python/vc_adapter/utils.py:301 | the client address is the first of `x-forwarded-for`, `x-real-ip`, the payload's `true-client-ip`, and `''` |
| AdapterUtils.UrlParseAbsolute | packages/python/vc_adapter/utils.py:285 | a URL starting with a single `/` has no scheme, netloc or fragment; it splits into path, parameters and query |
| AdapterUtils.UrlParsePathQuery | packages/python/vc_adapter/utils.py:308-314 | a plain path with a query string gives that path and that query |
| AdapterUtils.UrlParsePath | packages/python/vc_adapter/utils.py:313-314 | a plain path is its own path, with an empty query |
| AdapterUtils.BuildAsgiScope | packages/python/vc_adapter/utils.py:283-316 | a missing `path` or `method` raises `KeyError`. Otherwise the scope holds the server host (default `lambda`) and port, the client address with port 0, and the scheme (default `http`). It also holds the encoded query, the expanded headers, the fixed `type`, `http_version` and `root_path`, the payload's method, and the path with its encoded `raw_path`. |
| AdapterUtils.Without | packages/python/vc_adapter/utils.py:326-327 | removing every occurrence leaves none |
| AdapterUtils.FirstIndex | packages/python/vc_adapter/utils.py:327 | `list.remove` works on the first occurrence |
| AdapterUtils.RemoveOne | packages/python/vc_adapter/utils.py:326-327 | removing one occurrence does not change what is left once every occurrence is gone |
| AdapterUtils.PlacedProperties | packages/python/vc_adapter/utils.py:326-333 | after the edit the vendor directory occurs exactly once. It sits at index 1 when the path started with `''` or the entry point, else at 0. The other entries keep their order. |
| AdapterUtils.PythonPath.AddVendor | packages/python/vc_adapter/utils.py:319-335 | without the directory `sys.path` is untouched; with it, `sys.path` becomes the old path plus the site additions, with every vendor entry removed and one inserted at the vendor index |
| Base64.DecodeEncode | packages/python/vc_adapter/utils.py:245 | `b64decode(b64encode(b)) == b` for every byte string |
| Base64.EncodeIsAscii | packages/python/vc_adapter/utils.py:245 | every encoded character is ASCII |
| Base64.RunSkipsNoise | packages/python/vc_adapter/utils.py:245 | the decoder skips, wherever it stands, a byte that is neither in the alphabet nor `=` |
| Base64.OneExtraCharacterFails | packages/python/vc_adapter/utils.py:245-249 | `AAAAA`, with a lone character in its last group, cannot be decoded |
| Text.ParseIntString | packages/python/vc_adapter/utils.py:297 | `int(str(n)) == n` for every integer (without Python's limit on the number of digits) |
| Credentials.Serialize | packages/cli-auth/credentials-store.ts:66 | the written text: the 2-space JSON object of the fields present, in schema order, plus a newline. Its spelling of numbers and its key order can differ from `JSON.stringify`'s (see Left out); its properties are `ParseSerialize` and `LookupMembers` |
| Json.Parse | packages/cli-auth/credentials-store.ts:60 | defined as `JSON.parse`: one value, with white space around it and nothing else; its round trip with the printer is `ParseStringify` |
| FileSystem.IsDirectory | packages/cli-auth/credentials-store.ts:26-33 | defined as `lstat(p).isDirectory()`, false for every failure; it is total, so it never throws |
| HttpCycle.Step | packages/python/vc_adapter/protocols/http.py:90-113 | defined as one `send`: the fields afterwards and the exception raised; its properties are the `Step…` and `…Rejected` lemmas |
| HttpCycle.Recover | packages/python/vc_adapter/protocols/http.py:65-85 | defined as the `except` branch of `run`; its properties are `RaiseInRequest`, `RaiseInResponse` and `RaiseInComplete` |
| HttpCycle.RunSpec | packages/python/vc_adapter/protocols/http.py:62-85 | defined as `run`: the sends up to the first refusal, then the `except` branch if anything raised; `HttpCycle.Run` is proved to compute it |
| AdapterUtils.DecodeBody | packages/python/vc_adapter/utils.py:241-256 | defined as `decode_body_from_payload`; its properties are the `Decode…`, `UndecodableBodyKept`, `NonAsciiTextEncoded` and `PlainBody` lemmas |
| AdapterUtils.ClientIp | packages/python/vc_adapter/utils.py:301 | defined as the nested `get` chain; its property is `ClientIpPrecedence` |
| AdapterUtils.UrlParse | packages/python/vc_adapter/utils.py:285 | defined as `urlparse`: leading C0 and space stripped, tab and newlines removed, then scheme, netloc, fragment, query and parameters split off in that order; its properties are the `UrlParse…` lemmas |
| AdapterUtils.Placed | packages/python/vc_adapter/utils.py:326-333 | defined as `sys.path` after the `while`/`remove` loop and the `insert`; its property is `PlacedProperties`, and `PythonPath.AddVendor` is proved to compute it |
| Base64.Run | packages/python/vc_adapter/utils.py:245 | defined as the non-strict `a2b_base64` loop: bytes outside the alphabet are skipped, and the first complete padding ends the input; its properties are `DecodeEncode`, `RunSkipsNoise` and `OneExtraCharacterFails` |
| Text.ParseInt | packages/python/vc_adapter/utils.py:297 | defined as `int(s)`: surrounding white space, an optional sign, and digits with single underscores between them; its property is `ParseIntString` |
| Text.AsciiLowerIdempotent | packages/python/vc_adapter/utils.py:291 | lower-casing leaves no upper-case ASCII letter, and lower-casing twice equals lower-casing once |

## Left out

- **`update`'s file mode.** The source relies on `writeFileSync`'s `mode`, which Node applies only when it creates the file. The model's `CredentialsStore.Update` forces 0o600 with a `chmodSync` after the write. The as-written behaviour is modelled beside it and recorded under Findings.
- **The store's inputs.** `XDGAppPaths(...).dataDirs()` and `homedir()` are inputs (`dataDirs`, `home`).
- **No data directory at all.** `path.join(undefined, ...)` then throws a `TypeError`. The model gives `None` instead.
- **Validation errors.** They name the failing keys, not zod's full error objects.
- **JSON strings with lone surrogates.** `JSON.parse` accepts an escape such as `\ud800` that is not part of a surrogate pair, and zod accepts the resulting string. A Dafny string holds only Unicode scalar values, so `Json.UnicodeEscape` refuses it. `get` on such a file therefore gives `NotJson` in the model, where the source returns the credentials.
- **JSON numbers.** They are exact decimals (mantissa and exponent), so binary floating point, rounding and `NaN`/`Infinity` are not modelled. `JSON.stringify` is modelled only for the flat objects the store writes.
- Credentials.Serialize: the text is not byte for byte that of `JSON.stringify(config, null, 2)`, in two ways. Numbers are printed as mantissa and exponent (`15e-1` for 1.5, `1e2` for 100), where JavaScript prints the shortest decimal form (`1.5`, `100`). Keys are printed in schema order, where `JSON.stringify` follows the insertion order of the `config` object it is given. Only the round trip through `JSON.parse` and the schema is proved, and it does not depend on either difference.
- **Paths.** They are normalised POSIX strings. A symbolic link is a `Special` entry, which `lstat` rightly reports as not a directory. But `mkdirSync`, `writeFileSync` and `readFileSync` follow links, while the model's `MkdirAll`, `WriteFile` and `ReadFile` refuse a `Special` entry. So a symlinked `auth.json` or config directory, which works in the source, fails in the model. umask, ownership and the rest of POSIX permission semantics are not modelled.
- **Applications that catch `UnexpectedMessage`.** `Drive` ends the application at its first refused `send`, so an application that catches that exception and keeps sending cannot be represented.
- **`HTTPCycle.__call__`, `receive` and the `await`s.** They are event-loop scheduling. The application is the sequence of messages it sends, plus whether it raises afterwards. `app_queue` is a sequence. The scope and the `self.logger` calls serve only logging and are not modelled.
- **`format_headers(decode=True)`.** The byte-decoding branch is left out; the adapter calls it without `decode`. Its input is the header pairs of an `http.client` response, in order, because such a header object can repeat a name.
- **Header values in the payload.** They are strings or lists of strings. Other values, given through `str(v)`, are not modelled.
- **`AsciiLower`.** It lower-cases ASCII letters only, not the full Unicode mapping of `str.lower`.
- **`int()`.** `Text.ParseInt` accepts only ASCII digits and ASCII white space, not every Unicode digit and space that Python accepts.
- Text.ParseIntString: the round trip ignores the limit of Python 3.11 and later on integer-string conversion: `str()` and `int()` raise `ValueError` past 4300 digits. So `AdapterUtils.ServerPort` gives the value of a longer `x-forwarded-port`, where the source falls back to 80.
- **`urlparse`.** `urlsplit` raises `ValueError` for a netloc with an unmatched `[` or `]`, and for a non-ASCII netloc whose NFKC normalisation introduces a separator. These errors would propagate out of `build_asgi_scope_from_payload`. The model does not raise them, so `BuildAsgiScope` builds a scope there. The parse cache is not modelled either.
- **`decode_body_from_payload` with bodies of other types.** Numbers, for instance, are given by their `str`.
- **`add_vendor_to_path`.**
  - `os.path.isdir(vendor)` is the input `isDir`.
  - `site.addsitedir(vendor)` is the input `siteAdditions`: the entries it appends to `sys.path`.
  - `importlib.invalidate_caches()` is left out; it has no effect on `sys.path`.
- **The rest of `utils.py`.** The IPC, logging and reflection helpers are I/O and monkey-patching.
- **`adapter.py`, `vc_init.py`, `types.py` and the test fixture.** They are not part of this model, apart from the shape of their messages.

## Findings

The schema uses zod's `z.object`, which strips unknown keys rather than refusing them. The model follows the code (`Credentials.ValidateIgnoresUnknownKeys`).

| source | as written | input that shows it | evidently intended | confidence | as-written member | corrected member |
|---|---|---|---|---|---|---|
| packages/cli-auth/credentials-store.ts:66-68 | `writeFileSync(configPath, text, { mode: 0o600 })`; Node applies `mode` only when the call creates the file | an existing `auth.json` with mode 0o644 stays 0o644 after `update`, so the tokens remain world-readable | the credentials file is owner-only (0o600) after every `update` | not executed | Credentials.ExistingFileKeepsMode | Credentials.UpdateOutcome |
