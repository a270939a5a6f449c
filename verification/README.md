# AList client core, modelled in Dafny

`AlistClient` (python-wrap-alist-web-api/alist/component/client.py) wraps the
HTTP API of an AList file-storage server. Most of the class is one-line
endpoint methods. Four pieces of it hold logic of their own, and this project
models those pieces as pure functions over immutable data. The server's
replies, the resource length reported by a probe, the bytes the transport
returns and SHA-256 are all inputs.

- **Responses** (`responses.dfy`) models the reply envelope `{code, message, data}`,
  the errno constants, and the `OSError` family the client raises.
  `CheckCode` models `check_response.check_code`. It passes a 2xx envelope
  through unchanged. Code 403 becomes EACCES. Code 500 is classified by
  prefix and suffix tests on the message, in a fixed order. Anything else
  becomes EIO. Every failure carries the envelope, and its exception class
  agrees with Python's own errno-to-subclass mapping.
- **Urls** (`urls.dfy`) models the absolute-URL step of `request` and the
  download link of `get_url`. `get_url` has two escaping modes:
  - `quote` with the safe set `@[]:/!$&'()*+,;=`. This set is the reserved
    set of section 2.2 of RFC 3986 minus `?` and `#`. It is modelled over
    the UTF-8 bytes of the path and proved to invert by percent-decoding
    (section 2.1 of RFC 3986).
  - A `translate` that rewrites only `#` and `?`.
- **ByteRanges** (`ranges.dfy`) models `read_bytes` together with its inner
  `get_bytes_range`, the header merge of `read_bytes_range`, and
  `read_block`. A window `[start, stop)` may have negative bounds. It resolves
  to an HTTP byte-range-spec (section 2.1 of RFC 7233), and negative bounds
  first need a `Range: bytes=-1` probe. The model returns the requests made
  and the result. It is proved against a model file server that honours
  `Range` whatever the method: the client reads exactly Python's slice
  `F[start:stop]`, except where the source raises. Both requests use the
  caller's `method` keyword, else `request`'s default POST. A server that
  follows section 3.1 of RFC 7233 honours `Range` only on GET. Such a server
  also gives the slice when the caller passes `method="GET"`, and the whole
  resource by default.
- **Sessions** (`sessions.dfy`) models the client record: credentials,
  headers, the cached `base_path` and the cached transport sessions. It also
  models the operations on that record: construction, `login`, `base_path`,
  `close`, `__setattr__`, `__eq__` and `get_url`.
- `prelude.dfy` and `text.dfy` are shared vocabulary. They hold
  `Option`/`Result`, `startswith`/`endswith`, decimal rendering with its
  parser, and UTF-8 encoding.

Modelling notes:

- `read_bytes` calls `get_total_length` (client.py:2649). That name is not
  defined in client.py, which imports `get_content_length` at line 37
  instead. The model treats the probe's length as an input
  `length: Option<nat>`.
- For a non-negative `start` with no `stop`, the code skips the probe and
  evaluates `start >= None` (client.py:2665), which raises `TypeError` in
  Python 3. `ByteRanges.Resolve` follows the code. The rest of the source
  points to the open range `"{start}-"` as the intent. The probe path returns
  exactly that when `stop` is None (client.py:2661-2662), and
  `read_bytes_range` defaults to `"0-"` (client.py:2685). The open range is
  modelled separately as the corrected `ResolveIntended` (see Findings).
- `stop and stop < 0` treats `stop == 0` as falsy. This never changes the
  test's outcome, since `0 < 0` is false anyway (`ZeroStopIsAbsolute`), so a
  zero stop is an absolute bound.

## Model

| member | source | states |
|---|---|---|
| Responses.CheckCode | python-wrap-alist-web-api/alist/component/client.py:64-82 | success iff 200 <= code < 300, and then the envelope comes back unchanged; every failure is an OSError-family exception carrying the envelope, with a class that matches Python's errno mapping; 403 always gives EACCES; EIO exactly when the code is neither 403 nor a 500 whose message passes one of the four tests; ENOENT/ENOTDIR/EEXIST/EPERM only for code 500, and a 500 gets exactly the errno its message selects |
| Responses.ServerErrorErrno | python-wrap-alist-web-api/alist/component/client.py:70-81 | for a code-500 message the errno is one of ENOENT, ENOTDIR, EEXIST, EPERM, EIO; EIO exactly when none of the four tests passes; EPERM only for messages starting with "failed get " |
| Responses.ServerErrorKinds | python-wrap-alist-web-api/alist/component/client.py:68-82 | first match wins, each case in both directions: ENOENT iff the message ends with "object not found" or starts with "failed get storage: storage not found"; ENOTDIR iff it ends with "not a folder" and no ENOENT test passes; EEXIST iff it ends with "file exists" and no earlier test passes; EPERM iff it starts with "failed get " and none of the other tests passes; EIO iff no test passes |
| Responses.StorageNotFoundIsNotFound | python-wrap-alist-web-api/alist/component/client.py:70-81 | a "failed get storage: storage not found" message also passes the "failed get " test, yet is classified ENOENT, never EPERM |
| Responses.ObjectNotFoundExample | python-wrap-alist-web-api/alist/component/client.py:70-74 | 500 with "xxx object not found" is ENOENT |
| Responses.StorageNotFoundExample | python-wrap-alist-web-api/alist/component/client.py:70-74 | 500 with "failed get storage: storage not found: y" is ENOENT |
| Responses.NotAFolderExample | python-wrap-alist-web-api/alist/component/client.py:76-77 | 500 with "path is not a folder" is ENOTDIR |
| Responses.FileExistsExample | python-wrap-alist-web-api/alist/component/client.py:78-79 | 500 with "file exists" is EEXIST |
| Responses.FailedGetExample | python-wrap-alist-web-api/alist/component/client.py:80-81 | 500 with "failed get obj" is EPERM |
| Urls.RequestUrl | python-wrap-alist-web-api/alist/component/client.py:226-229 | an http:// or https:// URL is used unchanged; any other URL becomes origin, then "/", then the URL without a doubled leading slash |
| Urls.RequestUrlIdempotent | python-wrap-alist-web-api/alist/component/client.py:226-229 | for an http(s) origin, normalising an already normalised URL changes nothing |
| Urls.SafeIsReservedWithoutQueryAndFragment | python-wrap-alist-web-api/alist/component/client.py:2571 | the safe set passed to quote is exactly the RFC 3986 reserved set without "?" and "#" |
| Urls.Quote | python-wrap-alist-web-api/alist/component/client.py:2571 | quote's output uses only unreserved characters, safe characters and "%", and never contains "#" or "?"; it is never shorter than its input, input made only of kept bytes is copied character for character, and a single byte is quoted exactly as QuoteByte says (upper-case hex digits included) |
| Urls.QuoteByte | python-wrap-alist-web-api/alist/component/client.py:2571 | an unreserved or safe ASCII byte is copied as itself; every other byte becomes "%" followed by two upper-case hex digits |
| Urls.QuoteExample | python-wrap-alist-web-api/alist/component/client.py:2571 | worked bytes: "/" stays "/", a space becomes "%20", the byte 0xC3 becomes "%C3" |
| Urls.QuoteAppend | python-wrap-alist-web-api/alist/component/client.py:2571 | quote works byte by byte: quoting a concatenation gives the concatenation of the quoted parts, so with QuoteByte every unreserved or safe byte stays literal in any path, mixed or not |
| Urls.PercentDecodeQuote | python-wrap-alist-web-api/alist/component/client.py:2571 | percent-decoding quote's output gives back exactly the bytes that were quoted |
| Urls.EscapeHashQuery | python-wrap-alist-web-api/alist/component/client.py:2573 | the translate mode leaves no "#" or "?" in the result |
| Urls.EscapeHashQueryIdentity | python-wrap-alist-web-api/alist/component/client.py:2573 | a path without "#" and "?" is left exactly as it is |
| Urls.EscapeHashQueryAppend | python-wrap-alist-web-api/alist/component/client.py:2573 | the rewriting works character by character (it distributes over concatenation) |
| Urls.UnescapeEscapeHashQuery | python-wrap-alist-web-api/alist/component/client.py:2573 | on text without "%", turning "%23" back into "#" and "%3F" back into "?" recovers the path, so nothing but those two characters changed |
| Urls.JoinBase | python-wrap-alist-web-api/alist/component/client.py:2568-2569 | the base path is put in front of the path unless it is exactly "/" |
| Urls.DownloadUrl | python-wrap-alist-web-api/alist/component/client.py:2568-2573 | the link starts with origin + "/d"; the rest is quote of the UTF-8 bytes of the joined path with ensure_ascii, and its "#"/"?" rewriting without; with ensure_ascii the rest percent-decodes to the UTF-8 bytes of the joined path; in both modes the rest has no "#" or "?"; without ensure_ascii, and with no "%" in the path, un-escaping the rest recovers the joined path |
| ByteRanges.Resolve | python-wrap-alist-web-api/alist/component/client.py:2636-2667 | fails with ESPIPE exactly when a probe is needed and gives no length; fails with TypeError exactly when no probe is needed and stop is None; a closed range always has first <= last; without a probe the window is empty iff start >= stop, and otherwise the range starts at start and covers exactly stop - start bytes; with a probe and a length, a negative start becomes max(0, start + length), a None stop gives the open range from that start, a negative stop becomes stop + length, and the window is empty iff the start is at or past that stop, else it ends at stop - 1 |
| ByteRanges.ResolveIgnoresLengthWithoutProbe | python-wrap-alist-web-api/alist/component/client.py:2637-2667 | when neither bound is negative, the reported length is never consulted |
| ByteRanges.ZeroStopIsAbsolute | python-wrap-alist-web-api/alist/component/client.py:2637 | the guard `stop and stop < 0` has the same outcome as `stop < 0`, so a zero stop is absolute and gives an empty window for start >= 0 |
| ByteRanges.ParseRangeText | python-wrap-alist-web-api/alist/component/client.py:2662-2667 | the rendered text "first-last" / "first-" reads back as the same range |
| ByteRanges.RangeHeaders | python-wrap-alist-web-api/alist/component/client.py:2721-2724 | the caller's headers are kept, with Range and Accept-Encoding: identity overriding them |
| ByteRanges.ProbeAsksForLastByte | python-wrap-alist-web-api/alist/component/client.py:2638-2641 | the probe header "bytes=-1" is a suffix range asking for the last byte of the resource |
| ByteRanges.ReadBytes | python-wrap-alist-web-api/alist/component/client.py:2635-2677 | at most two requests, all with the caller's method (POST by default) and to the normalised URL, each carrying the caller's headers with only Range and Accept-Encoding (identity) overridden; the first is a probe exactly when a bound counts from the end; fails exactly on a missing length (OSError ESPIPE, after the probe) or on start >= 0 with no stop (TypeError, before any request); an empty window makes no data request and returns empty bytes; a range makes exactly one data request whose Range is "bytes=" followed by the range text, and returns what it fetched |
| ByteRanges.ReadBytesReadsSlice | python-wrap-alist-web-api/alist/component/client.py:2636-2677 | against a server holding F that honours Range on any method, read_bytes returns Python's F[start:stop], except for start >= 0 with no stop, which raises TypeError |
| ByteRanges.GetReadsSlice | python-wrap-alist-web-api/alist/component/client.py:2636-2677 | with method="GET", a server following section 3.1 of RFC 7233 gives the same: F[start:stop], or TypeError for start >= 0 with no stop |
| ByteRanges.DefaultReadGetsWholeResource | python-wrap-alist-web-api/alist/component/client.py:218 | without method=, the requests are POSTs, so a server following section 3.1 of RFC 7233 ignores Range and every read that reaches the data request returns the whole resource |
| ByteRanges.ReadBlock | python-wrap-alist-web-api/alist/component/client.py:2770-2783 | size <= 0 returns empty bytes and makes no request; otherwise it is read_bytes with start = offset and stop = offset + size |
| ByteRanges.ReadBlockReadsBlock | python-wrap-alist-web-api/alist/component/client.py:2770-2783 | for a non-negative offset, read_block returns at most size bytes starting at offset |
| ByteRanges.ReadBlockReadsBlockEndingInside | python-wrap-alist-web-api/alist/component/client.py:2770-2783 | as written, a block with offset + size < 0 is read correctly, including one that begins before the start of the resource |
| ByteRanges.ReadToEndRaises | python-wrap-alist-web-api/alist/component/client.py:2661-2665 | as written, read_bytes from any start >= 0 with no stop (the default call) raises TypeError before any request |
| ByteRanges.ResolveIntended | python-wrap-alist-web-api/alist/component/client.py:2661-2667 | corrected resolution: never TypeError, and a non-negative start with no stop is the open range "{start}-" |
| ByteRanges.ReadBytesIntendedReadsSlice | python-wrap-alist-web-api/alist/component/client.py:2636-2677 | with the open range fixed, every window reads exactly Python's F[start:stop] |
| ByteRanges.ReadBlockTailIsEmpty | python-wrap-alist-web-api/alist/component/client.py:2777-2783 | as written, offset = -size with 0 < size <= length returns empty bytes, although the last size bytes are non-empty |
| ByteRanges.ResolveBlock | python-wrap-alist-web-api/alist/component/client.py:2770-2783 | corrected block resolution: ESPIPE only for a negative offset without a length; every range is valid and covers at most size bytes; a non-negative offset, or a negative one inside the resource, gives exactly size bytes from the absolute offset |
| ByteRanges.ReadBlockIntendedReadsBlock | python-wrap-alist-web-api/alist/component/client.py:2770-2783 | with stop taken from the absolute offset, every offset reads the window of size bytes from the offset (a negative offset counting from the end), cut to the resource |
| Sessions.StoreCredentials | python-wrap-alist-web-api/alist/component/client.py:261-273 | each non-empty argument replaces the stored credential, an empty one keeps it, and nothing else changes |
| Sessions.LoginCall | python-wrap-alist-web-api/alist/component/client.py:275-285 | a POST with username, password and otp_code; hashing on: /api/auth/login/hash with the SHA-256 hex of UTF-8(password + "-https://github.com/alist-org/alist"); hashing off: /api/auth/login with the raw password |
| Sessions.Login | python-wrap-alist-web-api/alist/component/client.py:250-298 | credentials stored first; no user name: Authorization removed and base_path cleared, with no request; otherwise exactly one login request; a non-2xx reply raises EINVAL with the reply and leaves the headers and base_path unchanged; a 2xx reply succeeds iff it carries data.token (else the lookup fails); success sets Authorization to data.token and clears base_path; headers other than Authorization never change |
| Sessions.BasePath | python-wrap-alist-web-api/alist/component/client.py:164-166 | a cached value is returned without a request; otherwise one GET /api/me, and the lookup succeeds exactly when the reply carries data.base_path, which is returned and cached; a reply without it raises and caches nothing |
| Sessions.LoginThenBasePathOnce | python-wrap-alist-web-api/alist/component/client.py:294-297 | after a successful login the next base_path makes one /api/me request, and the one after that makes none and returns the same value |
| Sessions.Close | python-wrap-alist-web-api/alist/component/client.py:207-212 | drops both cached transport sessions; account, credentials, headers and base_path are kept |
| Sessions.SetAttr | python-wrap-alist-web-api/alist/component/client.py:157-162 | assignment always raises; a credential attribute is stored first; username gives TypeError with no request and no token change; password and otp_code run login() with the stored credentials, and the client ends as that login leaves it (new token and cleared base_path, or unchanged on failure); TypeError is raised exactly when that login succeeds, otherwise login's own error escapes |
| Sessions.RenameKeepsStaleToken | python-wrap-alist-web-api/alist/component/client.py:157-162 | assigning a new username changes __eq__ but keeps the old Authorization and the old cached base_path |
| Sessions.SameAccountIsEquivalence | python-wrap-alist-web-api/alist/component/client.py:146-147 | __eq__ (SameAccount) is reflexive, symmetric and transitive, and looks only at origin and username: credentials, headers, cached base_path and transport sessions do not affect it |
| Sessions.LoginKeepsAccount | python-wrap-alist-web-api/alist/component/client.py:146-147 | a client stays == to its former self across login exactly when the username argument is empty or the same name |
| Sessions.LogoutIdempotent | python-wrap-alist-web-api/alist/component/client.py:295-297 | logging out a client without a user name a second time changes nothing |
| Sessions.Create | python-wrap-alist-web-api/alist/component/client.py:120-141 | a new client keeps the given origin and credentials, has no base_path and no transport sessions; without a user name it has the default headers and makes no request; with one it is exactly login() on the fresh client: the hashed login call, success iff the reply is 2xx and carries a token, and then that token as Authorization |
| Sessions.GetUrl | python-wrap-alist-web-api/alist/component/client.py:2568-2573 | get_url reads base_path (looking it up at most once) and builds the download link from it; it fails exactly when the lookup fails |

## Findings

| source | as written | input that shows it | evidently intended | confidence | as-written member | corrected member |
|---|---|---|---|---|---|---|
| python-wrap-alist-web-api/alist/component/client.py:2661-2665 | with start >= 0 and stop None no probe is made, and `start >= stop` compares an int with None | `read_bytes(url)` with the default start 0 and stop None raises TypeError | the open range "{start}-", reading to the end (this is also what the probe path does for stop None) | high; not executed | ByteRanges.ReadToEndRaises | ByteRanges.ReadBytesIntendedReadsSlice |
| python-wrap-alist-web-api/alist/component/client.py:2777-2783 | `stop = offset + size` is computed from the raw offset; only start is later made absolute | `read_block(url, size=5, offset=-5)` on a 10-byte resource returns b"" (start becomes 5, stop stays 0) | the last 5 bytes, since the docstring describes offset as counting from the end and size as the number of bytes to read; the correction changes only blocks with offset < 0 <= offset + size, and blocks ending before the end of the resource already read correctly (ReadBlockReadsBlockEndingInside) | medium; not executed | ByteRanges.ReadBlockTailIsEmpty | ByteRanges.ReadBlockIntendedReadsBlock |

The as-written functions `ByteRanges.Resolve`, `ByteRanges.ReadBytes` and
`ByteRanges.ReadBlock` remain the model of the code. The corrected ones
(`ResolveIntended`/`ReadBytesIntended`, `ResolveBlock`/`ReadBlockIntended`)
sit beside them.

## Left out

- Endpoint forwarders (`auth_*`, `fs_*`, `public_*`, `admin_*`, client.py:326-2558): each maps a fixed path and method onto `request`, and the scalar-to-`{"id"|"tid"|...: x}` payload wrapping is a trivial table.
- HTTP transport: httpx sessions, retries, timeouts and cookies. The `request=` callable branch that merges the client's headers into caller headers (client.py:239-249) is also left out. These are I/O. Requests are modelled only as the method, URL and headers (or method, URL and payload) they carry.
- The sync/async dual execution (`run_gen_step`, `async_`, `check_code_async`, the wrapper at client.py:83-95) is left out as asynchronous plumbing. So is the async generator `read_block` returns for `size <= 0`. The classification step itself is `CheckCode`.
- SHA-256 is left out as a foreign primitive. It is the parameter `sha256Hex`.
- The content-length probe's parsing and the closing of the probe response are left out. The length is the input `length`, and the data request's body is the input `fetch`.
- `parse_as_timestamp` is left out because it works on floats and uses dateutil.
- `fs_form`/`fs_put` uploads, `open`/`HTTPFileReader`, `__del__`, `__repr__`, the `headers` setter and the cached task-list properties are left out as file I/O, foreign classes or lifecycle code.
- `complete_url` is foreign code; the origin given to `Sessions.Create` is taken as already completed.
- Sessions.Login: `otp_code` may be an `int` in the source (client.py:126, 255). An int is sent as a JSON number, and `0` counts as empty at `if otp_code:` (client.py:270). The model takes the code as a string only, so the int case and its falsy zero are not modelled.
- Sessions.SetAttr: the assigned value is taken as a string already, so `str(val)` is the identity.
- Sessions.Login: the reply's `data.token` and `data.base_path` are modelled as strings. A null `data` and a missing member (Python's TypeError or KeyError) are both the single failure `MissingField`.
- Sessions.Login: headers are a case-sensitive map. The client's `CIMultiDict` matches `Authorization` case-insensitively, so a header set under another spelling of that name is not modelled.
- ByteRanges.Serve: the server is a model of section 2.1 of RFC 7233, used only to state what a read returns. It answers `Range` on any method, a POST included, which section 3.1 of RFC 7233 forbids. So `ReadBytesReadsSlice`, `ReadBlockReadsBlock`, `ReadBlockReadsBlockEndingInside` and the corrected-read lemmas state what a server lenient in this way returns. `ServeGetOnly` is the compliant server, for which `GetReadsSlice` and `DefaultReadGetsWholeResource` state the outcome. It answers an unsatisfiable range with an empty body instead of a 416 status, because what the transport does with a 416 is not part of this model.
