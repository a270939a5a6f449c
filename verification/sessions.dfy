/** The state an `AlistClient` keeps between calls, and the operations that
    change it: construction, `login`, the cached `base_path`, `close`,
    attribute assignment (`__setattr__`), equality and `get_url`.

    Server replies are inputs (`reply`, `me`), and SHA-256 is a parameter
    (`sha256Hex`, bytes to lower-case hex digest). */
module Sessions {
  import opened Prelude
  import opened Text
  import opened Responses
  import Urls

  /** The client's state. `basePath` is the cached `base_path` property
      (absent until computed); the two flags say whether the cached
      synchronous and asynchronous transport sessions exist. */
  datatype Client = Client(
    origin: string,
    username: string,
    password: string,
    otpCode: string,
    headers: Headers,
    basePath: Option<string>,
    syncSession: bool,
    asyncSession: bool)

  /** The `Authorization` header requests carry, if any. */
  function Authorization(c: Client): Option<string> {
    if "Authorization" in c.headers then Some(c.headers["Authorization"]) else None
  }

  const DefaultHeaders: Headers := map[
    "Accept" := "application/json, text/plain, */*",
    "Accept-Encoding" := "gzip, deflate, br, zstd",
    "Connection" := "keep-alive"]

  const LoginPath: string := "/api/auth/login"
  const LoginHashPath: string := "/api/auth/login/hash"
  const MePath: string := "/api/me"

  /** Appended to the password before hashing. */
  const PasswordSalt: string := "-https://github.com/alist-org/alist"

  /** A request the session layer makes: method, absolute URL and JSON payload. */
  datatype Call = Call(verb: string, url: string, payload: map<string, string>)

  /** The client after an operation, the request it made (if any), and what
      the operation returned or raised. */
  datatype Step<T> = Step(client: Client, call: Option<Call>, outcome: Result<T, Failure>)

  /** `__eq__`: same origin and same user name. */
  predicate SameAccount(a: Client, b: Client) {
    a.origin == b.origin && a.username == b.username
  }

  /** Everything but the credentials is as it was. */
  predicate OnlyCredentialsDiffer(a: Client, b: Client) {
    a.origin == b.origin && a.headers == b.headers && a.basePath == b.basePath
    && a.syncSession == b.syncSession && a.asyncSession == b.asyncSession
  }

  /** The first lines of `login`: each non-empty argument replaces the
      stored credential. */
  function StoreCredentials(c: Client, username: string, password: string, otpCode: string): (d: Client)
    ensures OnlyCredentialsDiffer(d, c)
    ensures d.username == (if username != "" then username else c.username)
    ensures d.password == (if password != "" then password else c.password)
    ensures d.otpCode == (if otpCode != "" then otpCode else c.otpCode)
  {
    c.(username := if username != "" then username else c.username,
       password := if password != "" then password else c.password,
       otpCode := if otpCode != "" then otpCode else c.otpCode)
  }

  /** The login request for the stored credentials. */
  function LoginCall(c: Client, hashPassword: bool, sha256Hex: seq<byte> -> string): (k: Call)
    ensures k.verb == "POST"
    ensures k.payload.Keys == {"username", "password", "otp_code"}
    ensures k.payload["username"] == c.username && k.payload["otp_code"] == c.otpCode
    ensures hashPassword ==>
              k.url == Urls.RequestUrl(c.origin, LoginHashPath)
              && k.payload["password"] == sha256Hex(Utf8Encode(c.password + PasswordSalt))
    ensures !hashPassword ==>
              k.url == Urls.RequestUrl(c.origin, LoginPath) && k.payload["password"] == c.password
  {
    var password := if hashPassword then sha256Hex(Utf8Encode(c.password + PasswordSalt)) else c.password;
    var path := if hashPassword then LoginHashPath else LoginPath;
    Call("POST", Urls.RequestUrl(c.origin, path),
         map["username" := c.username, "password" := password, "otp_code" := c.otpCode])
  }

  /** `login(username, password, otp_code, hash_password)` with `reply` the
      server's answer to the login request. */
  function Login(c: Client, username: string, password: string, otpCode: string, hashPassword: bool,
                 sha256Hex: seq<byte> -> string, reply: Envelope): (s: Step<()>)
    ensures var d := StoreCredentials(c, username, password, otpCode);
            s.client.username == d.username && s.client.password == d.password && s.client.otpCode == d.otpCode
    ensures s.client.origin == c.origin
    ensures s.client.syncSession == c.syncSession && s.client.asyncSession == c.asyncSession
    ensures forall k :: k != "Authorization" ==>
              (k in s.client.headers <==> k in c.headers)
              && (k in c.headers ==> s.client.headers[k] == c.headers[k])
    // no user name: logged out, without a request
    ensures s.client.username == "" ==>
              s.call.None? && s.outcome.Ok? && Authorization(s.client).None? && s.client.basePath.None?
    // a user name: exactly one login request
    ensures s.client.username != "" ==> s.call == Some(LoginCall(s.client, hashPassword, sha256Hex))
    // rejected: EINVAL with the reply; token and base path untouched
    ensures s.client.username != "" && !IsSuccess(reply.code) ==>
              s.outcome == Err(Os(OSError, EINVAL, Reply(reply)))
              && s.client.headers == c.headers && s.client.basePath == c.basePath
    // accepted: the reply's token becomes the Authorization header
    ensures s.outcome.Ok? && s.client.username != "" ==>
              IsSuccess(reply.code) && Authorization(s.client) == reply.data.Get("token")
    ensures s.client.username != "" && IsSuccess(reply.code) ==>
              (s.outcome.Ok? <==> reply.data.Get("token").Some?)
              && (reply.data.Get("token").None? ==> s.outcome == Err(MissingField("token")))
    ensures s.outcome.Ok? ==> s.client.basePath.None?
    ensures s.outcome.Err? ==> s.client.headers == c.headers && s.client.basePath == c.basePath
  {
    var d := StoreCredentials(c, username, password, otpCode);
    if d.username == "" then
      Step(d.(headers := d.headers - {"Authorization"}, basePath := None), None, Ok(()))
    else
      var call := Some(LoginCall(d, hashPassword, sha256Hex));
      if !IsSuccess(reply.code) then Step(d, call, Err(Os(OSError, EINVAL, Reply(reply))))
      else match reply.data.Get("token")
        case None => Step(d, call, Err(MissingField("token")))
        case Some(token) =>
          Step(d.(headers := d.headers["Authorization" := token], basePath := None), call, Ok(()))
  }

  /** The `base_path` property: the cached value, or else one `/api/me`
      request whose `data.base_path` is cached. */
  function BasePath(c: Client, me: Envelope): (s: Step<string>)
    ensures c.basePath.Some? ==> s == Step(c, None, Ok(c.basePath.value))
    ensures c.basePath.None? ==> s.call == Some(Call("GET", Urls.RequestUrl(c.origin, MePath), map[]))
    ensures c.basePath.None? && s.outcome.Ok? ==>
              me.data.Get("base_path") == Some(s.outcome.value) && s.client == c.(basePath := Some(s.outcome.value))
    ensures c.basePath.None? && me.data.Get("base_path").Some? ==> s.outcome == Ok(me.data.Get("base_path").value)
    ensures s.outcome.Err? ==> s.client == c && s.outcome.error == MissingField("base_path")
  {
    match c.basePath
    case Some(b) => Step(c, None, Ok(b))
    case None =>
      var call := Some(Call("GET", Urls.RequestUrl(c.origin, MePath), map[]));
      match me.data.Get("base_path")
      case None => Step(c, call, Err(MissingField("base_path")))
      case Some(b) => Step(c.(basePath := Some(b)), call, Ok(b))
  }

  /** `close`: drops both cached transport sessions and nothing else. */
  function Close(c: Client): (d: Client)
    ensures !d.syncSession && !d.asyncSession
    ensures SameAccount(d, c) && d.password == c.password && d.otpCode == c.otpCode
    ensures d.headers == c.headers && d.basePath == c.basePath
  {
    c.(syncSession := false, asyncSession := false)
  }

  /** The three attributes `__setattr__` stores. */
  predicate IsCredential(attr: string) {
    attr == "username" || attr == "password" || attr == "otp_code"
  }

  /** `setattr(client, attr, val)`: a credential is stored (and for the
      password and one-time code a `login()` follows); then `TypeError` is
      raised in every case, unless `login()` raised first. */
  function SetAttr(c: Client, attr: string, val: string, sha256Hex: seq<byte> -> string, reply: Envelope)
    : (s: Step<()>)
    ensures s.outcome.Err?
    ensures !IsCredential(attr) ==> s == Step(c, None, Err(TypeError))
    ensures attr == "username" ==>
              s == Step(c.(username := val), None, Err(TypeError))
    ensures attr == "password" ==> s.client.password == val && s.client.username == c.username
    ensures attr == "otp_code" ==> s.client.otpCode == val && s.client.username == c.username
    ensures attr == "password" ==>
              var l := Login(c.(password := val), "", "", "", true, sha256Hex, reply);
              s.client == l.client && s.call == l.call && (l.outcome.Err? ==> s.outcome == l.outcome)
    ensures attr == "otp_code" ==>
              var l := Login(c.(otpCode := val), "", "", "", true, sha256Hex, reply);
              s.client == l.client && s.call == l.call && (l.outcome.Err? ==> s.outcome == l.outcome)
    ensures (attr == "password" || attr == "otp_code") && c.username == "" ==>
              s.call.None? && s.outcome == Err(TypeError) && Authorization(s.client).None? && s.client.basePath.None?
    ensures (attr == "password" || attr == "otp_code") && c.username != "" ==>
              s.call.Some?
              && (s.outcome == Err(TypeError) <==> IsSuccess(reply.code) && reply.data.Get("token").Some?)
  {
    if !IsCredential(attr) then Step(c, None, Err(TypeError))
    else
      var d := if attr == "username" then c.(username := val)
               else if attr == "password" then c.(password := val)
               else c.(otpCode := val);
      if attr == "username" then Step(d, None, Err(TypeError))
      else
        var l := Login(d, "", "", "", true, sha256Hex, reply);
        Step(l.client, l.call, if l.outcome.Err? then l.outcome else Err(TypeError))
  }

  /** `AlistClient(origin, username, password, otp_code)`, `origin` already
      completed; a non-empty user name logs in at once. */
  function Create(origin: string, username: string, password: string, otpCode: string,
                  sha256Hex: seq<byte> -> string, reply: Envelope): (s: Step<()>)
    ensures s.client.origin == origin && s.client.username == username
    ensures s.client.password == password && s.client.otpCode == otpCode
    ensures !s.client.syncSession && !s.client.asyncSession && s.client.basePath.None?
    ensures username == "" ==> s.call.None? && s.outcome.Ok? && s.client.headers == DefaultHeaders
    ensures username != "" ==>
              s == Login(Client(origin, username, password, otpCode, DefaultHeaders, None, false, false),
                         "", "", "", true, sha256Hex, reply)
    ensures username != "" ==>
              s.call == Some(LoginCall(s.client, true, sha256Hex))
              && (s.outcome.Ok? <==> IsSuccess(reply.code) && reply.data.Get("token").Some?)
              && (s.outcome.Ok? ==> Authorization(s.client) == reply.data.Get("token"))
  {
    var c := Client(origin, username, password, otpCode, DefaultHeaders, None, false, false);
    if username == "" then Step(c, None, Ok(()))
    else Login(c, "", "", "", true, sha256Hex, reply)
  }

  /** `get_url(path, ensure_ascii)`: reads `base_path` (perhaps looking it
      up with reply `me`), then builds the download link. */
  function GetUrl(c: Client, path: string, ensureAscii: bool, me: Envelope): (s: Step<string>)
    ensures s.client == BasePath(c, me).client && s.call == BasePath(c, me).call
    ensures s.outcome.Ok? <==> BasePath(c, me).outcome.Ok?
    ensures s.outcome.Ok? ==>
              s.outcome.value == Urls.DownloadUrl(c.origin, BasePath(c, me).outcome.value, path, ensureAscii)
              && StartsWith(s.outcome.value, c.origin + "/d")
  {
    var b := BasePath(c, me);
    match b.outcome
    case Err(e) => Step(b.client, b.call, Err(e))
    case Ok(base) => Step(b.client, b.call, Ok(Urls.DownloadUrl(c.origin, base, path, ensureAscii)))
  }

  // ---------------------------------------------------------------------
  // Properties across operations

  /** After a login that succeeds, the next `base_path` makes exactly one
      `/api/me` request, and, once that is cached, the one after makes none
      and returns the same path whatever a later reply would say. */
  lemma LoginThenBasePathOnce(c: Client, username: string, password: string, otpCode: string, hashPassword: bool,
                              sha256Hex: seq<byte> -> string, reply: Envelope, me1: Envelope, me2: Envelope)
    requires Login(c, username, password, otpCode, hashPassword, sha256Hex, reply).outcome.Ok?
    ensures var c1 := Login(c, username, password, otpCode, hashPassword, sha256Hex, reply).client;
            var b1 := BasePath(c1, me1);
            b1.call.Some?
            && (b1.outcome.Ok? ==> BasePath(b1.client, me2) == Step(b1.client, None, b1.outcome))
  {
  }

  /** `__eq__` is an equivalence that looks only at origin and user name:
      credentials, headers, the cached base path and the transport sessions
      do not matter. */
  lemma SameAccountIsEquivalence(a: Client, b: Client, c: Client)
    ensures SameAccount(a, a)
    ensures SameAccount(a, b) ==> SameAccount(b, a)
    ensures SameAccount(a, b) && SameAccount(b, c) ==> SameAccount(a, c)
    ensures SameAccount(a, b) <==>
              SameAccount(a.(password := c.password, otpCode := c.otpCode, headers := c.headers,
                             basePath := c.basePath, syncSession := c.syncSession, asyncSession := c.asyncSession), b)
  {
  }

  /** `login` keeps `==` exactly when it keeps the user name. */
  lemma LoginKeepsAccount(c: Client, username: string, password: string, otpCode: string, hashPassword: bool,
                          sha256Hex: seq<byte> -> string, reply: Envelope)
    ensures SameAccount(Login(c, username, password, otpCode, hashPassword, sha256Hex, reply).client, c)
            <==> username == "" || username == c.username
  {
  }

  /** Assigning `username` changes the account but keeps the old token and
      the old cached base path: no `login()` follows. */
  lemma RenameKeepsStaleToken(c: Client, val: string, sha256Hex: seq<byte> -> string, reply: Envelope)
    requires val != c.username
    ensures var s := SetAttr(c, "username", val, sha256Hex, reply);
            !SameAccount(s.client, c) && Authorization(s.client) == Authorization(c)
            && s.client.basePath == c.basePath && s.call.None?
  {
  }

  /** Logging out twice is logging out once. */
  lemma LogoutIdempotent(c: Client, sha256Hex: seq<byte> -> string, reply: Envelope)
    requires c.username == ""
    ensures var s := Login(c, "", "", "", true, sha256Hex, reply);
            Login(s.client, "", "", "", true, sha256Hex, reply) == s
  {
  }
}
