/** The routing and the token gates of the HTTP interface. The handlers behind the gates are not modelled. */
module Http {
  import opened Strings
  import Json
  import Jwt
  import Tables

  datatype Verb = Get | Post | Put | OtherVerb

  datatype Request = Request(verb: Verb, target: Bytes, authorization: Option<Bytes>, body: Bytes)

  datatype Handler = LoginUser | RegisterUser | CreateFlat | GetFlats | CreateHouse | TakeFlat | UpdateFlatStatus

  /** The handler that answers, or the error response. */
  datatype Response = By(handler: Handler) | Unauthorized | Forbidden | NotFound | InternalError

  /** The libraries: those of module `Jwt`, and whether the JSON library reads login, password and role from the body of
      a registration without an exception. */
  datatype Libraries = Libraries(jwt: Jwt.Library, registers: Bytes -> bool)

  const PREFIX: Bytes := "Bearer "
  const FLATS_PATH: Bytes := "/api/flats/"

  function ExtractBearerToken(request: Request): Bytes {
    match request.authorization
    case None => ""
    case Some(header) => if PREFIX <= header then header[|PREFIX|..] else ""
  }

  /** The role that `validate_token` reads out, when it accepts. */
  function TokenRole(lib: Jwt.Library, token: Bytes, now: Int64): Option<Bytes> {
    if token == [] then None
    else
      match Jwt.ValidateToken(lib, token, now)
      case None => None
      case Some(p) => Some(p.role)
  }

  /** The handler an endpoint leads to. */
  function Endpoint(verb: Verb, target: Bytes): Option<Handler> {
    if target == "/api/login" && verb == Post then Some(LoginUser)
    else if target == "/api/register" && verb == Post then Some(RegisterUser)
    else if target == "/api/flat" && verb == Post then Some(CreateFlat)
    else if FLATS_PATH <= target && verb == Get then Some(GetFlats)
    else if target == "/api/house" && verb == Post then Some(CreateHouse)
    else if target == "/api/flat/take" && verb == Post then Some(TakeFlat)
    else if target == "/api/flat/status" && verb == Put then Some(UpdateFlatStatus)
    else None
  }

  predicate ForModerators(h: Handler) {
    h == CreateHouse || h == TakeFlat || h == UpdateFlatStatus
  }

  /** The router reads the body of a registration itself, so an exception there is its own; and the reply that an
      endpoint does not exist repeats the target, which cannot be printed when it is not UTF-8. */
  function Respond(libs: Libraries, request: Request, now: Int64): Response {
    match Endpoint(request.verb, request.target)
    case None => if Json.IsUtf8(request.target) then NotFound else InternalError
    case Some(h) =>
      var role := TokenRole(libs.jwt, ExtractBearerToken(request), now);
      if h == RegisterUser && !libs.registers(request.body) then InternalError
      else if h == CreateFlat && role == None then Unauthorized
      else if ForModerators(h) && role != Some(Tables.MODERATOR) then Forbidden
      else By(h)
  }

  /** `validate_token`: on success the second result is the token's role. */
  method ValidateToken(lib: Jwt.Library, token: Bytes, now: Int64) returns (valid: bool, role: Bytes)
    ensures if valid then TokenRole(lib, token, now) == Some(role) else TokenRole(lib, token, now) == None && role == []
  {
    role := [];
    if token == [] {
      return false, [];
    }
    var payload := Jwt.ValidateToken(lib, token, now);
    if payload == None {
      return false, [];
    }
    return true, payload.value.role;
  }

  /** `process_request`, one branch per endpoint in the order of the source. */
  method ProcessRequest(libs: Libraries, request: Request, now: Int64) returns (response: Response)
    ensures response == Respond(libs, request, now)
  {
    hide TokenRole, ExtractBearerToken, Jwt.ValidateToken, Json.IsUtf8;
    var lib := libs.jwt;
    var target := request.target;
    if target == "/api/login" && request.verb == Post {
      response := By(LoginUser);
    } else if target == "/api/register" && request.verb == Post {
      response := if libs.registers(request.body) then By(RegisterUser) else InternalError;
    } else if target == "/api/flat" && request.verb == Post {
      var valid, _ := ValidateToken(lib, ExtractBearerToken(request), now);
      response := if !valid then Unauthorized else By(CreateFlat);
    } else if FLATS_PATH <= target && request.verb == Get {
      response := By(GetFlats);
    } else if target == "/api/house" && request.verb == Post {
      var valid, role := ValidateToken(lib, ExtractBearerToken(request), now);
      response := if !valid || role != Tables.MODERATOR then Forbidden else By(CreateHouse);
    } else if target == "/api/flat/take" && request.verb == Post {
      var valid, role := ValidateToken(lib, ExtractBearerToken(request), now);
      response := if !valid || role != Tables.MODERATOR then Forbidden else By(TakeFlat);
    } else if target == "/api/flat/status" && request.verb == Put {
      var valid, role := ValidateToken(lib, ExtractBearerToken(request), now);
      response := if !valid || role != Tables.MODERATOR then Forbidden else By(UpdateFlatStatus);
    } else {
      response := if Json.IsUtf8(target) then NotFound else InternalError;
    }
  }

  /** The header is "Bearer " and this token. */
  predicate Bears(request: Request, token: Bytes) {
    request.authorization == Some("Bearer " + token)
  }

  /** `POST /api/flat`: the handler runs just when the header is "Bearer " and a token that validates, with any role;
      otherwise the answer is 401. */
  lemma FlatGate(libs: Libraries, request: Request, now: Int64)
    requires request.verb == Post && request.target == "/api/flat"
    ensures var passes := exists token :: Bears(request, token) && Jwt.ValidateToken(libs.jwt, token, now).Some?;
            Respond(libs, request, now) == if passes then By(CreateFlat) else Unauthorized
  {
    hide Jwt.ValidateToken, TokenRole, ExtractBearerToken, Bears;
    BearerExactly(libs.jwt, request, now);
  }

  /** What header and token come down to: the role of the token, if there is one that validates. */
  lemma BearerExactly(lib: Jwt.Library, request: Request, now: Int64)
    ensures forall token | Bears(request, token) ::
              TokenRole(lib, ExtractBearerToken(request), now) ==
              (match Jwt.ValidateToken(lib, token, now) case None => None case Some(p) => Some(p.role))
    ensures (forall token :: !Bears(request, token)) ==> TokenRole(lib, ExtractBearerToken(request), now) == None
  {
    hide Jwt.ValidateToken;
    Jwt.EmptyIsRejected(lib, now);
    forall token | Bears(request, token)
      ensures ExtractBearerToken(request) == token
    {
      assert ("Bearer " + token)[7..] == token;
    }
    if request.authorization.Some? && PREFIX <= request.authorization.value {
      var rest := request.authorization.value[7..];
      assert request.authorization.value == "Bearer " + rest;
      assert Bears(request, rest);
    }
  }

  /** The endpoints for moderators and those open to everybody, written out; every other path is unknown. */
  lemma RoutesAre(libs: Libraries, request: Request, now: Int64)
    ensures request.verb == Post && request.target == "/api/login" ==> Respond(libs, request, now) == By(LoginUser)
    ensures request.verb == Post && request.target == "/api/register" ==>
              Respond(libs, request, now) == if libs.registers(request.body) then By(RegisterUser) else InternalError
    ensures request.verb == Get && "/api/flats/" <= request.target ==> Respond(libs, request, now) == By(GetFlats)
    ensures request.verb == Post && request.target == "/api/house" ==>
              Respond(libs, request, now) ==
              if IsModeratorRequest(libs, request, now) then By(CreateHouse) else Forbidden
    ensures request.verb == Post && request.target == "/api/flat/take" ==>
              Respond(libs, request, now) ==
              if IsModeratorRequest(libs, request, now) then By(TakeFlat) else Forbidden
    ensures request.verb == Put && request.target == "/api/flat/status" ==>
              Respond(libs, request, now) ==
              if IsModeratorRequest(libs, request, now) then By(UpdateFlatStatus) else Forbidden
    ensures !IsEndpoint(request) ==>
              Respond(libs, request, now) == if Json.IsUtf8(request.target) then NotFound else InternalError
  {
    hide Jwt.ValidateToken, TokenRole, ExtractBearerToken, Json.IsUtf8, IsModeratorRequest;
    ModeratorRole(libs, request, now);
  }

  lemma ModeratorRole(libs: Libraries, request: Request, now: Int64)
    ensures TokenRole(libs.jwt, ExtractBearerToken(request), now) == Some("moderator") <==>
            IsModeratorRequest(libs, request, now)
  {
    hide Jwt.ValidateToken, TokenRole, ExtractBearerToken, Bears;
    BearerExactly(libs.jwt, request, now);
    if TokenRole(libs.jwt, ExtractBearerToken(request), now) == Some("moderator") {
      var token :| Bears(request, token);
      assert Jwt.ValidateToken(libs.jwt, token, now).Some?;
    }
  }

  /** The header is "Bearer " and a token that validates with role moderator. */
  ghost predicate IsModeratorRequest(libs: Libraries, request: Request, now: Int64) {
    exists token ::
      && Bears(request, token) && Jwt.ValidateToken(libs.jwt, token, now).Some?
      && Jwt.ValidateToken(libs.jwt, token, now).value.role == "moderator"
  }

  predicate IsEndpoint(request: Request) {
    || (request.verb == Post && request.target in ["/api/login", "/api/register", "/api/flat", "/api/house",
                                                   "/api/flat/take"])
    || (request.verb == Put && request.target == "/api/flat/status")
    || (request.verb == Get && "/api/flats/" <= request.target)
  }

  /** A moderator handler runs just when its path and method match and the header is "Bearer " and a token that
      validates with role "moderator". */
  lemma ModeratorGate(libs: Libraries, request: Request, now: Int64, h: Handler)
    requires ForModerators(h)
    ensures Respond(libs, request, now) == By(h) <==>
            && Endpoint(request.verb, request.target) == Some(h)
            && exists token, p :: request.authorization == Some(PREFIX + token)
                                  && Jwt.ValidateToken(libs.jwt, token, now) == Some(p) && p.role == Tables.MODERATOR
  {
    hide Jwt.ValidateToken;
    if Respond(libs, request, now) == By(h) {
      var header := request.authorization.value;
      var token := ExtractBearerToken(request);
      assert header == PREFIX + token;
      assert Jwt.ValidateToken(libs.jwt, token, now).Some?;
    }
    forall token, p | request.authorization == Some(PREFIX + token)
                      && Jwt.ValidateToken(libs.jwt, token, now) == Some(p) && p.role == Tables.MODERATOR
      ensures TokenRole(libs.jwt, ExtractBearerToken(request), now) == Some(Tables.MODERATOR)
    {
      assert (PREFIX + token)[|PREFIX|..] == token;
      Jwt.EmptyIsRejected(libs.jwt, now);
    }
  }

  /** A token the service generated opens a moderator endpoint exactly when its role is "moderator", its login is
      UTF-8, its payload fits the 511 bytes that are read back, and it has not expired. */
  lemma GeneratedTokenAtGate(libs: Libraries, request: Request, h: Handler, userId: Int32, login: Bytes, role: Bytes,
                             expirySeconds: Int32, issued: Int64, now: Int64)
    requires ForModerators(h) && Endpoint(request.verb, request.target) == Some(h)
    requires Jwt.ClockFits(issued, expirySeconds)
    requires request.authorization ==
             Some(PREFIX + Jwt.GenerateToken(libs.jwt, userId, login, role, expirySeconds, issued))
    ensures Respond(libs, request, now) == By(h) <==>
            && role == Tables.MODERATOR && Jwt.Utf8Fields(login, role)
            && |Jwt.PayloadText(userId, login, role, expirySeconds, issued)| <= 511
            && now <= issued + expirySeconds
  {
    hide Jwt.ValidateToken, Jwt.GenerateToken, Jwt.PayloadText, Jwt.Utf8Fields;
    var token := Jwt.GenerateToken(libs.jwt, userId, login, role, expirySeconds, issued);
    assert (PREFIX + token)[|PREFIX|..] == token;
    Jwt.TokenRoundTrip(libs.jwt, userId, login, role, expirySeconds, issued, now);
    Jwt.EmptyIsRejected(libs.jwt, now);
  }

  /** The token that `handle_login_request` issues: user 1, role "user", one day. */
  function LoginToken(lib: Jwt.Library, login: Bytes, now: Int64): Bytes
    requires Jwt.ClockFits(now, 86400)
  {
    Jwt.GenerateToken(lib, 1, login, Tables.USER, 86400, now)
  }

  /** What such a token says: user 1 with the login that was sent and role user, for a day. */
  lemma LoginTokenSays(lib: Jwt.Library, login: Bytes, now: Int64, later: Int64)
    requires Jwt.ClockFits(now, 86400)
    ensures Jwt.ValidateToken(lib, LoginToken(lib, login, now), later) ==
            if && Jwt.Utf8Fields(login, "user") && |Jwt.PayloadText(1, login, "user", 86400, now)| <= 511
               && later <= now + 86400
            then Some(Jwt.TokenPayload(1, login, "user", now + 86400)) else None
  {
    hide Jwt.ValidateToken, Jwt.GenerateToken, Jwt.PayloadText, Jwt.Utf8Fields;
    Jwt.TokenRoundTrip(lib, 1, login, "user", 86400, now, later);
  }

  /** So no token obtained over HTTP ever opens a moderator endpoint. */
  lemma HttpLoginNeverModerates(libs: Libraries, request: Request, login: Bytes, issued: Int64, now: Int64)
    requires Jwt.ClockFits(issued, 86400) && request.authorization == Some(PREFIX + LoginToken(libs.jwt, login, issued))
    ensures Respond(libs, request, now).By? ==> !ForModerators(Respond(libs, request, now).handler)
  {
    hide Jwt.ValidateToken, Jwt.GenerateToken, Jwt.PayloadText, Jwt.Utf8Fields;
    var r := Respond(libs, request, now);
    if r.By? && ForModerators(r.handler) {
      GeneratedTokenAtGate(libs, request, r.handler, 1, login, Tables.USER, 86400, issued, now);
    }
  }

  /** What a gate refuses it refuses at every later time, for the same request. */
  lemma RefusalIsFinal(libs: Libraries, request: Request, now: Int64, later: Int64)
    requires now <= later && !Respond(libs, request, now).By?
    ensures Respond(libs, request, later) == Respond(libs, request, now)
  {
    hide Jwt.ValidateToken, Json.IsUtf8;
    Jwt.RejectionIsFinal(libs.jwt, ExtractBearerToken(request), now, later);
  }

  /** The router itself fails just for a registration whose body cannot be read, and for an unknown endpoint whose
      target is not UTF-8. */
  lemma InternalErrorExactly(libs: Libraries, request: Request, now: Int64)
    ensures Respond(libs, request, now) == InternalError <==>
            if request.verb == Post && request.target == "/api/register" then !libs.registers(request.body)
            else Endpoint(request.verb, request.target) == None && !Json.IsUtf8(request.target)
  {
    hide Json.IsUtf8, TokenRole, ExtractBearerToken;
  }
}
