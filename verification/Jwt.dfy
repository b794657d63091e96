/** `JWTUtils`: tokens in the compact form of section 7.1 of RFC 7515, signed with HS256. */
module Jwt {
  import opened Strings
  import Base64
  import Decimal
  import Json

  type Digest = d: Bytes | |d| == 32 witness seq(32, _ => 'x')

  datatype TokenPayload = TokenPayload(userId: Int32, login: Bytes, role: Bytes, exp: Int64)

  /** The libraries the repository calls, known only by what this model needs of them: `hmac` is HMAC-SHA256 under
      the secret key (32 bytes, section 3.2 of RFC 7518), `malformed` is OpenSSL's answer on texts that are not
      base64, `claims` is what the JSON library reads from texts outside the grammar of module `Json`. */
  datatype Library = Library(hmac: Bytes -> Digest, malformed: Bytes -> Bytes, claims: Bytes -> Option<TokenPayload>)

  // ---- Signing ----

  function CreateSignature(lib: Library, message: Bytes): Bytes {
    Base64.UrlEncode(lib.hmac(message))
  }

  predicate VerifySignature(lib: Library, message: Bytes, signature: Bytes) {
    CreateSignature(lib, message) == signature
  }

  // ---- Generating ----

  const EXP: Bytes := "exp"
  const IAT: Bytes := "iat"
  const LOGIN: Bytes := "login"
  const ROLE: Bytes := "role"
  const USER_ID: Bytes := "user_id"

  /** The header object, in key order. */
  function HeaderMembers(): seq<Json.Member> {
    [("alg", Json.Text("HS256")), ("typ", Json.Text("JWT"))]
  }

  predicate ClockFits(now: Int64, expirySeconds: Int32) {
    -0x8000_0000_0000_0000 <= now + expirySeconds < 0x8000_0000_0000_0000
  }

  /** The payload object, in key order. */
  function PayloadMembers(userId: Int32, login: Bytes, role: Bytes, expirySeconds: Int32, now: Int64): seq<Json.Member>
    requires ClockFits(now, expirySeconds)
  {
    [ (EXP, Json.Number(now + expirySeconds)), (IAT, Json.Number(now)), (LOGIN, Json.Text(login)),
      (ROLE, Json.Text(role)), (USER_ID, Json.Number(userId)) ]
  }

  function Token(lib: Library, header: Bytes, payload: Bytes): Bytes {
    var message := Base64.UrlEncode(header) + "." + Base64.UrlEncode(payload);
    message + "." + CreateSignature(lib, message)
  }

  /** `generateToken` at clock `now`; a login or role that is not UTF-8 raises inside `dump` and yields "". */
  function GenerateToken(lib: Library, userId: Int32, login: Bytes, role: Bytes, expirySeconds: Int32,
                         now: Int64): Bytes
    requires ClockFits(now, expirySeconds)
  {
    match (Json.Dump(HeaderMembers()), Json.Dump(PayloadMembers(userId, login, role, expirySeconds, now)))
    case (Some(header), Some(payload)) => Token(lib, header, payload)
    case (_, _) => ""
  }

  // ---- Validating ----

  /** `payload["exp"]`, `payload["user_id"]`, `payload["login"]` and `payload["role"]`, each with its `get`. */
  function Extract(o: Json.Object): Option<TokenPayload> {
    if EXP !in o || USER_ID !in o || LOGIN !in o || ROLE !in o then None
    else
      match (o[EXP], o[USER_ID], o[LOGIN], o[ROLE])
      case (Number(exp), Number(userId), Text(login), Text(role)) =>
        Some(TokenPayload(Narrow(userId), login, role, exp))
      case (_, _, _, _) => None
  }

  function Claims(lib: Library, text: Bytes): Option<TokenPayload> {
    match Json.Parse(text)
    case Done(o, _) => Extract(o)
    case Truncated => None
    case Outside => lib.claims(text)
  }

  function Payload(lib: Library, payloadB64: Bytes): Option<TokenPayload> {
    var text := Base64.UrlDecode(lib.malformed, payloadB64);
    if text == [] then None else Claims(lib, text)
  }

  /** `validateToken` at clock `now`. */
  function ValidateToken(lib: Library, token: Bytes, now: Int64): Option<TokenPayload> {
    match Find(token, '.', 0)
    case None => None
    case Some(first) =>
      match Find(token, '.', first + 1)
      case None => None
      case Some(second) =>
        var message := token[..first] + "." + token[first + 1..second];
        if !VerifySignature(lib, message, token[second + 1..]) then None
        else
          match Payload(lib, token[first + 1..second])
          case None => None
          case Some(p) => if now > p.exp then None else Some(p)
  }

  predicate IsTokenExpired(lib: Library, token: Bytes, now: Int64) {
    ValidateToken(lib, token, now) == None
  }

  // ---- Exact acceptance ----

  lemma SignatureHasNoDot(lib: Library, message: Bytes)
    ensures '.' !in CreateSignature(lib, message) && |CreateSignature(lib, message)| == 43
  {
    Base64.UrlEncodeForm(lib.hmac(message));
  }

  /** Three dot-free parts, the last of them the base64url text of the HMAC of the first two and their dot. */
  ghost predicate Signed(lib: Library, token: Bytes, header: Bytes, payload: Bytes) {
    && '.' !in header && '.' !in payload
    && '.' !in Base64.UrlEncode(lib.hmac(header + "." + payload))
    && token == header + "." + payload + "." + Base64.UrlEncode(lib.hmac(header + "." + payload))
  }

  lemma FirstDot(header: Bytes, payload: Bytes, signature: Bytes)
    requires '.' !in header
    ensures Find(header + "." + payload + "." + signature, '.', 0) == Some(|header|)
  {
    hide Find;
    var dot: Bytes := ".";
    var tail := dot + payload + dot + signature;
    Assoc(header, dot, payload);
    Assoc(header, dot + payload, dot);
    Assoc(header, dot + payload + dot, signature);
    FindAfter([], header, '.', tail);
    assert [] + header == header;
  }

  lemma SecondDot(header: Bytes, payload: Bytes, signature: Bytes)
    requires '.' !in payload
    ensures Find(header + "." + payload + "." + signature, '.', |header| + 1) == Some(|header| + 1 + |payload|)
  {
    hide Find;
    var dot: Bytes := ".";
    FindAfter(header + dot, payload, '.', dot + signature);
    Assoc(header + dot + payload, dot, signature);
  }

  /** Cutting such a text at its first two dots recovers the parts. */
  lemma CutAtDots(header: Bytes, payload: Bytes, signature: Bytes)
    ensures var token := header + "." + payload + "." + signature;
            var second := |header| + 1 + |payload|;
            token[..|header|] == header && token[|header| + 1..second] == payload && token[second + 1..] == signature
  {
    var dot: Bytes := ".";
    Assoc(header + dot + payload, dot, signature);
    Slices(header + dot, payload, dot + signature);
    Slices(header + dot + payload, dot, signature);
    Assoc(header + dot, payload, dot + signature);
    Slices(header, dot, payload + (dot + signature));
  }

  lemma ValidateSigned(lib: Library, token: Bytes, header: Bytes, payload: Bytes, now: Int64)
    requires Signed(lib, token, header, payload)
    ensures ValidateToken(lib, token, now) ==
            match Payload(lib, payload) case None => None case Some(p) => if now > p.exp then None else Some(p)
  {
    hide Find, Payload, Base64.UrlEncode;
    FirstDot(header, payload, Base64.UrlEncode(lib.hmac(header + "." + payload)));
    SecondDot(header, payload, Base64.UrlEncode(lib.hmac(header + "." + payload)));
    CutAtDots(header, payload, Base64.UrlEncode(lib.hmac(header + "." + payload)));
  }

  lemma AcceptedIsSigned(lib: Library, token: Bytes, now: Int64, p: TokenPayload)
    requires ValidateToken(lib, token, now) == Some(p)
    ensures exists header, payload ::
              Signed(lib, token, header, payload) && Payload(lib, payload) == Some(p) && now <= p.exp
  {
    hide Find, Payload, Base64.UrlEncode;
    var first := Find(token, '.', 0).value;
    var second := Find(token, '.', first + 1).value;
    var header, payload := token[..first], token[first + 1..second];
    SignatureHasNoDot(lib, header + "." + payload);
    assert token[0..first] == header;
    assert token == header + "." + payload + "." + token[second + 1..];
    assert Signed(lib, token, header, payload);
  }

  /** What a decoded payload text says: an object of the fragment with the four claims under their names, or whatever
      the library reads from other texts. Extra members are allowed; a text that ends inside the object says nothing. */
  predicate Says(lib: Library, text: Bytes, p: TokenPayload) {
    text != [] &&
    match Json.Parse(text)
    case Done(o, _) =>
      && "exp" in o && o["exp"] == Json.Number(p.exp)
      && "user_id" in o && o["user_id"].Number? && p.userId == Narrow(o["user_id"].number)
      && "login" in o && o["login"] == Json.Text(p.login)
      && "role" in o && o["role"] == Json.Text(p.role)
    case Truncated => false
    case Outside => lib.claims(text) == Some(p)
  }

  lemma PayloadSays(lib: Library, payloadB64: Bytes, p: TokenPayload)
    ensures Payload(lib, payloadB64) == Some(p) <==> Says(lib, Base64.UrlDecode(lib.malformed, payloadB64), p)
  {
    hide Json.Parse, Base64.UrlDecode;
  }

  /** A token is accepted, with result `p`, just when it is three dot-free parts of which the last is the signature of
      the first two, the middle one decodes to a text that says `p`, and the clock has not passed `p.exp`. */
  lemma ExactAcceptance(lib: Library, token: Bytes, now: Int64, p: TokenPayload)
    ensures ValidateToken(lib, token, now) == Some(p) <==>
            exists header, payload ::
              && Signed(lib, token, header, payload)
              && Says(lib, Base64.UrlDecode(lib.malformed, payload), p) && now <= p.exp
  {
    hide ValidateToken, Signed, Payload, Says, Base64.UrlDecode;
    if ValidateToken(lib, token, now) == Some(p) {
      AcceptedIsSigned(lib, token, now, p);
      var header, payload :|
        Signed(lib, token, header, payload) && Payload(lib, payload) == Some(p) && now <= p.exp;
      PayloadSays(lib, payload, p);
    }
    forall header, payload |
      && Signed(lib, token, header, payload)
      && Says(lib, Base64.UrlDecode(lib.malformed, payload), p) && now <= p.exp
      ensures ValidateToken(lib, token, now) == Some(p)
    {
      PayloadSays(lib, payload, p);
      ValidateSigned(lib, token, header, payload, now);
    }
  }

  // ---- What the signature binds ----

  /** Standard base64 decoding of a part, its url characters substituted back and its padding restored. */
  function PartBytes(part: Bytes): Option<Bytes> {
    Base64.Decode(Base64.Pad(Base64.MapFromUrl(part)))
  }

  lemma PartOfEncoding(x: Bytes)
    ensures PartBytes(Base64.UrlEncode(x)) == Some(x)
  {
    Base64.PadRestores(x);
    Base64.DecodeEncode(x);
  }

  /** The third part of an accepted token decodes to the HMAC of exactly the first two parts. */
  lemma AcceptedIsAuthentic(lib: Library, token: Bytes, now: Int64)
    requires ValidateToken(lib, token, now).Some?
    ensures exists header: Bytes, payload: Bytes, signature: Bytes ::
              && '.' !in header && '.' !in payload && '.' !in signature
              && token == header + "." + payload + "." + signature
              && PartBytes(signature) == Some(lib.hmac(header + "." + payload))
  {
    hide ValidateToken, PartBytes, Payload, Base64.UrlEncode;
    var p := ValidateToken(lib, token, now).value;
    AcceptedIsSigned(lib, token, now, p);
    var header: Bytes, payload: Bytes :|
      Signed(lib, token, header, payload) && Payload(lib, payload) == Some(p) && now <= p.exp;
    PartOfEncoding(lib.hmac(header + "." + payload));
  }

  /** A signature is good for one message: taken over to a payload whose message has another HMAC, it is rejected. */
  lemma MovedSignatureIsRejected(lib: Library, header: Bytes, payload: Bytes, other: Bytes, signature: Bytes,
                                 before: Int64, now: Int64)
    requires '.' !in header && '.' !in payload && '.' !in other
    requires ValidateToken(lib, header + "." + payload + "." + signature, before).Some?
    requires lib.hmac(header + "." + other) != lib.hmac(header + "." + payload)
    ensures ValidateToken(lib, header + "." + other + "." + signature, now) == None
  {
    hide ValidateToken;
    SignatureOfAccepted(lib, header, payload, signature, before);
    if ValidateToken(lib, header + "." + other + "." + signature, now).Some? {
      SignatureOfAccepted(lib, header, other, signature, now);
    }
  }

  lemma SignatureOfAccepted(lib: Library, header: Bytes, payload: Bytes, signature: Bytes, now: Int64)
    requires '.' !in header && '.' !in payload
    requires ValidateToken(lib, header + "." + payload + "." + signature, now).Some?
    ensures PartBytes(signature) == Some(lib.hmac(header + "." + payload))
  {
    hide PartBytes, ValidateToken, VerifySignature;
    VerifiedParts(lib, header + "." + payload + "." + signature, header, payload, signature, now);
    SignatureIs(lib, header + "." + payload, signature);
  }

  lemma VerifiedParts(lib: Library, token: Bytes, header: Bytes, payload: Bytes, signature: Bytes, now: Int64)
    requires '.' !in header && '.' !in payload && token == header + "." + payload + "." + signature
    requires ValidateToken(lib, token, now).Some?
    ensures VerifySignature(lib, header + "." + payload, signature)
  {
    hide Find, Payload, VerifySignature;
    FirstDot(header, payload, signature);
    SecondDot(header, payload, signature);
    CutAtDots(header, payload, signature);
  }

  lemma SignatureIs(lib: Library, message: Bytes, signature: Bytes)
    requires VerifySignature(lib, message, signature)
    ensures PartBytes(signature) == Some(lib.hmac(message))
  {
    hide PartBytes, Base64.UrlEncode;
    PartOfEncoding(lib.hmac(message));
  }

  /** Once rejected as the clock advances, always rejected; and what is accepted later was accepted before. */
  lemma RejectionIsFinal(lib: Library, token: Bytes, now: Int64, later: Int64)
    requires now <= later
    ensures IsTokenExpired(lib, token, now) ==> IsTokenExpired(lib, token, later)
    ensures ValidateToken(lib, token, later).Some? ==>
              ValidateToken(lib, token, now) == ValidateToken(lib, token, later)
  {
  }

  lemma EmptyIsRejected(lib: Library, now: Int64)
    ensures ValidateToken(lib, "", now) == None
  {
  }

  // ---- Generated tokens ----

  predicate Utf8Fields(login: Bytes, role: Bytes) {
    Json.IsUtf8(login) && Json.IsUtf8(role)
  }

  lemma HeaderMemberText()
    ensures Json.IsUtf8("alg") && Json.IsUtf8("HS256") && Json.IsUtf8("typ") && Json.IsUtf8("JWT")
    ensures Json.Quote("alg") == "\"alg\"" && Json.Quote("HS256") == "\"HS256\""
    ensures Json.Quote("typ") == "\"typ\"" && Json.Quote("JWT") == "\"JWT\""
  {
    hide Json.Escape, Json.IsUtf8;
    Json.PlainText("alg");
    Json.PlainText("HS256");
    Json.PlainText("typ");
    Json.PlainText("JWT");
  }

  lemma HeaderText()
    ensures Json.Dump(HeaderMembers()).Some?
    ensures Json.Dump(HeaderMembers()).value == "{\"alg\":\"HS256\",\"typ\":\"JWT\"}"
  {
    hide Json.Quote, Json.IsUtf8, Json.PrintMembers;
    HeaderMemberText();
    Json.PrintTwo(("alg", Json.Text("HS256")), ("typ", Json.Text("JWT")));
  }

  lemma PayloadPrintable(userId: Int32, login: Bytes, role: Bytes, expirySeconds: Int32, now: Int64)
    requires ClockFits(now, expirySeconds)
    ensures Json.Dump(PayloadMembers(userId, login, role, expirySeconds, now)).Some? <==> Utf8Fields(login, role)
  {
    hide Json.PrintMembers, Json.IsUtf8, Json.Escape;
    var ms := PayloadMembers(userId, login, role, expirySeconds, now);
    assert ms[2] in ms && ms[3] in ms;
    Json.PlainText(EXP);
    Json.PlainText(IAT);
    Json.PlainText(LOGIN);
    Json.PlainText(ROLE);
    Json.PlainText(USER_ID);
  }

  /** The payload text of a token, when it has one. */
  function PayloadText(userId: Int32, login: Bytes, role: Bytes, expirySeconds: Int32, now: Int64): Bytes
    requires ClockFits(now, expirySeconds) && Utf8Fields(login, role)
  {
    PayloadPrintable(userId, login, role, expirySeconds, now);
    Json.Dump(PayloadMembers(userId, login, role, expirySeconds, now)).value
  }

  /** The payload text, byte for byte. */
  lemma PayloadTextIs(userId: Int32, login: Bytes, role: Bytes, expirySeconds: Int32, now: Int64)
    requires ClockFits(now, expirySeconds) && Utf8Fields(login, role)
    ensures PayloadText(userId, login, role, expirySeconds, now) ==
            "{" + ("\"exp\":" + Decimal.Print(now + expirySeconds) + ("," +
            ("\"iat\":" + Decimal.Print(now) + ("," + ("\"login\":" + Json.Quote(login) + ("," +
            ("\"role\":" + Json.Quote(role) + ("," + ("\"user_id\":" + Decimal.Print(userId)))))))))) + "}"
  {
    hide Json.Quote, Json.IsUtf8, Json.PrintMembers, Decimal.Print;
    var ms := PayloadMembers(userId, login, role, expirySeconds, now);
    PayloadPrintable(userId, login, role, expirySeconds, now);
    Json.PrintFive(ms[0], ms[1], ms[2], ms[3], ms[4]);
    assert ms == [ms[0], ms[1], ms[2], ms[3], ms[4]];
    MemberTexts(userId, login, role, now + expirySeconds, now);
  }

  lemma MemberTexts(userId: Int32, login: Bytes, role: Bytes, exp: Int64, iat: Int64)
    requires Utf8Fields(login, role)
    ensures Json.IsUtf8(EXP) && Json.IsUtf8(IAT) && Json.IsUtf8(LOGIN) && Json.IsUtf8(ROLE) && Json.IsUtf8(USER_ID)
    ensures Json.PrintMember((EXP, Json.Number(exp))) == "\"exp\":" + Decimal.Print(exp)
    ensures Json.PrintMember((IAT, Json.Number(iat))) == "\"iat\":" + Decimal.Print(iat)
    ensures Json.PrintMember((LOGIN, Json.Text(login))) == "\"login\":" + Json.Quote(login)
    ensures Json.PrintMember((ROLE, Json.Text(role))) == "\"role\":" + Json.Quote(role)
    ensures Json.PrintMember((USER_ID, Json.Number(userId))) == "\"user_id\":" + Decimal.Print(userId)
  {
    hide Json.Escape, Json.Quote, Json.IsUtf8, Decimal.Print;
    QuotedKey(EXP, "\"exp\":");
    QuotedKey(IAT, "\"iat\":");
    QuotedKey(LOGIN, "\"login\":");
    QuotedKey(ROLE, "\"role\":");
    QuotedKey(USER_ID, "\"user_id\":");
  }

  lemma QuotedKey(key: Bytes, text: Bytes)
    requires text == "\"" + key + "\"" + ":" && forall i :: 0 <= i < |key| ==> Json.IsPlain(key[i])
    ensures Json.IsUtf8(key) && Json.Quote(key) + ":" == text
  {
    hide Json.Escape, Json.IsUtf8;
    Json.PlainText(key);
  }

  /** A token that is issued is the encoded header, the encoded payload and the signature of these two. */
  lemma GeneratedParts(lib: Library, userId: Int32, login: Bytes, role: Bytes, expirySeconds: Int32, now: Int64)
    requires ClockFits(now, expirySeconds) && Utf8Fields(login, role)
    ensures exists header: Bytes, payload: Bytes, signature: Bytes ::
              && '.' !in header && '.' !in payload && '.' !in signature
              && GenerateToken(lib, userId, login, role, expirySeconds, now) == header + "." + payload + "." + signature
              && PartBytes(header) == Some("{\"alg\":\"HS256\",\"typ\":\"JWT\"}")
              && PartBytes(payload) == Some(PayloadText(userId, login, role, expirySeconds, now))
              && PartBytes(signature) == Some(lib.hmac(header + "." + payload))
  {
    hide HeaderMembers, PayloadMembers, Json.Dump, Json.IsUtf8, Base64.UrlEncode, PartBytes;
    HeaderText();
    PayloadPrintable(userId, login, role, expirySeconds, now);
    var headerText, text := Json.Dump(HeaderMembers()).value, PayloadText(userId, login, role, expirySeconds, now);
    var header, payload := Base64.UrlEncode(headerText), Base64.UrlEncode(text);
    GeneratedIsSigned(lib, headerText, text);
    PartOfEncoding(headerText);
    PartOfEncoding(text);
    PartOfEncoding(lib.hmac(header + "." + payload));
  }

  /** The payload text denotes the five claims it was printed from. */
  lemma PayloadObject(userId: Int32, login: Bytes, role: Bytes, expirySeconds: Int32, now: Int64)
    requires ClockFits(now, expirySeconds) && Utf8Fields(login, role)
    ensures var exp, iat, id: Int64 := now + expirySeconds, now, userId;
            Json.Parse(PayloadText(userId, login, role, expirySeconds, now)) ==
            Json.Done(map[EXP := Json.Number(exp), IAT := Json.Number(iat), LOGIN := Json.Text(login),
                          ROLE := Json.Text(role), USER_ID := Json.Number(id)], [])
  {
    hide Json.Dump, Json.IsUtf8, Json.Parse, Json.Collect;
    var ms := PayloadMembers(userId, login, role, expirySeconds, now);
    PayloadPrintable(userId, login, role, expirySeconds, now);
    Json.ParseDump(ms);
    Json.CollectFive(ms, map[]);
  }

  lemma ClaimsOfPayload(lib: Library, userId: Int32, login: Bytes, role: Bytes, expirySeconds: Int32, now: Int64)
    requires ClockFits(now, expirySeconds) && Utf8Fields(login, role)
    ensures Claims(lib, PayloadText(userId, login, role, expirySeconds, now)) ==
            Some(TokenPayload(userId, login, role, now + expirySeconds))
  {
    hide Json.Parse, PayloadText;
    PayloadObject(userId, login, role, expirySeconds, now);
  }

  /** Validating a generated token gives back exactly what it was made from, as long as the payload fits the 511
      bytes that decoding reads and the clock has not passed `exp`; in every other case it gives nothing. */
  lemma TokenRoundTrip(lib: Library, userId: Int32, login: Bytes, role: Bytes, expirySeconds: Int32, now: Int64,
                       later: Int64)
    requires ClockFits(now, expirySeconds)
    ensures ValidateToken(lib, GenerateToken(lib, userId, login, role, expirySeconds, now), later) ==
            if && Utf8Fields(login, role)
               && |PayloadText(userId, login, role, expirySeconds, now)| <= 511
               && later <= now + expirySeconds
            then Some(TokenPayload(userId, login, role, now + expirySeconds)) else None
  {
    hide HeaderMembers, PayloadMembers, Json.Dump, Json.IsUtf8, Json.Parse, Token, Signed, ValidateToken;
    hide Base64.UrlEncode, Base64.UrlDecode;
    HeaderText();
    PayloadPrintable(userId, login, role, expirySeconds, now);
    EmptyIsRejected(lib, later);
    if Utf8Fields(login, role) {
      var text := PayloadText(userId, login, role, expirySeconds, now);
      var header := Base64.UrlEncode(Json.Dump(HeaderMembers()).value);
      var payload := Base64.UrlEncode(text);
      GeneratedIsSigned(lib, Json.Dump(HeaderMembers()).value, text);
      ValidateSigned(lib, Token(lib, Json.Dump(HeaderMembers()).value, text), header, payload, later);
      Base64.UrlRoundTrip(lib.malformed, text);
      if |text| <= Base64.READ_LIMIT {
        ClaimsOfPayload(lib, userId, login, role, expirySeconds, now);
      } else {
        Json.CutDumpIsTruncated(PayloadMembers(userId, login, role, expirySeconds, now), Base64.READ_LIMIT);
      }
    }
  }

  /** Nothing is issued just when login or role is not UTF-8. */
  lemma EmptyTokenExactly(lib: Library, userId: Int32, login: Bytes, role: Bytes, expirySeconds: Int32, now: Int64)
    requires ClockFits(now, expirySeconds)
    ensures GenerateToken(lib, userId, login, role, expirySeconds, now) == "" <==> !Utf8Fields(login, role)
  {
    hide HeaderMembers, PayloadMembers, Json.Dump, Json.IsUtf8, Base64.UrlEncode;
    HeaderText();
    PayloadPrintable(userId, login, role, expirySeconds, now);
  }

  /** A login for which nothing is issued: the lone byte 0xFF. */
  lemma NotUtf8IsEmpty(lib: Library, userId: Int32, role: Bytes, expirySeconds: Int32, now: Int64)
    requires ClockFits(now, expirySeconds)
    ensures GenerateToken(lib, userId, [255 as char], role, expirySeconds, now) == ""
  {
    hide GenerateToken;
    EmptyTokenExactly(lib, userId, [255 as char], role, expirySeconds, now);
  }

  /** A concrete failure: a token for a plain login of 508 bytes or more is rejected at every time. */
  lemma LongLoginNeverValidates(lib: Library, userId: Int32, login: Bytes, role: Bytes, expirySeconds: Int32,
                                now: Int64, later: Int64)
    requires ClockFits(now, expirySeconds) && Json.IsUtf8(role)
    requires |login| >= 508 && forall i :: 0 <= i < |login| ==> Json.IsPlain(login[i])
    ensures ValidateToken(lib, GenerateToken(lib, userId, login, role, expirySeconds, now), later) == None
  {
    hide Json.IsUtf8, Json.PrintMembers, ValidateToken, GenerateToken;
    Json.PlainText(login);
    TokenRoundTrip(lib, userId, login, role, expirySeconds, now, later);
    PayloadPrintable(userId, login, role, expirySeconds, now);
    var ms := PayloadMembers(userId, login, role, expirySeconds, now);
    Json.ValueIsPrinted(ms, 2);
    assert |Json.PrintValue(ms[2].1)| == |login| + 2;
  }

  lemma GeneratedIsSigned(lib: Library, header: Bytes, payload: Bytes)
    ensures Signed(lib, Token(lib, header, payload), Base64.UrlEncode(header), Base64.UrlEncode(payload))
  {
    Base64.UrlEncodeForm(header);
    Base64.UrlEncodeForm(payload);
    SignatureHasNoDot(lib, Base64.UrlEncode(header) + "." + Base64.UrlEncode(payload));
  }

  predicate IsTokenByte(c: Byte) {
    Base64.IsUrlSymbol(c) || c == '.'
  }

  predicate AllTokenBytes(s: Bytes) {
    forall i :: 0 <= i < |s| ==> IsTokenByte(s[i])
  }

  lemma TokenBytesConcat(a: Bytes, b: Bytes)
    requires AllTokenBytes(a) && AllTokenBytes(b)
    ensures AllTokenBytes(a + b)
  {
  }

  lemma EncodedBytes(x: Bytes)
    ensures AllTokenBytes(Base64.UrlEncode(x)) && |Base64.UrlEncode(x)| == (4 * |x| + 2) / 3
  {
    Base64.UrlEncodeForm(x);
  }

  lemma TokenForm(lib: Library, header: Bytes, payload: Bytes)
    ensures AllTokenBytes(Token(lib, header, payload))
    ensures |Token(lib, header, payload)| == (4 * |header| + 2) / 3 + (4 * |payload| + 2) / 3 + 45
  {
    var dot: Bytes := ".";
    var a, b := Base64.UrlEncode(header), Base64.UrlEncode(payload);
    var signature := CreateSignature(lib, a + dot + b);
    EncodedBytes(header);
    EncodedBytes(payload);
    EncodedBytes(lib.hmac(a + dot + b));
    TokenBytesConcat(a, dot);
    TokenBytesConcat(a + dot, b);
    TokenBytesConcat(a + dot + b, dot);
    TokenBytesConcat(a + dot + b + dot, signature);
  }

  /** Size and alphabet of a generated token: 81 characters and four thirds of the payload, so at most 763 for a
      payload that can be validated, and every one of them from the url alphabet or a dot. */
  lemma TokenShape(lib: Library, userId: Int32, login: Bytes, role: Bytes, expirySeconds: Int32, now: Int64)
    requires ClockFits(now, expirySeconds) && Utf8Fields(login, role)
    ensures var token := GenerateToken(lib, userId, login, role, expirySeconds, now);
            var n := |PayloadText(userId, login, role, expirySeconds, now)|;
            && AllTokenBytes(token)
            && |token| == 81 + (4 * n + 2) / 3
            && (n <= 511 ==> |token| <= 763)
  {
    hide HeaderMembers, PayloadMembers, Json.Dump, Json.IsUtf8, Token;
    HeaderText();
    PayloadPrintable(userId, login, role, expirySeconds, now);
    TokenForm(lib, Json.Dump(HeaderMembers()).value, PayloadText(userId, login, role, expirySeconds, now));
  }
}
