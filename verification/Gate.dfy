/** Which guarded commands get past a session's token check, from the text a client user types to the effect. */
module Gate {
  import opened Strings
  import opened Sessions
  import opened Commands
  import opened Service
  import opened Runs
  import Clients
  import Decimal
  import Json
  import Jwt
  import T = Transactions
  import Tables
  import Tokens
  import Wire

  // ---- The token gate ----

  predicate IsGuarded(name: Bytes) {
    name == CREATE_FLAT || name == CREATE_HOUSE || name == GET_FLATS || name == TAKE_FLAT || name == UPDATE_FLAT_STATUS
  }

  function PresentedToken(c: Command): Option<Bytes> {
    match c
    case CreateHouse(token) => Some(token)
    case CreateFlat(token, _, _, _, _) => Some(token)
    case GetFlats(token, _) => Some(token)
    case TakeFlat(token, _) => Some(token)
    case UpdateFlatStatus(token, _, _) => Some(token)
    case _ => None
  }

  lemma BuildPresents(name: Bytes, args: seq<Bytes>)
    requires IsGuarded(name) && Build(name, args).Some?
    ensures args != [] && PresentedToken(Build(name, args).value) == Some(args[0])
  {
  }

  predicate RoleSuffices(role: Bytes, c: Command) {
    c.CreateFlat? || (c.GetFlats? && role != []) || role == Tables.MODERATOR
  }

  /** What a guarded command needs: an authorised session, its token, and a role. */
  predicate Allows(v: Identity, c: Command) {
    v.authorised && PresentedToken(c) == Some(v.token) && RoleSuffices(v.role, c)
  }

  /** A guarded command is refused, without any effect, just when one of these is missing. */
  lemma RefusedExactly(c: Command, v: Identity, t: Tables.Tables, env: Env)
    requires PresentedToken(c).Some?
    ensures RunCommand(c, v, t, env).reply == Refused <==> !Allows(v, c)
    ensures RunCommand(c, v, t, env).reply == Refused ==> RunCommand(c, v, t, env) == Ran(v, t, Refused)
    ensures Started(c, v).Some? ==> Allows(v, c)
  {
  }

  // ---- Lines ----

  /** A line that can be read and, if it is a guarded command, is allowed. */
  predicate Acts(v: Identity, line: Bytes) {
    Read(line).Some? && (PresentedToken(Read(line).value).Some? ==> Allows(v, Read(line).value))
  }

  /** In this state, the line is refused and changes nothing. */
  ghost predicate WithoutEffect(s: State, session: nat, line: Bytes, env: Env)
    requires session in s.sessions
  {
    && RunLine(line, s.sessions[session], TablesOf(s), env) == Ran(s.sessions[session], TablesOf(s), Refused)
    && Apply(s, Line(session, line, env)) == s
  }

  predicate IsRefused(s: State, session: nat, line: Bytes, env: Env)
    requires session in s.sessions
  {
    RunLine(line, s.sessions[session], TablesOf(s), env).reply == Refused
  }

  lemma OthersAreNotRefused(c: Command, v: Identity, t: Tables.Tables, env: Env)
    requires PresentedToken(c) == None
    ensures RunCommand(c, v, t, env).reply != Refused
  {
  }

  /** Any line at all: it is refused, without effect, just when it does not act. */
  lemma LineExactly(s: State, session: nat, line: Bytes, env: Env)
    requires session in s.sessions
    ensures IsRefused(s, session, line, env) <==> !Acts(s.sessions[session], line)
    ensures !Acts(s.sessions[session], line) ==> WithoutEffect(s, session, line, env)
  {
    hide Read, RunCommand, PresentedToken, Allows;
    var v, t := s.sessions[session], TablesOf(s);
    if Read(line).Some? {
      var c := Read(line).value;
      if PresentedToken(c).Some? { RefusedExactly(c, v, t, env); } else { OthersAreNotRefused(c, v, t, env); }
    }
  }

  /** The token a guarded command presents is the text up to the second space. */
  lemma PresentsEmpty(line: Bytes, pos: nat)
    requires Find(line, ' ', 0) == Some(pos) && IsGuarded(line[..pos]) && Read(line).Some?
    ensures PresentedToken(Read(line).value).Some?
    ensures PresentedToken(Read(line).value) == Some([]) <==> Clients.SecondSpace(line, pos)
  {
    hide Find, Build, Wire.Fields, PresentedToken;
    var args := Wire.Fields(line[pos + 1..]);
    Wire.FieldsAtSpace(line, pos);
    assert ([line[..pos]] + args)[1..] == args;
    BuildPresents(line[..pos], args);
    Wire.FirstField(line[pos + 1..]);
  }

  lemma TokenIsEmpty(s: State, session: nat)
    requires ServiceInv(s) && session in s.sessions
    ensures s.sessions[session].token == []
  {
  }

  /** In every reachable state, a line with a guarded command acts just when it can be read, presents the empty token,
      and session and role suffice: no command sets a session's token, so only the empty token is ever right. */
  lemma GuardedLineExactly(s: State, session: nat, line: Bytes, pos: nat)
    requires ServiceInv(s) && session in s.sessions
    requires Find(line, ' ', 0) == Some(pos) && IsGuarded(line[..pos])
    ensures var v := s.sessions[session];
            Acts(v, line) <==>
            && Read(line).Some? && Clients.SecondSpace(line, pos)
            && v.authorised && RoleSuffices(v.role, Read(line).value)
  {
    hide Find, Read, RoleSuffices, Clients.SecondSpace;
    TokenIsEmpty(s, session);
    if Read(line).Some? { PresentsEmpty(line, pos); }
  }

  // ---- What a client sends ----

  /** The lines that reach `execute_command` when these bytes arrive at a session with an empty buffer. */
  function LinesOf(chunks: seq<Bytes>): seq<Bytes> {
    Wire.Dispatched(Wire.Receive([], chunks).lines)
  }

  /** The text client, whatever token it holds and however the network cuts up what it sends for a guarded command. The
      first line the server reads from it acts just when it can be read, session and role suffice, and the token
      presented is empty: the typed text names a login or a registration, goes out as typed and has a second space
      itself, or the client has nothing to present. Otherwise it is refused without effect. There is no other line,
      unless the token spans lines. */
  lemma ClientCommandPassesExactly(s: State, session: nat, token: Bytes, typed: Bytes, pos: nat, chunks: seq<Bytes>,
                                   env: Env)
    requires ServiceInv(s) && session in s.sessions
    requires '\n' !in typed && Find(typed, ' ', 0) == Some(pos) && IsGuarded(typed[..pos])
    requires Clients.Sends(token, typed, chunks)
    ensures LinesOf(chunks) != []
    ensures '\n' !in token || Clients.SentAsTyped(typed) ==>
              LinesOf(chunks) == [ChompByte(Clients.Outgoing(token, typed).value, '\r')]
    ensures var first, v := LinesOf(chunks)[0], s.sessions[session];
            var presentsEmpty :=
              if Clients.SentAsTyped(typed) then Clients.SecondSpace(typed, pos) else Clients.StartsEmpty(token);
            var passes := Read(first).Some? && v.authorised && RoleSuffices(v.role, Read(first).value) && presentsEmpty;
            && (IsRefused(s, session, first, env) <==> !passes)
            && (!passes ==> WithoutEffect(s, session, first, env))
  {
    hide Acts, WithoutEffect, IsRefused, RoleSuffices, Read, Find;
    hide Clients.Sends, Clients.Outgoing, Clients.SentAsTyped, Clients.SecondSpace, Wire.Receive;
    Clients.FirstDispatched(token, typed, pos, chunks);
    var first := LinesOf(chunks)[0];
    GuardedLineExactly(s, session, first, pos);
    LineExactly(s, session, first, env);
    SingleLine(token, typed, chunks);
  }

  lemma SingleLine(token: Bytes, typed: Bytes, chunks: seq<Bytes>)
    requires '\n' !in typed && Clients.Sends(token, typed, chunks)
    ensures '\n' !in token || Clients.SentAsTyped(typed) ==>
              LinesOf(chunks) == [ChompByte(Clients.Outgoing(token, typed).value, '\r')]
  {
    hide Clients.Outgoing, Wire.Receive, ChompByte, Clients.SentAsTyped;
    Clients.OutgoingBytes(token, typed);
    if '\n' !in Clients.Outgoing(token, typed).value { Clients.OutgoingIsOneLine(token, typed, chunks); }
  }

  /** A case that passes, with any token in the client: a moderator types a flat number followed by "/login" behind two
      spaces, and the take is started. */
  lemma UnsplicedTakeIsStarted(s: State, session: nat, token: Bytes, typed: Bytes, chunks: seq<Bytes>, env: Env)
    requires ServiceInv(s) && Listening(s, session)
    requires s.sessions[session].authorised && s.sessions[session].role == Tables.MODERATOR
    requires typed == "/take_flat  5/login" && Clients.Sends(token, typed, chunks)
    ensures LinesOf(chunks) == [typed] && Read(typed) == Some(TakeFlat([], 5))
    ensures Apply(s, Line(session, typed, env)).store == T.Step(s.store, T.Open(session, T.Take(5))).0
  {
    hide Find, Clients.Outgoing, Clients.Sends, Clients.SentAsTyped;
    hide Read, T.Step, RunCommand, ServiceInv, LinesOf;
    TakeIsSentAsTyped(token, typed);
    SingleLine(token, typed, chunks);
    ReadsAsTake(typed);
    TokenIsEmpty(s, session);
  }

  lemma TakeIsSentAsTyped(token: Bytes, typed: Bytes)
    requires typed == "/take_flat  5/login"
    ensures Clients.SentAsTyped(typed) && Clients.Outgoing(token, typed) == Some(typed)
    ensures '\n' !in typed && ChompByte(typed, '\r') == typed
  {
    hide Find, Clients.Contains;
    FindIs(typed, ' ', 0, 10);
    assert Clients.IsAt(typed, "/login", 13);
    Clients.ContainsIff(typed, "/login");
  }

  lemma ReadsAsTake(typed: Bytes)
    requires typed == "/take_flat  5/login"
    ensures Read(typed) == Some(TakeFlat([], 5))
  {
    hide Wire.Fields, Decimal.Stoi;
    var fields: seq<Bytes> := [TAKE_FLAT, [], "5/login"];
    Wire.ParseInvertsJoin(fields);
    assert Wire.Join(fields) == typed by {
      assert fields[1..] == [[], "5/login"] && fields[1..][1..] == ["5/login"];
      assert Wire.Join(["5/login"]) == "5/login";
      assert Wire.Join([[], "5/login"]) == " 5/login";
    }
    assert fields[1..] == [[], "5/login"];
    StoiOfFive();
  }

  lemma StoiOfFive()
    ensures Decimal.Stoi("5/login") == Some(5)
  {
    var t: Bytes := "5/login";
    Decimal.RunIs(t, 1);
    assert t[..1] == "5" && Decimal.FromDigits("") == 0;
    assert Decimal.FromDigits("5") == 5;
  }

  /** Another: a decision typed with a carriage return at its end arrives without it, and opens. */
  lemma CarriageReturnIsDropped(s: State, session: nat, token: Bytes, line: Bytes, chunks: seq<Bytes>, env: Env)
    requires ServiceInv(s) && Listening(s, session)
    requires s.sessions[session].authorised && s.sessions[session].role == Tables.MODERATOR
    requires line == UPDATE_FLAT_STATUS + "  5/login " + T.APPROVED && Clients.Sends(token, line + "\r", chunks)
    ensures Read(line + "\r") == None && LinesOf(chunks) == [line]
    ensures Apply(s, Line(session, line, env)).store == T.Step(s.store, T.Open(session, T.Decide(5, T.APPROVED))).0
  {
    hide Find, Clients.Contains, Clients.Outgoing, Clients.Sends, Clients.SentAsTyped;
    hide Read, T.Step, RunCommand, ServiceInv, LinesOf, ChompByte;
    var front: Bytes := UPDATE_FLAT_STATUS + "  5/login ";
    Assoc(front, T.APPROVED, "\r");
    LoginAtFive(front, T.APPROVED + "\r");
    SingleLine(token, line + "\r", chunks);
    ChompReturn(line);
    ReadsAsDecision(T.APPROVED);
    ReadsAsDecision(T.APPROVED + "\r");
    TokenIsEmpty(s, session);
  }

  lemma ChompReturn(line: Bytes)
    ensures ChompByte(line + "\r", '\r') == line
  {
  }

  /** Such a text names a login, so it is sent as it is. */
  lemma LoginAtFive(front: Bytes, rest: Bytes)
    requires front == UPDATE_FLAT_STATUS + "  5/login " && '\n' !in rest
    ensures '\n' !in front + rest && Clients.SentAsTyped(front + rest)
    ensures forall token :: Clients.Outgoing(token, front + rest) == Some(front + rest)
  {
    hide Clients.Contains;
    var typed := front + rest;
    assert typed[22..28] == front[22..28] == "/login";
    assert Clients.IsAt(typed, "/login", 22);
    Clients.ContainsIff(typed, "/login");
    assert typed[19] == front[19] == ' ';
    assert typed[0] == front[0] && typed[1] == front[1] && typed[2] == front[2];
    assert forall i :: 0 <= i < |front| ==> typed[i] == front[i];
    assert Find(typed, ' ', 0).Some?;
  }

  lemma ReadsAsDecision(status: Bytes)
    requires status != [] && ' ' !in status
    ensures var allowed := status == T.APPROVED || status == T.DECLINED;
            Read(UPDATE_FLAT_STATUS + "  5/login " + status) ==
            if allowed then Some(UpdateFlatStatus([], 5, status)) else None
  {
    hide Wire.Fields, Wire.Join, Decimal.Stoi;
    var fields: seq<Bytes> := [UPDATE_FLAT_STATUS, [], "5/login", status];
    Wire.ParseInvertsJoin(fields);
    JoinOfFour(UPDATE_FLAT_STATUS, [], "5/login", status);
    assert fields[1..] == [[], "5/login", status];
    TwoSpaces(UPDATE_FLAT_STATUS, "5/login", status);
    StoiOfFive();
  }

  lemma TwoSpaces(name: Bytes, number: Bytes, rest: Bytes)
    requires number == "5/login"
    ensures name + " " + ([] + " " + (number + " " + rest)) == name + "  5/login " + rest
  {
    assert "  5/login " == " " + " " + number + " ";
  }

  lemma JoinOfFour(a: Bytes, b: Bytes, c: Bytes, d: Bytes)
    ensures Wire.Join([a, b, c, d]) == a + " " + (b + " " + (c + " " + d))
  {
    assert [a, b, c, d][1..] == [b, c, d] && [b, c, d][1..] == [c, d] && [c, d][1..] == [d];
    assert Wire.Join([d]) == d;
    assert Wire.Join([c, d]) == c + " " + d;
    assert Wire.Join([b, c, d]) == b + " " + (c + " " + d);
  }

  /** From keyboard to table, in any reachable state: what an authorised session's client types after `/create_flat`,
      while it holds no token, is stored as typed, negative numbers included, however the network cuts up the bytes. */
  lemma CreateFlatFromKeyboard(s: State, session: nat, house: Int32, number: Int32, rooms: Int32, price: Int32,
                               typed: Bytes, chunks: seq<Bytes>, env: Env)
    requires ServiceInv(s) && Listening(s, session) && s.sessions[session].authorised && house in s.houses && env.up
    requires typed == CREATE_FLAT + " " + Wire.Join(CreateFlatArgs(house, number, rooms, price))
    requires Clients.Sends([], typed, chunks)
    ensures |LinesOf(chunks)| == 1
    ensures var row := T.FlatRow(house, number, price, rooms, "created");
            Apply(s, Line(session, LinesOf(chunks)[0], env)) ==
            s.(nextFlat := s.nextFlat + 1, store := s.store.(flats := s.store.flats[s.nextFlat := row]))
  {
    hide Find, Wire.Join, Clients.Sends, Clients.Splice, Clients.SentAsTyped, ChompByte;
    hide RunCommand, RunLine, Apply, LinesOf, Read, ServiceInv, Narrow, CreateFlatArgs;
    var v, line := s.sessions[session], Clients.Splice(typed, 12, []);
    TokenIsEmpty(s, session);
    CreateFlatEndToEnd(house, number, rooms, price, v, TablesOf(s), env);
    CreateFlatBytes(house, number, rooms, price, typed);
    SingleLine([], typed, chunks);
    Clients.OutgoingBytes([], typed);
    NoReturnToChomp(line);
    assert LinesOf(chunks) == [line];
    CreatedIsApplied(s, session, line, env);
    assert s.sessions[session := v] == s.sessions;
  }

  lemma NoReturnToChomp(line: Bytes)
    requires Wire.Last(line) != Some('\r')
    ensures ChompByte(line, '\r') == line
  {
  }

  lemma CreatedIsApplied(s: State, session: nat, line: Bytes, env: Env)
    requires Listening(s, session) && RunLine(line, s.sessions[session], TablesOf(s), env).reply == Created
    ensures var ran := RunLine(line, s.sessions[session], TablesOf(s), env);
            Apply(s, Line(session, line, env)) ==
            WithTables(s, ran.tables).(sessions := s.sessions[session := ran.identity])
  {
    hide Read;
  }

  predicate IsNumberByte(c: Byte) {
    c == ' ' || c == '-' || Decimal.IsDigit(c)
  }

  lemma CreateFlatArgsBytes(house: Int32, number: Int32, rooms: Int32, price: Int32)
    ensures var text := Wire.Join(CreateFlatArgs(house, number, rooms, price));
            text != [] && forall c :: c in text ==> IsNumberByte(c)
  {
    hide Wire.Join, Decimal.Print;
    Decimal.PrintBytes(house);
    Decimal.PrintBytes(number);
    Decimal.PrintBytes(rooms);
    Decimal.PrintBytes(price);
    JoinOfFour(Decimal.Print(house), Decimal.Print(number), Decimal.Print(rooms), Decimal.Print(price));
  }

  /** A text with no slash but its first byte, behind which there is no "l" and no "r", names no login and no
      registration. */
  lemma NamesNoLogin(typed: Bytes)
    requires |typed| >= 2 && typed[1] != 'l' && typed[1] != 'r' && '/' !in typed[1..]
    ensures !Clients.SentAsTyped(typed)
  {
    hide Clients.Contains;
    NowhereIn(typed, "/login");
    NowhereIn(typed, "/register");
  }

  lemma NowhereIn(typed: Bytes, part: Bytes)
    requires |typed| >= 2 && '/' !in typed[1..] && |part| >= 2 && part[0] == '/' && part[1] != typed[1]
    ensures !Clients.Contains(typed, part)
  {
    hide Clients.Contains;
    Clients.ContainsIff(typed, part);
    forall k: nat
      ensures !Clients.IsAt(typed, part, k)
    {
      if k + |part| <= |typed| {
        assert typed[k..k + |part|][0] == typed[k] && typed[k..k + |part|][1] == typed[k + 1];
        assert k > 0 ==> typed[1..][k - 1] == typed[k];
      }
    }
  }

  lemma CreateFlatBytes(house: Int32, number: Int32, rooms: Int32, price: Int32, typed: Bytes)
    requires typed == CREATE_FLAT + " " + Wire.Join(CreateFlatArgs(house, number, rooms, price))
    ensures '\n' !in typed && Wire.Last(typed) != Some('\r') && !Clients.SentAsTyped(typed)
    ensures typed != "/quit" && typed != "/commands"
  {
    hide Wire.Join, CreateFlatArgs, Clients.SentAsTyped, Decimal.IsDigit;
    var text, rest: Bytes := Wire.Join(CreateFlatArgs(house, number, rooms, price)), "create_flat ";
    CreateFlatArgsBytes(house, number, rooms, price);
    assert typed == "/" + (rest + text);
    NumberTail(rest, text);
    assert typed[1..] == rest + text;
    NamesNoLogin(typed);
  }

  lemma NumberTail(rest: Bytes, text: Bytes)
    requires rest == "create_flat " && text != [] && forall c :: c in text ==> IsNumberByte(c)
    ensures |rest + text| > 12 && (rest + text)[0] == 'c' && '/' !in rest + text && '\n' !in rest + text
    ensures Wire.Last(rest + text) != Some('\r')
  {
    assert text[|text| - 1] in text;
  }

  // ---- The token after a login ----

  /** A login line that found its user: the session is authorised from that row, and the two replies carry its role
      and the token issued for it. */
  lemma LoginIssuesToken(login: Bytes, password: Bytes, v: Identity, t: Tables.Tables, env: Env)
    requires |RunLogin(login, password, v, t, env).reply.lines| == 2
    ensures var found := Tables.FindUserByLogin(t, login, env.up);
            && found.Some? && found.value.password == password
            && RunLogin(login, password, v, t, env).identity ==
               Authorise(v, found.value.id, found.value.login, found.value.role)
            && RunLogin(login, password, v, t, env).reply.lines ==
               [WelcomeLine(found.value.role), TokenLine(IssuedToken(found.value, env))]
  {
  }

  lemma IssuedTokenShape(user: Tables.UserData, login: Env)
    requires Jwt.Utf8Fields(user.login, user.role)
    ensures var token := IssuedToken(user, login);
            token != [] && ' ' !in token && '\n' !in token && Wire.Last(token) != Some('\r')
  {
    hide Jwt.GenerateToken, Jwt.PayloadText, Json.IsUtf8;
    Jwt.TokenShape(login.lib, Narrow(user.id), user.login, user.role, 86400, login.now);
    var token := IssuedToken(user, login);
    assert forall i :: 0 <= i < |token| ==> Jwt.IsTokenByte(token[i]);
  }

  /** Where the greeting with a role that has no space could be taken for a token message: nowhere. */
  lemma GreetingHasNoPrefix(role: Bytes)
    requires ' ' !in role
    ensures !Clients.Contains(WelcomeLine(role) + Clients.TOKEN_PREFIX[..6], Clients.TOKEN_PREFIX)
  {
    hide Clients.Contains;
    var s: Bytes := WelcomeLine(role) + Clients.TOKEN_PREFIX[..6];
    Clients.ContainsIff(s, Clients.TOKEN_PREFIX);
    forall k: nat | Clients.IsAt(s, Clients.TOKEN_PREFIX, k)
      ensures false
    {
      assert s[k..k + 7][6] == s[k + 6] && s[k..k + 7][5] == s[k + 5];
      NoColonBeforeSpace(role, k + 5);
    }
  }

  lemma NoColonBeforeSpace(role: Bytes, j: nat)
    requires ' ' !in role && 4 < j + 1 < |WelcomeLine(role) + Clients.TOKEN_PREFIX[..6]|
    ensures var s: Bytes := WelcomeLine(role) + Clients.TOKEN_PREFIX[..6];
            !(s[j] == ':' && s[j + 1] == ' ')
  {
    var s: Bytes := WelcomeLine(role) + Clients.TOKEN_PREFIX[..6];
    var tail: Bytes := "\nTOKEN:";
    var welcome := OK + SUCCESSFUL;
    assert s == welcome + role + tail;
    if j + 1 < |welcome| {
      assert s[j] == welcome[j] && s[j + 1] == welcome[j + 1];
    } else if j + 1 < |welcome| + |role| {
      assert s[j + 1] == role[j + 1 - |welcome|];
    } else {
      assert s[j + 1] == tail[j + 1 - |welcome| - |role|];
    }
  }

  /** The stream that follows a successful login, for a user whose login and role are UTF-8, with whatever the server
      writes later: how the client's reads cut it decides whether it holds the issued token, as `TokenArrivesExactly`
      says. Read apart, the replies leave the token; read together, never. */
  lemma IssuedTokenArrives(held: Bytes, user: Tables.UserData, env: Env, more: Bytes, parts: seq<Bytes>)
    requires Jwt.Utf8Fields(user.login, user.role)
    requires Wire.Concat(parts) == WelcomeLine(user.role) + TokenLine(IssuedToken(user, env)) + more
    ensures var greeting, token := WelcomeLine(user.role), IssuedToken(user, env);
            && (forall i: nat | Tokens.HoldsPrefix(parts, i, |greeting|) ::
                 Tokens.TokenAfterAll(held, parts[..i + 1]) == token <==> Tokens.BringsToken(greeting, token, parts, i))
            && (!Clients.Contains(more, Clients.TOKEN_PREFIX) ==>
                 && (Tokens.SomeHoldsPrefix(parts, |greeting|) ==>
                      (Tokens.TokenAfterAll(held, parts) == token <==>
                       Tokens.TokenComesThrough(greeting, token, parts)))
                 && (!Tokens.SomeHoldsPrefix(parts, |greeting|) && ' ' !in user.role ==>
                      Tokens.TokenAfterAll(held, parts) == held))
            && (parts == [greeting, TokenLine(token)] ==> Tokens.TokenAfterAll(held, parts) == token)
            && (parts == [greeting + TokenLine(token)] ==> Tokens.TokenAfterAll(held, parts) != token)
  {
    hide Tokens.SomeHoldsPrefix, Tokens.TokenAfterAll, Clients.Contains, IssuedToken, Jwt.Utf8Fields, Wire.Concat;
    hide Tokens.BringsToken, Tokens.TokenComesThrough;
    var greeting, token := WelcomeLine(user.role), IssuedToken(user, env);
    IssuedTokenShape(user, env);
    LoginReplies(user.role, token, more);
    LoginReplies(user.role, token, []);
    Tokens.TokenArrivesExactly(held, greeting, token, more, parts);
    Tokens.ApartOrTogether(held, greeting, token, more);
    if ' ' !in user.role { GreetingHasNoPrefix(user.role); }
    assert greeting[3] == ' ';
  }

  lemma LoginReplies(role: Bytes, token: Bytes, more: Bytes)
    ensures WelcomeLine(role) + TokenLine(token) + more == Tokens.Replies(WelcomeLine(role), token, more)
    ensures TokenLine(token) == Clients.TOKEN_PREFIX + token + "\n"
    ensures more == [] ==> WelcomeLine(role) + TokenLine(token) == Tokens.Replies(WelcomeLine(role), token, more)
  {
    var greeting := WelcomeLine(role);
    assert TokenLine(token) + more == Clients.TOKEN_PREFIX + (token + "\n" + more);
    Assoc(greeting, TokenLine(token), more);
    if more == [] { assert TokenLine(token) + more == TokenLine(token); }
  }

  /** The shown client after a login whose token came through, for any user whose login and role are UTF-8: at any later
      point of any run, what the server reads from a guarded command of this client is one line, and it has no effect,
      unless the typed text names a login or a registration, goes out as typed, has a second space, and suits session
      and role. */
  lemma LoggedInClientIsRefused(s: State, session: nat, login: Bytes, password: Bytes, loginEnv: Env,
                                user: Tables.UserData, held: Bytes, more: Bytes, parts: seq<Bytes>, later: seq<Event>,
                                typed: Bytes, pos: nat, chunks: seq<Bytes>, env: Env)
    requires ServiceInv(s) && session in s.sessions && Jwt.Utf8Fields(user.login, user.role)
    requires RunLogin(login, password, s.sessions[session], TablesOf(s), loginEnv).reply ==
             Told([WelcomeLine(user.role), TokenLine(IssuedToken(user, loginEnv))])
    requires Wire.Concat(parts) == WelcomeLine(user.role) + TokenLine(IssuedToken(user, loginEnv)) + more
    requires Tokens.TokenComesThrough(WelcomeLine(user.role), IssuedToken(user, loginEnv), parts)
    requires !Clients.Contains(more, Clients.TOKEN_PREFIX)
    requires '\n' !in typed && Find(typed, ' ', 0) == Some(pos) && IsGuarded(typed[..pos])
    requires Clients.Sends(Tokens.TokenAfterAll(held, parts), typed, chunks)
    ensures var now := Exec(s, later);
            && session in now.sessions && |LinesOf(chunks)| == 1
            && (WithoutEffect(now, session, LinesOf(chunks)[0], env)
                || (&& Clients.SentAsTyped(typed) && LinesOf(chunks) == [ChompByte(typed, '\r')]
                    && Clients.SecondSpace(typed, pos) && Acts(now.sessions[session], LinesOf(chunks)[0])))
  {
    hide RunLogin, Apply, IssuedToken, TokenLine, WelcomeLine, Exec, Read, Find, ChompByte, LinesOf;
    hide Clients.SentAsTyped, Clients.Sends, Clients.SecondSpace, Clients.Contains;
    hide Tokens.TokenAfterAll, Tokens.HoldsPrefix, Tokens.BringsToken, Acts, WithoutEffect, IsRefused, RoleSuffices;
    IssuedTokenShape(user, loginEnv);
    IssuedTokenArrives(held, user, loginEnv, more, parts);
    InvFrom(s, later);
    ClientCommandPassesExactly(Exec(s, later), session, IssuedToken(user, loginEnv), typed, pos, chunks, env);
    LineExactly(Exec(s, later), session, LinesOf(chunks)[0], env);
  }

  // ---- A client that read both replies at once ----

  lemma NoCommandIsNamedSo(v: Identity, line: Bytes)
    requires Clients.Named(line, "TOKEN:") || Clients.Named(line, "OKEN:")
    ensures Read(line) == None && !Acts(v, line)
  {
    hide Find, Wire.Fields;
    var k := Find(line, ' ', 0).value;
    Wire.FieldsAtSpace(line, k);
  }

  /** A client that read some of the greeting, with a space in it, together with the token message: what the server
      reads from a guarded command it then sends is at least two lines, and two if that rest of the greeting is one
      line. The last one never acts; the first one acts only if the greeting has two spaces in a row; any between them
      are pieces of the greeting, from wherever it has no earlier newline (`quiet`). */
  lemma LateReadLines(s: State, session: nat, held: Bytes, greeting: Bytes, at: nat, quiet: nat, token: Bytes,
                      part: Bytes, typed: Bytes, pos: nat, chunks: seq<Bytes>)
    requires ServiceInv(s) && session in s.sessions
    requires Wire.Last(greeting) == Some('\n') && Find(greeting, ' ', 0) == Some(at) && '\n' !in token
    requires part <= Tokens.Replies(greeting, token, []) && |greeting| + 7 <= |part|
    requires '\n' !in typed && Find(typed, ' ', 0) == Some(pos) && IsGuarded(typed[..pos])
    requires !Clients.SentAsTyped(typed) && Clients.Sends(Clients.TokenAfter(held, part), typed, chunks)
    requires at < quiet < |greeting| && '\n' !in greeting[at + 1..quiet]
    ensures var lines, v := LinesOf(chunks), s.sessions[session];
            && |lines| >= 2 && (Wire.IsLine(greeting[at + 1..]) ==> |lines| == 2)
            && (forall i :: 1 <= i < |lines| - 1 ==> Clients.IsLineOf(lines[i], greeting[quiet..]))
            && !Acts(v, lines[|lines| - 1]) && (Acts(v, lines[0]) ==> greeting[at + 1] == ' ')
  {
    hide Clients.SentAsTyped, Clients.Sends, Clients.TokenAfter, Clients.Named, Find, Read, RoleSuffices, LinesOf;
    hide Tokens.Replies, Wire.IsLine, Acts, Clients.IsLineOf;
    var end := KeptLate(held, greeting, at, token, part);
    assert greeting[at + 1..][..quiet - at - 1] == greeting[at + 1..quiet];
    assert greeting[at + 1..][quiet - at - 1..] == greeting[quiet..];
    LateTokenEnds(greeting[at + 1..], quiet - at - 1, end, typed, pos, chunks);
    NoCommandIsNamedSo(s.sessions[session], LinesOf(chunks)[|LinesOf(chunks)| - 1]);
    FirstNeedsEmpty(s, session, Clients.TokenAfter(held, part), typed, pos, chunks);
  }

  lemma KeptLate(held: Bytes, greeting: Bytes, at: nat, token: Bytes, part: Bytes) returns (end: Bytes)
    requires Wire.Last(greeting) == Some('\n') && Find(greeting, ' ', 0) == Some(at) && '\n' !in token
    requires part <= Tokens.Replies(greeting, token, []) && |greeting| + 7 <= |part|
    ensures at + 1 < |greeting| && |part| <= |greeting| + 8 + |token|
    ensures '\n' !in end && Clients.TokenAfter(held, part) == greeting[at + 1..] + Clients.TOKEN_PREFIX + end
    ensures Wire.Last(greeting[at + 1..]) == Some('\n')
    ensures !Clients.StartsEmpty(Clients.TokenAfter(held, part)) || greeting[at + 1] == ' '
  {
    hide Clients.TokenAfter, Tokens.Replies, Chomp;
    Tokens.RepliesBytes(greeting, token, []);
    Tokens.TokenOfLateRead(held, greeting, token, [], part, at);
    ChompedToken(token, |part| - |greeting| - 7);
    end := Chomp((token + "\n" + [])[..|part| - |greeting| - 7]);
  }

  lemma LateTokenEnds(greeting: Bytes, quiet: nat, token: Bytes, typed: Bytes, pos: nat, chunks: seq<Bytes>)
    requires Wire.Last(greeting) == Some('\n') && '\n' !in token
    requires '\n' !in typed && Find(typed, ' ', 0) == Some(pos) && !Clients.SentAsTyped(typed)
    requires Clients.Sends(greeting + Clients.TOKEN_PREFIX + token, typed, chunks)
    requires quiet < |greeting| && '\n' !in greeting[..quiet]
    ensures var lines := LinesOf(chunks);
            && |lines| >= 2 && (Wire.IsLine(greeting) ==> |lines| == 2)
            && (Clients.Named(lines[|lines| - 1], "TOKEN:") || Clients.Named(lines[|lines| - 1], "OKEN:"))
            && (forall i :: 1 <= i < |lines| - 1 ==> Clients.IsLineOf(lines[i], greeting[quiet..]))
  {
    hide Clients.SentAsTyped, Clients.Sends, Clients.Named, Clients.IsLineOf, Wire.Receive, Wire.IsLine;
    assert Clients.TOKEN_PREFIX[..6] == "TOKEN:" && Clients.TOKEN_PREFIX[1..6] == "OKEN:";
    Clients.LateTokenLines(greeting, quiet, token, typed, pos, chunks);
  }

  lemma FirstNeedsEmpty(s: State, session: nat, token: Bytes, typed: Bytes, pos: nat, chunks: seq<Bytes>)
    requires ServiceInv(s) && session in s.sessions
    requires '\n' !in typed && Find(typed, ' ', 0) == Some(pos) && IsGuarded(typed[..pos])
    requires !Clients.SentAsTyped(typed) && Clients.Sends(token, typed, chunks)
    ensures LinesOf(chunks) != []
    ensures Acts(s.sessions[session], LinesOf(chunks)[0]) ==> Clients.StartsEmpty(token)
  {
    hide Clients.SentAsTyped, Clients.Sends, Clients.SecondSpace, Wire.Receive, Find, Read, RoleSuffices, Acts;
    Clients.FirstDispatched(token, typed, pos, chunks);
    GuardedLineExactly(s, session, LinesOf(chunks)[0], pos);
  }

  lemma ChompedToken(token: Bytes, n: nat)
    requires '\n' !in token && n <= |token| + 1
    ensures '\n' !in Chomp((token + "\n" + [])[..n])
  {
    var s := (token + "\n" + [])[..n];
    assert forall i :: 0 <= i < |s| && i < |token| ==> s[i] == token[i];
  }

  /** The shown client after it read both replies to a login at once. What the server reads from a guarded command it
      then sends is the command with "Login" as its token, pieces of the role if that has a newline, and a line that is
      no command. If the role has no newline, nothing has any effect; otherwise just those pieces of the role have that
      act. */
  lemma CombinedReadIsRefused(s: State, session: nat, user: Tables.UserData, loginEnv: Env, held: Bytes, typed: Bytes,
                              pos: nat, chunks: seq<Bytes>, env: Env)
    requires ServiceInv(s) && session in s.sessions && Jwt.Utf8Fields(user.login, user.role)
    requires '\n' !in typed && Find(typed, ' ', 0) == Some(pos) && IsGuarded(typed[..pos])
    requires !Clients.SentAsTyped(typed)
    requires Clients.Sends(CombinedToken(held, user, loginEnv), typed, chunks)
    ensures var lines, v := LinesOf(chunks), s.sessions[session];
            && |lines| >= 2 && ('\n' !in user.role ==> |lines| == 2)
            && !Acts(v, lines[0]) && !Acts(v, lines[|lines| - 1])
            && (forall i :: 1 <= i < |lines| - 1 ==> Clients.IsLineOf(lines[i], user.role + "\n"))
            && (forall i :: 0 <= i < |lines| ==> (IsRefused(s, session, lines[i], env) <==> !Acts(v, lines[i])))
            && (forall i :: 0 <= i < |lines| && !Acts(v, lines[i]) ==> WithoutEffect(s, session, lines[i], env))
  {
    hide Clients.SentAsTyped, Clients.Sends, Clients.TokenAfter, Wire.Receive, Find, Acts, WithoutEffect, IsRefused;
    hide IssuedToken, LinesOf, Jwt.Utf8Fields, Clients.IsLineOf;
    var greeting, token := WelcomeLine(user.role), IssuedToken(user, loginEnv);
    IssuedTokenShape(user, loginEnv);
    LoginReplies(user.role, token, []);
    GreetingStart(user.role);
    Tokens.RepliesBytes(greeting, token, []);
    LateReadLines(s, session, held, greeting, 3, 29, token, greeting + TokenLine(token), typed, pos, chunks);
    forall i | 0 <= i < |LinesOf(chunks)|
      ensures IsRefused(s, session, LinesOf(chunks)[i], env) <==> !Acts(s.sessions[session], LinesOf(chunks)[i])
      ensures !Acts(s.sessions[session], LinesOf(chunks)[i]) ==> WithoutEffect(s, session, LinesOf(chunks)[i], env)
    {
      LineExactly(s, session, LinesOf(chunks)[i], env);
    }
  }

  /** What the client holds after it read both replies at once. */
  function CombinedToken(held: Bytes, user: Tables.UserData, env: Env): Bytes {
    Clients.TokenAfter(held, WelcomeLine(user.role) + TokenLine(IssuedToken(user, env)))
  }

  lemma GreetingStart(role: Bytes)
    ensures var greeting := WelcomeLine(role);
            && Find(greeting, ' ', 0) == Some(3) && |greeting| >= 30 && greeting[4] == 'L'
            && Wire.Last(greeting) == Some('\n') && greeting[4..] == SUCCESSFUL + role + "\n"
            && (Wire.IsLine(greeting[4..]) <==> '\n' !in role)
            && '\n' !in greeting[4..29] && greeting[29..] == role + "\n"
  {
    hide Find;
    var greeting := WelcomeLine(role);
    assert greeting == OK + (SUCCESSFUL + role + "\n");
    FindIs(greeting, ' ', 0, 3);
    NoNewlineInSuccessful();
    LineOf(SUCCESSFUL, role);
  }

  lemma NoNewlineInSuccessful()
    ensures '\n' !in SUCCESSFUL
  {
  }

  lemma LineOf(start: Bytes, role: Bytes)
    requires '\n' !in start
    ensures Wire.IsLine(start + role + "\n") <==> '\n' !in role
  {
    var line := start + role + "\n";
    assert forall i :: 0 <= i < |role| ==> line[|start| + i] == role[i];
  }

  lemma CombinedReadKeeps(held: Bytes, user: Tables.UserData, env: Env)
    requires Jwt.Utf8Fields(user.login, user.role)
    ensures CombinedToken(held, user, env) ==
            SUCCESSFUL + user.role + "\n" + Clients.TOKEN_PREFIX + IssuedToken(user, env)
  {
    hide Clients.TokenAfter, WelcomeLine, IssuedToken, TokenLine, Tokens.Replies, Chomp, Find, Jwt.Utf8Fields;
    var greeting, token := WelcomeLine(user.role), IssuedToken(user, env);
    IssuedTokenShape(user, env);
    GreetingStart(user.role);
    LoginReplies(user.role, token, []);
    Tokens.RepliesBytes(greeting, token, []);
    Tokens.TokenOfLateRead(held, greeting, token, [], greeting + TokenLine(token), 3);
    Tokens.ChompOfToken(token, [], |token| + 1);
  }

  const QUIT_ROLE: Bytes := "x\n\n/quit"

  /** Three lines that arrive at once, with a byte behind each of the first two. */
  lemma ThreeLines(a: Bytes, b: Bytes, c: Bytes, x: Byte, y: Byte)
    requires Wire.IsLine(a) && Wire.IsLine(b) && Wire.IsLine(c)
    ensures LinesOf([a + ([x] + (b + ([y] + c)))]) == [Chomp(a), Chomp(b), Chomp(c)]
  {
    hide Wire.Drain, Wire.IsLine, Chomp;
    var stream := a + ([x] + (b + ([y] + c)));
    Wire.ReceiveOne(stream);
    Wire.DrainSkips(a, x, b + ([y] + c));
    Wire.DrainSkips(b, y, c);
    Wire.DrainOne(c);
    assert Wire.Drain(stream).lines == [a, b, c];
  }

  /** A role that does act. Its replies, read at once, leave what `CombinedReadKeeps` says in the client; the next
      guarded command then reaches the server as three lines, the second of which logs the session out. */
  lemma QuitInRole(token: Bytes, kept: Bytes, typed: Bytes, chunk: Bytes)
    requires '\n' !in token && kept == SUCCESSFUL + QUIT_ROLE + "\n" + Clients.TOKEN_PREFIX + token
    requires typed == "/get_flats 1" && Clients.Sends(kept, typed, [chunk])
    ensures LinesOf([chunk]) == ["/get_flats " + SUCCESSFUL + "x", "/quit", "OKEN: " + token + " 1"]
  {
    hide Clients.Outgoing, LinesOf, Chomp, Wire.Concat;
    var start: Bytes := "/get_flats " + SUCCESSFUL + "x";
    var end: Bytes := "OKEN: " + token + " 1";
    GetFlatsIsSpliced(kept, typed);
    ConcatSingle(chunk);
    QuitMessage("/get_flats ", SUCCESSFUL, token);
    StartHasNoNewline(start);
    LineChomped(start);
    LineChomped("/quit");
    assert "/quit" + "\n" == "/quit\n";
    LineChomped(end);
    ThreeLines(start + "\n", "/quit\n", end + "\n", '\n', 'T');
  }

  lemma StartHasNoNewline(start: Bytes)
    requires start == "/get_flats " + SUCCESSFUL + "x"
    ensures '\n' !in start && Wire.Last(start) != Some('\r')
  {
  }

  lemma ConcatSingle(chunk: Bytes)
    ensures Wire.Concat([chunk]) == chunk
  {
  }

  lemma LineChomped(line: Bytes)
    requires '\n' !in line && Wire.Last(line) != Some('\r')
    ensures Wire.IsLine(line + "\n") && Chomp(line + "\n") == line
  {
    assert (line + "\n")[..|line|] == line;
  }

  lemma GetFlatsIsSpliced(token: Bytes, typed: Bytes)
    requires typed == "/get_flats 1"
    ensures Clients.Outgoing(token, typed) == Some("/get_flats " + (token + " ") + "1")
  {
    hide Find, Clients.SentAsTyped;
    FindIs(typed, ' ', 0, 10);
    NamesNoLogin(typed);
    assert typed[..11] == "/get_flats " && typed[11..] == "1";
  }

  /** The bytes of the message, line by line, with the byte behind each of the first two lines. */
  lemma QuitMessage(name: Bytes, start: Bytes, token: Bytes)
    ensures name + ((start + QUIT_ROLE + "\n" + Clients.TOKEN_PREFIX + token) + " ") + "1" + "\n" ==
            (name + start + "x" + "\n") + (['\n'] + ("/quit\n" + (['T'] + ("OKEN: " + token + " 1" + "\n"))))
  {
    assert QUIT_ROLE + "\n" == "x" + "\n" + ['\n'] + "/quit\n";
    assert Clients.TOKEN_PREFIX == ['T'] + "OKEN: ";
  }

  lemma QuitLogsOut(s: State, session: nat, env: Env)
    requires Listening(s, session)
    ensures Apply(s, Line(session, "/quit", env)).sessions[session] == NOBODY
  {
    hide Wire.Fields, T.Step;
    var fields: seq<Bytes> := ["/quit"];
    Wire.ParseInvertsJoin(fields);
    assert Wire.Join(fields) == "/quit";
  }

  /** A token that can be validated fits, with its prefix and newline, in one read of the client. */
  lemma UsableTokenFitsOneRead(user: Tables.UserData, login: Env)
    requires Jwt.Utf8Fields(user.login, user.role)
    requires Jwt.ValidateToken(login.lib, IssuedToken(user, login), login.now).Some?
    ensures |IssuedToken(user, login)| <= 763 && |TokenLine(IssuedToken(user, login))| <= 1024
  {
    hide Jwt.GenerateToken, Jwt.PayloadText, Json.IsUtf8, Jwt.ValidateToken;
    var id := Narrow(user.id);
    Jwt.TokenRoundTrip(login.lib, id, user.login, user.role, 86400, login.now, login.now);
    Jwt.TokenShape(login.lib, id, user.login, user.role, 86400, login.now);
  }
}
