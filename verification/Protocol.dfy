/** The text protocol line by line: which line is which command, and what each command does, written out. */
module Protocol {
  import opened Strings
  import opened Sessions
  import opened Commands
  import Decimal
  import Jwt
  import T = Transactions
  import Tables
  import Wire

  // ---- Which line is which command ----

  /** An `int` as a `size_t`. */
  function Unsigned(x: Int32): Size {
    if x < 0 then 18446744073709551616 + x else x
  }

  /** The text of a number: what `stoi` reads, as a `size_t`. */
  predicate IsNumber(text: Bytes, n: Size) {
    match Decimal.Stoi(text)
    case None => false
    case Some(x) => n == Unsigned(x)
  }

  /** The fields of the lines that stand for a command. */
  predicate Denotes(fields: seq<Bytes>, c: Command) {
    match c
    case Register(login, password, role) => fields == ["/register", login, password, role]
    case Login(login, password) => fields == ["/login", login, password]
    case Quit => fields != [] && fields[0] == "/quit"
    case Help => fields != [] && fields[0] == "/commands"
    case CreateHouse(token) => |fields| == 5 && fields[0] == "/create_house" && fields[1] == token
    case CreateFlat(token, house, number, rooms, price) =>
      && |fields| == 6 && fields[0] == "/create_flat" && fields[1] == token
      && IsNumber(fields[2], house) && IsNumber(fields[3], number)
      && IsNumber(fields[4], rooms) && IsNumber(fields[5], price)
    case GetFlats(token, house) =>
      |fields| == 3 && fields[0] == "/get_flats" && fields[1] == token && IsNumber(fields[2], house)
    case TakeFlat(token, flat) =>
      |fields| == 3 && fields[0] == "/take_flat" && fields[1] == token && IsNumber(fields[2], flat)
    case UpdateFlatStatus(token, flat, status) =>
      && |fields| == 4 && fields[0] == "/update_flat_status" && fields[1] == token && IsNumber(fields[2], flat)
      && fields[3] == status && (status == "approved" || status == "declined")
  }

  lemma NumberIs(text: Bytes, n: Size)
    ensures IsNumber(text, n) <==> Number(text) == Some(n)
  {
  }

  lemma BuildExactly(fields: seq<Bytes>, c: Command)
    requires fields != []
    ensures Build(fields[0], fields[1..]) == Some(c) <==> Denotes(fields, c)
  {
    hide Number, IsNumber;
    var args := fields[1..];
    if |fields| == 3 {
      assert fields == [fields[0], args[0], args[1]];
      NumberOf(args[1]);
    } else if |fields| == 4 {
      assert fields == [fields[0], args[0], args[1], args[2]];
      NumberOf(args[1]);
    } else if |fields| == 6 {
      assert fields == [fields[0], args[0], args[1], args[2], args[3], args[4]];
      NumberOf(args[1]);
      NumberOf(args[2]);
      NumberOf(args[3]);
      NumberOf(args[4]);
    }
  }

  lemma NumberOf(text: Bytes)
    ensures forall n: Size :: IsNumber(text, n) <==> Number(text) == Some(n)
  {
    forall n: Size
      ensures IsNumber(text, n) <==> Number(text) == Some(n)
    {
      NumberIs(text, n);
    }
  }

  /** A line is read as a command just when its fields denote it. */
  lemma ReadExactly(line: Bytes, c: Command)
    ensures Read(line) == Some(c) <==> Denotes(Wire.Fields(line), c)
  {
    hide Build, Wire.Fields;
    if Wire.Fields(line) != [] { BuildExactly(Wire.Fields(line), c); }
  }

  // ---- Fields of typed lines ----

  lemma FieldsBehind(a: Bytes, rest: Bytes)
    requires ' ' !in a
    ensures Wire.Fields(a + " " + rest) == [a] + Wire.Fields(rest)
  {
    hide Wire.Fields, Find;
    var line := a + " " + rest;
    FindIs(line, ' ', 0, |a|);
    Wire.FieldsAtSpace(line, |a|);
    assert line[..|a|] == a && line[|a| + 1..] == rest;
  }

  lemma FieldsOfOne(a: Bytes)
    requires ' ' !in a && a != []
    ensures Wire.Fields(a) == [a]
  {
    Wire.SplitSingle(a);
  }

  lemma AssocThree(a: Bytes, b: Bytes, rest: Bytes)
    ensures a + " " + b + rest == a + " " + (b + rest)
  {
  }

  lemma FieldsOfThree(a: Bytes, b: Bytes, c: Bytes)
    requires ' ' !in a && ' ' !in b && ' ' !in c && c != []
    ensures Wire.Fields(a + " " + b + " " + c) == [a, b, c]
  {
    hide Wire.Fields;
    FieldsOfOne(c);
    FieldsBehind(b, c);
    FieldsBehind(a, b + " " + c);
    AssocThree(a, b, " ");
    AssocThree(a, b + " ", c);
  }

  lemma FieldsOfFour(a: Bytes, b: Bytes, c: Bytes, d: Bytes)
    requires ' ' !in a && ' ' !in b && ' ' !in c && ' ' !in d && d != []
    ensures Wire.Fields(a + " " + b + " " + c + " " + d) == [a, b, c, d]
  {
    hide Wire.Fields;
    FieldsOfThree(b, c, d);
    FieldsBehind(a, b + " " + c + " " + d);
    AssocThree(a, b, " ");
    AssocThree(a, b + " ", c);
    AssocThree(a, b + " " + c, " ");
    AssocThree(a, b + " " + c + " ", d);
  }

  lemma FieldsOfFive(a: Bytes, b: Bytes, c: Bytes, d: Bytes, e: Bytes)
    requires ' ' !in a && ' ' !in b && ' ' !in c && ' ' !in d && ' ' !in e && e != []
    ensures Wire.Fields(a + " " + b + " " + c + " " + d + " " + e) == [a, b, c, d, e]
  {
    hide Wire.Fields;
    FieldsOfFour(b, c, d, e);
    FieldsBehind(a, b + " " + c + " " + d + " " + e);
    AssocThree(a, b, " ");
    AssocThree(a, b + " ", c);
    AssocThree(a, b + " " + c, " ");
    AssocThree(a, b + " " + c + " ", d);
    AssocThree(a, b + " " + c + " " + d, " ");
    AssocThree(a, b + " " + c + " " + d + " ", e);
  }

  // ---- Registration and login ----

  predicate HasLogin(t: Tables.Tables, login: Bytes) {
    exists i :: 0 <= i < |t.users| && t.users[i].login == login
  }

  /** A registration adds exactly the row that was typed, or no row when the login exists. */
  lemma RegisterLine(login: Bytes, password: Bytes, role: Bytes, v: Identity, t: Tables.Tables, env: Env)
    requires ' ' !in login && ' ' !in password && ' ' !in role && role != [] && env.up
    ensures RunLine("/register " + login + " " + password + " " + role, v, t, env) ==
            Ran(v, t.(nextUser := t.nextUser + 1,
                      users := if HasLogin(t, login) then t.users
                               else t.users + [Tables.UserRow(t.nextUser, login, password, role)]), Silent)
  {
    hide Read, Wire.Fields;
    var line: Bytes := "/register" + " " + login + " " + password + " " + role;
    assert "/register " == "/register" + " ";
    FieldsOfFour("/register", login, password, role);
    ReadExactly(line, Register(login, password, role));
  }

  /** What a token says when it is validated: the claims it was issued with, as long as login and role are UTF-8, the
      payload fits and the day has not passed. */
  ghost predicate CarriesUser(lib: Jwt.Library, token: Bytes, row: Tables.UserRow, issued: Clock) {
    forall later: Int64 ::
      Jwt.ValidateToken(lib, token, later) ==
      if && Jwt.Utf8Fields(row.login, Chomp(row.role))
         && |Jwt.PayloadText(Narrow(row.id), row.login, Chomp(row.role), 86400, issued)| <= 511
         && later <= issued + 86400
      then Some(Jwt.TokenPayload(Narrow(row.id), row.login, Chomp(row.role), issued + 86400)) else None
  }

  predicate IsWelcome(reply: Reply, role: Bytes, token: Bytes) {
    reply == Told(["OK: Login successful, role = " + Chomp(role) + "\n", "TOKEN: " + token + "\n"])
  }

  /** A login is answered from the stored row: with the right password the session becomes that user, and the second
      reply brings a token that carries that user; with any other nothing changes. */
  lemma LoginLine(i: nat, login: Bytes, password: Bytes, v: Identity, t: Tables.Tables, env: Env)
    requires Tables.UniqueLogins(t) && i < |t.users| && t.users[i].login == login && env.up
    requires ' ' !in login && ' ' !in password && password != []
    ensures var row, ran := t.users[i], RunLine("/login " + login + " " + password, v, t, env);
            if row.password != password then ran == Ran(v, t, Told(["ERROR: Invalid password!\n"]))
            else
              && ran.identity == Identity(true, row.id, login, Chomp(row.role), v.token) && ran.tables == t
              && exists token :: CarriesUser(env.lib, token, row, env.now) && IsWelcome(ran.reply, row.role, token)
  {
    hide Read, Wire.Fields, Jwt.GenerateToken, Jwt.ValidateToken, Chomp, CarriesUser;
    var line: Bytes := "/login" + " " + login + " " + password;
    assert "/login " == "/login" + " ";
    FieldsOfThree("/login", login, password);
    ReadExactly(line, Login(login, password));
    var row := t.users[i];
    FoundRow(t, i);
    IssuedCarries(row, env);
    WelcomeText(Chomp(row.role));
  }

  lemma FoundRow(t: Tables.Tables, i: nat)
    requires Tables.UniqueLogins(t) && i < |t.users|
    ensures Tables.LoginAt(t.users, t.users[i].login) == Some(i)
  {
    var j := Tables.LoginAt(t.users, t.users[i].login);
    assert j.Some? && t.users[j.value].login == t.users[i].login;
  }

  lemma WelcomeText(role: Bytes)
    ensures WelcomeLine(role) == "OK: Login successful, role = " + role + "\n"
  {
    assert OK + SUCCESSFUL == "OK: Login successful, role = ";
  }

  lemma IssuedCarries(row: Tables.UserRow, env: Env)
    ensures var user := Tables.UserData(row.id, row.login, row.password, Chomp(row.role));
            CarriesUser(env.lib, IssuedToken(user, env), row, env.now)
  {
    hide Jwt.ValidateToken, Jwt.GenerateToken, Jwt.PayloadText, Jwt.Utf8Fields, Chomp;
    forall later: Int64 {
      Jwt.TokenRoundTrip(env.lib, Narrow(row.id), row.login, Chomp(row.role), 86400, env.now, later);
    }
  }

  /** A login that nobody has is refused as such. */
  lemma UnknownLoginLine(login: Bytes, password: Bytes, v: Identity, t: Tables.Tables, env: Env)
    requires !HasLogin(t, login) && ' ' !in login && ' ' !in password && password != []
    ensures RunLine("/login " + login + " " + password, v, t, env) == Ran(v, t, Told(["ERROR: User not found!\n"]))
  {
    hide Read, Wire.Fields;
    var line: Bytes := "/login" + " " + login + " " + password;
    assert "/login " == "/login" + " ";
    FieldsOfThree("/login", login, password);
    ReadExactly(line, Login(login, password));
  }

  /** A user who registers can log in with exactly the password that was typed, and gets exactly the role that was
      typed, trimmed. */
  lemma RegisterThenLogin(login: Bytes, password: Bytes, role: Bytes, tried: Bytes, v: Identity, w: Identity,
                          t: Tables.Tables, env: Env, env': Env)
    requires Tables.UniqueLogins(t) && !HasLogin(t, login) && env.up && env'.up
    requires ' ' !in login && ' ' !in password && ' ' !in role && role != [] && ' ' !in tried && tried != []
    ensures var t' := RunLine("/register " + login + " " + password + " " + role, v, t, env).tables;
            var ran := RunLine("/login " + login + " " + tried, w, t', env');
            && ran.tables == t'
            && ran.identity == if tried == password then Identity(true, t.nextUser, login, Chomp(role), w.token) else w
  {
    hide RunLine, Chomp, CarriesUser;
    RegisterLine(login, password, role, v, t, env);
    var t' := RunLine("/register " + login + " " + password + " " + role, v, t, env).tables;
    assert t'.users[|t.users|] == Tables.UserRow(t.nextUser, login, password, role);
    LoginLine(|t.users|, login, tried, w, t', env');
  }

  // ---- Guarded commands, when they are allowed ----

  /** A listing is that of the typed house, for the session's role. */
  lemma GetFlatsLine(house: Int32, v: Identity, t: Tables.Tables, env: Env)
    requires v.authorised && v.role != [] && ' ' !in v.token
    ensures var number := Unsigned(house);
            RunLine("/get_flats " + v.token + " " + Decimal.Print(house), v, t, env) ==
            Ran(v, t, Listed(Tables.Listing(t.flats, number, v.role, env.scan, env.up)))
  {
    hide Read, Wire.Fields, Tables.Listing, Decimal.Print, Decimal.Stoi;
    var line: Bytes := "/get_flats" + " " + v.token + " " + Decimal.Print(house);
    assert "/get_flats " == "/get_flats" + " ";
    Decimal.PrintBytes(house);
    Decimal.StoiPrint(house);
    FieldsOfThree("/get_flats", v.token, Decimal.Print(house));
    ReadExactly(line, GetFlats(v.token, Widen(house)));
  }

  /** A moderator's house gets the next id. */
  lemma CreateHouseLine(address: Bytes, date: Bytes, builder: Bytes, v: Identity, t: Tables.Tables, env: Env)
    requires v.authorised && v.role == "moderator" && ' ' !in v.token && env.up
    requires ' ' !in address && ' ' !in date && ' ' !in builder && builder != []
    ensures RunLine("/create_house " + v.token + " " + address + " " + date + " " + builder, v, t, env) ==
            Ran(v, t.(houses := t.houses + {t.nextHouse}, nextHouse := t.nextHouse + 1), Created)
  {
    hide Read, Wire.Fields;
    var line: Bytes := "/create_house" + " " + v.token + " " + address + " " + date + " " + builder;
    assert "/create_house " == "/create_house" + " ";
    FieldsOfFive("/create_house", v.token, address, date, builder);
    ReadExactly(line, CreateHouse(v.token));
  }

  /** A take, with no other session in between: it succeeds just on a flat that is created, and moves that flat. */
  lemma TakeFlatLine(flat: Int32, v: Identity, t: Tables.Tables, env: Env)
    requires v.authorised && v.role == "moderator" && ' ' !in v.token
    ensures var id := Unsigned(flat);
            var ok := env.up && id in t.flats && t.flats[id].status == "created";
            RunLine("/take_flat " + v.token + " " + Decimal.Print(flat), v, t, env) ==
            Ran(v, if ok then t.(flats := t.flats[id := t.flats[id].(status := "on_moderation")]) else t, Updated(ok))
  {
    hide Read, Wire.Fields, Decimal.Print, Decimal.Stoi;
    var line: Bytes := "/take_flat" + " " + v.token + " " + Decimal.Print(flat);
    assert "/take_flat " == "/take_flat" + " ";
    Decimal.PrintBytes(flat);
    Decimal.StoiPrint(flat);
    FieldsOfThree("/take_flat", v.token, Decimal.Print(flat));
    ReadExactly(line, TakeFlat(v.token, Widen(flat)));
  }

  /** A decision, likewise: it succeeds just on a flat on moderation. */
  lemma UpdateFlatStatusLine(flat: Int32, status: Bytes, v: Identity, t: Tables.Tables, env: Env)
    requires v.authorised && v.role == "moderator" && ' ' !in v.token && (status == "approved" || status == "declined")
    ensures var id := Unsigned(flat);
            var ok := env.up && id in t.flats && t.flats[id].status == "on_moderation";
            RunLine("/update_flat_status " + v.token + " " + Decimal.Print(flat) + " " + status, v, t, env) ==
            Ran(v, if ok then t.(flats := t.flats[id := t.flats[id].(status := status)]) else t, Updated(ok))
  {
    hide Read, Wire.Fields, Decimal.Print, Decimal.Stoi;
    var line: Bytes := "/update_flat_status" + " " + v.token + " " + Decimal.Print(flat) + " " + status;
    assert "/update_flat_status " == "/update_flat_status" + " ";
    Decimal.PrintBytes(flat);
    Decimal.StoiPrint(flat);
    FieldsOfFour("/update_flat_status", v.token, Decimal.Print(flat), status);
    ReadExactly(line, UpdateFlatStatus(v.token, Widen(flat), status));
  }
}
