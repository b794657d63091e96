/** The commands of the text protocol: built from the fields of a line by their constructors, then executed on a
    session and the database. */
module Commands {
  import opened Strings
  import opened Sessions
  import opened Transactions
  import Clients
  import Database
  import Decimal
  import Jwt
  import Tables
  import Wire

  datatype Command =
    | Register(login: Bytes, password: Bytes, role: Bytes)
    | Login(login: Bytes, password: Bytes)
    | Quit
    | Help
    | CreateHouse(token: Bytes)
    | CreateFlat(token: Bytes, house: Size, number: Size, rooms: Size, price: Size)
    | GetFlats(token: Bytes, house: Size)
    | TakeFlat(token: Bytes, flat: Size)
    | UpdateFlatStatus(token: Bytes, flat: Size, status: Bytes)

  // ---- Construction ----

  /** `std::stoi` into a `size_t` field; `None` is its exception. */
  function Number(text: Bytes): Option<Size> {
    match Decimal.Stoi(text)
    case None => None
    case Some(x) => Some(Widen(x))
  }

  function BuildCreateFlat(args: seq<Bytes>): Option<Command>
    requires |args| == 5
  {
    match (Number(args[1]), Number(args[2]), Number(args[3]), Number(args[4]))
    case (Some(house), Some(number), Some(rooms), Some(price)) => Some(CreateFlat(args[0], house, number, rooms, price))
    case (_, _, _, _) => None
  }

  function BuildUpdateFlatStatus(args: seq<Bytes>): Option<Command>
    requires |args| == 3
  {
    match Number(args[1])
    case None => None
    case Some(flat) =>
      if args[2] == APPROVED || args[2] == DECLINED then Some(UpdateFlatStatus(args[0], flat, args[2])) else None
  }

  const CREATE_FLAT: Bytes := "/create_flat"
  const CREATE_HOUSE: Bytes := "/create_house"
  const GET_FLATS: Bytes := "/get_flats"
  const TAKE_FLAT: Bytes := "/take_flat"
  const UPDATE_FLAT_STATUS: Bytes := "/update_flat_status"

  /** `CommandFactory::createCommand`: the constructor registered under `name`, run on `args`. `None` is an unknown
      name or an exception: wrong argument count, unreadable number, status outside the whitelist. */
  function Build(name: Bytes, args: seq<Bytes>): Option<Command> {
    if name == CREATE_FLAT then if |args| == 5 then BuildCreateFlat(args) else None
    else if name == "/login" then if |args| == 2 then Some(Login(args[0], args[1])) else None
    else if name == CREATE_HOUSE then if |args| == 4 then Some(CreateHouse(args[0])) else None
    else if name == "/register" then if |args| == 3 then Some(Register(args[0], args[1], args[2])) else None
    else if name == "/quit" then Some(Quit)
    else if name == GET_FLATS then
      if |args| != 2 || Number(args[1]) == None then None else Some(GetFlats(args[0], Number(args[1]).value))
    else if name == TAKE_FLAT then
      if |args| != 2 || Number(args[1]) == None then None else Some(TakeFlat(args[0], Number(args[1]).value))
    else if name == UPDATE_FLAT_STATUS then if |args| == 3 then BuildUpdateFlatStatus(args) else None
    else if name == "/commands" then Some(Help)
    else None
  }

  /** The command a line stands for. */
  function Read(line: Bytes): Option<Command> {
    var fields := Wire.Fields(line);
    if fields == [] then None else Build(fields[0], fields[1..])
  }

  // ---- Effects ----

  predicate Admitted(v: Identity, token: Bytes) {
    v.authorised && token == v.token
  }

  predicate Moderating(v: Identity, token: Bytes) {
    v.authorised && v.role == Tables.MODERATOR && token == v.token
  }

  /** A clock at which a one-day token can be issued. */
  type Clock = x: Int64 | x + 86400 < 0x8000_0000_0000_0000

  /** What the surroundings decide: whether the database answers, its visiting order, the libraries, the time. */
  datatype Env = Env(up: bool, scan: seq<nat>, lib: Jwt.Library, now: Clock)

  /** What is written back, as far as it depends on the data. */
  datatype Reply =
    | Silent
    | Menu
    | Refused
    | Created
    | Updated(ok: bool)
    | Listed(flats: seq<Tables.FlatData>)
    | Told(lines: seq<Bytes>)

  datatype Ran = Ran(identity: Identity, tables: Tables.Tables, reply: Reply)

  function IssuedToken(user: Tables.UserData, env: Env): Bytes {
    Jwt.GenerateToken(env.lib, Narrow(user.id), user.login, user.role, 86400, env.now)
  }

  const USER_NOT_FOUND: Bytes := "ERROR: User not found!\n"
  const INVALID_PASSWORD: Bytes := "ERROR: Invalid password!\n"
  const OK: Bytes := "OK: "
  const SUCCESSFUL: Bytes := "Login successful, role = "
  const NEWLINE: Bytes := "\n"

  function WelcomeLine(role: Bytes): Bytes {
    OK + SUCCESSFUL + role + NEWLINE
  }

  function TokenLine(token: Bytes): Bytes {
    Clients.TOKEN_PREFIX + token + NEWLINE
  }

  function RunLogin(login: Bytes, password: Bytes, v: Identity, t: Tables.Tables, env: Env): Ran {
    match Tables.FindUserByLogin(t, login, env.up)
    case None => Ran(v, t, Told([USER_NOT_FOUND]))
    case Some(user) =>
      if user.password != password then Ran(v, t, Told([INVALID_PASSWORD]))
      else
        Ran(Authorise(v, user.id, user.login, user.role), t,
            Told([WelcomeLine(user.role), TokenLine(IssuedToken(user, env))]))
  }

  function RunUpdate(st: Statement, v: Identity, t: Tables.Tables, env: Env): Ran {
    var (ok, t') := Tables.Update(t, st, env.up);
    Ran(v, t', Updated(ok))
  }

  /** `execute()`, when no other session interferes. */
  function RunCommand(c: Command, v: Identity, t: Tables.Tables, env: Env): Ran {
    match c
    case Register(login, password, role) => Ran(v, Tables.SaveUser(t, login, password, role, env.up), Silent)
    case Login(login, password) => RunLogin(login, password, v, t, env)
    case Quit => Ran(NOBODY, t, Silent)
    case Help => Ran(v, t, Menu)
    case CreateHouse(token) =>
      if Moderating(v, token) then Ran(v, Tables.SaveHouse(t, env.up), Created) else Ran(v, t, Refused)
    case CreateFlat(token, house, number, rooms, price) =>
      if Admitted(v, token)
      then Ran(v, Tables.SaveFlat(t, Narrow(house), Narrow(number), Narrow(rooms), Narrow(price), env.up), Created)
      else Ran(v, t, Refused)
    case GetFlats(token, house) =>
      if Admitted(v, token) && v.role != []
      then Ran(v, t, Listed(Tables.Listing(t.flats, house, v.role, env.scan, env.up)))
      else Ran(v, t, Refused)
    case TakeFlat(token, flat) =>
      if Moderating(v, token) then RunUpdate(Take(flat), v, t, env) else Ran(v, t, Refused)
    case UpdateFlatStatus(token, flat, status) =>
      if Moderating(v, token) then RunUpdate(Decide(flat, status), v, t, env) else Ran(v, t, Refused)
  }

  function RunLine(line: Bytes, v: Identity, t: Tables.Tables, env: Env): Ran {
    match Read(line)
    case None => Ran(v, t, Refused)
    case Some(c) => RunCommand(c, v, t, env)
  }

  // ---- The same on the objects ----

  method ExecuteLogin(session: Session, db: Database.Postgres, login: Bytes, password: Bytes, env: Env)
    returns (reply: Reply)
    modifies session
    ensures session.responce == old(session.responce)
    ensures Ran(session.View(), db.View(), reply) == RunLogin(login, password, old(session.View()), old(db.View()), env)
  {
    var found := db.FindUserByLogin(login, env.up);
    if found == None {
      return Told([USER_NOT_FOUND]);
    }
    var user := found.value;
    if user.password != password {
      return Told([INVALID_PASSWORD]);
    }
    session.Autorize(true, user.id, user.login, user.role);
    var token := Jwt.GenerateToken(env.lib, Narrow(user.id), user.login, user.role, 86400, env.now);
    return Told([WelcomeLine(user.role), TokenLine(token)]);
  }

  method ExecuteCreateFlat(session: Session, db: Database.Postgres, token: Bytes, house: Size, number: Size,
                           rooms: Size, price: Size, env: Env)
    returns (reply: Reply)
    modifies db
    ensures Ran(session.View(), db.View(), reply) ==
            RunCommand(CreateFlat(token, house, number, rooms, price), old(session.View()), old(db.View()), env)
  {
    if session.isAutorized && session.CheckToken(token) {
      db.SaveFlat(Narrow(house), Narrow(number), Narrow(rooms), Narrow(price), env.up);
      return Created;
    }
    return Refused;
  }

  method ExecuteTakeFlat(session: Session, db: Database.Postgres, token: Bytes, flat: Size, env: Env)
    returns (reply: Reply)
    modifies db
    ensures Ran(session.View(), db.View(), reply) ==
            RunCommand(TakeFlat(token, flat), old(session.View()), old(db.View()), env)
  {
    if session.isAutorized && session.currentRole == Tables.MODERATOR && session.CheckToken(token) {
      var ok := db.TakeFlat(flat, env.up);
      return Updated(ok);
    }
    return Refused;
  }

  method ExecuteUpdateFlatStatus(session: Session, db: Database.Postgres, token: Bytes, flat: Size, status: Bytes,
                                 env: Env)
    returns (reply: Reply)
    modifies db
    ensures Ran(session.View(), db.View(), reply) ==
            RunCommand(UpdateFlatStatus(token, flat, status), old(session.View()), old(db.View()), env)
  {
    if session.isAutorized && session.currentRole == Tables.MODERATOR && session.CheckToken(token) {
      var ok := db.UpdateFlatStatus(flat, status, env.up);
      return Updated(ok);
    }
    return Refused;
  }

  method ExecuteGetFlats(session: Session, db: Database.Postgres, token: Bytes, house: Size, env: Env)
    returns (reply: Reply)
    ensures Ran(session.View(), db.View(), reply) == RunCommand(GetFlats(token, house), session.View(), db.View(), env)
  {
    if session.isAutorized && session.currentRole != [] && session.CheckToken(token) {
      var ans := db.GetFlatForHouseID(house, session.currentRole, env.scan, env.up);
      return Listed(ans);
    }
    return Refused;
  }

  /** `execute()` of whichever command was built. */
  method Execute(c: Command, session: Session, db: Database.Postgres, env: Env) returns (reply: Reply)
    modifies session, db
    ensures session.responce == old(session.responce)
    ensures Ran(session.View(), db.View(), reply) == RunCommand(c, old(session.View()), old(db.View()), env)
  {
    match c {
      case Register(login, password, role) =>
        db.SaveUser(login, password, role, env.up);
        reply := Silent;
      case Login(login, password) =>
        reply := ExecuteLogin(session, db, login, password, env);
      case Quit =>
        session.Logout();
        reply := Silent;
      case Help =>
        reply := Menu;
      case CreateHouse(token) =>
        if session.currentRole == Tables.MODERATOR && session.isAutorized && session.CheckToken(token) {
          db.SaveHouse(env.up);
          reply := Created;
        } else {
          reply := Refused;
        }
      case CreateFlat(token, house, number, rooms, price) =>
        reply := ExecuteCreateFlat(session, db, token, house, number, rooms, price, env);
      case GetFlats(token, house) =>
        reply := ExecuteGetFlats(session, db, token, house, env);
      case TakeFlat(token, flat) =>
        reply := ExecuteTakeFlat(session, db, token, flat, env);
      case UpdateFlatStatus(token, flat, status) =>
        reply := ExecuteUpdateFlatStatus(session, db, token, flat, status, env);
    }
  }

  /** `Session::execute_command`. The source takes `parse_line[0]`, so it needs a line that is not empty. */
  method ExecuteCommand(session: Session, db: Database.Postgres, line: Bytes, env: Env) returns (reply: Reply)
    requires line != []
    modifies session, db
    ensures session.responce == old(session.responce)
    ensures Ran(session.View(), db.View(), reply) == RunLine(line, old(session.View()), old(db.View()), env)
  {
    var fields := Wire.Parse(line);
    FieldsOfLine(line);
    var command := Build(fields[0], fields[1..]);
    if command == None {
      return Refused;
    }
    reply := Execute(command.value, session, db, env);
  }

  lemma FieldsOfLine(line: Bytes)
    requires line != []
    ensures Wire.Fields(line) != []
  {
    Wire.JoinSplit(line);
  }

  // ---- What construction guarantees ----

  /** No other command than a decision with a whitelisted status reaches `UpdateFlatStatus`. */
  lemma OnlyWhitelistedDecisions(line: Bytes)
    ensures Read(line).Some? && Read(line).value.UpdateFlatStatus? ==>
              Read(line).value.status == APPROVED || Read(line).value.status == DECLINED
  {
  }

  lemma NumberOfPrint(x: Int32)
    ensures Number(Decimal.Print(x)) == Some(Widen(x)) && Narrow(Widen(x)) == x
  {
    Decimal.StoiPrint(x);
    NarrowAfterWiden(x);
  }

  /** The fields a client types after `/create_flat` for four numbers. */
  function CreateFlatArgs(house: Int32, number: Int32, rooms: Int32, price: Int32): seq<Bytes> {
    [Decimal.Print(house), Decimal.Print(number), Decimal.Print(rooms), Decimal.Print(price)]
  }

  lemma CreateFlatArgsFields(house: Int32, number: Int32, rooms: Int32, price: Int32)
    ensures Wire.Fields(Wire.Join(CreateFlatArgs(house, number, rooms, price))) ==
            CreateFlatArgs(house, number, rooms, price)
  {
    hide Decimal.Print;
    Decimal.PrintBytes(house);
    Decimal.PrintBytes(number);
    Decimal.PrintBytes(rooms);
    Decimal.PrintBytes(price);
    Wire.ParseInvertsJoin(CreateFlatArgs(house, number, rooms, price));
  }

  /** From keyboard to table: a client that holds the session's token types `/create_flat` and four 32-bit numbers, and
      exactly these numbers are stored, negative ones included, under the columns they were typed for. */
  lemma CreateFlatEndToEnd(house: Int32, number: Int32, rooms: Int32, price: Int32, v: Identity, t: Tables.Tables,
                           env: Env)
    requires v.authorised && ' ' !in v.token && house in t.houses && env.up
    ensures var typed := CREATE_FLAT + " " + Wire.Join(CreateFlatArgs(house, number, rooms, price));
            && Find(typed, ' ', 0) == Some(12)
            && RunLine(Clients.Splice(typed, 12, v.token), v, t, env) ==
               Ran(v, t.(flats := t.flats[t.nextFlat := FlatRow(house, number, price, rooms, "created")],
                         nextFlat := t.nextFlat + 1), Created)
  {
    hide Wire.Join, Wire.Fields, Clients.Splice, Decimal.Print, Decimal.Stoi, Narrow, Widen;
    var args := CreateFlatArgs(house, number, rooms, price);
    var typed := CREATE_FLAT + " " + Wire.Join(args);
    FindIs(typed, ' ', 0, 12);
    Clients.SpliceThenParse(typed, 12, v.token);
    assert typed[..12] == CREATE_FLAT && typed[13..] == Wire.Join(args);
    CreateFlatArgsFields(house, number, rooms, price);
    var fields := [CREATE_FLAT, v.token] + args;
    assert fields[1..] == [v.token] + args;
    NumberOfPrint(house);
    NumberOfPrint(number);
    NumberOfPrint(rooms);
    NumberOfPrint(price);
    assert Read(Clients.Splice(typed, 12, v.token)) ==
           Some(CreateFlat(v.token, Widen(house), Widen(number), Widen(rooms), Widen(price)));
  }
}
