/** The whole service: any number of sessions sending lines, their commands on shared tables, and the take and decide
    calls overlapping as transactions. */
module Service {
  import opened Strings
  import opened Sessions
  import opened Transactions
  import opened Commands
  import opened Lifecycle
  import Tables

  /** Tables, the flats with their open calls, and the sessions. A session waits for its own call to return. */
  datatype State = State(
    users: seq<Tables.UserRow>, nextUser: nat, houses: set<nat>, nextHouse: nat, nextFlat: nat,
    store: Store, sessions: map<nat, Identity>)

  datatype Event =
    | Connect(session: nat)
    | Line(session: nat, line: Bytes, env: Env)
    | HttpRegister(login: Bytes, password: Bytes, role: Bytes, up: bool)
    | UpdateRuns(session: nat)
    | UpdateWakes(session: nat)
    | CallCommits(session: nat)
    | CallFails(session: nat)
    | CallReturns(session: nat)

  function TablesOf(s: State): Tables.Tables {
    Tables.Tables(s.users, s.nextUser, s.houses, s.nextHouse, s.store.flats, s.nextFlat)
  }

  function WithTables(s: State, t: Tables.Tables): State {
    s.(users := t.users, nextUser := t.nextUser, houses := t.houses, nextHouse := t.nextHouse,
       nextFlat := t.nextFlat, store := s.store.(flats := t.flats))
  }

  /** The session can take its next line: it is connected and not inside a call. A logged-out session may still have
      complete lines in its buffer. */
  predicate Listening(s: State, session: nat) {
    session in s.sessions && session !in s.store.calls
  }

  /** The transaction a command starts, when its guard lets it. */
  function Started(c: Command, v: Identity): Option<Statement> {
    if c.TakeFlat? && Moderating(v, c.token) then Some(Take(c.flat))
    else if c.UpdateFlatStatus? && Moderating(v, c.token) then Some(Decide(c.flat, c.status))
    else None
  }

  function ApplyCommand(s: State, session: nat, c: Command, env: Env): State
    requires session in s.sessions
  {
    var v := s.sessions[session];
    match Started(c, v)
    case Some(st) => OnStore(s, Open(session, st))
    case None =>
      var ran := RunCommand(c, v, TablesOf(s), env);
      WithTables(s, ran.tables).(sessions := s.sessions[session := ran.identity])
  }

  function OnStore(s: State, a: Action): State {
    s.(store := Step(s.store, a).0)
  }

  /** One event; an event that is not enabled changes nothing. Nor does an empty line here, for which the source has no
      defined behaviour: it takes the first of no fields. */
  function Apply(s: State, e: Event): State {
    match e
    case Connect(c) => if c in s.sessions then s else s.(sessions := s.sessions[c := NOBODY])
    case Line(c, line, env) =>
      if !Listening(s, c) || Read(line) == None then s else ApplyCommand(s, c, Read(line).value, env)
    case HttpRegister(login, password, role, up) =>
      WithTables(s, Tables.SaveUser(TablesOf(s), login, password, role, up))
    case UpdateRuns(c) => OnStore(s, Run(c))
    case UpdateWakes(c) => OnStore(s, Wake(c))
    case CallCommits(c) => OnStore(s, Commit(c))
    case CallFails(c) => OnStore(s, Fail(c))
    case CallReturns(c) => OnStore(s, Return(c))
  }

  function Exec(s: State, events: seq<Event>): State {
    if events == [] then s else Apply(Exec(s, events[..|events| - 1]), events[|events| - 1])
  }

  /** Nobody registered, nothing listed, nobody connected. */
  predicate Init(s: State) {
    s.users == [] && s.store == Store(map[], map[]) && s.sessions == map[]
  }

  // ---- What always holds ----

  /** A stored row gives the session its id, its login and its role. */
  ghost predicate Backed(s: State, v: Identity) {
    exists i :: 0 <= i < |s.users| && BackedBy(s.users[i], v)
  }

  predicate BackedBy(row: Tables.UserRow, v: Identity) {
    row.id == v.id && row.login == v.login && Chomp(row.role) == v.role
  }

  ghost predicate SessionInv(s: State, v: Identity) {
    && v.token == []
    && (if v.authorised then Backed(s, v) else v == NOBODY)
  }

  ghost predicate SessionsInv(s: State) {
    forall c :: c in s.sessions ==> SessionInv(s, s.sessions[c])
  }

  /** A session that is authorised as moderator on the strength of a stored row. */
  ghost predicate IsModerator(s: State, c: nat) {
    c in s.sessions && s.sessions[c].authorised && s.sessions[c].role == Tables.MODERATOR && Backed(s, s.sessions[c])
  }

  ghost predicate CallsInv(s: State) {
    forall c :: c in s.store.calls ==>
      IsModerator(s, c) && (s.store.calls[c].statement.Decide? ==> IsFinal(s.store.calls[c].statement.status))
  }

  ghost predicate RowsInv(s: State) {
    && KnownStatuses(s.store.flats)
    && forall id :: id in s.store.flats ==> id < s.nextFlat && s.store.flats[id].house in s.houses
  }

  ghost predicate ServiceInv(s: State) {
    Transactions.Inv(s.store) && Tables.UniqueLogins(TablesOf(s)) && SessionsInv(s) && CallsInv(s) && RowsInv(s)
  }

  /** The row a command inserts, if it inserts one. */
  function InsertedRow(c: Command, v: Identity, t: Tables.Tables, env: Env): Option<FlatRow> {
    if c.CreateFlat? && Admitted(v, c.token) && env.up && Narrow(c.house) in t.houses
    then Some(FlatRow(Narrow(c.house), Narrow(c.number), Narrow(c.price), Narrow(c.rooms), CREATED))
    else None
  }

  /** The store action an event amounts to. */
  function ActionOf(s: State, e: Event): Option<Action> {
    match e
    case Connect(_) => None
    case HttpRegister(_, _, _, _) => None
    case Line(c, line, env) =>
      if !Listening(s, c) || Read(line) == None then None
      else CommandAction(s, c, Read(line).value, env)
    case UpdateRuns(c) => Some(Run(c))
    case UpdateWakes(c) => Some(Wake(c))
    case CallCommits(c) => Some(Commit(c))
    case CallFails(c) => Some(Fail(c))
    case CallReturns(c) => Some(Return(c))
  }

  function CommandAction(s: State, session: nat, c: Command, env: Env): Option<Action>
    requires session in s.sessions
  {
    var v := s.sessions[session];
    if Started(c, v).Some? then Some(Open(session, Started(c, v).value))
    else
      match InsertedRow(c, v, TablesOf(s), env)
      case Some(row) => Some(Insert(s.nextFlat, row))
      case None => None
  }

  /** The row a registration adds, if it adds one. */
  ghost function NewUser(c: Command, t: Tables.Tables, env: Env): Option<Tables.UserRow> {
    if c.Register? && env.up && forall i :: 0 <= i < |t.users| ==> t.users[i].login != c.login
    then Some(Tables.UserRow(t.nextUser, c.login, c.password, c.role))
    else None
  }

  /** Everything a command outside the transactions does to the tables: a new login adds its row behind the others, a
      moderator adds a house under the next id, an authorised session adds a flat; serial values are used up even when
      the row is rejected. */
  lemma CommandTables(c: Command, v: Identity, t: Tables.Tables, env: Env)
    requires Started(c, v) == None
    ensures var t', user, flat := RunCommand(c, v, t, env).tables, NewUser(c, t, env), InsertedRow(c, v, t, env);
            var newHouse := c.CreateHouse? && Moderating(v, c.token) && env.up;
            && t'.users == (if user.Some? then t.users + [user.value] else t.users)
            && t'.nextUser == t.nextUser + (if c.Register? && env.up then 1 else 0)
            && t'.houses == (if newHouse then t.houses + {t.nextHouse} else t.houses)
            && t'.nextHouse == t.nextHouse + (if newHouse then 1 else 0)
            && t'.flats == (if flat.Some? then t.flats[t.nextFlat := flat.value] else t.flats)
            && t'.nextFlat == t.nextFlat + (if c.CreateFlat? && Admitted(v, c.token) && env.up then 1 else 0)
    ensures Tables.UniqueLogins(t) ==> Tables.UniqueLogins(RunCommand(c, v, t, env).tables)
  {
  }

  /** The other two ways in: a registration over HTTP adds exactly the given row, or none when the login exists; a new
      connection starts a session that nobody is logged in to. */
  lemma OutsideEvents(s: State, login: Bytes, password: Bytes, role: Bytes, up: bool, c: nat)
    ensures var known := exists i :: 0 <= i < |s.users| && s.users[i].login == login;
            Apply(s, HttpRegister(login, password, role, up)) ==
            if !up then s
            else if known then s.(nextUser := s.nextUser + 1)
            else s.(users := s.users + [Tables.UserRow(s.nextUser, login, password, role)], nextUser := s.nextUser + 1)
    ensures Apply(s, Connect(c)) ==
            if c in s.sessions then s
            else s.(sessions := s.sessions[c := Identity(false, 18446744073709551615, [], [], [])])
  {
  }

  ghost predicate FreshIds(s: State) {
    forall id :: id in s.store.flats ==> id < s.nextFlat
  }

  /** A command, seen from the tables, the store and the other sessions. */
  lemma CommandIsAction(s: State, session: nat, c: Command, env: Env)
    requires session in s.sessions && session !in s.store.calls && FreshIds(s)
    ensures var s', a := ApplyCommand(s, session, c, env), CommandAction(s, session, c, env);
            && s'.store == (if a.Some? then Step(s.store, a.value).0 else s.store)
            && s.users <= s'.users && s.houses <= s'.houses && s.nextFlat <= s'.nextFlat
            && (a.Some? && a.value.Insert? ==> s'.nextFlat == s.nextFlat + 1)
            && (Tables.UniqueLogins(TablesOf(s)) ==> Tables.UniqueLogins(TablesOf(s')))
            && s'.sessions.Keys == s.sessions.Keys
            && forall d :: d in s.sessions && d != session ==> s'.sessions[d] == s.sessions[d]
  {
    hide RunCommand;
    var v := s.sessions[session];
    if Started(c, v) == None {
      CommandTables(c, v, TablesOf(s), env);
    }
  }

  /** The same for every event. */
  lemma EventIsAction(s: State, e: Event)
    requires FreshIds(s)
    ensures var s', a := Apply(s, e), ActionOf(s, e);
            && s'.store == (if a.Some? then Step(s.store, a.value).0 else s.store)
            && s.users <= s'.users && s.houses <= s'.houses && s.nextFlat <= s'.nextFlat
            && (a.Some? && a.value.Insert? ==> s'.nextFlat == s.nextFlat + 1)
            && (Tables.UniqueLogins(TablesOf(s)) ==> Tables.UniqueLogins(TablesOf(s')))
  {
    hide Read, ApplyCommand, CommandAction;
    if e.Line? && Listening(s, e.session) && Read(e.line).Some? {
      CommandIsAction(s, e.session, Read(e.line).value, e.env);
    }
  }

  // ---- Sessions ----

  lemma BackedStays(s: State, s': State, v: Identity)
    requires s.users <= s'.users && Backed(s, v)
    ensures Backed(s', v)
  {
    var i :| 0 <= i < |s.users| && BackedBy(s.users[i], v);
    assert s'.users[i] == s.users[i];
  }

  lemma LoginIsBacked(s: State, login: Bytes, password: Bytes, v: Identity, env: Env)
    requires SessionInv(s, v)
    ensures SessionInv(s, RunLogin(login, password, v, TablesOf(s), env).identity)
  {
    var found := Tables.LoginAt(s.users, login);
    var v' := RunLogin(login, password, v, TablesOf(s), env).identity;
    if v' != v {
      assert BackedBy(s.users[found.value], v');
    }
  }

  lemma CommandKeepsSession(s: State, session: nat, c: Command, env: Env)
    requires ServiceInv(s) && Listening(s, session)
    ensures SessionInv(ApplyCommand(s, session, c, env), ApplyCommand(s, session, c, env).sessions[session])
  {
    var v, s' := s.sessions[session], ApplyCommand(s, session, c, env);
    CommandIsAction(s, session, c, env);
    if s'.sessions[session] == v {
      if v.authorised { BackedStays(s, s', v); }
    } else if c.Login? {
      LoginIsBacked(s, c.login, c.password, v, env);
    }
  }

  /** Which identity a session has after an event: a new one, what its own command makes of it, or the one it had. */
  lemma SessionAfter(s: State, e: Event, c: nat)
    requires ServiceInv(s)
    ensures c in s.sessions ==> c in Apply(s, e).sessions
    ensures c in Apply(s, e).sessions && c !in s.sessions ==> Apply(s, e).sessions[c] == NOBODY
    ensures c in s.sessions && Apply(s, e).sessions[c] != s.sessions[c] ==>
              && e.Line? && e.session == c && Listening(s, c) && Read(e.line).Some?
              && Apply(s, e) == ApplyCommand(s, c, Read(e.line).value, e.env)
  {
    hide Read, ApplyCommand;
    if e.Line? && Listening(s, e.session) && Read(e.line).Some? {
      CommandIsAction(s, e.session, Read(e.line).value, e.env);
    }
  }

  lemma SessionStep(s: State, e: Event, c: nat)
    requires ServiceInv(s) && c in Apply(s, e).sessions
    ensures SessionInv(Apply(s, e), Apply(s, e).sessions[c])
  {
    hide Apply, ApplyCommand, Read, Backed;
    var s' := Apply(s, e);
    SessionAfter(s, e, c);
    EventIsAction(s, e);
    if c in s.sessions {
      if s'.sessions[c] != s.sessions[c] {
        CommandKeepsSession(s, c, Read(e.line).value, e.env);
      } else if s.sessions[c].authorised {
        BackedStays(s, s', s.sessions[c]);
      }
    }
  }

  lemma SessionsStep(s: State, e: Event)
    requires ServiceInv(s)
    ensures SessionsInv(Apply(s, e))
    ensures forall c :: IsModerator(s, c) && c in s.store.calls ==> IsModerator(Apply(s, e), c)
  {
    hide Apply, SessionInv, Backed, Read;
    var s' := Apply(s, e);
    EventIsAction(s, e);
    forall c | c in s'.sessions
      ensures SessionInv(s', s'.sessions[c])
    {
      SessionStep(s, e, c);
    }
    forall c | IsModerator(s, c) && c in s.store.calls
      ensures IsModerator(s', c)
    {
      SessionAfter(s, e, c);
      BackedStays(s, s', s.sessions[c]);
    }
  }

  // ---- Calls and rows ----

  /** A line that opens a transaction comes from a moderator and carries a whitelisted status. */
  lemma OpenIsModerated(s: State, e: Event)
    requires ServiceInv(s) && ActionOf(s, e).Some? && ActionOf(s, e).value.Open?
    ensures e.Line? && ActionOf(s, e).value.caller == e.session
    ensures IsModerator(s, e.session) && Apply(s, e).sessions == s.sessions
    ensures ActionOf(s, e).value.statement.Decide? ==> IsFinal(ActionOf(s, e).value.statement.status)
  {
    hide RunCommand, Build;
    OnlyWhitelistedDecisions(e.line);
  }

  lemma CallsOfStep(s: Store, a: Action, c: nat)
    requires c in Step(s, a).0.calls
    ensures if c in s.calls then Step(s, a).0.calls[c].statement == s.calls[c].statement
            else a == Open(c, Step(s, a).0.calls[c].statement)
  {
  }

  lemma CallsStep(s: State, e: Event)
    requires ServiceInv(s)
    ensures CallsInv(Apply(s, e))
  {
    hide Apply, ActionOf, Step;
    var s', a := Apply(s, e), ActionOf(s, e);
    EventIsAction(s, e);
    SessionsStep(s, e);
    forall c | c in s'.store.calls
      ensures IsModerator(s', c)
      ensures s'.store.calls[c].statement.Decide? ==> IsFinal(s'.store.calls[c].statement.status)
    {
      if a.Some? { CallsOfStep(s.store, a.value, c); }
      if c !in s.store.calls {
        OpenIsModerated(s, e);
        BackedStays(s, s', s.sessions[c]);
      }
    }
  }

  lemma InsertedHouseExists(s: State, e: Event)
    requires ActionOf(s, e).Some? && ActionOf(s, e).value.Insert?
    ensures ActionOf(s, e).value.id == s.nextFlat
    ensures ActionOf(s, e).value.row.house in s.houses && ActionOf(s, e).value.row.status == CREATED
  {
    hide Read;
  }

  /** What a step settles is the open call of its caller, or the row it inserts. */
  lemma OutcomeOfStep(s: Store, a: Action, o: Outcome)
    requires o in Step(s, a).1
    ensures if o.Settled? then o.caller in s.calls && o.statement == s.calls[o.caller].statement
            else a == Insert(o.id, o.row)
  {
  }

  lemma OutcomeIsAdmissible(s: State, e: Event)
    requires ServiceInv(s) && ActionOf(s, e).Some?
    ensures forall o :: o in Step(s.store, ActionOf(s, e).value).1 ==> Admissible(o)
  {
    hide ActionOf, Step;
    forall o | o in Step(s.store, ActionOf(s, e).value).1
      ensures Admissible(o)
    {
      OutcomeOfStep(s.store, ActionOf(s, e).value, o);
      if o.Inserted? { InsertedHouseExists(s, e); }
    }
  }

  lemma RowsStep(s: State, e: Event)
    requires ServiceInv(s)
    ensures RowsInv(Apply(s, e)) && Transactions.Inv(Apply(s, e).store)
  {
    hide Apply, ActionOf;
    EventIsAction(s, e);
    var a := ActionOf(s, e);
    if a.Some? {
      StepSound(s.store, a.value);
      if a.value.Insert? { InsertedHouseExists(s, e); }
      OutcomeIsAdmissible(s, e);
      RowsOfStep(s.store, a.value);
    }
  }

  lemma RowsOfStep(s: Store, a: Action)
    requires Transactions.Inv(s) && KnownStatuses(s.flats)
    requires forall o :: o in Step(s, a).1 ==> Admissible(o)
    ensures KnownStatuses(Step(s, a).0.flats)
    ensures forall id :: id in Step(s, a).0.flats ==>
              if id in s.flats then Step(s, a).0.flats[id].house == s.flats[id].house
              else a.Insert? && a.id == id && Step(s, a).0.flats[id] == a.row
  {
    StepSound(s, a);
    if |Step(s, a).1| == 1 {
      assert Step(s, a).1[0] in Step(s, a).1;
      AtomicStep(s.flats, Step(s, a).1[0]);
    }
  }

  lemma EventKeepsInv(s: State, e: Event)
    requires ServiceInv(s)
    ensures ServiceInv(Apply(s, e))
  {
    hide Apply, ActionOf;
    EventIsAction(s, e);
    SessionsStep(s, e);
    CallsStep(s, e);
    RowsStep(s, e);
  }

  /** In every reachable state: logins are unique; an authorised session's id, login and role are those of a stored row
      (role trimmed), and any other session holds no identity at all; the token stored in a session is always empty;
      every open call belongs to a moderator and carries an allowed decision; every flat's house exists. */
  lemma {:induction false} InvAlways(s: State, events: seq<Event>)
    requires Init(s)
    ensures ServiceInv(Exec(s, events))
  {
    hide Apply;
    if events != [] {
      InvAlways(s, events[..|events| - 1]);
      EventKeepsInv(Exec(s, events[..|events| - 1]), events[|events| - 1]);
    }
  }
}
