/** What every run of the service keeps to, whatever the sessions send and however their calls interleave. */
module Runs {
  import opened Strings
  import opened Sessions
  import opened Commands
  import opened Lifecycle
  import opened Service
  import T = Transactions
  import Tables

  // ---- A run of the service is a run of the transaction machine ----

  /** The store actions of a run. */
  function Actions(s: State, events: seq<Event>): seq<T.Action> {
    if events == [] then []
    else
      var before := events[..|events| - 1];
      Actions(s, before) +
      match ActionOf(Exec(s, before), events[|events| - 1]) case Some(a) => [a] case None => []
  }

  /** Every call that took effect and every row inserted during a run, in order. */
  function RunLog(s: State, events: seq<Event>): seq<T.Outcome> {
    T.Log(s.store, Actions(s, events))
  }

  lemma ExecSnoc(s: T.Store, actions: seq<T.Action>, a: T.Action)
    ensures T.Exec(s, actions + [a]) == T.Step(T.Exec(s, actions), a).0
    ensures T.Log(s, actions + [a]) == T.Log(s, actions) + T.Step(T.Exec(s, actions), a).1
  {
    assert (actions + [a])[..|actions|] == actions;
  }

  lemma AdmissibleSnoc(log: seq<T.Outcome>, more: seq<T.Outcome>)
    requires AllAdmissible(log) && forall o :: o in more ==> Admissible(o)
    ensures AllAdmissible(log + more)
  {
  }

  lemma {:induction false} RunIsStoreRun(s: State, events: seq<Event>)
    requires Init(s)
    ensures Exec(s, events).store == T.Exec(s.store, Actions(s, events))
    ensures AllAdmissible(RunLog(s, events))
  {
    hide Apply, ActionOf, T.Step;
    if events != [] {
      var before, e := events[..|events| - 1], events[|events| - 1];
      var mid := Exec(s, before);
      RunIsStoreRun(s, before);
      InvAlways(s, before);
      EventIsAction(mid, e);
      var a := ActionOf(mid, e);
      if a.Some? {
        OutcomeIsAdmissible(mid, e);
        ExecSnoc(s.store, Actions(s, before), a.value);
        AdmissibleSnoc(RunLog(s, before), T.Step(mid.store, a.value).1);
      } else {
        assert Actions(s, before) + [] == Actions(s, before);
      }
    }
  }

  /** Every run of the whole service is explained by its calls and insertions one after another, in the order in which
      they took effect, with the same answers and the same table. */
  lemma RunIsSerial(s: State, events: seq<Event>)
    requires Init(s)
    ensures Legal(map[], RunLog(s, events))
    ensures Exec(s, events).store.flats == T.Serial(map[], RunLog(s, events))
  {
    hide Apply, ActionOf, T.Step;
    RunIsStoreRun(s, events);
    T.Serializable(s.store, Actions(s, events));
  }

  /** The counts of a run balance, and for each flat at most one take and at most one decision returned true. */
  lemma RunBalances(s: State, events: seq<Event>, id: nat)
    requires Init(s)
    ensures var log, flats := RunLog(s, events), Exec(s, events).store.flats;
            && |WithStatus(flats, T.CREATED)| == Insertions(log) - Takes(log)
            && |WithStatus(flats, T.ON_MODERATION)| ==
               Takes(log) - Decisions(log, T.APPROVED) - Decisions(log, T.DECLINED)
            && |WithStatus(flats, T.APPROVED)| == Decisions(log, T.APPROVED)
            && |WithStatus(flats, T.DECLINED)| == Decisions(log, T.DECLINED)
            && |flats| == Insertions(log)
            && TakesOf(log, id) <= 1 && DecisionsOf(log, id) <= 1
  {
    RunIsSerial(s, events);
    Conservation(RunLog(s, events));
    SuccessesMatchStatus(RunLog(s, events), id);
  }

  // ---- Sessions ----

  /** In every run, an authorised session's id, login and role are those of exactly one stored user (role trimmed),
      and a session that is not authorised holds none of them; no session ever holds a token. */
  lemma SessionsMatchUsers(s: State, events: seq<Event>, c: nat)
    requires Init(s) && c in Exec(s, events).sessions
    ensures var now, v := Exec(s, events), Exec(s, events).sessions[c];
            && v.token == []
            && (if v.authorised
                then exists i :: 0 <= i < |now.users| && BackedBy(now.users[i], v)
                                 && forall j :: 0 <= j < |now.users| && BackedBy(now.users[j], v) ==> j == i
                else v.id == NO_ID && v.login == [] && v.role == [])
  {
    hide Exec;
    InvAlways(s, events);
  }

  // ---- Status histories ----

  /** What one event does to the rows. */
  lemma EventOnRows(s: State, e: Event)
    requires ServiceInv(s)
    ensures forall id :: id in s.store.flats ==>
              && id in Apply(s, e).store.flats
              && Follows(s.store.flats[id].status, Apply(s, e).store.flats[id].status)
              && Apply(s, e).store.flats[id].(status := s.store.flats[id].status) == s.store.flats[id]
    ensures forall id :: id in Apply(s, e).store.flats && id !in s.store.flats ==>
              Apply(s, e).store.flats[id].status == T.CREATED
  {
    hide Apply, ActionOf, T.Step;
    EventIsAction(s, e);
    var a := ActionOf(s, e);
    if a.Some? {
      T.StepSound(s.store, a.value);
      OutcomeIsAdmissible(s, e);
      if |T.Step(s.store, a.value).1| == 1 {
        assert T.Step(s.store, a.value).1[0] in T.Step(s.store, a.value).1;
        AtomicStep(s.store.flats, T.Step(s.store, a.value).1[0]);
      }
    }
  }

  /** The statuses a flat shows in the states of a run, without repetitions. */
  function Trace(s: State, events: seq<Event>, id: nat): seq<Bytes> {
    var flats := Exec(s, events).store.flats;
    var before := if events == [] then [] else Trace(s, events[..|events| - 1], id);
    if id !in flats || (before != [] && before[|before| - 1] == flats[id].status) then before
    else before + [flats[id].status]
  }

  lemma {:induction false} TraceIsPath(s: State, events: seq<Event>, id: nat)
    requires Init(s)
    ensures IsLifecycle(Trace(s, events, id))
    ensures id in Exec(s, events).store.flats <==> Trace(s, events, id) != []
    ensures id in Exec(s, events).store.flats ==>
              Trace(s, events, id)[|Trace(s, events, id)| - 1] == Exec(s, events).store.flats[id].status
  {
    hide Apply, IsLifecycle;
    if events != [] {
      var before := events[..|events| - 1];
      TraceIsPath(s, before, id);
      InvAlways(s, before);
      EventOnRows(Exec(s, before), events[|events| - 1]);
      var h, flats := Trace(s, before, id), Exec(s, events).store.flats;
      if id in flats && (h == [] || h[|h| - 1] != flats[id].status) {
        ExtendLifecycle(h, flats[id].status);
      }
    } else {
      EmptyLifecycle();
    }
  }

  /** In every run, each flat goes through a prefix of created, on_moderation, and then approved or declined; the last
      of these statuses is the one it has. */
  lemma TraceIsLifecycle(s: State, events: seq<Event>, id: nat)
    requires Init(s)
    ensures Trace(s, events, id) <= ["created", "on_moderation", "approved"]
            || Trace(s, events, id) <= ["created", "on_moderation", "declined"]
    ensures id in Exec(s, events).store.flats <==> Trace(s, events, id) != []
    ensures id in Exec(s, events).store.flats ==>
              Trace(s, events, id)[|Trace(s, events, id)| - 1] == Exec(s, events).store.flats[id].status
  {
    hide Exec, Trace;
    TraceIsPath(s, events, id);
  }

  lemma EmptyLifecycle()
    ensures IsLifecycle([])
  {
  }

  // ---- Provenance ----

  /** At step `i` session `c`, a moderator backed by a stored row, commits the take of flat `id`. */
  ghost predicate TakenAt(s: State, events: seq<Event>, i: nat, c: nat, id: nat) {
    && i < |events| && events[i] == CallCommits(c)
    && var now := Exec(s, events[..i]);
       && T.IsHolding(now.store, c) && IsModerator(now, c)
       && now.store.calls[c].statement.Take? && now.store.calls[c].statement.flat == id
  }

  ghost predicate DecidedAt(s: State, events: seq<Event>, i: nat, c: nat, id: nat, status: Bytes) {
    && i < |events| && events[i] == CallCommits(c)
    && var now := Exec(s, events[..i]);
       && T.IsHolding(now.store, c) && IsModerator(now, c)
       && now.store.calls[c].statement.Decide? && now.store.calls[c].statement.flat == id
       && now.store.calls[c].statement.status == status
  }

  lemma StatusChangeOnStore(s: T.Store, a: T.Action, id: nat)
    requires id in s.flats && T.Inv(s) && T.Step(s, a).0.flats[id].status != s.flats[id].status
    ensures a.Commit? && T.IsHolding(s, a.caller)
    ensures var st := s.calls[a.caller].statement;
            st.flat == id && s.flats[id].status == st.Guard() && T.Step(s, a).0.flats[id].status == st.Target()
  {
  }

  /** Only a commit by a moderator's call changes the status of a flat. */
  lemma StatusChangeIsCommit(s: State, e: Event, id: nat)
    requires ServiceInv(s) && id in s.store.flats && id in Apply(s, e).store.flats
    requires Apply(s, e).store.flats[id].status != s.store.flats[id].status
    ensures e.CallCommits? && T.IsHolding(s.store, e.session) && IsModerator(s, e.session)
    ensures var st := s.store.calls[e.session].statement;
            st.flat == id && s.store.flats[id].status == st.Guard() && Apply(s, e).store.flats[id].status == st.Target()
  {
    hide Read, Apply, CommandAction, T.Step;
    EventIsAction(s, e);
    StatusChangeOnStore(s.store, ActionOf(s, e).value, id);
    if e.Line? && Listening(s, e.session) && Read(e.line).Some? {
      CommandNeverCommits(s, e.session, Read(e.line).value, e.env);
    }
  }

  lemma CommandNeverCommits(s: State, session: nat, c: Command, env: Env)
    requires session in s.sessions
    ensures CommandAction(s, session, c, env).Some? ==>
              CommandAction(s, session, c, env).value.Open? || CommandAction(s, session, c, env).value.Insert?
  {
  }

  lemma TakenEarlier(s: State, events: seq<Event>, i: nat, c: nat, id: nat)
    requires events != [] && TakenAt(s, events[..|events| - 1], i, c, id)
    ensures TakenAt(s, events, i, c, id)
  {
    assert events[..|events| - 1][..i] == events[..i];
  }

  lemma DecidedEarlier(s: State, events: seq<Event>, i: nat, c: nat, id: nat, status: Bytes)
    requires events != [] && DecidedAt(s, events[..|events| - 1], i, c, id, status)
    ensures DecidedAt(s, events, i, c, id, status)
  {
    assert events[..|events| - 1][..i] == events[..i];
  }

  ghost predicate WasTaken(s: State, events: seq<Event>, id: nat) {
    exists i, c :: TakenAt(s, events, i, c, id)
  }

  ghost predicate WasModerated(s: State, events: seq<Event>, id: nat, status: Bytes) {
    exists i, c, j, d :: i < j && TakenAt(s, events, i, c, id) && DecidedAt(s, events, j, d, id, status)
  }

  lemma WasTakenEarlier(s: State, events: seq<Event>, id: nat)
    requires events != [] && WasTaken(s, events[..|events| - 1], id)
    ensures WasTaken(s, events, id)
  {
    var i, c :| TakenAt(s, events[..|events| - 1], i, c, id);
    TakenEarlier(s, events, i, c, id);
  }

  lemma WasModeratedEarlier(s: State, events: seq<Event>, id: nat, status: Bytes)
    requires events != [] && WasModerated(s, events[..|events| - 1], id, status)
    ensures WasModerated(s, events, id, status)
  {
    var before := events[..|events| - 1];
    var i, c, j, d :| i < j && TakenAt(s, before, i, c, id) && DecidedAt(s, before, j, d, id, status);
    TakenEarlier(s, events, i, c, id);
    DecidedEarlier(s, events, j, d, id, status);
  }

  lemma TakenNow(s: State, events: seq<Event>, id: nat, c: nat)
    requires events != [] && TakenAt(s, events, |events| - 1, c, id)
    ensures WasTaken(s, events, id)
  {
  }

  lemma DecidedNow(s: State, events: seq<Event>, id: nat, status: Bytes, d: nat)
    requires events != [] && WasTaken(s, events[..|events| - 1], id)
    requires DecidedAt(s, events, |events| - 1, d, id, status)
    ensures WasModerated(s, events, id, status)
  {
    var i, c :| TakenAt(s, events[..|events| - 1], i, c, id);
    TakenEarlier(s, events, i, c, id);
  }

  /** The commits that a status calls for have happened. */
  ghost predicate Explained(s: State, events: seq<Event>, id: nat, status: Bytes) {
    (status == T.ON_MODERATION ==> WasTaken(s, events, id)) && (IsFinal(status) ==> WasModerated(s, events, id, status))
  }

  lemma ExplainedEarlier(s: State, events: seq<Event>, id: nat, status: Bytes)
    requires events != [] && Explained(s, events[..|events| - 1], id, status)
    ensures Explained(s, events, id, status)
  {
    hide WasTaken, WasModerated;
    if status == T.ON_MODERATION { WasTakenEarlier(s, events, id); }
    if IsFinal(status) { WasModeratedEarlier(s, events, id, status); }
  }

  lemma CommitExplains(s: State, events: seq<Event>, id: nat, c: nat)
    requires events != [] && events[|events| - 1] == CallCommits(c)
    requires var mid := Exec(s, events[..|events| - 1]);
             && T.IsHolding(mid.store, c) && IsModerator(mid, c) && mid.store.calls[c].statement.flat == id
             && Explained(s, events[..|events| - 1], id, mid.store.calls[c].statement.Guard())
    requires var st := Exec(s, events[..|events| - 1]).store.calls[c].statement;
             st.Take? || IsFinal(st.Target())
    ensures Explained(s, events, id, Exec(s, events[..|events| - 1]).store.calls[c].statement.Target())
  {
    hide Exec, WasTaken, WasModerated;
    var st := Exec(s, events[..|events| - 1]).store.calls[c].statement;
    if st.Take? {
      TakenNow(s, events, id, c);
    } else {
      DecidedNow(s, events, id, st.status, c);
    }
  }

  /** In every run, a flat on moderation was taken, and a flat that is approved or declined was taken and later decided
      so, each time by a session authorised at that moment whose role comes from a stored row that trims to
      "moderator". */
  lemma {:induction false} Provenance(s: State, events: seq<Event>, id: nat)
    requires Init(s) && id in Exec(s, events).store.flats
    ensures var status := Exec(s, events).store.flats[id].status;
            && (status == T.ON_MODERATION ==> WasTaken(s, events, id))
            && (IsFinal(status) ==> WasModerated(s, events, id, status))
  {
    hide Apply, WasTaken, WasModerated;
    if events != [] {
      var before, e := events[..|events| - 1], events[|events| - 1];
      var mid := Exec(s, before);
      InvAlways(s, before);
      EventOnRows(mid, e);
      if id in mid.store.flats {
        Provenance(s, before, id);
        ProvenanceStep(s, events, id);
      }
    }
  }

  lemma ProvenanceStep(s: State, events: seq<Event>, id: nat)
    requires events != [] && ServiceInv(Exec(s, events[..|events| - 1]))
    requires id in Exec(s, events[..|events| - 1]).store.flats && id in Exec(s, events).store.flats
    requires Explained(s, events[..|events| - 1], id, Exec(s, events[..|events| - 1]).store.flats[id].status)
    ensures Explained(s, events, id, Exec(s, events).store.flats[id].status)
  {
    hide Apply, Explained, ServiceInv, IsModerator;
    var e := events[|events| - 1];
    var mid := Exec(s, events[..|events| - 1]);
    if mid.store.flats[id].status == Exec(s, events).store.flats[id].status {
      ExplainedEarlier(s, events, id, mid.store.flats[id].status);
    } else {
      StatusChangeIsCommit(mid, e, id);
      OnModerationOrFinal(mid, e.session);
      CommitExplains(s, events, id, e.session);
    }
  }

  /** A take leads to on_moderation; an open decision leads to a final status. */
  lemma OnModerationOrFinal(s: State, c: nat)
    requires ServiceInv(s) && c in s.store.calls
    ensures s.store.calls[c].statement.Take? || IsFinal(s.store.calls[c].statement.Target())
  {
  }

  /** At step `k` session `c` sent a command whose guard held, with the session's own token, for this statement. */
  ghost predicate CommandedAt(s: State, events: seq<Event>, k: nat, c: nat, st: T.Statement) {
    && k < |events| && events[k].Line? && events[k].session == c
    && var now := Exec(s, events[..k]);
       && c in now.sessions && Read(events[k].line).Some?
       && Started(Read(events[k].line).value, now.sessions[c]) == Some(st)
  }

  lemma CommandedEarlier(s: State, events: seq<Event>, k: nat, c: nat, st: T.Statement)
    requires events != [] && CommandedAt(s, events[..|events| - 1], k, c, st)
    ensures CommandedAt(s, events, k, c, st)
  {
    assert events[..|events| - 1][..k] == events[..k];
  }

  /** A call that was not open before an event was opened by it. */
  lemma OpenIsCommanded(s: State, e: Event, c: nat)
    requires ServiceInv(s) && c in Apply(s, e).store.calls && c !in s.store.calls
    ensures e.Line? && e.session == c && c in s.sessions && Read(e.line).Some?
    ensures Started(Read(e.line).value, s.sessions[c]) == Some(Apply(s, e).store.calls[c].statement)
  {
    hide Read, Apply, CommandAction, T.Step;
    EventIsAction(s, e);
    CallsOfStep(s.store, ActionOf(s, e).value, c);
    CommandOpens(s, e.session, Read(e.line).value, e.env);
  }

  lemma CommandOpens(s: State, session: nat, command: Command, env: Env)
    requires session in s.sessions
    ensures var a := CommandAction(s, session, command, env);
            a.Some? && a.value.Open? ==>
              a.value.caller == session && Started(command, s.sessions[session]) == Some(a.value.statement)
  {
  }

  lemma CallKeepsStatement(s: State, e: Event, c: nat)
    requires ServiceInv(s) && c in Apply(s, e).store.calls && c in s.store.calls
    ensures Apply(s, e).store.calls[c].statement == s.store.calls[c].statement
  {
    hide Apply, ActionOf, T.Step;
    EventIsAction(s, e);
    if ActionOf(s, e).Some? { CallsOfStep(s.store, ActionOf(s, e).value, c); }
  }

  /** Every open call was started by a guarded command of its own session: authorised as moderator, and presenting the
      token that the session holds. */
  lemma {:induction false} CallsAreCommanded(s: State, events: seq<Event>, c: nat)
    requires Init(s) && c in Exec(s, events).store.calls
    ensures exists k :: CommandedAt(s, events, k, c, Exec(s, events).store.calls[c].statement)
  {
    hide Apply, Started, Read;
    if events != [] {
      var before, e := events[..|events| - 1], events[|events| - 1];
      var mid := Exec(s, before);
      InvAlways(s, before);
      if c in mid.store.calls {
        CallsAreCommanded(s, before, c);
        CallKeepsStatement(mid, e, c);
        var k :| CommandedAt(s, before, k, c, mid.store.calls[c].statement);
        CommandedEarlier(s, events, k, c, mid.store.calls[c].statement);
      } else {
        OpenIsCommanded(mid, e, c);
        assert CommandedAt(s, events, |events| - 1, c, Exec(s, events).store.calls[c].statement);
      }
    }
  }

  // ---- From any state on ----

  lemma {:induction false} InvFrom(s: State, events: seq<Event>)
    requires ServiceInv(s)
    ensures ServiceInv(Exec(s, events))
    ensures s.sessions.Keys <= Exec(s, events).sessions.Keys
  {
    hide Apply;
    if events != [] {
      InvFrom(s, events[..|events| - 1]);
      EventKeepsInv(Exec(s, events[..|events| - 1]), events[|events| - 1]);
      SessionsStay(Exec(s, events[..|events| - 1]), events[|events| - 1]);
    }
  }

  lemma SessionsStay(s: State, e: Event)
    requires ServiceInv(s)
    ensures s.sessions.Keys <= Apply(s, e).sessions.Keys
  {
    hide Read, ApplyCommand;
    if e.Line? && Listening(s, e.session) && Read(e.line).Some? {
      CommandIsAction(s, e.session, Read(e.line).value, e.env);
    }
  }

  // ---- Listings only grow ----

  /** From any state on, rows are never deleted, their house, number, price and rooms never change, their status only
      advances, and a final status never changes. */
  lemma {:induction false} RowsStay(s: State, events: seq<Event>, id: nat)
    requires ServiceInv(s) && id in s.store.flats
    ensures id in Exec(s, events).store.flats
    ensures Exec(s, events).store.flats[id].(status := s.store.flats[id].status) == s.store.flats[id]
    ensures Reaches(s.store.flats[id].status, Exec(s, events).store.flats[id].status)
    ensures IsFinal(s.store.flats[id].status) ==> Exec(s, events).store.flats[id] == s.store.flats[id]
  {
    hide Apply, ServiceInv;
    if events != [] {
      RowsStay(s, events[..|events| - 1], id);
      InvFrom(s, events[..|events| - 1]);
      EventOnRows(Exec(s, events[..|events| - 1]), events[|events| - 1]);
    }
  }

  /** A flat shown to users is shown in every later user listing of that house that does not fail, unchanged, whatever
      happens in between and in whatever order the engine visits the rows. */
  lemma ListedStaysListed(s: State, events: seq<Event>, house: Size, scan: seq<nat>, later: seq<nat>,
                          d: Tables.FlatData)
    requires ServiceInv(s)
    requires var flats := s.store.flats;
             && Tables.IsScan(scan, flats) && d in Tables.Listing(flats, house, Tables.USER, scan, true)
    requires var flats' := Exec(s, events).store.flats;
             Tables.IsScan(later, flats') && !Tables.HasNegative(flats', house, true)
    ensures d in Tables.Listing(Exec(s, events).store.flats, house, Tables.USER, later, true)
  {
    hide Apply, Tables.Select;
    Tables.ListingShows(s.store.flats, house, Tables.USER, scan, d);
    RowsStay(s, events, d.id);
    Tables.ListingShows(Exec(s, events).store.flats, house, Tables.USER, later, d);
  }

  // ---- Every session can go on ----

  /** The event that takes a progress step of the store. */
  function EventFor(a: T.Action): Event
    requires T.IsProgress(a)
  {
    match a
    case Run(c) => UpdateRuns(c)
    case Wake(c) => UpdateWakes(c)
    case Commit(c) => CallCommits(c)
    case Return(c) => CallReturns(c)
  }

  function EventsFor(actions: seq<T.Action>): (events: seq<Event>)
    requires T.AllProgress(actions)
    ensures |events| == |actions|
  {
    seq(|actions|, i requires 0 <= i < |actions| => EventFor(actions[i]))
  }

  lemma EventDoesAction(s: State, a: T.Action)
    requires T.IsProgress(a)
    ensures Apply(s, EventFor(a)) == s.(store := T.Step(s.store, a).0)
  {
    hide T.Step;
  }

  lemma {:induction false} EventsDoActions(s: State, actions: seq<T.Action>)
    requires T.AllProgress(actions)
    ensures Exec(s, EventsFor(actions)) == s.(store := T.Exec(s.store, actions))
  {
    hide Apply, EventFor, T.Step;
    if actions != [] {
      var before, events := actions[..|actions| - 1], EventsFor(actions);
      assert events[..|events| - 1] == EventsFor(before);
      EventsDoActions(s, before);
      EventDoesAction(Exec(s, EventsFor(before)), actions[|actions| - 1]);
    }
  }

  predicate IsServerStep(e: Event) {
    e.UpdateRuns? || e.UpdateWakes? || e.CallCommits? || e.CallReturns?
  }

  /** Whatever is going on, the calls in progress can all be answered, without one of them failing and without anything
      new from any client, so that every session can take its next line. */
  lemma EverySessionCanGoOn(s: State)
    ensures exists events :: (forall e :: e in events ==> IsServerStep(e))
                             && Exec(s, events).store.calls == map[] && Exec(s, events).sessions == s.sessions
  {
    hide T.Step, Apply, T.Exec, Exec;
    T.EveryCallCanReturn(s.store);
    var actions :| T.AllProgress(actions) && T.Exec(s.store, actions).calls == map[];
    EventsDoActions(s, actions);
    var events := EventsFor(actions);
    assert forall e :: e in events ==> IsServerStep(e);
  }

  // ---- One session alone ----

  /** A call on its own: opened, run unless it fails before that, committed or failed, and returned. */
  lemma LoneCall(s: T.Store, c: nat, st: T.Statement, up: bool, early: bool)
    requires s.calls == map[] && (up ==> !early)
    ensures var begun := T.Step(s, T.Open(c, st)).0;
            var updated := if early then begun else T.Step(begun, T.Run(c)).0;
            var settled := T.Step(updated, if up then T.Commit(c) else T.Fail(c)).0;
            && settled.calls == map[c := T.Call(st, T.Done(up && T.Matches(s.flats, st)))]
            && settled.flats == (if up then T.CompareAndSet(s.flats, st).1 else s.flats)
            && T.Step(settled, T.Return(c)).0 == T.Store(settled.flats, map[])
  {
    hide T.Matches;
    var begun := T.Step(s, T.Open(c, st)).0;
    assert begun == T.Store(s.flats, map[c := T.Call(st, T.Ready)]);
    assert !T.Locked(begun, st.flat);
  }

  lemma RunOfStarted(c: Command, v: Identity, t: Tables.Tables, env: Env)
    requires Started(c, v).Some?
    ensures var st := Started(c, v).value;
            RunCommand(c, v, t, env) ==
            Ran(v, Tables.Update(t, st, env.up).1, Updated(env.up && T.Matches(t.flats, st)))
  {
  }

  /** Without interference, the steps of a take or a decision are the one step `RunLine`, whether the database answers
      or the call fails, before its UPDATE has run (`early`) or after. */
  lemma UndisturbedCall(s: State, session: nat, line: Bytes, env: Env, early: bool)
    requires Listening(s, session) && s.store.calls == map[] && (env.up ==> !early)
    requires Read(line).Some? && Started(Read(line).value, s.sessions[session]).Some?
    ensures var begun := Apply(s, Line(session, line, env));
            var updated := if early then begun else Apply(begun, UpdateRuns(session));
            var settled := Apply(updated, if env.up then CallCommits(session) else CallFails(session));
            var st := Started(Read(line).value, s.sessions[session]).value;
            var ok := env.up && T.Matches(s.store.flats, st);
            var ran := RunLine(line, s.sessions[session], TablesOf(s), env);
            && ran.reply == Updated(ok) && settled.store.calls == map[session := T.Call(st, T.Done(ok))]
            && TablesOf(settled) == ran.tables && settled.sessions == s.sessions
            && Apply(settled, CallReturns(session)) == settled.(store := settled.store.(calls := map[]))
  {
    hide Read, T.Step, T.Matches;
    var st := Started(Read(line).value, s.sessions[session]).value;
    LoneCall(s.store, session, st, env.up, early);
    RunOfStarted(Read(line).value, s.sessions[session], TablesOf(s), env);
  }
}
