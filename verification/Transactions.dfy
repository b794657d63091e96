/** The `flats` table under concurrent transactions. `takeFlat` and `UpdateFlatStatus` each run one guarded UPDATE and
    then commit; in between the row is locked, and a competing UPDATE that wanted the row waits and tests its WHERE
    clause again (PostgreSQL, Read Committed). */
module Transactions {
  import opened Strings

  const CREATED: Bytes := "created"
  const ON_MODERATION: Bytes := "on_moderation"
  const APPROVED: Bytes := "approved"
  const DECLINED: Bytes := "declined"

  datatype FlatRow = FlatRow(house: Int32, number: Int32, price: Int32, rooms: Int32, status: Bytes)

  type Flats = map<nat, FlatRow>

  /** The UPDATE of `takeFlat` and of `UpdateFlatStatus`. */
  datatype Statement = Take(flat: Size) | Decide(flat: Size, status: Bytes) {
    function Guard(): Bytes {
      if Take? then CREATED else ON_MODERATION
    }

    function Target(): Bytes {
      if Take? then ON_MODERATION else status
    }
  }

  /** The WHERE clause. */
  predicate Matches(flats: Flats, st: Statement) {
    st.flat in flats && flats[st.flat].status == st.Guard()
  }

  function SetStatus(flats: Flats, id: nat, status: Bytes): Flats {
    if id in flats then flats[id := flats[id].(status := status)] else flats
  }

  /** The call as one indivisible step: its answer and the table it leaves. */
  function CompareAndSet(flats: Flats, st: Statement): (bool, Flats) {
    if Matches(flats, st) then (true, SetStatus(flats, st.flat, st.Target())) else (false, flats)
  }

  /** `takeFlat` moves a flat from created to on_moderation and succeeds on no other. */
  lemma TakeIs(flats: Flats, id: Size)
    ensures CompareAndSet(flats, Take(id)) ==
            if id in flats && flats[id].status == "created"
            then (true, flats[id := flats[id].(status := "on_moderation")]) else (false, flats)
  {
  }

  /** `UpdateFlatStatus` moves a flat from on_moderation to the given status and succeeds on no other. */
  lemma DecideIs(flats: Flats, id: Size, status: Bytes)
    ensures CompareAndSet(flats, Decide(id, status)) ==
            if id in flats && flats[id].status == "on_moderation"
            then (true, flats[id := flats[id].(status := status)]) else (false, flats)
  {
  }

  // ---- The concurrent machine ----

  /** `Holding`: the UPDATE has run and its row is locked until commit or abort. `Done`: the answer is settled, but the
      caller does not have it yet. */
  datatype Stage = Ready | Waiting | Holding | Done(answer: bool)

  datatype Call = Call(statement: Statement, stage: Stage)

  /** Committed rows, and the open call of each caller. */
  datatype Store = Store(flats: Flats, calls: map<nat, Call>)

  datatype Action =
    | Open(caller: nat, statement: Statement)
    | Run(caller: nat)
    | Wake(caller: nat)
    | Commit(caller: nat)
    | Fail(caller: nat)
    | Return(caller: nat)
    | Insert(id: nat, row: FlatRow)

  /** A call that took effect, with its answer, or a row that was inserted. A call takes effect at its commit, at its
      abort, or when its WHERE clause is evaluated and matches no row. */
  datatype Outcome =
    | Settled(caller: nat, statement: Statement, ok: bool, failed: bool)
    | Inserted(id: nat, row: FlatRow)

  predicate IsHolding(s: Store, caller: nat) {
    caller in s.calls && s.calls[caller].stage == Holding
  }

  predicate Locked(s: Store, flat: nat) {
    exists c :: c in s.calls && IsHolding(s, c) && s.calls[c].statement.flat == flat
  }

  function InStage(s: Store, caller: nat, stage: Stage): Store
    requires caller in s.calls
  {
    s.(calls := s.calls[caller := s.calls[caller].(stage := stage)])
  }

  /** One action; an action that is not enabled changes nothing. */
  function Step(s: Store, a: Action): (Store, seq<Outcome>) {
    match a
    case Open(c, st) =>
      if c in s.calls then (s, []) else (s.(calls := s.calls[c := Call(st, Ready)]), [])
    case Run(c) =>
      if c !in s.calls || s.calls[c].stage != Ready then (s, [])
      else if !Matches(s.flats, s.calls[c].statement) then NoRow(s, c)
      else if Locked(s, s.calls[c].statement.flat) then (InStage(s, c, Waiting), [])
      else (InStage(s, c, Holding), [])
    case Wake(c) =>
      if c !in s.calls || s.calls[c].stage != Waiting || Locked(s, s.calls[c].statement.flat) then (s, [])
      else if !Matches(s.flats, s.calls[c].statement) then NoRow(s, c)
      else (InStage(s, c, Holding), [])
    case Commit(c) =>
      if !IsHolding(s, c) then (s, [])
      else
        var st := s.calls[c].statement;
        (InStage(s, c, Done(true)).(flats := SetStatus(s.flats, st.flat, st.Target())), [Settled(c, st, true, false)])
    case Fail(c) =>
      if c !in s.calls || s.calls[c].stage.Done? then (s, [])
      else (InStage(s, c, Done(false)), [Settled(c, s.calls[c].statement, false, true)])
    case Return(c) =>
      if c !in s.calls || !s.calls[c].stage.Done? then (s, []) else (s.(calls := s.calls - {c}), [])
    case Insert(id, row) =>
      if id in s.flats then (s, []) else (s.(flats := s.flats[id := row]), [Inserted(id, row)])
  }

  /** The UPDATE matched no row: the answer is false and the transaction is dropped. */
  function NoRow(s: Store, caller: nat): (Store, seq<Outcome>)
    requires caller in s.calls
  {
    (InStage(s, caller, Done(false)), [Settled(caller, s.calls[caller].statement, false, false)])
  }

  function Exec(s: Store, actions: seq<Action>): Store {
    if actions == [] then s else Step(Exec(s, actions[..|actions| - 1]), actions[|actions| - 1]).0
  }

  /** Everything that took effect, in order. */
  function Log(s: Store, actions: seq<Action>): seq<Outcome> {
    if actions == [] then []
    else
      var before := actions[..|actions| - 1];
      Log(s, before) + Step(Exec(s, before), actions[|actions| - 1]).1
  }

  // ---- The serial machine ----

  function Atomic(flats: Flats, o: Outcome): Flats {
    match o
    case Settled(_, st, _, failed) => if failed then flats else CompareAndSet(flats, st).1
    case Inserted(id, row) => flats[id := row]
  }

  /** The answer recorded is the one the indivisible step gives on this table; an aborted call answers false. */
  predicate Explains(flats: Flats, o: Outcome) {
    match o
    case Settled(_, st, ok, failed) => ok == (!failed && CompareAndSet(flats, st).0)
    case Inserted(id, _) => id !in flats
  }

  function Serial(flats: Flats, log: seq<Outcome>): Flats {
    if log == [] then flats else Atomic(Serial(flats, log[..|log| - 1]), log[|log| - 1])
  }

  ghost predicate SeriallyLegal(flats: Flats, log: seq<Outcome>) {
    forall i :: 0 <= i < |log| ==> Explains(Serial(flats, log[..i]), log[i])
  }

  // ---- Every interleaving is serial ----

  /** A held row still satisfies the WHERE clause it was locked under, and has one holder. */
  ghost predicate Inv(s: Store) {
    && (forall c :: IsHolding(s, c) ==> Matches(s.flats, s.calls[c].statement))
    && (forall c, d ::
          IsHolding(s, c) && IsHolding(s, d) && s.calls[c].statement.flat == s.calls[d].statement.flat ==> c == d)
  }

  lemma StepSound(s: Store, a: Action)
    requires Inv(s)
    ensures Inv(Step(s, a).0)
    ensures |Step(s, a).1| <= 1
    ensures Step(s, a).1 == [] ==> Step(s, a).0.flats == s.flats
    ensures |Step(s, a).1| == 1 ==>
              Explains(s.flats, Step(s, a).1[0]) && Step(s, a).0.flats == Atomic(s.flats, Step(s, a).1[0])
  {
    var s' := Step(s, a).0;
    forall c, d | IsHolding(s', c) && IsHolding(s', d) && s'.calls[c].statement.flat == s'.calls[d].statement.flat
      ensures c == d
    {
      HeldBefore(s, a, c);
      HeldBefore(s, a, d);
    }
    forall c | IsHolding(s', c)
      ensures Matches(s'.flats, s'.calls[c].statement)
    {
      HeldBefore(s, a, c);
    }
  }

  /** A call that holds its row after a step held it before, or has just locked a free row that matches. */
  lemma HeldBefore(s: Store, a: Action, c: nat)
    requires Inv(s) && IsHolding(Step(s, a).0, c)
    ensures c in s.calls && s.calls[c].statement == Step(s, a).0.calls[c].statement
    ensures IsHolding(s, c) || (!Locked(s, s.calls[c].statement.flat) && Matches(s.flats, s.calls[c].statement)
                                && Step(s, a).0.flats == s.flats && (a == Run(c) || a == Wake(c)))
  {
  }

  lemma SerialSnoc(flats: Flats, log: seq<Outcome>, o: Outcome)
    requires SeriallyLegal(flats, log) && Explains(Serial(flats, log), o)
    ensures SeriallyLegal(flats, log + [o]) && Serial(flats, log + [o]) == Atomic(Serial(flats, log), o)
  {
    var longer := log + [o];
    assert longer[..|log|] == log;
    forall i | 0 <= i < |longer|
      ensures Explains(Serial(flats, longer[..i]), longer[i])
    {
      if i < |log| { assert longer[..i] == log[..i]; }
    }
  }

  /** Any run of any number of overlapping calls, taken apart into UPDATE, commit, abort and return, gives the answers
      and the table that the same calls give one after another in the order in which they took effect, each at a moment
      between its call and its return. */
  lemma {:induction false} Serializable(s: Store, actions: seq<Action>)
    requires Inv(s)
    ensures Inv(Exec(s, actions))
    ensures SeriallyLegal(s.flats, Log(s, actions))
    ensures Exec(s, actions).flats == Serial(s.flats, Log(s, actions))
  {
    if actions != [] {
      var before, a := actions[..|actions| - 1], actions[|actions| - 1];
      Serializable(s, before);
      var mid := Exec(s, before);
      StepSound(mid, a);
      if Step(mid, a).1 == [] {
        assert Log(s, actions) == Log(s, before);
      } else {
        assert Step(mid, a).1 == [Step(mid, a).1[0]];
        SerialSnoc(s.flats, Log(s, before), Step(mid, a).1[0]);
      }
    }
  }

  // ---- Calls, effects and returns match ----

  /** The call of a caller that has not taken effect yet. */
  function Pending(s: Store, caller: nat): seq<Statement> {
    if caller in s.calls && !s.calls[caller].stage.Done? then [s.calls[caller].statement] else []
  }

  /** The calls a caller made during a run. */
  function Made(s: Store, actions: seq<Action>, caller: nat): seq<Statement> {
    if actions == [] then []
    else
      var before, a := actions[..|actions| - 1], actions[|actions| - 1];
      Made(s, before, caller) +
      if a.Open? && a.caller == caller && caller !in Exec(s, before).calls then [a.statement] else []
  }

  /** The answer a caller has still to be given. */
  function Undelivered(s: Store, caller: nat): seq<bool> {
    if caller in s.calls && s.calls[caller].stage.Done? then [s.calls[caller].stage.answer] else []
  }

  /** What the calls of a caller returned during a run. */
  function Delivered(s: Store, actions: seq<Action>, caller: nat): seq<bool> {
    if actions == [] then []
    else
      var before, a := actions[..|actions| - 1], actions[|actions| - 1];
      Delivered(s, before, caller) + if a == Return(caller) then Undelivered(Exec(s, before), caller) else []
  }

  function SettledCalls(log: seq<Outcome>, caller: nat): seq<Statement> {
    if log == [] then []
    else
      var o := log[|log| - 1];
      SettledCalls(log[..|log| - 1], caller) + if o.Settled? && o.caller == caller then [o.statement] else []
  }

  function SettledAnswers(log: seq<Outcome>, caller: nat): seq<bool> {
    if log == [] then []
    else
      var o := log[|log| - 1];
      SettledAnswers(log[..|log| - 1], caller) + if o.Settled? && o.caller == caller then [o.ok] else []
  }

  lemma SettledAppend(log: seq<Outcome>, more: seq<Outcome>, caller: nat)
    requires |more| <= 1
    ensures SettledCalls(log + more, caller) == SettledCalls(log, caller) + SettledCalls(more, caller)
    ensures SettledAnswers(log + more, caller) == SettledAnswers(log, caller) + SettledAnswers(more, caller)
  {
    if more == [] {
      assert log + more == log;
    } else {
      assert (log + more)[..|log|] == log;
      assert more[..0] == [];
    }
  }

  /** Moving a matched part between two sides: from `p + m == a + q` and `q + made == more + q'`. */
  lemma Rebalance<T>(p: seq<T>, m: seq<T>, a: seq<T>, q: seq<T>, made: seq<T>, more: seq<T>, q': seq<T>)
    requires p + m == a + q && q + made == more + q'
    ensures p + (m + made) == (a + more) + q'
  {
    assert p + (m + made) == (p + m) + made;
    assert (a + q) + made == a + (q + made);
    assert a + (more + q') == (a + more) + q';
  }

  /** Every call of a caller takes effect exactly once, in the order of its calls. */
  lemma {:induction false} EveryCallIsSettledOnce(s: Store, actions: seq<Action>, caller: nat)
    ensures Pending(s, caller) + Made(s, actions, caller) ==
            SettledCalls(Log(s, actions), caller) + Pending(Exec(s, actions), caller)
  {
    hide Step, Pending;
    if actions != [] {
      var before, a := actions[..|actions| - 1], actions[|actions| - 1];
      EveryCallIsSettledOnce(s, before, caller);
      var mid := Exec(s, before);
      StepSettles(mid, a, caller);
      SettledAppend(Log(s, before), Step(mid, a).1, caller);
      var made := if a.Open? && a.caller == caller && caller !in mid.calls then [a.statement] else [];
      Rebalance(Pending(s, caller), Made(s, before, caller), SettledCalls(Log(s, before), caller), Pending(mid, caller),
                made, SettledCalls(Step(mid, a).1, caller), Pending(Step(mid, a).0, caller));
    } else {
      assert Pending(s, caller) + [] == [] + Pending(s, caller);
    }
  }

  lemma StepSettles(s: Store, a: Action, caller: nat)
    ensures |Step(s, a).1| <= 1
    ensures var made := if a.Open? && a.caller == caller && caller !in s.calls then [a.statement] else [];
            Pending(s, caller) + made == SettledCalls(Step(s, a).1, caller) + Pending(Step(s, a).0, caller)
  {
    if |Step(s, a).1| == 1 {
      assert Step(s, a).1[..0] == [];
    }
  }

  /** What the calls of a caller return is exactly what was settled for them, in order and each once. */
  lemma {:induction false} EveryCallIsAnsweredOnce(s: Store, actions: seq<Action>, caller: nat)
    ensures Undelivered(s, caller) + SettledAnswers(Log(s, actions), caller) ==
            Delivered(s, actions, caller) + Undelivered(Exec(s, actions), caller)
  {
    hide Step, Undelivered;
    if actions != [] {
      var before, a := actions[..|actions| - 1], actions[|actions| - 1];
      EveryCallIsAnsweredOnce(s, before, caller);
      var mid := Exec(s, before);
      StepDelivers(mid, a, caller);
      SettledAppend(Log(s, before), Step(mid, a).1, caller);
      Rebalance(Undelivered(s, caller), SettledAnswers(Log(s, before), caller), Delivered(s, before, caller),
                Undelivered(mid, caller), SettledAnswers(Step(mid, a).1, caller),
                if a == Return(caller) then Undelivered(mid, caller) else [], Undelivered(Step(mid, a).0, caller));
    } else {
      assert Undelivered(s, caller) + [] == [] + Undelivered(s, caller);
    }
  }

  lemma StepDelivers(s: Store, a: Action, caller: nat)
    ensures |Step(s, a).1| <= 1
    ensures var given := if a == Return(caller) then Undelivered(s, caller) else [];
            Undelivered(s, caller) + SettledAnswers(Step(s, a).1, caller) ==
            given + Undelivered(Step(s, a).0, caller)
  {
    if |Step(s, a).1| == 1 {
      assert Step(s, a).1[..0] == [];
    }
  }

  // ---- No call waits for ever ----

  predicate IsProgress(a: Action) {
    a.Run? || a.Wake? || a.Commit? || a.Return?
  }

  /** UPDATEs that run or wake, commits and returns: nothing is aborted, nothing new is called. */
  predicate AllProgress(actions: seq<Action>) {
    forall i :: 0 <= i < |actions| ==> IsProgress(actions[i])
  }

  lemma {:induction false} ExecAppend(s: Store, first: seq<Action>, second: seq<Action>)
    ensures Exec(s, first + second) == Exec(Exec(s, first), second)
  {
    if second == [] {
      assert first + second == first;
    } else {
      assert (first + second)[..|first + second| - 1] == first + second[..|second| - 1];
      ExecAppend(s, first, second[..|second| - 1]);
    }
  }

  lemma ExecOne(s: Store, a: Action)
    ensures Exec(s, [a]) == Step(s, a).0
  {
    assert [a][..0] == [];
    assert Exec(s, []) == s;
  }

  lemma ExecThree(s: Store, a: Action, b: Action, c: Action)
    ensures Exec(s, [a, b, c]) == Step(Step(Step(s, a).0, b).0, c).0
  {
    ExecOne(s, a);
    assert [a, b][..1] == [a] && [a, b, c][..2] == [a, b];
  }

  /** A call that waits for its row can go on at once, or another call holds the row and its commit is enabled. */
  lemma WaitingIsFor(s: Store, c: nat)
    requires Inv(s) && c in s.calls && s.calls[c].stage == Waiting
    ensures if Locked(s, s.calls[c].statement.flat)
            then exists d :: d != c && IsHolding(s, d) && s.calls[d].statement.flat == s.calls[c].statement.flat
            else Step(s, Wake(c)).0.calls != s.calls
  {
    if !Locked(s, s.calls[c].statement.flat) && Matches(s.flats, s.calls[c].statement) {
      assert Step(s, Wake(c)).0.calls[c].stage == Holding;
    }
  }

  /** While calls are open, three steps answer one of them and leave the others as they are. */
  lemma OneIsAnswered(s: Store, c: nat)
    requires c in s.calls
    ensures exists actions, d :: AllProgress(actions) && d in s.calls && Exec(s, actions).calls == s.calls - {d}
  {
    hide Step;
    if Locked(s, s.calls[c].statement.flat) {
      var d :| d in s.calls && IsHolding(s, d) && s.calls[d].statement.flat == s.calls[c].statement.flat;
      FreeCallReturns(s, d, Commit(d));
      ExecThree(s, Commit(d), Commit(d), Return(d));
      assert AllProgress([Commit(d), Commit(d), Return(d)]);
    } else {
      var go := if s.calls[c].stage == Ready then Run(c) else Wake(c);
      FreeCallReturns(s, c, go);
      ExecThree(s, go, Commit(c), Return(c));
      assert AllProgress([go, Commit(c), Return(c)]);
    }
  }

  lemma FreeCallReturns(s: Store, c: nat, go: Action)
    requires c in s.calls
    requires if IsHolding(s, c) then go == Commit(c)
             else !Locked(s, s.calls[c].statement.flat) && go == (if s.calls[c].stage == Ready then Run(c) else Wake(c))
    ensures Step(Step(Step(s, go).0, Commit(c)).0, Return(c)).0.calls == s.calls - {c}
  {
    var s' := Step(s, go).0;
    assert IsHolding(s', c) || s'.calls[c].stage.Done?;
  }

  /** No deadlock: from every state, with no call aborted, some order of the remaining steps answers every open call. */
  lemma {:induction false} EveryCallCanReturn(s: Store)
    ensures exists actions :: AllProgress(actions) && Exec(s, actions).calls == map[]
    decreases |s.calls|
  {
    hide Step;
    if s.calls == map[] {
      assert AllProgress([]) && Exec(s, []) == s;
    } else {
      var c :| c in s.calls;
      OneIsAnswered(s, c);
      var first, d :| AllProgress(first) && d in s.calls && Exec(s, first).calls == s.calls - {d};
      assert |s.calls - {d}| < |s.calls| by { assert (s.calls - {d}).Keys == s.calls.Keys - {d}; }
      EveryCallCanReturn(Exec(s, first));
      var rest :| AllProgress(rest) && Exec(Exec(s, first), rest).calls == map[];
      ExecAppend(s, first, rest);
      assert AllProgress(first + rest);
    }
  }
}
