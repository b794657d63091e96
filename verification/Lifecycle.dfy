/** What a serial log of takes, decisions and insertions does to the flats: the moderation lifecycle. */
module Lifecycle {
  import opened Strings
  import opened Transactions

  predicate IsFinal(status: Bytes) {
    status == APPROVED || status == DECLINED
  }

  predicate IsStatus(status: Bytes) {
    status == CREATED || status == ON_MODERATION || IsFinal(status)
  }

  /** Calls as the command constructors admit them, and rows as INSERT leaves them. */
  predicate Admissible(o: Outcome) {
    match o
    case Settled(_, st, _, _) => st.Decide? ==> IsFinal(st.status)
    case Inserted(_, row) => row.status == CREATED
  }

  ghost predicate AllAdmissible(log: seq<Outcome>) {
    forall i :: 0 <= i < |log| ==> Admissible(log[i])
  }

  /** A legal log of admissible outcomes. */
  ghost predicate Legal(flats: Flats, log: seq<Outcome>) {
    SeriallyLegal(flats, log) && AllAdmissible(log)
  }

  predicate KnownStatuses(flats: Flats) {
    forall id :: id in flats ==> IsStatus(flats[id].status)
  }

  lemma LegalPrefix(flats: Flats, log: seq<Outcome>)
    requires Legal(flats, log) && log != []
    ensures var before := log[..|log| - 1];
            Legal(flats, before) && Explains(Serial(flats, before), log[|log| - 1]) && Admissible(log[|log| - 1])
  {
    var before := log[..|log| - 1];
    forall i | 0 <= i < |before|
      ensures Explains(Serial(flats, before[..i]), before[i])
    {
      assert before[..i] == log[..i];
    }
  }

  /** One outcome changes at most one status, and only along created -> on_moderation -> approved | declined. */
  predicate Follows(status: Bytes, next: Bytes) {
    next == status || (status == CREATED && next == ON_MODERATION) || (status == ON_MODERATION && IsFinal(next))
  }

  lemma AtomicStep(flats: Flats, o: Outcome)
    requires Explains(flats, o) && Admissible(o)
    ensures forall id :: id in flats ==>
              id in Atomic(flats, o) && Follows(flats[id].status, Atomic(flats, o)[id].status)
    ensures forall id :: id in flats ==> Atomic(flats, o)[id].(status := flats[id].status) == flats[id]
    ensures forall id :: id in Atomic(flats, o) && id !in flats ==> Atomic(flats, o)[id].status == CREATED
    ensures KnownStatuses(flats) ==> KnownStatuses(Atomic(flats, o))
  {
  }

  /** Reachable along the lifecycle in any number of steps. */
  predicate Reaches(status: Bytes, next: Bytes) {
    next == status || (status == CREATED && (next == ON_MODERATION || IsFinal(next))) || Follows(status, next)
  }

  lemma {:induction false} StatusesKnown(flats: Flats, log: seq<Outcome>)
    requires Legal(flats, log) && KnownStatuses(flats)
    ensures KnownStatuses(Serial(flats, log))
  {
    if log != [] {
      LegalPrefix(flats, log);
      StatusesKnown(flats, log[..|log| - 1]);
      AtomicStep(Serial(flats, log[..|log| - 1]), log[|log| - 1]);
    }
  }

  // ---- Histories ----

  predicate IsLifecycle(h: seq<Bytes>) {
    h <= [CREATED, ON_MODERATION, APPROVED] || h <= [CREATED, ON_MODERATION, DECLINED]
  }

  lemma ExtendLifecycle(h: seq<Bytes>, next: Bytes)
    requires IsLifecycle(h)
    requires if h == [] then next == CREATED else next != h[|h| - 1] && Follows(h[|h| - 1], next)
    ensures IsLifecycle(h + [next])
  {
    ShortLifecycles(h);
  }

  lemma ShortLifecycles(h: seq<Bytes>)
    requires IsLifecycle(h)
    ensures h == [] || h == [CREATED] || h == [CREATED, ON_MODERATION] || h == [CREATED, ON_MODERATION, APPROVED]
         || h == [CREATED, ON_MODERATION, DECLINED]
  {
    var path := if h <= [CREATED, ON_MODERATION, APPROVED] then [CREATED, ON_MODERATION, APPROVED]
                else [CREATED, ON_MODERATION, DECLINED];
    assert h == path[..|h|];
  }

  // ---- Counting ----

  predicate Succeeded(o: Outcome) {
    o.Settled? && o.ok
  }

  function TakesOf(log: seq<Outcome>, id: nat): nat {
    if log == [] then 0
    else
      var o := log[|log| - 1];
      TakesOf(log[..|log| - 1], id) + if Succeeded(o) && o.statement.Take? && o.statement.flat == id then 1 else 0
  }

  function DecisionsOf(log: seq<Outcome>, id: nat): nat {
    if log == [] then 0
    else
      var o := log[|log| - 1];
      DecisionsOf(log[..|log| - 1], id) + if Succeeded(o) && o.statement.Decide? && o.statement.flat == id then 1 else 0
  }

  /** The status of a flat tells exactly which calls on it have returned true: none while created, one take from then
      on, and one decision once it is final. So of any number of competing calls at most one take and at most one
      decision ever succeed. */
  lemma {:induction false} SuccessesMatchStatus(log: seq<Outcome>, id: nat)
    requires Legal(map[], log)
    ensures var flats := Serial(map[], log);
            && TakesOf(log, id) == (if id in flats && flats[id].status != CREATED then 1 else 0)
            && DecisionsOf(log, id) == (if id in flats && IsFinal(flats[id].status) then 1 else 0)
  {
    if log != [] {
      LegalPrefix(map[], log);
      SuccessesMatchStatus(log[..|log| - 1], id);
      EmptyIsKnown();
      StatusesKnown(map[], log[..|log| - 1]);
    }
  }

  lemma EmptyIsKnown()
    ensures KnownStatuses(map[])
  {
  }

  function WithStatus(flats: Flats, status: Bytes): set<nat> {
    set id | id in flats && flats[id].status == status
  }

  function Takes(log: seq<Outcome>): nat {
    if log == [] then 0
    else Takes(log[..|log| - 1]) + if Succeeded(log[|log| - 1]) && log[|log| - 1].statement.Take? then 1 else 0
  }

  function Decisions(log: seq<Outcome>, status: Bytes): nat {
    if log == [] then 0
    else
      var o := log[|log| - 1];
      Decisions(log[..|log| - 1], status)
      + if Succeeded(o) && o.statement.Decide? && o.statement.status == status then 1 else 0
  }

  function Insertions(log: seq<Outcome>): nat {
    if log == [] then 0 else Insertions(log[..|log| - 1]) + if log[|log| - 1].Inserted? then 1 else 0
  }

  /** Moving one flat between two statuses. */
  lemma MoveCount(flats: Flats, id: nat, next: Bytes, status: Bytes)
    requires id in flats && flats[id].status != next
    ensures |WithStatus(SetStatus(flats, id, next), status)| ==
            |WithStatus(flats, status)| + (if status == next then 1 else 0)
            - (if status == flats[id].status then 1 else 0)
  {
    var before, after := WithStatus(flats, status), WithStatus(SetStatus(flats, id, next), status);
    if status == next {
      assert after == before + {id};
    } else if status == flats[id].status {
      assert after == before - {id};
    } else {
      assert after == before;
    }
  }

  lemma InsertCount(flats: Flats, id: nat, row: FlatRow, status: Bytes)
    requires id !in flats
    ensures |WithStatus(flats[id := row], status)| ==
            |WithStatus(flats, status)| + (if status == row.status then 1 else 0)
  {
    var before, after := WithStatus(flats, status), WithStatus(flats[id := row], status);
    assert after == if status == row.status then before + {id} else before;
  }

  /** How one outcome moves the counts. */
  lemma OutcomeCount(flats: Flats, o: Outcome, status: Bytes)
    requires Explains(flats, o) && Admissible(o)
    ensures |WithStatus(Atomic(flats, o), status)| ==
            |WithStatus(flats, status)|
            + (if o.Inserted? && status == CREATED then 1 else 0)
            + (if Succeeded(o) && status == o.statement.Target() then 1 else 0)
            - (if Succeeded(o) && status == o.statement.Guard() then 1 else 0)
    ensures |Atomic(flats, o)| == |flats| + if o.Inserted? then 1 else 0
  {
    match o
    case Inserted(id, row) => InsertCount(flats, id, row, status);
    case Settled(_, st, ok, _) =>
      if ok {
        MoveCount(flats, st.flat, st.Target(), status);
        assert Atomic(flats, o).Keys == flats.Keys;
      }
  }

  /** The counts balance: flats created are the insertions minus the takes, flats on moderation are the takes minus the
      decisions, final flats are the decisions, and the four add up to the insertions. */
  lemma {:induction false} Conservation(log: seq<Outcome>)
    requires Legal(map[], log)
    ensures var flats := Serial(map[], log);
            && |WithStatus(flats, CREATED)| == Insertions(log) - Takes(log)
            && |WithStatus(flats, ON_MODERATION)| == Takes(log) - Decisions(log, APPROVED) - Decisions(log, DECLINED)
            && |WithStatus(flats, APPROVED)| == Decisions(log, APPROVED)
            && |WithStatus(flats, DECLINED)| == Decisions(log, DECLINED)
            && |flats| == Insertions(log)
  {
    if log != [] {
      var before, o := Serial(map[], log[..|log| - 1]), log[|log| - 1];
      LegalPrefix(map[], log);
      Conservation(log[..|log| - 1]);
      OutcomeCount(before, o, CREATED);
      OutcomeCount(before, o, ON_MODERATION);
      OutcomeCount(before, o, APPROVED);
      OutcomeCount(before, o, DECLINED);
    } else {
      assert WithStatus(map[], CREATED) == WithStatus(map[], ON_MODERATION) == {};
      assert WithStatus(map[], APPROVED) == WithStatus(map[], DECLINED) == {};
    }
  }
}
