/** The event-store backend that finds the event immediately after or before
    a given event. Events are ordered by the pair (timestamp, event_id); the
    backend adds its own time conditions to the caller's, fixes the window,
    order and limit, runs one raw query, and reduces the answer to
    `(project_id, event_id)` strings or to nothing. */
module SnubaEventStorage {
  import opened Wrappers
  import opened LexOrder
  import opened Decimal
  import opened Conditions
  import opened RowStore

  /** The reference event. Its `timestamp` and `datetime` are the same
      instant, in seconds since the epoch. */
  datatype Event = Event(projectId: nat, eventId: string, timestamp: int)

  /** `DEFAULT_START`: the epoch. */
  const DefaultStart: int := 0

  const Referrer: string := "eventstore.get_next_or_prev_event_id"

  const SelectedColumns: seq<Column> := [EventId, ProjectId]

  /** `['timestamp', 'event_id']` */
  const NextOrder: seq<OrderKey> := [OrderKey(Timestamp, Ascending), OrderKey(EventId, Ascending)]

  /** `['-timestamp', '-event_id']` */
  const PrevOrder: seq<OrderKey> := [OrderKey(Timestamp, Descending), OrderKey(EventId, Descending)]

  // ---------------------------------------------------------------------
  // The order on events

  /** `row` comes strictly after `e` in (timestamp, event_id) order. */
  predicate After(row: Row, e: Event) {
    || row.timestamp > e.timestamp
    || (row.timestamp == e.timestamp && StrLess(e.eventId, row.eventId))
  }

  /** `row` comes strictly before `e` in (timestamp, event_id) order. */
  predicate Before(row: Row, e: Event) {
    || row.timestamp < e.timestamp
    || (row.timestamp == e.timestamp && StrLess(row.eventId, e.eventId))
  }

  /** `a` comes no later than `b` in (timestamp, event_id) order. */
  predicate KeyLeq(a: Row, b: Row) {
    || a.timestamp < b.timestamp
    || (a.timestamp == b.timestamp && (a.eventId == b.eventId || StrLess(a.eventId, b.eventId)))
  }

  // ---------------------------------------------------------------------
  // Building the queries

  /** `conditions or []` */
  function CallerConditions(conditions: Option<seq<Condition>>): seq<Condition> {
    conditions.GetOr([])
  }

  /** The two conditions `get_next_event_id` appends. */
  function NextTimeConditions(e: Event): seq<Condition> {
    [ Simple(Term(Timestamp, Ge, IntVal(e.timestamp))),
      AnyOf([Term(Timestamp, Gt, IntVal(e.timestamp)), Term(EventId, Gt, StrVal(e.eventId))]) ]
  }

  /** The two conditions `get_prev_event_id` appends. */
  function PrevTimeConditions(e: Event): seq<Condition> {
    [ Simple(Term(Timestamp, Le, IntVal(e.timestamp))),
      AnyOf([Term(Timestamp, Lt, IntVal(e.timestamp)), Term(EventId, Lt, StrVal(e.eventId))]) ]
  }

  lemma StrCompareSign(x: string, y: string)
    ensures Compare(StrVal(x), StrVal(y)) > 0 <==> StrLess(y, x)
    ensures Compare(StrVal(x), StrVal(y)) < 0 <==> StrLess(x, y)
  {
    StrLessTotal(x, y);
    StrLessIrreflexive(x);
    if StrLess(x, y) {
      StrLessAsymmetric(x, y);
    }
  }

  /** Under the AND-of-ORs reading, the appended pair means "lexicographically
      after the reference event". */
  lemma NextTimeConditionsMeanAfter(row: Row, e: Event)
    ensures SatisfiesAll(row, NextTimeConditions(e)) <==> After(row, e)
  {
    var tc := NextTimeConditions(e);
    var alts := tc[1].alternatives;
    StrCompareSign(row.eventId, e.eventId);
    assert Satisfies(row, tc[0]) <==> row.timestamp >= e.timestamp;
    assert Holds(row, alts[0]) <==> row.timestamp > e.timestamp;
    assert Holds(row, alts[1]) <==> StrLess(e.eventId, row.eventId);
    assert Satisfies(row, tc[1]) <==> Holds(row, alts[0]) || Holds(row, alts[1]);
  }

  /** The mirror image: "lexicographically before the reference event". */
  lemma PrevTimeConditionsMeanBefore(row: Row, e: Event)
    ensures SatisfiesAll(row, PrevTimeConditions(e)) <==> Before(row, e)
  {
    var tc := PrevTimeConditions(e);
    var alts := tc[1].alternatives;
    StrCompareSign(row.eventId, e.eventId);
    assert Satisfies(row, tc[0]) <==> row.timestamp <= e.timestamp;
    assert Holds(row, alts[0]) <==> row.timestamp < e.timestamp;
    assert Holds(row, alts[1]) <==> StrLess(row.eventId, e.eventId);
    assert Satisfies(row, tc[1]) <==> Holds(row, alts[0]) || Holds(row, alts[1]);
  }

  lemma NextConditionsMeaning(caller: seq<Condition>, e: Event)
    ensures forall row :: SatisfiesAll(row, caller + NextTimeConditions(e)) <==> SatisfiesAll(row, caller) && After(row, e)
  {
    forall row: Row
      ensures SatisfiesAll(row, caller + NextTimeConditions(e)) <==> SatisfiesAll(row, caller) && After(row, e)
    {
      SatisfiesAllAppend(row, caller, NextTimeConditions(e));
      NextTimeConditionsMeanAfter(row, e);
    }
  }

  lemma PrevConditionsMeaning(caller: seq<Condition>, e: Event)
    ensures forall row :: SatisfiesAll(row, caller + PrevTimeConditions(e)) <==> SatisfiesAll(row, caller) && Before(row, e)
  {
    forall row: Row
      ensures SatisfiesAll(row, caller + PrevTimeConditions(e)) <==> SatisfiesAll(row, caller) && Before(row, e)
    {
      SatisfiesAllAppend(row, caller, PrevTimeConditions(e));
      PrevTimeConditionsMeanBefore(row, e);
    }
  }

  /** The query `get_next_event_id` issues, or nothing for an absent event.
      The caller's conditions are kept in order and followed by exactly the
      two time conditions (the source extends the caller's own list in
      place; the model builds a new sequence). */
  function BuildNextQuery(event: Option<Event>, conditions: Option<seq<Condition>>,
                          filterKeys: Option<FilterKeys>, defaultEnd: int): (r: Option<Query>)
    ensures event.None? <==> r.None?
    ensures r.Some? ==>
      var q, caller := r.value, CallerConditions(conditions);
      && q.start == event.value.timestamp && q.end == defaultEnd
      && q.orderBy == NextOrder && q.limit == 1
      && q.selectedColumns == SelectedColumns && q.filterKeys == filterKeys && q.referrer == Referrer
      && |q.conditions| == |caller| + 2 && q.conditions[..|caller|] == caller
      && q.conditions[|caller|..] == NextTimeConditions(event.value)
      && forall row :: SatisfiesAll(row, q.conditions) <==> SatisfiesAll(row, caller) && After(row, event.value)
  {
    match event
    case None => None
    case Some(e) =>
      var caller := CallerConditions(conditions);
      var all := caller + NextTimeConditions(e);
      assert all[..|caller|] == caller;
      assert all[|caller|..] == NextTimeConditions(e);
      NextConditionsMeaning(caller, e);
      Some(Query(SelectedColumns, e.timestamp, defaultEnd, all, filterKeys, NextOrder, 1, Referrer))
  }

  /** The query `get_prev_event_id` issues, or nothing for an absent event. */
  function BuildPrevQuery(event: Option<Event>, conditions: Option<seq<Condition>>,
                          filterKeys: Option<FilterKeys>): (r: Option<Query>)
    ensures event.None? <==> r.None?
    ensures r.Some? ==>
      var q, caller := r.value, CallerConditions(conditions);
      && q.start == DefaultStart && q.end == event.value.timestamp
      && q.orderBy == PrevOrder && q.limit == 1
      && q.selectedColumns == SelectedColumns && q.filterKeys == filterKeys && q.referrer == Referrer
      && |q.conditions| == |caller| + 2 && q.conditions[..|caller|] == caller
      && q.conditions[|caller|..] == PrevTimeConditions(event.value)
      && forall row :: SatisfiesAll(row, q.conditions) <==> SatisfiesAll(row, caller) && Before(row, event.value)
  {
    match event
    case None => None
    case Some(e) =>
      var caller := CallerConditions(conditions);
      var all := caller + PrevTimeConditions(e);
      assert all[..|caller|] == caller;
      assert all[|caller|..] == PrevTimeConditions(e);
      PrevConditionsMeaning(caller, e);
      Some(Query(SelectedColumns, DefaultStart, e.timestamp, all, filterKeys, PrevOrder, 1, Referrer))
  }

  // ---------------------------------------------------------------------
  // Running the query

  /** An error and an empty answer both become `None`; otherwise the first
      row, as `(str(project_id), str(event_id))`. The project string parses
      back to the row's project id. */
  function NormalizeResult(res: RawResult): (r: Option<(string, string)>)
    ensures r.Some? <==> res.RawData? && |res.data| > 0
    ensures r.Some? ==>
      && (forall i :: 0 <= i < |r.value.0| ==> IsDigit(r.value.0[i]))
      && ParseDigits(r.value.0) == res.data[0].projectId
      && |r.value.0| > 0 && (r.value.0[0] == '0' ==> |r.value.0| == 1)
      && r.value.0 == NatToString(res.data[0].projectId)
      && r.value.1 == res.data[0].eventId
  {
    if res.RawError? || |res.data| == 0 then None
    else
      var row := res.data[0];
      ParseNatToString(row.projectId);
      Some((NatToString(row.projectId), row.eventId))
  }

  /** `get_next_event_id` */
  function GetNextEventId(store: Store, event: Option<Event>, conditions: Option<seq<Condition>>,
                          filterKeys: Option<FilterKeys>, defaultEnd: int): (r: Option<(string, string)>)
    ensures event.None? ==> r.None?
    ensures store.Failing? ==> r.None?
  {
    match BuildNextQuery(event, conditions, filterKeys, defaultEnd)
    case None => None
    case Some(q) => NormalizeResult(RawQuery(store, q))
  }

  /** `get_prev_event_id` */
  function GetPrevEventId(store: Store, event: Option<Event>, conditions: Option<seq<Condition>>,
                          filterKeys: Option<FilterKeys>): (r: Option<(string, string)>)
    ensures event.None? ==> r.None?
    ensures store.Failing? ==> r.None?
  {
    match BuildPrevQuery(event, conditions, filterKeys)
    case None => None
    case Some(q) => NormalizeResult(RawQuery(store, q))
  }

  /** An absent event never reaches the store: the answer is `None` whatever
      the store holds. */
  lemma AbsentEventIssuesNoQuery(store: Store, conditions: Option<seq<Condition>>,
                                 filterKeys: Option<FilterKeys>, defaultEnd: int)
    ensures BuildNextQuery(None, conditions, filterKeys, defaultEnd).None?
    ensures BuildPrevQuery(None, conditions, filterKeys).None?
    ensures GetNextEventId(store, None, conditions, filterKeys, defaultEnd).None?
    ensures GetPrevEventId(store, None, conditions, filterKeys).None?
  {
  }

  // ---------------------------------------------------------------------
  // The answer against the in-memory store

  /** A row the next-query may return: after `e`, inside the window, and
      passing the caller's conditions and filter keys. */
  predicate NextCandidate(row: Row, e: Event, conditions: Option<seq<Condition>>,
                          filterKeys: Option<FilterKeys>, defaultEnd: int) {
    && After(row, e)
    && row.timestamp <= defaultEnd
    && SatisfiesAll(row, CallerConditions(conditions))
    && PassesOptionalFilterKeys(row, filterKeys)
  }

  predicate PrevCandidate(row: Row, e: Event, conditions: Option<seq<Condition>>,
                          filterKeys: Option<FilterKeys>) {
    && Before(row, e)
    && DefaultStart <= row.timestamp
    && SatisfiesAll(row, CallerConditions(conditions))
    && PassesOptionalFilterKeys(row, filterKeys)
  }

  function Ref(row: Row): (string, string) {
    (NatToString(row.projectId), row.eventId)
  }

  lemma NextOrderIsKeyOrder(a: Row, b: Row)
    ensures RowCompare(NextOrder, a, b) <= 0 <==> KeyLeq(a, b)
  {
    StrCompareSign(a.eventId, b.eventId);
    assert RowCompare(NextOrder[2..], a, b) == 0;
  }

  lemma PrevOrderIsReversedKeyOrder(a: Row, b: Row)
    ensures RowCompare(PrevOrder, a, b) <= 0 <==> KeyLeq(b, a)
  {
    StrCompareSign(b.eventId, a.eventId);
    CompareAntisymmetric(StrVal(a.eventId), StrVal(b.eventId));
    assert RowCompare(PrevOrder[2..], a, b) == 0;
  }

  /** The next event is the least candidate strictly after `e`, ties on the
      timestamp broken by event id; `None` exactly when there is none. */
  lemma NextEventIsSuccessor(rows: seq<Row>, e: Event, conditions: Option<seq<Condition>>,
                             filterKeys: Option<FilterKeys>, defaultEnd: int)
    ensures var r := GetNextEventId(Available(rows), Some(e), conditions, filterKeys, defaultEnd);
      && (r.None? <==> forall x :: x in rows ==> !NextCandidate(x, e, conditions, filterKeys, defaultEnd))
      && (r.Some? ==> exists x :: x in rows && NextCandidate(x, e, conditions, filterKeys, defaultEnd) && r.value == Ref(x)
                                && forall y :: y in rows && NextCandidate(y, e, conditions, filterKeys, defaultEnd) ==> KeyLeq(x, y))
  {
    var q := BuildNextQuery(Some(e), conditions, filterKeys, defaultEnd).value;
    assert forall x :: Matches(x, q) <==> NextCandidate(x, e, conditions, filterKeys, defaultEnd);
    var res := RawQuery(Available(rows), q);
    var r := GetNextEventId(Available(rows), Some(e), conditions, filterKeys, defaultEnd);
    assert r == NormalizeResult(res);
    if |res.data| > 0 {
      var x := res.data[0];
      assert x in rows && NextCandidate(x, e, conditions, filterKeys, defaultEnd);
      assert r.value == Ref(x);
      forall y | y in rows && NextCandidate(y, e, conditions, filterKeys, defaultEnd)
        ensures KeyLeq(x, y)
      {
        NextOrderIsKeyOrder(x, y);
      }
    }
  }

  /** The previous event is the greatest candidate strictly before `e`;
      `None` exactly when there is none. */
  lemma PrevEventIsPredecessor(rows: seq<Row>, e: Event, conditions: Option<seq<Condition>>,
                               filterKeys: Option<FilterKeys>)
    ensures var r := GetPrevEventId(Available(rows), Some(e), conditions, filterKeys);
      && (r.None? <==> forall x :: x in rows ==> !PrevCandidate(x, e, conditions, filterKeys))
      && (r.Some? ==> exists x :: x in rows && PrevCandidate(x, e, conditions, filterKeys) && r.value == Ref(x)
                                && forall y :: y in rows && PrevCandidate(y, e, conditions, filterKeys) ==> KeyLeq(y, x))
  {
    var q := BuildPrevQuery(Some(e), conditions, filterKeys).value;
    assert forall x :: Matches(x, q) <==> PrevCandidate(x, e, conditions, filterKeys);
    var res := RawQuery(Available(rows), q);
    var r := GetPrevEventId(Available(rows), Some(e), conditions, filterKeys);
    assert r == NormalizeResult(res);
    if |res.data| > 0 {
      var x := res.data[0];
      assert x in rows && PrevCandidate(x, e, conditions, filterKeys);
      assert r.value == Ref(x);
      forall y | y in rows && PrevCandidate(y, e, conditions, filterKeys)
        ensures KeyLeq(y, x)
      {
        PrevOrderIsReversedKeyOrder(x, y);
      }
    }
  }

  // ---------------------------------------------------------------------
  // The repository's own scenario

  /** Three rows: `a` in project 1 two minutes before `now`, `b` and `c` in
      project 2 one minute before `now`; the event ids are ordered a < b < c. */
  function ScenarioRows(now: int, ida: string, idb: string, idc: string): seq<Row> {
    [Row(1, ida, now - 120, map[]), Row(2, idb, now - 60, map[]), Row(2, idc, now - 60, map[])]
  }

  function ScenarioFilterKeys(): Option<FilterKeys> { Some(map[ProjectId := [IntVal(1), IntVal(2)]]) }

  predicate IdsAscending(ida: string, idb: string, idc: string) {
    StrLess(ida, idb) && StrLess(idb, idc)
  }

  /** Of the three rows only `a` is a candidate for the previous event. */
  lemma PrevScenarioCandidates(now: int, ida: string, idb: string, idc: string)
    requires 120 <= now && IdsAscending(ida, idb, idc)
    ensures var rows := ScenarioRows(now, ida, idb, idc);
      forall x :: x in rows && PrevCandidate(x, Event(2, idb, now - 60), None, ScenarioFilterKeys()) <==> x == rows[0]
  {
    var rows, e, fk := ScenarioRows(now, ida, idb, idc), Event(2, idb, now - 60), ScenarioFilterKeys();
    StrLessIrreflexive(idb);
    StrLessAsymmetric(idb, idc);
    assert PassesOptionalFilterKeys(rows[0], fk);
    assert PrevCandidate(rows[0], e, None, fk);
    assert !PrevCandidate(rows[1], e, None, fk);
    assert !PrevCandidate(rows[2], e, None, fk);
  }

  /** Relative to `b` the previous event is `a`. */
  lemma PrevScenario(now: int, ida: string, idb: string, idc: string)
    requires 120 <= now && IdsAscending(ida, idb, idc)
    ensures GetPrevEventId(Available(ScenarioRows(now, ida, idb, idc)), Some(Event(2, idb, now - 60)),
                           None, ScenarioFilterKeys())
            == Some(("1", ida))
  {
    var rows, e, fk := ScenarioRows(now, ida, idb, idc), Event(2, idb, now - 60), ScenarioFilterKeys();
    PrevScenarioCandidates(now, ida, idb, idc);
    PrevEventIsPredecessor(rows, e, None, fk);
    var r := GetPrevEventId(Available(rows), Some(e), None, fk);
    assert r.Some? by { assert rows[0] in rows; }
    var x :| x in rows && PrevCandidate(x, e, None, fk) && r.value == Ref(x);
    assert x == rows[0];
    assert NatToString(1) == "1";
  }

  /** Of the three rows only `c` is a candidate for the next event. */
  lemma NextScenarioCandidates(now: int, defaultEnd: int, ida: string, idb: string, idc: string)
    requires now - 60 <= defaultEnd && IdsAscending(ida, idb, idc)
    ensures var rows := ScenarioRows(now, ida, idb, idc);
      forall x :: x in rows && NextCandidate(x, Event(2, idb, now - 60), None, ScenarioFilterKeys(), defaultEnd)
                  <==> x == rows[2]
  {
    var rows, e, fk := ScenarioRows(now, ida, idb, idc), Event(2, idb, now - 60), ScenarioFilterKeys();
    StrLessIrreflexive(idb);
    assert PassesOptionalFilterKeys(rows[2], fk);
    assert NextCandidate(rows[2], e, None, fk, defaultEnd);
    assert !NextCandidate(rows[0], e, None, fk, defaultEnd);
    assert !NextCandidate(rows[1], e, None, fk, defaultEnd);
  }

  /** Relative to `b` the next event is `c`: `b` and `c` share a timestamp,
      and `c`'s event id is the greater. */
  lemma NextScenario(now: int, defaultEnd: int, ida: string, idb: string, idc: string)
    requires now - 60 <= defaultEnd && IdsAscending(ida, idb, idc)
    ensures GetNextEventId(Available(ScenarioRows(now, ida, idb, idc)), Some(Event(2, idb, now - 60)),
                           None, ScenarioFilterKeys(), defaultEnd)
            == Some(("2", idc))
  {
    var rows, e, fk := ScenarioRows(now, ida, idb, idc), Event(2, idb, now - 60), ScenarioFilterKeys();
    NextScenarioCandidates(now, defaultEnd, ida, idb, idc);
    NextEventIsSuccessor(rows, e, None, fk, defaultEnd);
    var r := GetNextEventId(Available(rows), Some(e), None, fk, defaultEnd);
    assert r.Some? by { assert rows[2] in rows; }
    var x :| x in rows && NextCandidate(x, e, None, fk, defaultEnd) && r.value == Ref(x);
    assert x == rows[2];
    assert NatToString(2) == "2";
  }

  /** The event ids of the repository's scenario, 32 repeated letters each,
      are in ascending order. */
  lemma ScenarioIdsAscending()
    ensures IdsAscending(Repeat('a', 32), Repeat('b', 32), Repeat('c', 32))
  {
    RepeatLess('a', 'b', 32);
    RepeatLess('b', 'c', 32);
  }
}
