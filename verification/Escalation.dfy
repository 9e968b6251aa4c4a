/** Re-notification of unacknowledged critical deliveries, one atomic pass at a time. */
module Escalation {
  import opened Common
  import D = Delivery

  /** The unique pair of a stored delivery. */
  datatype Key = Key(dispatch: nat, responder: int)

  datatype Stored = Stored(sent: bool, sentAt: Option<int>, critical: bool, count: nat, acked: bool)

  type Table = map<Key, Stored>

  /** The delivery table and the next dispatch id. */
  datatype Db = Db(table: Table, next: nat) {
    ghost predicate Valid() { forall k :: k in table ==> k.dispatch < next }
  }

  const EMPTY := Db(map[], 0)

  // ---------------------------------------------------------------- queries and updates

  predicate Overdue(d: Stored, cutoff: int, max: int) {
    d.sent && !d.acked && d.critical && d.sentAt.Some? && d.sentAt.value < cutoff && d.count < max
  }

  function OverdueKeys(t: Table, cutoff: int, max: int): set<Key> {
    set k | k in t && Overdue(t[k], cutoff, max)
  }

  function Responders(ks: set<Key>): set<int> { set k | k in ks :: k.responder }

  /** Insert-or-update on (dispatch, responder): an existing row keeps its escalation count and acknowledgement. */
  function Upserted(t: Table, dispatch: nat, critical: bool, rows: map<int, D.Row>): Table {
    t + map r | r in rows ::
      Key(dispatch, r) :=
        var previous := if Key(dispatch, r) in t then t[Key(dispatch, r)] else Stored(false, None, critical, 0, false);
        previous.(sent := rows[r].sent, sentAt := rows[r].sentAt)
  }

  function Incremented(t: Table, ks: set<Key>): Table {
    map k | k in t :: if k in ks then t[k].(count := t[k].count + 1) else t[k]
  }

  // ---------------------------------------------------------------- steps

  datatype Event =
    | Pass(cutoff: int, max: int, rows: map<int, D.Row>)
    | Notify(critical: bool, rows: map<int, D.Row>)
    | Acknowledge(key: Key)

  /** A pass whose send went through: new rows for the overdue responders, then one count up for every overdue row. */
  function Escalated(db: Db, cutoff: int, max: int, rows: map<int, D.Row>): Db {
    Db(Incremented(Upserted(db.table, db.next, true, rows), OverdueKeys(db.table, cutoff, max)), db.next + 1)
  }

  function Step(db: Db, e: Event): Db {
    match e
    case Pass(cutoff, max, rows) =>
      if OverdueKeys(db.table, cutoff, max) == {} then db else Escalated(db, cutoff, max, rows)
    case Notify(critical, rows) => Db(Upserted(db.table, db.next, critical, rows), db.next + 1)
    case Acknowledge(key) =>
      if key in db.table then db.(table := db.table[key := db.table[key].(acked := true)]) else db
  }

  class EscalationJob {
    var db: Db

    constructor ()
      ensures db == EMPTY
    {
      db := EMPTY;
    }

    /**
     `overdue` lists the query's result in the order the database returns it; the pushes are those of the
     collected responders. A missing or zero setting, an empty result or a raising push leaves the table alone.
     */
    method EscalationCheck(now: int, timeout: Option<int>, max: Option<int>, overdue: seq<Key>,
                           subs: seq<D.Subscription>, outcomes: seq<D.PushOutcome>, sendTime: int)
      returns (d: D.Dispatch)
      requires |subs| == |outcomes| && db.Valid()
      requires timeout.Some? && max.Some? ==>
                 Distinct(overdue) && Elements(overdue) == OverdueKeys(db.table, now - timeout.value, max.value)
      modifies this
      ensures db.Valid()
      ensures d.Delivered? ==>
                && timeout.Some? && timeout.value != 0 && max.Some? && max.value != 0
                && d.rows.Keys == Responders(Elements(overdue))
                && db == Step(old(db), Pass(now - timeout.value, max.value, d.rows))
                && OverdueKeys(old(db).table, now - timeout.value, max.value) != {}
      ensures !d.Delivered? ==> db == old(db)
      ensures d.NoDispatch? <==>
                timeout == None || timeout == Some(0) || max == None || max == Some(0) || overdue == []
    {
      hide D.ExactUpTo, Escalated, Step, OverdueKeys, Responders, Elements, Db.Valid;
      if timeout.None? || max.None? || timeout.value == 0 || max.value == 0 {
        return D.NoDispatch;
      }
      if |overdue| == 0 {
        return D.NoDispatch;
      }
      SomeResponder(overdue);
      var ids := DistinctResponders(overdue);
      d := D.SendToSubscribers(ids, subs, outcomes, sendTime);
      SentRowsKeys(d, ids, subs, outcomes, sendTime);
      if d.Delivered? {
        PassFires(db, now - timeout.value, max.value, d.rows);
        db := Escalated(db, now - timeout.value, max.value, d.rows);
      }
    }

    method AcknowledgeAlert(key: Key)
      modifies this
      ensures db == Step(old(db), Acknowledge(key))
    {
      if key in db.table {
        db := db.(table := db.table[key := db.table[key].(acked := true)]);
      }
    }
  }

  lemma SomeResponder(ks: seq<Key>)
    requires |ks| > 0
    ensures Elements(ks) != {} && Responders(Elements(ks)) != {}
  {
    assert ks[0] in Elements(ks);
    assert ks[0].responder in Responders(Elements(ks));
  }

  lemma SentRowsKeys(d: D.Dispatch, ids: seq<int>, subs: seq<D.Subscription>, outcomes: seq<D.PushOutcome>, now: int)
    requires |subs| == |outcomes| && D.Exact(d, ids, subs, outcomes, now) && Elements(ids) != {}
    ensures d.Delivered? ==> d.rows.Keys == Elements(ids)
    ensures !d.NoDispatch?
  {
  }

  lemma PassFires(db: Db, cutoff: int, max: int, rows: map<int, D.Row>)
    requires OverdueKeys(db.table, cutoff, max) != {} && db.Valid()
    ensures Step(db, Pass(cutoff, max, rows)) == Escalated(db, cutoff, max, rows)
    ensures Escalated(db, cutoff, max, rows).Valid()
  {
    StepKeepsRows(db, Pass(cutoff, max, rows));
  }

  /** The grouping loop: each responder once, in order of first appearance. */
  method DistinctResponders(overdue: seq<Key>) returns (ids: seq<int>)
    ensures Distinct(ids) && Elements(ids) == Responders(Elements(overdue))
  {
    var seen: set<int> := {};
    ids := [];
    for i := 0 to |overdue|
      invariant seen == Responders(Elements(overdue[..i])) == Elements(ids)
      invariant Distinct(ids)
    {
      assert overdue[..i + 1] == overdue[..i] + [overdue[i]];
      RespondersOfOneMore(overdue[..i], overdue[i]);
      if overdue[i].responder !in seen {
        seen := seen + {overdue[i].responder};
        ids := ids + [overdue[i].responder];
      }
    }
    assert overdue[..|overdue|] == overdue;
  }

  lemma RespondersOfOneMore(ks: seq<Key>, k: Key)
    ensures Responders(Elements(ks + [k])) == Responders(Elements(ks)) + {k.responder}
  {
    assert Elements(ks + [k]) == Elements(ks) + {k};
  }

  /** Storing results again under the same dispatch never resets a count or an acknowledgement. */
  lemma UpsertKeepsCounts(t: Table, dispatch: nat, critical: bool, rows: map<int, D.Row>, k: Key)
    requires k in t
    ensures var stored := Upserted(t, dispatch, critical, rows);
            && k in stored && stored[k].count == t[k].count && stored[k].acked == t[k].acked
            && stored[k].critical == t[k].critical
            && (k.dispatch == dispatch && k.responder in rows ==>
                 stored[k].sent == rows[k.responder].sent && stored[k].sentAt == rows[k.responder].sentAt)
            && (!(k.dispatch == dispatch && k.responder in rows) ==> stored[k] == t[k])
  {
  }

  // ---------------------------------------------------------------- one step

  lemma StepKeepsRows(db: Db, e: Event)
    requires db.Valid()
    ensures Step(db, e).Valid() && db.next <= Step(db, e).next <= db.next + 1
    ensures db.table.Keys <= Step(db, e).table.Keys
    ensures forall k :: k in Step(db, e).table && k !in db.table ==>
              k.dispatch == db.next && Step(db, e).table[k].count == 0 && !Step(db, e).table[k].acked
  {
  }

  predicate Selects(db: Db, e: Event, k: Key) {
    e.Pass? && k in db.table && Overdue(db.table[k], e.cutoff, e.max)
  }

  /** A pass counts up exactly the overdue rows and touches no other stored row. */
  lemma StepCounts(db: Db, e: Event, k: Key)
    requires db.Valid() && k in db.table
    ensures k in Step(db, e).table
    ensures Step(db, e).table[k].count == db.table[k].count + if Selects(db, e, k) then 1 else 0
    ensures db.table[k].acked ==> Step(db, e).table[k] == db.table[k]
    ensures Selects(db, e, k) ==> db.table[k].count < e.max && !db.table[k].acked
  {
    assert e.Pass? && Selects(db, e, k) ==> k in OverdueKeys(db.table, e.cutoff, e.max);
  }

  /** A pass adds at most one row per responder, and only for responders with an overdue row. */
  lemma OneNewRowPerResponder(db: Db, e: Event, a: Key, b: Key)
    requires db.Valid() && e.Pass? && e.rows.Keys == Responders(OverdueKeys(db.table, e.cutoff, e.max))
    requires a in Step(db, e).table && a !in db.table && b in Step(db, e).table && b !in db.table
    ensures a.responder == b.responder ==> a == b
    ensures exists k: Key :: k.responder == a.responder && Selects(db, e, k)
  {
    assert a.responder in e.rows;
    var k :| k in OverdueKeys(db.table, e.cutoff, e.max) && k.responder == a.responder;
    assert Selects(db, e, k);
  }

  // ---------------------------------------------------------------- runs

  ghost function After(evs: seq<Event>, n: nat, db0: Db): Db
    requires n <= |evs|
  {
    if n == 0 then db0 else Step(After(evs, n - 1, db0), evs[n - 1])
  }

  /** How many of the first `n` events escalated delivery `k`. */
  ghost function EscalationCount(evs: seq<Event>, n: nat, db0: Db, k: Key): nat
    requires n <= |evs|
  {
    if n == 0 then 0
    else EscalationCount(evs, n - 1, db0, k) + if Selects(After(evs, n - 1, db0), evs[n - 1], k) then 1 else 0
  }

  lemma {:induction false} RunValid(evs: seq<Event>, n: nat)
    requires n <= |evs|
    ensures After(evs, n, EMPTY).Valid()
  {
    hide Step;
    if n > 0 {
      RunValid(evs, n - 1);
      StepKeepsRows(After(evs, n - 1, EMPTY), evs[n - 1]);
    }
  }

  lemma {:induction false} CountIsHistory(evs: seq<Event>, n: nat, k: Key)
    requires n <= |evs|
    ensures k in After(evs, n, EMPTY).table ==> After(evs, n, EMPTY).table[k].count == EscalationCount(evs, n, EMPTY, k)
    ensures k !in After(evs, n, EMPTY).table ==> EscalationCount(evs, n, EMPTY, k) == 0
  {
    hide Step, Db.Valid;
    if n > 0 {
      CountIsHistory(evs, n - 1, k);
      RunValid(evs, n - 1);
      var db := After(evs, n - 1, EMPTY);
      StepKeepsRows(db, evs[n - 1]);
      if k in db.table {
        StepCounts(db, evs[n - 1], k);
      }
    }
  }

  /** A delivery's count is the number of passes that escalated it, and no pass takes it past its own maximum. */
  lemma {:induction false} EscalationsBounded(evs: seq<Event>, n: nat, k: Key, max: nat)
    requires n <= |evs|
    requires forall i :: 0 <= i < n && evs[i].Pass? ==> evs[i].max <= max
    ensures EscalationCount(evs, n, EMPTY, k) <= max
    ensures k in After(evs, n, EMPTY).table ==> After(evs, n, EMPTY).table[k].count == EscalationCount(evs, n, EMPTY, k)
    ensures k !in After(evs, n, EMPTY).table ==> EscalationCount(evs, n, EMPTY, k) == 0
  {
    hide Step, Db.Valid;
    CountIsHistory(evs, n, k);
    if n > 0 {
      EscalationsBounded(evs, n - 1, k, max);
      RunValid(evs, n - 1);
      var db := After(evs, n - 1, EMPTY);
      if k in db.table {
        StepCounts(db, evs[n - 1], k);
      }
    }
  }

  /** After its acknowledgement a delivery is never escalated again. */
  lemma {:induction false} NeverAfterAcknowledgement(evs: seq<Event>, i: nat, n: nat, k: Key)
    requires i <= n < |evs|
    requires k in After(evs, i, EMPTY).table && After(evs, i, EMPTY).table[k].acked
    ensures k in After(evs, n, EMPTY).table && After(evs, n, EMPTY).table[k] == After(evs, i, EMPTY).table[k]
    ensures !Selects(After(evs, n, EMPTY), evs[n], k)
    decreases n
  {
    hide Step, Db.Valid;
    if i < n {
      NeverAfterAcknowledgement(evs, i, n - 1, k);
      RunValid(evs, n - 1);
      StepCounts(After(evs, n - 1, EMPTY), evs[n - 1], k);
    }
  }

  // ---------------------------------------------------------------- what is not bounded

  /** The row a pass stores is itself a critical delivery with count zero. */
  lemma PassStoresCritical(db: Db, e: Event, r: int)
    requires db.Valid() && e.Pass? && OverdueKeys(db.table, e.cutoff, e.max) != {} && r in e.rows
    ensures var k := Key(db.next, r);
            && k in Step(db, e).table
            && Step(db, e).table[k] == Stored(e.rows[r].sent, e.rows[r].sentAt, true, 0, false)
  {
  }

  /** Nothing but a pass's count and its own acknowledgement ever changes a stored row. */
  lemma RowStep(db: Db, e: Event, k: Key)
    requires db.Valid() && k in db.table
    ensures k in Step(db, e).table
    ensures Step(db, e).table[k].acked <==> db.table[k].acked || e == Acknowledge(k)
    ensures Step(db, e).table[k] == db.table[k].(count := Step(db, e).table[k].count, acked := Step(db, e).table[k].acked)
  {
    hide Upserted, OverdueKeys;
    match e
    case Pass(_, _, rows) => UpsertKeepsCounts(db.table, db.next, true, rows, k);
    case Notify(critical, rows) => UpsertKeepsCounts(db.table, db.next, critical, rows, k);
    case Acknowledge(_) =>
  }

  ghost predicate AcknowledgedBetween(evs: seq<Event>, i: nat, n: nat, k: Key)
    requires n <= |evs|
  {
    exists m :: i < m < n && evs[m] == Acknowledge(k)
  }

  /** The rows event `i` stores under a new dispatch: those of a notification, or of a pass that found something. */
  ghost predicate Stores(evs: seq<Event>, i: nat, r: int)
    requires i < |evs|
  {
    match evs[i]
    case Pass(cutoff, max, rows) => r in rows && exists k :: Selects(After(evs, i, EMPTY), evs[i], k)
    case Notify(_, rows) => r in rows
    case Acknowledge(_) => false
  }

  function RowOf(e: Event, r: int): D.Row
    requires !e.Acknowledge? && r in e.rows
  {
    e.rows[r]
  }

  /** Escalations are critical; a notification is what it was sent as. */
  predicate IsCritical(e: Event) { e.Pass? || (e.Notify? && e.critical) }

  ghost function StoredKey(evs: seq<Event>, i: nat, r: int): Key
    requires i < |evs|
  {
    Key(After(evs, i, EMPTY).next, r)
  }

  lemma StoreStep(db: Db, e: Event, r: int)
    requires db.Valid() && !e.Acknowledge? && r in e.rows && (e.Pass? ==> OverdueKeys(db.table, e.cutoff, e.max) != {})
    ensures var k := Key(db.next, r);
            && k in Step(db, e).table
            && Step(db, e).table[k] == Stored(e.rows[r].sent, e.rows[r].sentAt, IsCritical(e), 0, false)
  {
    if e.Pass? {
      PassStoresCritical(db, e, r);
    }
  }

  lemma SelectsIsOverdue(db: Db, e: Event, k: Key)
    ensures Selects(db, e, k) <==> e.Pass? && k in OverdueKeys(db.table, e.cutoff, e.max)
  {
  }

  lemma {:induction false} OwnRow(evs: seq<Event>, i: nat, n: nat, r: int)
    requires i < n <= |evs| && Stores(evs, i, r)
    ensures var k, db := StoredKey(evs, i, r), After(evs, n, EMPTY);
            && k in db.table
            && db.table[k] == Stored(RowOf(evs[i], r).sent, RowOf(evs[i], r).sentAt, IsCritical(evs[i]),
                                     db.table[k].count, db.table[k].acked)
            && (db.table[k].acked <==> AcknowledgedBetween(evs, i, n, k))
    decreases n
  {
    hide Step, Db.Valid, OverdueKeys, Selects;
    RunValid(evs, n - 1);
    if i == n - 1 {
      if evs[i].Pass? {
        var k :| Selects(After(evs, i, EMPTY), evs[i], k);
        SelectsIsOverdue(After(evs, i, EMPTY), evs[i], k);
      }
      StoreStep(After(evs, i, EMPTY), evs[i], r);
    } else {
      OwnRow(evs, i, n - 1, r);
      RowStep(After(evs, n - 1, EMPTY), evs[n - 1], StoredKey(evs, i, r));
    }
  }

  /**
   Which deliveries a pass escalates, exactly: those of critical notifications and of passes themselves, sent before its
   cutoff, not acknowledged in between, and with a count below the maximum.
   */
  lemma SelectedIffCriticalAndOverdue(evs: seq<Event>, i: nat, n: nat, r: int)
    requires i < n < |evs| && Stores(evs, i, r)
    ensures var k, row := StoredKey(evs, i, r), RowOf(evs[i], r);
            Selects(After(evs, n, EMPTY), evs[n], k) <==>
              && evs[n].Pass? && (evs[i].Pass? || evs[i].critical)
              && row.sent && row.sentAt.Some? && row.sentAt.value < evs[n].cutoff
              && !AcknowledgedBetween(evs, i, n, k) && EscalationCount(evs, n, EMPTY, k) < evs[n].max
  {
    hide Step, Db.Valid, AcknowledgedBetween, Stores;
    assert !evs[i].Acknowledge? by { StoresSomething(evs, i, r); }
    OwnRow(evs, i, n, r);
    CountIsHistory(evs, n, StoredKey(evs, i, r));
  }

  lemma StoresSomething(evs: seq<Event>, i: nat, r: int)
    requires i < |evs| && Stores(evs, i, r)
    ensures !evs[i].Acknowledge? && r in evs[i].rows
  {
  }

  /** An ordinary announcement is never escalated. */
  lemma AnnouncementsNeverEscalate(evs: seq<Event>, i: nat, n: nat, r: int)
    requires i < n < |evs| && evs[i].Notify? && !evs[i].critical && r in evs[i].rows
    ensures !Selects(After(evs, n, EMPTY), evs[n], StoredKey(evs, i, r))
  {
    SelectedIffCriticalAndOverdue(evs, i, n, r);
  }

  lemma NewRowIsStored(db: Db, e: Event, k: Key)
    requires db.Valid() && k in Step(db, e).table && k !in db.table
    ensures k.dispatch == db.next && !e.Acknowledge? && k.responder in e.rows
    ensures e.Pass? ==> OverdueKeys(db.table, e.cutoff, e.max) != {}
  {
  }

  /** Every stored delivery stems from exactly such an event, so the law above speaks of all of them. */
  lemma {:induction false} EveryRowWasStored(evs: seq<Event>, n: nat, k: Key)
    requires n <= |evs| && k in After(evs, n, EMPTY).table
    ensures exists i: nat :: i < n && Stores(evs, i, k.responder) && k == StoredKey(evs, i, k.responder)
  {
    hide Step, Db.Valid, OverdueKeys, Selects;
    RunValid(evs, n - 1);
    var db := After(evs, n - 1, EMPTY);
    if k in db.table {
      EveryRowWasStored(evs, n - 1, k);
    } else {
      NewRowIsStored(db, evs[n - 1], k);
      if evs[n - 1].Pass? {
        var x :| x in OverdueKeys(db.table, evs[n - 1].cutoff, evs[n - 1].max);
        SelectsIsOverdue(db, evs[n - 1], x);
      }
      assert Stores(evs, n - 1, k.responder);
    }
  }

  /**
   A row stored by a pass is selected in turn: by any later pass whose cutoff lies after its send time, as long as
   it was not acknowledged itself and its own count is below the maximum, whatever became of the row that caused it.
   */
  lemma EscalationFeedsItself(evs: seq<Event>, i: nat, n: nat, r: int)
    requires i < n < |evs| && evs[i].Pass? && r in evs[i].rows
    requires OverdueKeys(After(evs, i, EMPTY).table, evs[i].cutoff, evs[i].max) != {}
    ensures var k, row := Key(After(evs, i, EMPTY).next, r), evs[i].rows[r];
            Selects(After(evs, n, EMPTY), evs[n], k) <==>
              && evs[n].Pass? && row.sent && row.sentAt.Some? && row.sentAt.value < evs[n].cutoff
              && !AcknowledgedBetween(evs, i, n, k) && EscalationCount(evs, n, EMPTY, k) < evs[n].max
  {
    hide Step, Db.Valid, OverdueKeys, AcknowledgedBetween, Selects;
    var k :| k in OverdueKeys(After(evs, i, EMPTY).table, evs[i].cutoff, evs[i].max);
    SelectsIsOverdue(After(evs, i, EMPTY), evs[i], k);
    SelectedIffCriticalAndOverdue(evs, i, n, r);
  }

  function SentRow(r: int, at: int): D.Row { D.Row(r, Some(0), true, Some(at), None) }

  /** When the chain's `n`-th row is sent: one tick more than the timeout after the one before. */
  function SendTime(n: nat, timeout: nat): nat {
    if n == 0 then 0 else SendTime(n - 1, timeout) + timeout + 1
  }

  /** A first critical notification, then passes that each reach the responder. */
  ghost function Chain(r: int, timeout: nat, max: nat, n: nat): (evs: seq<Event>)
    ensures |evs| == n + 1
  {
    if n == 0 then [Notify(true, map[r := SentRow(r, 0)])]
    else Chain(r, timeout, max, n - 1)
         + [Pass(SendTime(n, timeout) - timeout, max, map[r := SentRow(r, SendTime(n, timeout))])]
  }

  /** The chain's table after `n` passes: rows of one responder, the newest still open. */
  ghost predicate ChainTable(db: Db, r: int, timeout: nat, n: nat) {
    && db.Valid() && db.next == n + 1
    && (forall k :: k in db.table ==> k.responder == r)
    && Key(n, r) in db.table
    && db.table[Key(n, r)] == Stored(true, Some(SendTime(n, timeout)), true, 0, false)
  }

  lemma ChainStep(db: Db, r: int, timeout: nat, max: nat, n: nat)
    requires ChainTable(db, r, timeout, n) && max > 0
    ensures var e := Pass(SendTime(n + 1, timeout) - timeout, max, map[r := SentRow(r, SendTime(n + 1, timeout))]);
            && Selects(db, e, Key(n, r))
            && Responders(OverdueKeys(db.table, e.cutoff, e.max)) == e.rows.Keys
            && ChainTable(Step(db, e), r, timeout, n + 1)
  {
    var e := Pass(SendTime(n + 1, timeout) - timeout, max, map[r := SentRow(r, SendTime(n + 1, timeout))]);
    var selected := OverdueKeys(db.table, e.cutoff, e.max);
    assert Key(n, r) in selected;
    assert Responders(selected) == {r} by {
      assert Key(n, r).responder in Responders(selected);
    }
    EscalatedChain(db, e, r, n);
  }

  lemma EscalatedChain(db: Db, e: Event, r: int, n: nat)
    requires db.Valid() && db.next == n + 1 && (forall k :: k in db.table ==> k.responder == r)
    requires e.Pass? && OverdueKeys(db.table, e.cutoff, e.max) != {} && e.rows.Keys == {r}
    ensures var next := Step(db, e);
            && next.Valid() && next.next == n + 2
            && (forall k :: k in next.table ==> k.responder == r)
            && Key(n + 1, r) in next.table
            && next.table[Key(n + 1, r)] == Stored(e.rows[r].sent, e.rows[r].sentAt, true, 0, false)
  {
  }

  ghost function ChainPass(r: int, timeout: nat, max: nat, n: nat): Event {
    Pass(SendTime(n, timeout) - timeout, max, map[r := SentRow(r, SendTime(n, timeout))])
  }

  lemma {:induction false} ChainShape(r: int, timeout: nat, max: nat, n: nat, i: nat)
    requires i <= n
    ensures |Chain(r, timeout, max, n)| == n + 1
    ensures i > 0 ==> Chain(r, timeout, max, n)[i] == ChainPass(r, timeout, max, i)
    ensures After(Chain(r, timeout, max, n), i + 1, EMPTY) == After(Chain(r, timeout, max, i), i + 1, EMPTY)
    decreases n
  {
    hide Step, SendTime;
    if n > 0 {
      ChainShape(r, timeout, max, n - 1, if i < n then i else 0);
      if i < n {
        AfterPrefix(Chain(r, timeout, max, n - 1), Chain(r, timeout, max, n), i + 1);
      }
    }
  }

  lemma ChainStart(r: int, timeout: nat)
    ensures ChainTable(Step(EMPTY, Notify(true, map[r := SentRow(r, 0)])), r, timeout, 0)
  {
    hide ChainTable;
    var rows := map[r := SentRow(r, 0)];
    FirstNotify(rows, r);
    var db := Step(EMPTY, Notify(true, rows));
    assert SendTime(0, timeout) == 0;
    ChainTableOf(db, r, timeout);
  }

  lemma ChainTableOf(db: Db, r: int, timeout: nat)
    requires db.Valid() && db.next == 1 && (forall k :: k in db.table ==> k.responder == r) && Key(0, r) in db.table
    requires db.table[Key(0, r)] == Stored(true, Some(0), true, 0, false) && SendTime(0, timeout) == 0
    ensures ChainTable(db, r, timeout, 0)
  {
  }

  lemma FirstNotify(rows: map<int, D.Row>, r: int)
    requires rows.Keys == {r}
    ensures var db := Step(EMPTY, Notify(true, rows));
            && db.Valid() && db.next == 1
            && (forall k :: k in db.table ==> k.responder == r)
            && Key(0, r) in db.table
            && db.table[Key(0, r)] == Stored(rows[r].sent, rows[r].sentAt, true, 0, false)
  {
  }

  lemma {:induction false} ChainReaches(r: int, timeout: nat, max: nat, n: nat)
    requires max > 0
    ensures |Chain(r, timeout, max, n)| == n + 1
    ensures ChainTable(After(Chain(r, timeout, max, n), n + 1, EMPTY), r, timeout, n)
  {
    hide Step, ChainTable, SendTime;
    var evs := Chain(r, timeout, max, n);
    ChainShape(r, timeout, max, n, n);
    if n == 0 {
      ChainStart(r, timeout);
      assert After(evs, 0, EMPTY) == EMPTY;
      assert After(evs, 1, EMPTY) == Step(EMPTY, evs[0]);
    } else {
      ChainReaches(r, timeout, max, n - 1);
      ChainShape(r, timeout, max, n, n - 1);
      ChainStep(After(evs, n, EMPTY), r, timeout, max, n - 1);
      assert After(evs, n + 1, EMPTY) == Step(After(evs, n, EMPTY), evs[n]);
    }
  }

  /**
   The maximum bounds each delivery, not the responder: for every n there is a run of n passes with the same
   timeout and maximum, each finding an overdue delivery of the responder and storing a new one.
   */
  lemma NoBoundPerResponder(r: int, timeout: nat, max: nat, n: nat, i: nat)
    requires max > 0 && 1 <= i <= n
    ensures var evs := Chain(r, timeout, max, n);
            && |evs| == n + 1
            && evs[i] == ChainPass(r, timeout, max, i)
            && var db := After(evs, i, EMPTY);
               && Selects(db, evs[i], Key(i - 1, r))
               && Responders(OverdueKeys(db.table, evs[i].cutoff, max)) == evs[i].rows.Keys == {r}
               && Key(i, r) !in db.table && Key(i, r) in After(evs, i + 1, EMPTY).table
  {
    hide Step, SendTime, OverdueKeys, Selects;
    ChainShape(r, timeout, max, n, i);
    ChainShape(r, timeout, max, n, i - 1);
    ChainReaches(r, timeout, max, i - 1);
    ChainReaches(r, timeout, max, i);
    ChainStep(After(Chain(r, timeout, max, i - 1), i, EMPTY), r, timeout, max, i - 1);
  }

  lemma {:induction false} AfterPrefix(a: seq<Event>, b: seq<Event>, n: nat)
    requires n <= |a| <= |b| && forall i :: 0 <= i < |a| ==> a[i] == b[i]
    ensures After(a, n, EMPTY) == After(b, n, EMPTY)
  {
    hide Step;
    if n > 0 {
      AfterPrefix(a, b, n - 1);
    }
  }
}
