/** Folding many push outcomes into one delivery row per responder. */
module Delivery {
  import opened Common

  /** `Raised` is any exception other than the push library's own: it ends the dispatch before anything is stored. */
  datatype PushOutcome = Sent | Failed | Gone | Raised

  datatype Subscription = Subscription(id: int, responder: int)

  datatype Reason = NoSubscription | Expired | PushFailed

  datatype Row = Row(responder: int, subscription: Option<int>, sent: bool, sentAt: Option<int>, reason: Option<Reason>)

  datatype Dispatch = NoDispatch | Aborted | Delivered(rows: map<int, Row>, removed: seq<Subscription>)

  // ---------------------------------------------------------------- specification

  /** Subscription `i` is the last of responder `r` among the first `n`; `sentOnly` looks at delivered ones alone. */
  ghost predicate IsLast(subs: seq<Subscription>, outcomes: seq<PushOutcome>, n: nat, r: int, sentOnly: bool, i: int)
    requires n <= |subs| == |outcomes|
  {
    && 0 <= i < n && Matches(subs, outcomes, r, sentOnly, i)
    && forall j :: i < j < n ==> !Matches(subs, outcomes, r, sentOnly, j)
  }

  predicate Matches(subs: seq<Subscription>, outcomes: seq<PushOutcome>, r: int, sentOnly: bool, i: int)
    requires 0 <= i < |subs| == |outcomes|
  {
    subs[i].responder == r && (sentOnly ==> outcomes[i] == Sent)
  }

  ghost predicate AnyMatch(subs: seq<Subscription>, outcomes: seq<PushOutcome>, n: nat, r: int, sentOnly: bool)
    requires n <= |subs| == |outcomes|
  {
    exists i :: 0 <= i < n && Matches(subs, outcomes, r, sentOnly, i)
  }

  /**
   What responder `r`'s row must say: the last delivered subscription if any was delivered, else the reason of
   the last attempt, else that there was none to attempt.
   */
  ghost predicate RowExact(row: Row, subs: seq<Subscription>, outcomes: seq<PushOutcome>, n: nat, r: int, now: int)
    requires n <= |subs| == |outcomes|
  {
    if AnyMatch(subs, outcomes, n, r, true) then
      exists i :: IsLast(subs, outcomes, n, r, true, i) && row == Row(r, Some(subs[i].id), true, Some(now), None)
    else if AnyMatch(subs, outcomes, n, r, false) then
      exists i :: IsLast(subs, outcomes, n, r, false, i) && row == FailedRow(subs[i], outcomes[i])
    else row == Row(r, None, false, None, Some(NoSubscription))
  }

  ghost predicate RowsExact(rows: map<int, Row>, subs: seq<Subscription>, outcomes: seq<PushOutcome>, n: nat, now: int)
    requires n <= |subs| == |outcomes|
  {
    forall r :: r in rows ==> RowExact(rows[r], subs, outcomes, n, r, now)
  }

  function FailedRow(s: Subscription, o: PushOutcome): Row {
    if o == Gone then Row(s.responder, None, false, None, Some(Expired))
    else Row(s.responder, Some(s.id), false, None, Some(PushFailed))
  }

  /** The subscriptions of the addressed responders that turned out to be gone, in order. */
  function GoneAmong(ids: set<int>, subs: seq<Subscription>, outcomes: seq<PushOutcome>, n: nat): seq<Subscription>
    requires n <= |subs| == |outcomes|
  {
    if n == 0 then []
    else GoneAmong(ids, subs, outcomes, n - 1)
         + if subs[n - 1].responder in ids && outcomes[n - 1] == Gone then [subs[n - 1]] else []
  }

  /** The fold is exact for the whole dispatch. */
  ghost predicate Exact(d: Dispatch, ids: seq<int>, subs: seq<Subscription>, outcomes: seq<PushOutcome>, now: int)
    requires |subs| == |outcomes|
  {
    match d
    case NoDispatch => ids == []
    case Aborted => ids != [] && exists i :: 0 <= i < |subs| && subs[i].responder in Elements(ids) && outcomes[i] == Raised
    case Delivered(rows, removed) =>
      ids != [] && ExactUpTo(rows, removed, Elements(ids), subs, outcomes, |subs|, now)
  }

  /** What the fold has established after `n` subscriptions. */
  ghost predicate ExactUpTo(rows: map<int, Row>, removed: seq<Subscription>, ids: set<int>,
                            subs: seq<Subscription>, outcomes: seq<PushOutcome>, n: nat, now: int)
    requires n <= |subs| == |outcomes|
  {
    && rows.Keys == ids
    && RowsExact(rows, subs, outcomes, n, now)
    && removed == GoneAmong(ids, subs, outcomes, n)
    && (forall i :: 0 <= i < n && subs[i].responder in ids ==> outcomes[i] != Raised)
  }

  lemma ExactOneMore(rows: map<int, Row>, removed: seq<Subscription>, ids: set<int>,
                     subs: seq<Subscription>, outcomes: seq<PushOutcome>, n: nat, now: int)
    requires n < |subs| == |outcomes| && ExactUpTo(rows, removed, ids, subs, outcomes, n, now)
    requires subs[n].responder in rows ==> outcomes[n] != Raised
    ensures ExactUpTo(Folded(rows, subs[n], outcomes[n], now),
                      removed + (if subs[n].responder in rows && outcomes[n] == Gone then [subs[n]] else []),
                      ids, subs, outcomes, n + 1, now)
  {
    FoldedExact(rows, subs, outcomes, n, now);
    hide RowsExact, Folded;
  }

  lemma NextOther(row: Row, subs: seq<Subscription>, outcomes: seq<PushOutcome>, n: nat, r: int, now: int)
    requires n < |subs| == |outcomes| && subs[n].responder != r
    requires RowExact(row, subs, outcomes, n, r, now)
    ensures RowExact(row, subs, outcomes, n + 1, r, now)
  {
    forall sentOnly: bool ensures AnyMatch(subs, outcomes, n + 1, r, sentOnly) <==> AnyMatch(subs, outcomes, n, r, sentOnly) {
    }
    forall sentOnly: bool, i: int
      ensures IsLast(subs, outcomes, n + 1, r, sentOnly, i) <==> IsLast(subs, outcomes, n, r, sentOnly, i) {
    }
  }

  function NextRow(current: Row, s: Subscription, o: PushOutcome, now: int): Row {
    if o == Sent then Row(s.responder, Some(s.id), true, Some(now), None)
    else if current.sent then current
    else FailedRow(s, o)
  }

  lemma NextOwn(row: Row, subs: seq<Subscription>, outcomes: seq<PushOutcome>, n: nat, now: int)
    requires n < |subs| == |outcomes|
    requires RowExact(row, subs, outcomes, n, subs[n].responder, now)
    ensures row.sent <==> AnyMatch(subs, outcomes, n, subs[n].responder, true)
    ensures RowExact(NextRow(row, subs[n], outcomes[n], now), subs, outcomes, n + 1, subs[n].responder, now)
  {
    var r := subs[n].responder;
    assert Matches(subs, outcomes, r, false, n);
    assert IsLast(subs, outcomes, n + 1, r, false, n);
    if outcomes[n] == Sent {
      assert IsLast(subs, outcomes, n + 1, r, true, n);
    } else {
      assert AnyMatch(subs, outcomes, n + 1, r, true) <==> AnyMatch(subs, outcomes, n, r, true);
      forall i: int ensures IsLast(subs, outcomes, n + 1, r, true, i) <==> IsLast(subs, outcomes, n, r, true, i) {
      }
    }
  }

  function Folded(rows: map<int, Row>, s: Subscription, o: PushOutcome, now: int): (next: map<int, Row>)
    ensures next.Keys == rows.Keys
  {
    if s.responder in rows then rows[s.responder := NextRow(rows[s.responder], s, o, now)] else rows
  }

  lemma FoldedExact(rows: map<int, Row>, subs: seq<Subscription>, outcomes: seq<PushOutcome>, n: nat, now: int)
    requires n < |subs| == |outcomes| && RowsExact(rows, subs, outcomes, n, now)
    ensures RowsExact(Folded(rows, subs[n], outcomes[n], now), subs, outcomes, n + 1, now)
  {
    hide RowExact;
    var next := Folded(rows, subs[n], outcomes[n], now);
    forall r | r in next ensures RowExact(next[r], subs, outcomes, n + 1, r, now) {
      if r == subs[n].responder {
        NextOwn(rows[r], subs, outcomes, n, now);
      } else {
        NextOther(rows[r], subs, outcomes, n, r, now);
      }
    }
  }

  // ---------------------------------------------------------------- the loop

  /**
   `outcomes[i]` is what pushing to `subs[i]` would give. The subscriptions are those the query returns,
   in the order it returns them.
   */
  method SendToSubscribers(ids: seq<int>, subs: seq<Subscription>, outcomes: seq<PushOutcome>, now: int)
    returns (d: Dispatch)
    requires |subs| == |outcomes|
    ensures Exact(d, ids, subs, outcomes, now)
  {
    if |ids| == 0 {
      return NoDispatch;
    }
    var rows: map<int, Row> := map r | r in Elements(ids) :: Row(r, None, false, None, Some(NoSubscription));
    var removed: seq<Subscription> := [];
    assert ExactUpTo(rows, removed, Elements(ids), subs, outcomes, 0, now);
    hide ExactUpTo, Folded, Elements;
    for i := 0 to |subs|
      invariant rows.Keys == Elements(ids)
      invariant ExactUpTo(rows, removed, Elements(ids), subs, outcomes, i, now)
    {
      var s := subs[i];
      if s.responder in rows && outcomes[i] == Raised {
        return Aborted;
      }
      ExactOneMore(rows, removed, Elements(ids), subs, outcomes, i, now);
      if s.responder in rows {
        if outcomes[i] == Gone {
          removed := removed + [s];
        }
        rows := FoldOutcome(rows, s, outcomes[i], now);
      }
    }
    d := Delivered(rows, removed);
  }

  /** The loop's effect on the rows: a later failure never overwrites a delivery. */
  method FoldOutcome(rows: map<int, Row>, s: Subscription, o: PushOutcome, now: int) returns (next: map<int, Row>)
    requires s.responder in rows
    ensures next == Folded(rows, s, o, now)
  {
    next := rows;
    var current := rows[s.responder];
    if o == Sent {
      next := rows[s.responder := Row(s.responder, Some(s.id), true, Some(now), None)];
    } else if current.sent {
      next := rows[s.responder := current];
    } else if o == Gone {
      next := rows[s.responder := Row(s.responder, None, false, None, Some(Expired))];
    } else {
      next := rows[s.responder := Row(s.responder, Some(s.id), false, None, Some(PushFailed))];
    }
  }

  // ---------------------------------------------------------------- what the rows say

  /** One responder, one possible row. */
  lemma RowDetermined(a: Row, b: Row, subs: seq<Subscription>, outcomes: seq<PushOutcome>, n: nat, r: int, now: int)
    requires n <= |subs| == |outcomes|
    requires RowExact(a, subs, outcomes, n, r, now) && RowExact(b, subs, outcomes, n, r, now)
    ensures a == b
  {
    forall sentOnly: bool, i: int, j: int
      ensures IsLast(subs, outcomes, n, r, sentOnly, i) && IsLast(subs, outcomes, n, r, sentOnly, j) ==> i == j
    {
    }
  }

  ghost predicate Tried(subs: seq<Subscription>, outcomes: seq<PushOutcome>, s: Subscription, o: PushOutcome)
    requires |subs| == |outcomes|
  {
    exists i :: 0 <= i < |subs| && subs[i] == s && outcomes[i] == o
  }

  ghost predicate Reached(subs: seq<Subscription>, outcomes: seq<PushOutcome>, r: int)
    requires |subs| == |outcomes|
  {
    exists i :: 0 <= i < |subs| && subs[i].responder == r && outcomes[i] == Sent
  }

  /** A responder's row is SENT iff one of its subscriptions was delivered to. */
  lemma SentIffReached(row: Row, subs: seq<Subscription>, outcomes: seq<PushOutcome>, r: int, now: int)
    requires |subs| == |outcomes| && RowExact(row, subs, outcomes, |subs|, r, now)
    ensures row.sent <==> Reached(subs, outcomes, r)
  {
    if Reached(subs, outcomes, r) {
      var i :| 0 <= i < |subs| && subs[i].responder == r && outcomes[i] == Sent;
      assert Matches(subs, outcomes, r, true, i);
    }
    if AnyMatch(subs, outcomes, |subs|, r, true) {
      var i :| 0 <= i < |subs| && Matches(subs, outcomes, r, true, i);
    }
  }

  /** The outcome of the last subscription of `r`, in the order of the query. */
  ghost predicate LastOutcome(subs: seq<Subscription>, outcomes: seq<PushOutcome>, r: int, gone: bool)
    requires |subs| == |outcomes|
  {
    exists i :: IsLast(subs, outcomes, |subs|, r, false, i) && (outcomes[i] == Gone <==> gone)
  }

  /** What each field of a row tells about the dispatch. */
  lemma RowSays(row: Row, subs: seq<Subscription>, outcomes: seq<PushOutcome>, r: int, now: int)
    requires |subs| == |outcomes| && RowExact(row, subs, outcomes, |subs|, r, now)
    ensures row.responder == r
    ensures row.sentAt == (if Reached(subs, outcomes, r) then Some(now) else None)
    ensures row.reason.None? <==> Reached(subs, outcomes, r)
    ensures row.reason == Some(NoSubscription) <==> forall i :: 0 <= i < |subs| ==> subs[i].responder != r
    ensures row.reason == Some(Expired) <==> !Reached(subs, outcomes, r) && LastOutcome(subs, outcomes, r, true)
    ensures row.reason == Some(PushFailed) <==> !Reached(subs, outcomes, r) && LastOutcome(subs, outcomes, r, false)
    ensures row.subscription.Some? ==>
              exists i :: 0 <= i < |subs| && subs[i].responder == r && subs[i].id == row.subscription.value
                          && IsLast(subs, outcomes, |subs|, r, row.sent, i) && outcomes[i] != Gone
  {
    SentIffReached(row, subs, outcomes, r, now);
    assert AnyMatch(subs, outcomes, |subs|, r, false) <==> exists i :: 0 <= i < |subs| && subs[i].responder == r by {
      if i :| 0 <= i < |subs| && subs[i].responder == r {
        assert Matches(subs, outcomes, r, false, i);
      }
    }
    assert AnyMatch(subs, outcomes, |subs|, r, true) <==> Reached(subs, outcomes, r) by {
      if i :| 0 <= i < |subs| && subs[i].responder == r && outcomes[i] == Sent {
        assert Matches(subs, outcomes, r, true, i);
      }
    }
    forall i, j ensures IsLast(subs, outcomes, |subs|, r, false, i) && IsLast(subs, outcomes, |subs|, r, false, j) ==> i == j {
    }
  }

  lemma SameTriedSameReached(a: seq<Subscription>, oa: seq<PushOutcome>, b: seq<Subscription>, ob: seq<PushOutcome>, r: int)
    requires |a| == |oa| && |b| == |ob|
    requires forall s, o :: Tried(a, oa, s, o) ==> Tried(b, ob, s, o)
    ensures Reached(a, oa, r) ==> Reached(b, ob, r)
  {
    if Reached(a, oa, r) {
      var i :| 0 <= i < |a| && a[i].responder == r && oa[i] == Sent;
      assert Tried(a, oa, a[i], Sent);
      assert Tried(b, ob, a[i], Sent);
    }
  }

  lemma RaisedInAnyOrder(ids: seq<int>, a: seq<Subscription>, oa: seq<PushOutcome>, b: seq<Subscription>, ob: seq<PushOutcome>)
    requires |a| == |oa| && |b| == |ob|
    requires forall s, o :: Tried(a, oa, s, o) ==> Tried(b, ob, s, o)
    ensures (exists i :: 0 <= i < |a| && a[i].responder in Elements(ids) && oa[i] == Raised) ==>
              exists i :: 0 <= i < |b| && b[i].responder in Elements(ids) && ob[i] == Raised
  {
    forall i | 0 <= i < |a| ensures Tried(b, ob, a[i], oa[i]) {
      assert Tried(a, oa, a[i], oa[i]);
    }
  }

  /** Whom a dispatch reaches does not depend on the order or repetition of the subscriptions. */
  lemma ReachedInAnyOrder(ids: seq<int>, subs: seq<Subscription>, outcomes: seq<PushOutcome>, d: Dispatch,
                          subs': seq<Subscription>, outcomes': seq<PushOutcome>, d': Dispatch, now: int, r: int)
    requires |subs| == |outcomes| && |subs'| == |outcomes'|
    requires forall s, o :: Tried(subs, outcomes, s, o) <==> Tried(subs', outcomes', s, o)
    requires Exact(d, ids, subs, outcomes, now) && Exact(d', ids, subs', outcomes', now)
    requires d.Delivered? && r in ids
    ensures d'.Delivered? && r in d.rows && r in d'.rows && d.rows[r].sent == d'.rows[r].sent
  {
    assert r in Elements(ids);
    hide RowExact;
    RaisedInAnyOrder(ids, subs', outcomes', subs, outcomes);
    SentIffReached(d.rows[r], subs, outcomes, r, now);
    SentIffReached(d'.rows[r], subs', outcomes', r, now);
    SameTriedSameReached(subs, outcomes, subs', outcomes', r);
    SameTriedSameReached(subs', outcomes', subs, outcomes, r);
  }

  /** No stored row points at a subscription that the same dispatch removes. */
  lemma NoDanglingReference(ids: seq<int>, subs: seq<Subscription>, outcomes: seq<PushOutcome>, d: Dispatch, now: int, r: int)
    requires |subs| == |outcomes| && Exact(d, ids, subs, outcomes, now) && d.Delivered? && r in d.rows
    requires forall i, j :: 0 <= i < j < |subs| ==> subs[i].id != subs[j].id
    ensures forall s :: s in d.removed ==> d.rows[r].subscription != Some(s.id)
  {
    GoneMembers(Elements(ids), subs, outcomes, |subs|);
    forall s | s in d.removed ensures d.rows[r].subscription != Some(s.id) {
      var g :| 0 <= g < |subs| && subs[g] == s && outcomes[g] == Gone;
      var row := d.rows[r];
      if row.subscription == Some(s.id) {
        var i :| 0 <= i < |subs| && subs[i].id == s.id && outcomes[i] != Gone;
      }
    }
  }

  lemma {:induction false} GoneMembers(ids: set<int>, subs: seq<Subscription>, outcomes: seq<PushOutcome>, n: nat)
    requires n <= |subs| == |outcomes|
    ensures forall s :: s in GoneAmong(ids, subs, outcomes, n) <==>
              exists i :: 0 <= i < n && subs[i] == s && s.responder in ids && outcomes[i] == Gone
  {
    if n > 0 {
      GoneMembers(ids, subs, outcomes, n - 1);
    }
  }
}
