/** Retention of the public-alert audit: keep the newest rows of each location inside the age window. */
module Retention {
  import opened Common

  datatype Row = Row(location: int, at: int)

  type Table = map<int, Row>

  /** Each location's row ids, newest first: what `row_number() over (partition ... order by created_at desc)` numbers. */
  type Ranking = map<int, seq<int>>

  /** Rows with equal times come in any order, which may differ from query to query. */
  ghost predicate IsRanking(t: Table, rank: Ranking) {
    && (forall id :: id in t ==> t[id].location in rank)
    && (forall l :: l in rank ==> IsRankingOf(t, l, rank[l]))
  }

  ghost predicate IsRankingOf(t: Table, l: int, order: seq<int>) {
    && Distinct(order)
    && (forall id :: id in order <==> id in t && t[id].location == l)
    && Falling(t, order)
  }

  predicate Listed(t: Table, order: seq<int>) { forall i :: 0 <= i < |order| ==> order[i] in t }

  function Newest(order: seq<int>, n: int): seq<int> {
    if n <= 0 then [] else if |order| <= n then order else order[..n]
  }

  /** `get_by_location`: the ids it returns for a location. */
  function ByLocation(rank: Ranking, l: int, limit: nat): seq<int> {
    if l in rank then Newest(rank[l], limit) else []
  }

  predicate Stale(t: Table, rank: Ranking, olderThan: int, keep: int, id: int)
    requires id in t
  {
    t[id].at < olderThan || !(t[id].location in rank && id in Newest(rank[t[id].location], keep))
  }

  function Pruned(t: Table, rank: Ranking, olderThan: int, keep: int): Table {
    map id | id in t && !Stale(t, rank, olderThan, keep, id) :: t[id]
  }

  class AuditTable {
    var rows: Table

    constructor (rows: Table)
      ensures this.rows == rows
    {
      this.rows := rows;
    }

    method Prune(rank: Ranking, olderThan: int, keep: int) returns (deleted: nat)
      requires IsRanking(rows, rank)
      modifies this
      ensures rows == Pruned(old(rows), rank, olderThan, keep)
      ensures deleted == |old(rows)| - |rows|
    {
      hide IsRanking, Stale;
      var staleIds := set id | id in rows && Stale(rows, rank, olderThan, keep, id);
      StaleRemoved(rows, rank, olderThan, keep, staleIds);
      deleted := |staleIds|;
      rows := rows - staleIds;
    }
  }

  lemma StaleRemoved(t: Table, rank: Ranking, olderThan: int, keep: int, stale: set<int>)
    requires forall id :: id in stale <==> id in t && Stale(t, rank, olderThan, keep, id)
    ensures t - stale == Pruned(t, rank, olderThan, keep)
    ensures |stale| == |t| - |t - stale|
  {
    hide Stale;
    var left := t - stale;
    forall x ensures x in t.Keys <==> x in left.Keys + stale {
      assert x in left <==> x in t && x !in stale;
    }
    DisjointSize(left.Keys, stale);
    assert t.Keys == left.Keys + stale;
  }

  lemma DisjointSize(a: set<int>, b: set<int>)
    requires a !! b
    ensures |a + b| == |a| + |b|
  {
  }

  lemma RankingListed(t: Table, rank: Ranking, l: int)
    requires IsRanking(t, rank) && l in rank
    ensures IsRankingOf(t, l, rank[l]) && Listed(t, rank[l])
  {
    var order := rank[l];
    assert IsRankingOf(t, l, order);
    forall i | 0 <= i < |order| ensures order[i] in t {
      var id := order[i];
      assert id in order;
      assert id in order <==> id in t && t[id].location == l;
    }
  }

  /** The length of the in-window prefix. */
  function WindowLength(t: Table, order: seq<int>, olderThan: int): nat
    requires Listed(t, order)
  {
    if order == [] then 0
    else WindowLength(t, order[..|order| - 1], olderThan) + if t[order[|order| - 1]].at >= olderThan then 1 else 0
  }

  lemma {:induction false} WindowIsPrefix(t: Table, order: seq<int>, olderThan: int)
    requires Listed(t, order) && Falling(t, order)
    ensures WindowLength(t, order, olderThan) <= |order|
    ensures forall i :: 0 <= i < |order| ==> (t[order[i]].at >= olderThan <==> i < WindowLength(t, order, olderThan))
  {
    if order != [] {
      WindowIsPrefix(t, order[..|order| - 1], olderThan);
    }
  }

  function Kept(t: Table, order: seq<int>, olderThan: int, keep: int): nat
    requires Listed(t, order)
  {
    var w := WindowLength(t, order, olderThan);
    if keep <= 0 then 0 else if w <= keep then w else keep
  }

  /** Of each location exactly the newest min(keep, in-window) rows survive. */
  lemma PruneKeepsNewest(t: Table, rank: Ranking, olderThan: int, keep: int, l: int)
    requires IsRanking(t, rank) && l in rank
    ensures Listed(t, rank[l])
    ensures Kept(t, rank[l], olderThan, keep) <= |rank[l]|
    ensures forall id :: id in Pruned(t, rank, olderThan, keep) && t[id].location == l <==>
              id in rank[l][..Kept(t, rank[l], olderThan, keep)]
  {
    var order := rank[l];
    RankingListed(t, rank, l);
    WindowIsPrefix(t, order, olderThan);
    var m := Kept(t, order, olderThan, keep);
    forall id ensures id in Pruned(t, rank, olderThan, keep) && t[id].location == l <==> id in order[..m] {
      if id in t && t[id].location == l {
        var i :| 0 <= i < |order| && order[i] == id;
        InPrefix(order, m, i);
        if 0 < keep < |order| {
          InPrefix(order, keep, i);
        }
      }
    }
  }

  lemma InPrefix(order: seq<int>, m: nat, i: nat)
    requires Distinct(order) && m <= |order| && i < |order|
    ensures order[i] in order[..m] <==> i < m
  {
    if order[i] in order[..m] {
      var j :| 0 <= j < m && order[j] == order[i];
    }
  }

  /** The rows of the same location that are newer. */
  function NewerRows(t: Table, id: int): set<int>
    requires id in t
  {
    set x | x in t && t[x].location == t[id].location && t[x].at > t[id].at
  }

  lemma NewerIsPrefix(t: Table, rank: Ranking, l: int, i: nat)
    requires IsRanking(t, rank) && l in rank && Apart(t, rank[l]) && i < |rank[l]|
    ensures rank[l][i] in t && t[rank[l][i]].location == l && |NewerRows(t, rank[l][i])| == i
  {
    var order := rank[l];
    RankingListed(t, rank, l);
    assert order[i] in order;
    forall x ensures x in NewerRows(t, order[i]) <==> x in Elements(order[..i]) {
      if x in t && t[x].location == l {
        assert x in order;
        var j :| 0 <= j < |order| && order[j] == x;
        InPrefix(order, i, j);
      }
      if x in order[..i] {
        var j :| 0 <= j < i && order[j] == x;
        assert x in order;
      }
    }
    DistinctSize(order[..i]);
    assert NewerRows(t, order[i]) == Elements(order[..i]);
  }

  /**
   With distinct times, by counting alone: a row survives exactly if it is inside the window and fewer than `keep` rows
   of its location are newer, and the history shows it exactly if fewer than the limit are.
   */
  lemma SurvivesByCount(t: Table, rank: Ranking, olderThan: int, keep: int, limit: nat, id: int)
    requires IsRanking(t, rank) && id in t && Apart(t, rank[t[id].location])
    ensures id in Pruned(t, rank, olderThan, keep) <==> t[id].at >= olderThan && |NewerRows(t, id)| < keep
    ensures id in ByLocation(rank, t[id].location, limit) <==> |NewerRows(t, id)| < limit
  {
    var l := t[id].location;
    var order := rank[l];
    assert IsRankingOf(t, l, order) && id in order;
    var i: nat :| i < |order| && order[i] == id;
    NewerIsPrefix(t, rank, l, i);
    InNewest(order, keep, i);
    InNewest(order, limit, i);
  }

  lemma InNewest(order: seq<int>, n: int, i: nat)
    requires Distinct(order) && i < |order|
    ensures order[i] in Newest(order, n) <==> i < n
  {
    if 0 < n < |order| {
      InPrefix(order, n, i);
    }
  }

  /** No surviving row is older than a deleted one of its location that is still inside the window. */
  lemma PruneDropsOldest(t: Table, rank: Ranking, olderThan: int, keep: int, a: int, b: int)
    requires IsRanking(t, rank)
    requires a in Pruned(t, rank, olderThan, keep)
    requires b in t && b !in Pruned(t, rank, olderThan, keep) && t[b].location == t[a].location
    ensures t[a].at >= t[b].at
  {
    var l := t[a].location;
    PruneKeepsNewest(t, rank, olderThan, keep, l);
    var order := rank[l];
    assert IsRankingOf(t, l, order);
    var i :| 0 <= i < |order| && order[i] == a;
    var j :| 0 <= j < |order| && order[j] == b;
    InPrefix(order, Kept(t, order, olderThan, keep), i);
    InPrefix(order, Kept(t, order, olderThan, keep), j);
  }

  /** Any later ranking of the pruned table has exactly the surviving rows. */
  lemma PrunedRanking(t: Table, rank: Ranking, olderThan: int, keep: int, rank': Ranking, l: int)
    requires IsRanking(t, rank) && l in rank && l in rank'
    requires IsRanking(Pruned(t, rank, olderThan, keep), rank')
    ensures Listed(t, rank[l])
    ensures Kept(t, rank[l], olderThan, keep) <= |rank[l]|
    ensures Elements(rank'[l]) == Elements(rank[l][..Kept(t, rank[l], olderThan, keep)])
    ensures |rank'[l]| == Kept(t, rank[l], olderThan, keep)
  {
    PruneKeepsNewest(t, rank, olderThan, keep, l);
    var order, order' := rank[l], rank'[l];
    assert IsRankingOf(t, l, order) && IsRankingOf(Pruned(t, rank, olderThan, keep), l, order');
    var m := Kept(t, order, olderThan, keep);
    forall id ensures id in Elements(order') <==> id in Elements(order[..m]) {
      assert id in order' <==> id in Pruned(t, rank, olderThan, keep) && t[id].location == l;
    }
    DistinctSize(order');
    DistinctSize(order[..m]);
  }

  /** Pruning again with the same limits deletes nothing, whatever order ties come in the second time. */
  lemma PruneIdempotent(t: Table, rank: Ranking, olderThan: int, keep: int, rank': Ranking)
    requires IsRanking(t, rank) && IsRanking(Pruned(t, rank, olderThan, keep), rank')
    ensures Pruned(Pruned(t, rank, olderThan, keep), rank', olderThan, keep) == Pruned(t, rank, olderThan, keep)
  {
    var p := Pruned(t, rank, olderThan, keep);
    forall id | id in p ensures !Stale(p, rank', olderThan, keep, id) {
      var l := p[id].location;
      assert IsRankingOf(p, l, rank'[l]);
      PruneKeepsNewest(t, rank, olderThan, keep, l);
      PrunedRanking(t, rank, olderThan, keep, rank', l);
    }
  }

  /**
   The public history after a prune, for distinct times and any limit: the newest of the rows kept, in the same
   order as before. Up to the number kept it is the old history cut where the window ends.
   */
  lemma HistoryAfterPrune(t: Table, rank: Ranking, olderThan: int, keep: int, rank': Ranking, l: int, limit: nat)
    requires IsRanking(t, rank) && l in rank && l in rank'
    requires IsRanking(Pruned(t, rank, olderThan, keep), rank')
    requires Apart(t, rank[l])
    ensures Listed(t, rank[l])
    ensures Kept(t, rank[l], olderThan, keep) <= |rank[l]|
    ensures ByLocation(rank', l, limit) == Newest(rank[l][..Kept(t, rank[l], olderThan, keep)], limit)
    ensures limit <= keep ==>
              ByLocation(rank', l, limit) == Newest(ByLocation(rank, l, limit), WindowLength(t, rank[l], olderThan))
  {
    PrunedRanking(t, rank, olderThan, keep, rank', l);
    var order, order' := rank[l], rank'[l];
    var m := Kept(t, order, olderThan, keep);
    assert IsRankingOf(t, l, order) && IsRankingOf(Pruned(t, rank, olderThan, keep), l, order');
    RankingListed(t, rank, l);
    WindowIsPrefix(t, order, olderThan);
    PrefixFalls(t, order, order[..m]);
    SubsetFalls(t, order, order', Pruned(t, rank, olderThan, keep));
    hide IsRanking, IsRankingOf, Kept, WindowLength, FallingIn, Apart, Pruned;
    SortedOnce(t, order', order[..m]);
    if limit <= keep {
      NestedNewest(t, order, olderThan, keep, limit);
    }
  }

  ghost predicate Apart(t: Table, order: seq<int>) {
    forall i, j :: 0 <= i < |order| && 0 <= j < |order| && i != j ==>
      order[i] in t && order[j] in t && t[order[i]].at != t[order[j]].at
  }

  ghost predicate Falling(t: Table, order: seq<int>) {
    forall i, j :: 0 <= i < j < |order| ==> order[i] in t && order[j] in t && t[order[i]].at >= t[order[j]].at
  }

  lemma PrefixFalls(t: Table, order: seq<int>, a: seq<int>)
    requires a <= order && Apart(t, order) && Falling(t, order)
    ensures FallingIn(t, a)
  {
    assert forall i :: 0 <= i < |a| ==> a[i] == order[i];
    forall i, j | 0 <= i < j < |a| ensures Newer(t, a[i], a[j]) {
      var x, y := order[i], order[j];
      assert x in t && y in t && t[x].at >= t[y].at && t[x].at != t[y].at;
    }
  }

  /** A ranking of some of the rows, all with distinct times, falls strictly. */
  lemma SubsetFalls(t: Table, order: seq<int>, order': seq<int>, p: Table)
    requires Distinct(order') && (forall id :: id in order' ==> id in order)
    requires forall id :: id in p ==> id in t && p[id] == t[id]
    requires Falling(p, order') && Apart(t, order)
    ensures FallingIn(t, order')
  {
    forall i, j | 0 <= i < j < |order'| ensures Newer(t, order'[i], order'[j]) {
      var a, b := order'[i], order'[j];
      assert a in p && b in p && p[a].at >= p[b].at && a != b;
      assert a in order && b in order;
      var x :| 0 <= x < |order| && order[x] == a;
      var y :| 0 <= y < |order| && order[y] == b;
      assert t[order[x]].at != t[order[y]].at;
    }
  }

  lemma NestedNewest(t: Table, order: seq<int>, olderThan: int, keep: int, limit: nat)
    requires Listed(t, order) && limit <= keep && WindowLength(t, order, olderThan) <= |order|
    ensures Kept(t, order, olderThan, keep) <= |order|
    ensures Newest(order[..Kept(t, order, olderThan, keep)], limit)
         == Newest(Newest(order, limit), WindowLength(t, order, olderThan))
  {
  }

  ghost predicate FallingIn(t: Table, a: seq<int>) {
    forall i, j :: 0 <= i < j < |a| ==> Newer(t, a[i], a[j])
  }

  ghost predicate Newer(t: Table, x: int, y: int) { x in t && y in t && t[x].at > t[y].at }

  /** Two strictly falling sequences of the same elements are equal. */
  lemma {:induction false} SortedOnce(t: Table, a: seq<int>, b: seq<int>)
    requires Elements(a) == Elements(b) && |a| == |b|
    requires FallingIn(t, a) && FallingIn(t, b)
    ensures a == b
  {
    if a != [] {
      assert a[0] in Elements(b) && b[0] in Elements(a);
      var i :| 0 <= i < |b| && b[i] == a[0];
      var j :| 0 <= j < |a| && a[j] == b[0];
      assert a[0] == b[0];
      forall id ensures id in a[1..] <==> id in a && id != a[0] {
      }
      forall id ensures id in b[1..] <==> id in b && id != b[0] {
      }
      forall id ensures id in Elements(a[1..]) <==> id in Elements(b[1..]) {
        assert id in Elements(a) <==> id in Elements(b);
      }
      SortedOnce(t, a[1..], b[1..]);
    }
  }
}
