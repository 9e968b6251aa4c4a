/**
 The greedy choice behind non-maximum suppression, for any relation `ok(kept, other)`.
 `Kept` is the definition a reader would write down; `Scan` is the one-pass form and `Filtered`
 the masking step, and the lemmas connect the three.
 */
module Greedy {
  import opened Common

  type Relation = (nat, nat) -> bool

  /** Position `p` is kept iff every kept position before it lets it pass. */
  ghost predicate Kept(ok: Relation, order: seq<nat>, p: nat)
    requires p < |order|
  {
    forall q: nat | q < p && Kept(ok, order, q) :: ok(order[q], order[p])
  }

  /** The kept entries among the first `n`, in order. */
  ghost function KeptList(ok: Relation, order: seq<nat>, n: nat): seq<nat>
    requires n <= |order|
  {
    if n == 0 then []
    else KeptList(ok, order, n - 1) + if Kept(ok, order, n - 1) then [order[n - 1]] else []
  }

  /** One pass over `rest`, appending whatever no entry of `kept` rejects. */
  ghost function Scan(ok: Relation, kept: seq<nat>, rest: seq<nat>): seq<nat>
    decreases |rest|
  {
    if rest == [] then kept
    else if forall k | k in kept :: ok(k, rest[0]) then Scan(ok, kept + [rest[0]], rest[1..])
    else Scan(ok, kept, rest[1..])
  }

  /** The entries of `rest` that `i` lets pass (a boolean mask). */
  function Filtered(ok: Relation, i: nat, rest: seq<nat>): (r: seq<nat>)
    ensures |r| <= |rest|
    ensures forall x :: x in r <==> x in rest && ok(i, x)
  {
    if rest == [] then []
    else (if ok(i, rest[0]) then [rest[0]] else []) + Filtered(ok, i, rest[1..])
  }

  lemma {:induction false} KeptListMembers(ok: Relation, order: seq<nat>, n: nat)
    requires n <= |order|
    ensures forall x :: x in KeptList(ok, order, n) <==> exists q: nat :: q < n && Kept(ok, order, q) && order[q] == x
  {
    if n > 0 {
      KeptListMembers(ok, order, n - 1);
      var prev := KeptList(ok, order, n - 1);
      forall x ensures x in KeptList(ok, order, n) <==> exists q: nat :: q < n && Kept(ok, order, q) && order[q] == x {
        if Kept(ok, order, n - 1) && x == order[n - 1] {
          assert x in KeptList(ok, order, n);
        } else {
          assert x in KeptList(ok, order, n) <==> x in prev;
        }
      }
    }
  }

  /** The one-pass form continues the declarative one. */
  lemma {:induction false} ScanContinues(ok: Relation, order: seq<nat>, n: nat)
    requires n <= |order|
    ensures Scan(ok, KeptList(ok, order, n), order[n..]) == KeptList(ok, order, |order|)
    decreases |order| - n
  {
    if n < |order| {
      KeptAgrees(ok, order, n);
      assert order[n..][0] == order[n] && order[n..][1..] == order[n + 1..];
      ScanContinues(ok, order, n + 1);
    }
  }

  lemma KeptAgrees(ok: Relation, order: seq<nat>, n: nat)
    requires n < |order|
    ensures (forall k | k in KeptList(ok, order, n) :: ok(k, order[n])) <==> Kept(ok, order, n)
    ensures !Kept(ok, order, n) ==> KeptList(ok, order, n + 1) == KeptList(ok, order, n)
  {
    KeptListMembers(ok, order, n);
    if forall k | k in KeptList(ok, order, n) :: ok(k, order[n]) {
      forall q: nat | q < n && Kept(ok, order, q) ensures ok(order[q], order[n]) {
        assert order[q] in KeptList(ok, order, n);
      }
    }
  }

  lemma ScanIsKeptList(ok: Relation, order: seq<nat>)
    ensures Scan(ok, [], order) == KeptList(ok, order, |order|)
  {
    ScanContinues(ok, order, 0);
    assert order[0..] == order;
  }

  /** Masking out what a kept entry rejects does not change the outcome of the scan. */
  lemma {:induction false} FilteringIsHarmless(ok: Relation, kept: seq<nat>, i: nat, rest: seq<nat>)
    requires i in kept
    ensures Scan(ok, kept, Filtered(ok, i, rest)) == Scan(ok, kept, rest)
    decreases |rest|
  {
    if rest != [] {
      var tail := Filtered(ok, i, rest[1..]);
      if ok(i, rest[0]) {
        assert Filtered(ok, i, rest) == [rest[0]] + tail;
        assert Filtered(ok, i, rest)[1..] == tail;
        FilteringIsHarmless(ok, kept + [rest[0]], i, rest[1..]);
        FilteringIsHarmless(ok, kept, i, rest[1..]);
      } else {
        assert Filtered(ok, i, rest) == tail;
        FilteringIsHarmless(ok, kept, i, rest[1..]);
      }
    }
  }

  /** Kept entries are distinct, drawn from the order, and every earlier one lets every later one pass. */
  lemma {:induction false} KeptListSound(ok: Relation, order: seq<nat>, n: nat)
    requires n <= |order| && Distinct(order)
    ensures var kept := KeptList(ok, order, n);
            && Distinct(kept)
            && (forall a, b :: 0 <= a < b < |kept| ==> ok(kept[a], kept[b]))
  {
    if n > 0 {
      KeptListSound(ok, order, n - 1);
      KeptListMembers(ok, order, n - 1);
      var prev := KeptList(ok, order, n - 1);
      forall a | 0 <= a < |prev|
        ensures prev[a] != order[n - 1] && (Kept(ok, order, n - 1) ==> ok(prev[a], order[n - 1]))
      {
        assert prev[a] in prev;
      }
    }
  }

  ghost predicate Descending(order: seq<nat>, scores: seq<real>) {
    && (forall p :: 0 <= p < |order| ==> order[p] < |scores|)
    && (forall p, q :: 0 <= p < q < |order| ==> scores[order[p]] >= scores[order[q]])
  }

  /** Kept entries come in the order of the scan. */
  lemma {:induction false} KeptListDescending(ok: Relation, order: seq<nat>, n: nat, scores: seq<real>)
    requires n <= |order| && Descending(order, scores)
    ensures Descending(KeptList(ok, order, n), scores)
  {
    if n > 0 {
      KeptListDescending(ok, order, n - 1, scores);
      KeptListMembers(ok, order, n - 1);
      var prev := KeptList(ok, order, n - 1);
      forall a | 0 <= a < |prev| ensures scores[prev[a]] >= scores[order[n - 1]] {
        assert prev[a] in prev;
      }
    }
  }

  /** Nothing is rejected without a kept rejector that comes earlier. */
  lemma RejectedHasRejector(ok: Relation, order: seq<nat>, p: nat) returns (q: nat)
    requires p < |order| && !Kept(ok, order, p)
    ensures q < p && Kept(ok, order, q) && !ok(order[q], order[p])
    ensures order[q] in KeptList(ok, order, |order|)
  {
    q :| q < p && Kept(ok, order, q) && !ok(order[q], order[p]);
    KeptListMembers(ok, order, |order|);
  }

  /** An order in which every entry lets every later one pass is kept whole. */
  lemma {:induction false} CompatibleKeptWhole(ok: Relation, order: seq<nat>, n: nat)
    requires n <= |order|
    requires forall p, q :: 0 <= p < q < |order| ==> ok(order[p], order[q])
    ensures KeptList(ok, order, n) == order[..n]
  {
    if n > 0 {
      CompatibleKeptWhole(ok, order, n - 1);
      assert order[..n] == order[..n - 1] + [order[n - 1]];
    }
  }

  /** The defining property of a greedy choice, on a set of entries instead of positions. */
  ghost predicate GreedyChoice(ok: Relation, order: seq<nat>, chosen: set<nat>) {
    && chosen <= Elements(order)
    && forall p: nat | p < |order| ::
         order[p] in chosen <==> forall q: nat | q < p && order[q] in chosen :: ok(order[q], order[p])
  }

  lemma {:induction false} GreedyChoiceIsKept(ok: Relation, order: seq<nat>, chosen: set<nat>, p: nat)
    requires GreedyChoice(ok, order, chosen) && p < |order|
    ensures order[p] in chosen <==> Kept(ok, order, p)
    decreases p
  {
    forall q: nat | q < p ensures order[q] in chosen <==> Kept(ok, order, q) {
      GreedyChoiceIsKept(ok, order, chosen, q);
    }
  }

  /** There is exactly one greedy choice, and the kept list enumerates it. */
  lemma GreedyChoiceUnique(ok: Relation, order: seq<nat>, chosen: set<nat>)
    requires Distinct(order)
    ensures GreedyChoice(ok, order, chosen) <==> chosen == Elements(KeptList(ok, order, |order|))
  {
    KeptListMembers(ok, order, |order|);
    var kept := Elements(KeptList(ok, order, |order|));
    forall p: nat | p < |order| ensures order[p] in kept <==> Kept(ok, order, p) {
      if order[p] in kept {
        var q: nat :| q < |order| && Kept(ok, order, q) && order[q] == order[p];
        assert q == p;
      }
    }
    if GreedyChoice(ok, order, chosen) {
      forall p: nat | p < |order| ensures order[p] in chosen <==> order[p] in kept {
        GreedyChoiceIsKept(ok, order, chosen, p);
      }
      assert forall x :: x in chosen ==> x in order;
      assert forall x :: x in kept ==> x in order;
    }
    assert GreedyChoice(ok, order, kept);
  }
}
