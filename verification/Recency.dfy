/** Lists in order of recency, most recent first: what is ahead of an element. */
module Recency {
  import opened Basics

  ghost function Ahead<T>(order: seq<T>, e: T): set<T> {
    if order == [] || order[0] == e then {} else {order[0]} + Ahead(order[1..], e)
  }

  lemma {:induction false} AheadRemove<T>(order: seq<T>, e: T, i: nat)
    requires i < |order| && order[i] != e
    ensures Ahead(RemoveAt(order, i), e) <= Ahead(order, e)
  {
    if i == 0 {
      assert RemoveAt(order, 0) == order[1..];
    } else {
      assert RemoveAt(order, i) == [order[0]] + RemoveAt(order[1..], i - 1);
      if order[0] != e { AheadRemove(order[1..], e, i - 1); }
    }
  }

  /** Everyone else is ahead of the last element. */
  lemma {:induction false} AheadOfLast<T>(order: seq<T>, e: T)
    requires order != [] && order[|order| - 1] == e && NoDuplicates(order)
    ensures Ahead(order, e) == Members(order[..|order| - 1])
  {
    if |order| > 1 {
      AheadOfLast(order[1..], e);
      assert order[..|order| - 1] == [order[0]] + order[1..][..|order| - 2];
    }
  }
}
