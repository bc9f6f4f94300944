/**
 A bounded recency cache with a time to live: a map and a recency list under one lock. It is the
 shape of stalenessCache (mcpserver/staleness.go) and of the lookup and put halves of LivenessCache
 (drift/tribal.go), which differ only in what they store and in their limits.
 */
module TtlLru {
  import opened Basics
  import opened Recency

  datatype Slot<V> = Slot(value: V, checkedAt: int)

  datatype Cache<V> = Cache(entries: map<string, Slot<V>>, order: seq<string>)

  function Position(order: seq<string>, k: string): (i: nat)
    requires k in order
    ensures i < |order| && order[i] == k
  {
    if order[0] == k then 0 else Position(order[1..], k) + 1
  }

  function Unlinked(order: seq<string>, k: string): seq<string> {
    if k in order then RemoveAt(order, Position(order, k)) else order
  }

  function Touched(order: seq<string>, k: string): seq<string> {
    [k] + Unlinked(order, k)
  }

  /** A fresh slot is returned and moved to the front; an expired one is dropped. */
  function Got<V>(c: Cache<V>, k: string, now: int, ttl: int): (Cache<V>, Option<V>) {
    if k !in c.entries then (c, None)
    else if now - c.entries[k].checkedAt < ttl then (c.(order := Touched(c.order, k)), Some(c.entries[k].value))
    else (Cache(c.entries - {k}, Unlinked(c.order, k)), None)
  }

  function Evicted<V>(c: Cache<V>, max: nat): Cache<V> {
    if |c.order| >= max && c.order != [] then
      Cache(c.entries - {c.order[|c.order| - 1]}, c.order[..|c.order| - 1])
    else c
  }

  function Stored<V>(c: Cache<V>, k: string, v: V, now: int, max: nat): Cache<V> {
    var room := if k in c.entries then c else Evicted(c, max);
    Cache(room.entries[k := Slot(v, now)], Touched(room.order, k))
  }

  /** Map and list are in bijection, and bounded. */
  ghost predicate Agree<V>(c: Cache<V>, max: nat) {
    NoDuplicates(c.order) && (forall k :: k in c.order <==> k in c.entries) && |c.order| <= max
  }

  lemma UnlinkedMembers(order: seq<string>, k: string)
    requires NoDuplicates(order)
    ensures NoDuplicates(Unlinked(order, k))
    ensures forall x :: x in Unlinked(order, k) <==> x in order && x != k
    ensures |Unlinked(order, k)| == if k in order then |order| - 1 else |order|
  {
    if k in order {
      RemoveAtMembers(order, Position(order, k));
      forall x ensures x in Unlinked(order, k) <==> x in order && x != k {
        assert x in Members(Unlinked(order, k)) <==> x in Members(order) && x != k;
      }
    }
  }

  lemma TouchedMembers(order: seq<string>, k: string)
    requires NoDuplicates(order)
    ensures NoDuplicates(Touched(order, k))
    ensures forall x :: x in Touched(order, k) <==> x in order || x == k
    ensures |Touched(order, k)| == if k in order then |order| else |order| + 1
  {
    UnlinkedMembers(order, k);
    var rest := Unlinked(order, k);
    assert forall i :: 1 <= i < |[k] + rest| ==> ([k] + rest)[i] == rest[i - 1];
  }

  lemma GotAgrees<V>(c: Cache<V>, k: string, now: int, ttl: int, max: nat)
    requires Agree(c, max)
    ensures Agree(Got(c, k, now, ttl).0, max)
  {
    UnlinkedMembers(c.order, k);
    TouchedMembers(c.order, k);
  }

  lemma EvictedAgrees<V>(c: Cache<V>, max: nat)
    requires Agree(c, max) && max > 0
    ensures Agree(Evicted(c, max), max) && |Evicted(c, max).order| < max
    ensures forall k :: k in Evicted(c, max).entries ==> k in c.entries && Evicted(c, max).entries[k] == c.entries[k]
  {
    if |c.order| >= max && c.order != [] {
      var last := |c.order| - 1;
      forall x ensures x in c.order[..last] <==> x in c.order && x != c.order[last] {
        if x in c.order && x != c.order[last] {
          var i :| 0 <= i < |c.order| && c.order[i] == x;
          assert c.order[..last][i] == x;
        }
      }
    }
  }

  lemma StoredAgrees<V>(c: Cache<V>, k: string, v: V, now: int, max: nat)
    requires Agree(c, max) && max > 0
    ensures Agree(Stored(c, k, v, now, max), max)
  {
    EvictedAgrees(c, max);
    TouchedMembers(if k in c.entries then c.order else Evicted(c, max).order, k);
  }

  // ----- what is answered

  /** A lookup answers with the stored value while it is younger than its time to live, and with nothing else. */
  lemma GotIff<V>(c: Cache<V>, k: string, now: int, ttl: int)
    ensures Got(c, k, now, ttl).1.Some? <==> k in c.entries && now < c.entries[k].checkedAt + ttl
    ensures Got(c, k, now, ttl).1.Some? ==>
      && Got(c, k, now, ttl).1.value == c.entries[k].value && Got(c, k, now, ttl).0.entries == c.entries
      && Got(c, k, now, ttl).0.order != [] && Got(c, k, now, ttl).0.order[0] == k
    ensures Got(c, k, now, ttl).1.None? ==> Got(c, k, now, ttl).0.entries == c.entries - {k}
  {
  }

  /**
   A stored value is answered from then on until it is as old as its time to live; no other entry changes,
   and at most one goes: the least recent one of a full cache, for a new key.
   */
  lemma StoredThenGot<V>(c: Cache<V>, k: string, v: V, now: int, max: nat, later: int, ttl: int)
    requires Agree(c, max) && max > 0
    ensures var after := Stored(c, k, v, now, max);
      && Got(after, k, later, ttl).1 == (if later - now < ttl then Some(v) else None)
      && after.order[0] == k
      && (forall q :: q != k && q in after.entries ==> q in c.entries && after.entries[q] == c.entries[q])
      && (forall q :: q in c.entries && q !in after.entries ==>
            k !in c.entries && |c.order| == max && q == c.order[max - 1])
      && (k !in c.entries && |c.order| == max ==> c.order[max - 1] !in after.entries)
  {
  }

  // ----- survival

  ghost predicate Kept<V>(c: Cache<V>, k: string, slot: Slot<V>, others: set<string>) {
    k in c.entries && c.entries[k] == slot && Ahead(c.order, k) <= others
  }

  datatype Op<V> = Get(key: string, now: int) | Put(key: string, value: V, now: int)

  function AfterOp<V>(c: Cache<V>, op: Op<V>, ttl: int, max: nat): Cache<V> {
    match op
    case Get(k, now) => Got(c, k, now, ttl).0
    case Put(k, v, now) => Stored(c, k, v, now, max)
  }

  function AfterOps<V>(c: Cache<V>, ops: seq<Op<V>>, ttl: int, max: nat): Cache<V>
    decreases |ops|
  {
    if ops == [] then c else AfterOps(AfterOp(c, ops[0], ttl, max), ops[1..], ttl, max)
  }

  lemma TouchOther(order: seq<string>, k: string, x: string)
    requires x != k
    ensures Ahead(Touched(order, x), k) <= Ahead(order, k) + {x}
    ensures Ahead(Unlinked(order, x), k) <= Ahead(order, k)
  {
    assert Touched(order, x)[1..] == Unlinked(order, x);
    if x in order { AheadRemove(order, k, Position(order, x)); }
  }

  lemma EvictionSpares<V>(c: Cache<V>, k: string, slot: Slot<V>, others: set<string>, x: string, max: nat)
    requires Agree(c, max) && max > 0 && Kept(c, k, slot, others)
    requires x in others && x !in c.entries && |others| < max
    ensures Kept(Evicted(c, max), k, slot, others)
  {
    if |c.order| >= max {
      var last := |c.order| - 1;
      if c.order[last] == k {
        AheadOfLast(c.order, k);
        LengthOfMembers(c.order[..last]);
        assert x !in Members(c.order[..last]) by { assert forall y :: y in c.order[..last] ==> y in c.order; }
        SubsetSize(Members(c.order[..last]) + {x}, others);
        assert false;
      }
      assert c.order[..last] == RemoveAt(c.order, last);
      AheadRemove(c.order, k, last);
    }
  }

  lemma OpSpares<V>(c: Cache<V>, k: string, slot: Slot<V>, others: set<string>, op: Op<V>, ttl: int, max: nat)
    requires Agree(c, max) && max > 0 && Kept(c, k, slot, others) && |others| < max && k !in others
    requires if op.key == k then op.Get? && op.now - slot.checkedAt < ttl else op.key in others
    ensures Kept(AfterOp(c, op, ttl, max), k, slot, others)
  {
    if op.key != k {
      match op
      case Get(x, _) => TouchOther(c.order, k, x);
      case Put(x, _, _) =>
        if x !in c.entries { EvictionSpares(c, k, slot, others, x, max); }
        TouchOther(if x in c.entries then c.order else Evicted(c, max).order, k, x);
    }
  }

  /**
   A stored value is still returned within its time to live while fewer than `max` distinct other
   keys are looked up or stored after it.
   */
  lemma {:induction false} StoredSurvives<V>(c: Cache<V>, k: string, slot: Slot<V>, others: set<string>,
                                             ops: seq<Op<V>>, ttl: int, max: nat, now: int)
    requires Agree(c, max) && max > 0 && Kept(c, k, slot, others) && |others| < max && k !in others
    requires forall op :: op in ops ==>
      if op.key == k then op.Get? && op.now - slot.checkedAt < ttl else op.key in others
    requires now - slot.checkedAt < ttl
    ensures Got(AfterOps(c, ops, ttl, max), k, now, ttl).1 == Some(slot.value)
    decreases |ops|
  {
    if ops != [] {
      assert ops[0] in ops && forall op :: op in ops[1..] ==> op in ops;
      OpSpares(c, k, slot, others, ops[0], ttl, max);
      match ops[0] {
        case Get(x, t) => GotAgrees(c, x, t, ttl, max);
        case Put(x, v, t) => StoredAgrees(c, x, v, t, max);
      }
      StoredSurvives(AfterOp(c, ops[0], ttl, max), k, slot, others, ops[1..], ttl, max, now);
    }
  }

  class BoundedCache<V> {
    const max: nat
    const ttl: int
    var entries: map<string, Slot<V>>
    var order: seq<string>

    ghost function View(): Cache<V>
      reads this
    {
      Cache(entries, order)
    }

    ghost predicate Valid()
      reads this
    {
      max > 0 && Agree(View(), max)
    }

    constructor (max: nat, ttl: int)
      requires max > 0
      ensures Valid() && View() == Cache(map[], []) && this.max == max && this.ttl == ttl
    {
      this.max, this.ttl := max, ttl;
      entries, order := map[], [];
    }

    method Get(k: string, now: int) returns (r: Option<V>)
      requires Valid()
      modifies this
      ensures Valid() && (View(), r) == Got(old(View()), k, now, ttl)
    {
      GotAgrees(View(), k, now, ttl, max);
      if k !in entries { return None; }
      var slot := entries[k];
      if now - slot.checkedAt >= ttl {
        order := Unlinked(order, k);
        entries := entries - {k};
        return None;
      }
      order := Touched(order, k);
      r := Some(slot.value);
    }

    method Put(k: string, v: V, now: int)
      requires Valid()
      modifies this
      ensures Valid() && View() == Stored(old(View()), k, v, now, max)
    {
      StoredAgrees(View(), k, v, now, max);
      if k in entries {
        entries := entries[k := Slot(v, now)];
        order := Touched(order, k);
        return;
      }
      if |order| >= max {
        var back := order[|order| - 1];
        order := order[..|order| - 1];
        entries := entries - {back};
      }
      entries := entries[k := Slot(v, now)];
      order := Touched(order, k);
    }
  }
}
