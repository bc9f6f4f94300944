/** The content-hash cache (cache/sqlite.go). One table row per (repo, path). */
module CacheStore {
  import opened AgeOrder
  import opened Basics

  datatype Key = Key(repo: string, path: string)

  datatype Row = Row(contentHash: string, extractorVersion: string, grammarVersion: string,
                     lastIndexed: int, sizeBytes: nat, deleted: bool)

  type Table = map<Key, Row>

  /** The composite key that an extraction must match to be skipped. */
  datatype Stamp = Stamp(contentHash: string, extractorVersion: string, grammarVersion: string)

  function StampOf(r: Row): Stamp {
    Stamp(r.contentHash, r.extractorVersion, r.grammarVersion)
  }

  predicate IsHit(t: Table, k: Key, want: Stamp) {
    k in t && !t[k].deleted && StampOf(t[k]) == want
  }

  function Tombstoned(t: Table, k: Key): Table {
    if k in t then t[k := t[k].(deleted := true)] else t
  }

  /** The table after an insert-or-replace: the tombstone of the row, if any, is cleared. */
  function WithEntry(t: Table, k: Key, want: Stamp, now: int, size: nat): Table {
    t[k := Row(want.contentHash, want.extractorVersion, want.grammarVersion, now, size, false)]
  }

  /** Every row that `after` has and can hit was there, alive and the same, in `before`. */
  ghost predicate OnlyLosesHits(before: Table, after: Table) {
    forall k, want :: IsHit(after, k, want) ==> IsHit(before, k, want)
  }

  function Reconciled(t: Table, repo: string, current: map<string, string>): Table {
    map k | k in t :: if k.repo == repo && !t[k].deleted && k.path !in current then t[k].(deleted := true) else t[k]
  }

  /** A live row that reconciling tombstones. */
  predicate Unlisted(t: Table, repo: string, current: map<string, string>, k: Key) {
    k in t && k.repo == repo && !t[k].deleted && k.path !in current
  }

  predicate NeedsExtraction(t: Table, repo: string, current: map<string, string>, p: string) {
    p in current && !(Key(repo, p) in t && !t[Key(repo, p)].deleted && t[Key(repo, p)].contentHash == current[p])
  }

  // ----- what hits, after each operation

  /** After a Put its key hits for exactly the stamp that was put -- hash and both versions; other keys as before. */
  lemma PutHitsIff(t: Table, k: Key, want: Stamp, now: int, size: nat, q: Key, w: Stamp)
    ensures IsHit(WithEntry(t, k, want, now, size), q, w) <==> if q == k then w == want else IsHit(t, q, w)
  {
  }

  /** A tombstone, and nothing but a tombstone, takes a hit away. */
  lemma TombstoneHitsIff(t: Table, k: Key, q: Key, w: Stamp)
    ensures IsHit(Tombstoned(t, k), q, w) <==> q != k && IsHit(t, q, w)
    ensures Tombstoned(t, k).Keys == t.Keys
  {
  }

  /** Reconciling keeps exactly the hits of other repositories and of listed paths. */
  lemma ReconciledHitsIff(t: Table, repo: string, current: map<string, string>, q: Key, w: Stamp)
    ensures IsHit(Reconciled(t, repo, current), q, w) <==> IsHit(t, q, w) && (q.repo == repo ==> q.path in current)
  {
  }

  /** A listed path needs no extraction exactly when it hits for its hash under some versions. */
  lemma NeedsExtractionIff(t: Table, repo: string, current: map<string, string>, p: string)
    requires p in current
    ensures NeedsExtraction(t, repo, current, p) <==>
      !exists ext, gram :: IsHit(t, Key(repo, p), Stamp(current[p], ext, gram))
  {
    var k := Key(repo, p);
    if k in t && !t[k].deleted && t[k].contentHash == current[p] {
      assert IsHit(t, k, Stamp(current[p], t[k].extractorVersion, t[k].grammarVersion));
    }
  }

  // ----- total size over the rows of a table

  function TotalOf(t: Table, ks: seq<Key>): nat
    requires forall k :: k in ks ==> k in t
  {
    if ks == [] then 0 else t[ks[0]].sizeBytes + TotalOf(t, ks[1..])
  }

  /** `ks` lists the keys of `t`, each once. */
  ghost predicate Enumerates(ks: seq<Key>, s: set<Key>) {
    NoDuplicates(ks) && Members(ks) == s
  }

  lemma {:induction false} TotalSplit(t: Table, a: seq<Key>, b: seq<Key>)
    requires forall k :: k in a + b ==> k in t
    ensures (forall k :: k in a ==> k in t) && (forall k :: k in b ==> k in t)
    ensures TotalOf(t, a + b) == TotalOf(t, a) + TotalOf(t, b)
  {
    assert forall k :: k in a ==> k in a + b;
    assert forall k :: k in b ==> k in a + b;
    if a == [] {
      assert a + b == b;
    } else {
      assert (a + b)[1..] == a[1..] + b;
      TotalSplit(t, a[1..], b);
    }
  }

  lemma TotalWithoutOne(t: Table, b: seq<Key>, i: nat)
    requires i < |b| && forall k :: k in b ==> k in t
    ensures forall k :: k in RemoveAt(b, i) ==> k in t
    ensures TotalOf(t, b) == t[b[i]].sizeBytes + TotalOf(t, RemoveAt(b, i))
  {
    var tail := [b[i]] + b[i + 1..];
    assert b == b[..i] + tail;
    TotalSplit(t, b[..i], tail);
    TotalSplit(t, b[..i], b[i + 1..]);
    assert tail[1..] == b[i + 1..];
  }

  /** The sum does not depend on the order in which the rows are listed. */
  lemma {:induction false} TotalOrderFree(t: Table, a: seq<Key>, b: seq<Key>)
    requires NoDuplicates(a) && NoDuplicates(b) && Members(a) == Members(b)
    requires (forall k :: k in a ==> k in t) && forall k :: k in b ==> k in t
    ensures TotalOf(t, a) == TotalOf(t, b)
    decreases |a|
  {
    if a == [] {
      MembersEmpty(b);
    } else {
      assert a[0] in Members(b);
      var i: nat :| i < |b| && b[i] == a[0];
      TotalWithoutOne(t, b, i);
      RemoveAtMembers(a, 0);
      RemoveAtMembers(b, i);
      assert RemoveAt(a, 0) == a[1..];
      TotalOrderFree(t, a[1..], RemoveAt(b, i));
    }
  }

  // ----- what a Put does to the size

  ghost predicate IsTotal(t: Table, total: int) {
    forall ks :: Enumerates(ks, t.Keys) && (forall k :: k in ks ==> k in t) ==> total == TotalOf(t, ks)
  }

  ghost predicate WithinCap(t: Table, cap: int) {
    forall ks :: Enumerates(ks, t.Keys) && (forall k :: k in ks ==> k in t) ==> TotalOf(t, ks) <= cap
  }

  function SizeAt(t: Table, k: Key): nat { if k in t then t[k].sizeBytes else 0 }

  /** The new size replaces the old one. */
  lemma PutTotal(t: Table, k: Key, want: Stamp, now: int, size: nat, total: int)
    requires IsTotal(t, total)
    ensures IsTotal(WithEntry(t, k, want, now, size), total - SizeAt(t, k) + size)
  {
    var u := WithEntry(t, k, want, now, size);
    forall ks | Enumerates(ks, u.Keys) && (forall x :: x in ks ==> x in u)
      ensures total - SizeAt(t, k) + size == TotalOf(u, ks)
    {
      assert k in Members(ks);
      var i: nat :| i < |ks| && ks[i] == k;
      var others := RemoveAt(ks, i);
      RemoveAtMembers(ks, i);
      TotalWithoutOne(u, ks, i);
      forall x | x in others ensures x in t && x in u && t[x] == u[x] { assert x in Members(others); }
      TotalAgrees(t, u, others);
      if k in t {
        assert u.Keys == t.Keys;
        TotalWithoutOne(t, ks, i);
      } else {
        assert Members(others) == t.Keys;
      }
    }
  }

  /**
   The interface says that an insertion over the cap evicts; this store does not. The table is within the
   cap after a Put if and only if the new size fits beside the rows that stay.
   */
  lemma PutWithinCapIff(t: Table, k: Key, want: Stamp, now: int, size: nat, total: int, cap: int)
    requires IsTotal(t, total)
    ensures WithinCap(WithEntry(t, k, want, now, size), cap) <==> total - SizeAt(t, k) + size <= cap
  {
    var u := WithEntry(t, k, want, now, size);
    PutTotal(t, k, want, now, size, total);
    var dead := AgeOrderExists(u, true);
    var live := AgeOrderExists(u, false);
    BothOrdersEnumerate(u, dead, live);
  }

  lemma OverCap(t: Table, cap: int, total: int)
    requires IsTotal(t, total) && total > cap
    ensures !WithinCap(t, cap)
  {
    var dead := AgeOrderExists(t, true);
    var live := AgeOrderExists(t, false);
    BothOrdersEnumerate(t, dead, live);
  }

  // ----- what one eviction must remove

  /** Ascending `last_indexed`, the order both eviction queries ask for. */
  ghost predicate OldestFirst(t: Table, ks: seq<Key>)
    requires forall k :: k in ks ==> k in t
  {
    forall i, j :: 0 <= i < j < |ks| ==> t[ks[i]].lastIndexed <= t[ks[j]].lastIndexed
  }

  ghost predicate ByAge(t: Table, ks: seq<Key>, deleted: bool) {
    && Enumerates(ks, set k | k in t && t[k].deleted == deleted)
    && (forall k :: k in ks ==> k in t)
    && OldestFirst(t, ks)
  }

  function Without(t: Table, ks: seq<Key>): Table {
    map k | k in t && k !in ks :: t[k]
  }

  /**
   Starting from `total`, the first `n` of `order` go, and no shorter prefix frees enough; either
   they free enough or there is nothing more to take.
   */
  ghost predicate Shortest(t: Table, order: seq<Key>, total: int, cap: int, n: nat)
    requires n <= |order| && forall k :: k in order ==> k in t
  {
    && (n < |order| ==> total - TotalOf(t, order[..n]) <= cap)
    && (forall m :: 0 <= m < n ==> total - TotalOf(t, order[..m]) > cap)
  }

  /** The first `evicted` keys of tombstones-then-live, each by age, are gone; nothing else changed. */
  ghost predicate EvictedAlong(t: Table, t': Table, cap: int, evicted: nat, dead: seq<Key>, live: seq<Key>) {
    && ByAge(t, dead, true) && ByAge(t, live, false)
    && evicted <= |dead + live| && (forall k :: k in dead + live ==> k in t)
    && Shortest(t, dead + live, TotalOf(t, dead + live), cap, evicted)
    && t' == Without(t, (dead + live)[..evicted])
  }

  ghost predicate Evicted(t: Table, t': Table, cap: int, evicted: nat) {
    exists dead, live :: EvictedAlong(t, t', cap, evicted, dead, live)
  }

  function AgeIn(t: Table): Key -> int {
    k => if k in t then t[k].lastIndexed else 0
  }

  lemma AgeOrderExists(t: Table, deleted: bool) returns (ks: seq<Key>)
    ensures ByAge(t, ks, deleted)
  {
    var want := set k | k in t && t[k].deleted == deleted;
    ks := [];
    var todo := want;
    while todo != {}
      invariant todo <= want && (forall x :: x in ks <==> x in want && x !in todo)
      invariant (forall x :: x in ks ==> x in t) && Ascending(ks, AgeIn(t)) && NoDuplicates(ks)
      decreases todo
    {
      assert exists k :: k in todo;
      var k :| k in todo;
      ks := InsertByAge(ks, k, AgeIn(t));
      todo := todo - {k};
    }
    assert Members(ks) == want;
  }

  lemma PrefixStep(t: Table, order: seq<Key>, n: nat)
    requires n < |order| && forall k :: k in order ==> k in t
    ensures TotalOf(t, order[..n + 1]) == TotalOf(t, order[..n]) + t[order[n]].sizeBytes
  {
    assert order[..n + 1] == order[..n] + [order[n]];
    forall k | k in order[..n + 1] ensures k in t { assert k in order; }
    TotalSplit(t, order[..n], [order[n]]);
  }

  lemma {:induction false} TotalAgrees(t: Table, u: Table, ks: seq<Key>)
    requires forall k :: k in ks ==> k in t && k in u && t[k] == u[k]
    ensures TotalOf(t, ks) == TotalOf(u, ks)
  {
    if ks != [] { TotalAgrees(t, u, ks[1..]); }
  }

  lemma BothOrdersEnumerate(t: Table, dead: seq<Key>, live: seq<Key>)
    requires ByAge(t, dead, true) && ByAge(t, live, false)
    ensures Enumerates(dead + live, t.Keys) && forall k :: k in dead + live ==> k in t
  {
    forall k ensures k in t <==> k in Members(dead + live) {
      assert k in dead <==> k in Members(dead);
      assert k in live <==> k in Members(live);
    }
    assert Members(dead + live) == t.Keys;
    forall i, j | 0 <= i < |dead| && 0 <= j < |live| ensures dead[i] != live[j] {
      assert dead[i] in Members(dead) && live[j] in Members(live);
    }
  }

  lemma TotalOfAll(t: Table, dead: seq<Key>, live: seq<Key>, total: int)
    requires ByAge(t, dead, true) && ByAge(t, live, false)
    requires IsTotal(t, total)
    ensures (forall k :: k in dead + live ==> k in t) && total == TotalOf(t, dead + live)
  {
    BothOrdersEnumerate(t, dead, live);
  }

  lemma EvictedInPhaseOne(t: Table, cap: int, dead: seq<Key>, live: seq<Key>, n: nat, total: int)
    requires ByAge(t, dead, true) && ByAge(t, live, false) && n <= |dead|
    requires IsTotal(t, total) && Shortest(t, dead, total, cap, n) && total - TotalOf(t, dead[..n]) <= cap
    ensures Evicted(t, Without(t, dead[..n]), cap, n)
  {
    TotalOfAll(t, dead, live, total);
    assert forall m :: 0 <= m <= n ==> (dead + live)[..m] == dead[..m];
    assert EvictedAlong(t, Without(t, dead[..n]), cap, n, dead, live);
  }

  /** What phase one leaves alone is, by age, what phase two takes from. */
  lemma SurvivorsByAge(t: Table, dead: seq<Key>, live: seq<Key>)
    requires ByAge(t, dead, true) && ByAge(Without(t, dead), live, false)
    ensures ByAge(t, live, false)
  {
    var u := Without(t, dead);
    forall k ensures k in (set x | x in u && u[x].deleted == false) <==> k in t && t[k].deleted == false {
      assert k in dead <==> k in Members(dead);
    }
    assert (set x | x in u && u[x].deleted == false) == (set x | x in t && t[x].deleted == false);
  }

  lemma PhaseTwoPrefix(t: Table, dead: seq<Key>, live: seq<Key>, i: nat)
    requires ByAge(t, dead, true) && ByAge(Without(t, dead), live, false) && i <= |live|
    ensures (dead + live)[..|dead| + i] == dead + live[..i]
    ensures (forall k :: k in (dead + live)[..|dead| + i] ==> k in t) &&
      (forall k :: k in live[..i] ==> k in Without(t, dead))
    ensures TotalOf(t, (dead + live)[..|dead| + i]) == TotalOf(t, dead) + TotalOf(Without(t, dead), live[..i])
  {
    assert (dead + live)[..|dead| + i] == dead + live[..i];
    forall k | k in live[..i] ensures k in Without(t, dead) { assert k in live; }
    TotalSplit(t, dead, live[..i]);
    TotalAgrees(t, Without(t, dead), live[..i]);
  }

  lemma WithoutTwice(t: Table, a: seq<Key>, b: seq<Key>)
    ensures Without(Without(t, a), b) == Without(t, a + b)
  {
  }

  lemma PhaseTwoShortest(t: Table, cap: int, dead: seq<Key>, live: seq<Key>, m: nat, total: int)
    requires ByAge(t, dead, true) && ByAge(Without(t, dead), live, false) && m <= |live|
    requires forall k :: k in dead + live ==> k in t
    requires Shortest(t, dead, total, cap, |dead|) && total - TotalOf(t, dead) > cap
    requires Shortest(Without(t, dead), live, total - TotalOf(t, dead), cap, m)
    ensures Shortest(t, dead + live, total, cap, |dead| + m)
  {
    PhaseTwoPrefix(t, dead, live, m);
    forall i | 0 <= i < |dead| + m ensures total - TotalOf(t, (dead + live)[..i]) > cap {
      PrefixTooShort(t, cap, dead, live, m, total, i);
    }
  }

  lemma PrefixTooShort(t: Table, cap: int, dead: seq<Key>, live: seq<Key>, m: nat, total: int, i: nat)
    requires ByAge(t, dead, true) && ByAge(Without(t, dead), live, false) && i < |dead| + m <= |dead + live|
    requires forall k :: k in dead + live ==> k in t
    requires Shortest(t, dead, total, cap, |dead|)
    requires Shortest(Without(t, dead), live, total - TotalOf(t, dead), cap, m)
    ensures total - TotalOf(t, (dead + live)[..i]) > cap
  {
    if i < |dead| {
      assert (dead + live)[..i] == dead[..i];
    } else {
      PhaseTwoPrefix(t, dead, live, i - |dead|);
    }
  }

  lemma EvictedInPhaseTwo(t: Table, cap: int, dead: seq<Key>, live: seq<Key>, m: nat, total: int)
    requires ByAge(t, dead, true) && ByAge(Without(t, dead), live, false) && m <= |live|
    requires IsTotal(t, total) && Shortest(t, dead, total, cap, |dead|) && total - TotalOf(t, dead) > cap
    requires Shortest(Without(t, dead), live, total - TotalOf(t, dead), cap, m)
    ensures Evicted(t, Without(Without(t, dead), live[..m]), cap, |dead| + m)
  {
    SurvivorsByAge(t, dead, live);
    TotalOfAll(t, dead, live, total);
    PhaseTwoShortest(t, cap, dead, live, m, total);
    PhaseTwoPrefix(t, dead, live, m);
    WithoutTwice(t, dead, live[..m]);
    assert EvictedAlong(t, Without(Without(t, dead), live[..m]), cap, |dead| + m, dead, live);
  }

  /** A table without listed keys counts and weighs what the rest of the list does. */
  ghost predicate TakenAlong(t: Table, t': Table, done: nat, dead: seq<Key>, live: seq<Key>) {
    ByAge(t, dead, true) && ByAge(t, live, false) && done <= |dead + live| && t' == Without(t, (dead + live)[..done])
  }

  /**
   How an eviction ended: the sum (0), the query of the tombstones (1) or that of the live rows (2) failed, a
   scan failed after `taken` rows of its phase were chosen, or a delete failed with `kept` chosen rows of its
   phase still there.
   */
  datatype Fault = NoFault | QueryFailed(phase: nat) | ScanFailed(taken: nat) | DeleteFailed(kept: nat)

  /** The statements of an eviction that fail: its queries, and the scan or the delete of a row. */
  datatype EvictFaults = EvictFaults(sum: bool, tombstones: bool, live: bool, scan: Key -> bool, delete: Key -> bool)

  /** The way an eviction ended is the fault of a statement that failed. */
  ghost predicate Blames(end: Fault, f: EvictFaults) {
    match end
    case NoFault => !f.sum
    case QueryFailed(phase) => (phase == 0 && f.sum) || (phase == 1 && f.tombstones) || (phase == 2 && f.live)
    case ScanFailed(_) => exists k :: f.scan(k)
    case DeleteFailed(_) => exists k :: f.delete(k)
  }

  /** No statement fails that an eviction needs which removes these rows. */
  ghost predicate Spared(before: Table, after: Table, f: EvictFaults) {
    && (forall k :: k in before && k !in after ==> !f.scan(k) && !f.delete(k) && !f.tombstones)
    && (forall k :: k in before && k !in after && !before[k].deleted ==> !f.live)
  }

  lemma SparedTwice(before: Table, between: Table, after: Table, f: EvictFaults)
    requires Spared(before, between, f) && !f.tombstones && after.Keys <= between.Keys
    requires forall k :: k in between && k !in after ==> !f.scan(k) && !f.delete(k) && !f.live
    ensures Spared(before, after, f)
  {
  }

  lemma DeadAreSpared(before: Table, after: Table, dead: seq<Key>, done: nat, f: EvictFaults)
    requires ByAge(before, dead, true) && done <= |dead| && after == Without(before, dead[..done]) && !f.tombstones
    requires forall i :: 0 <= i < done ==> !f.scan(dead[i]) && !f.delete(dead[i])
    ensures Spared(before, after, f)
  {
    forall k | k in before && k !in after ensures !f.scan(k) && !f.delete(k) && before[k].deleted {
      var i :| 0 <= i < done && dead[..done][i] == k;
      assert dead[i] == k && k in Members(dead);
    }
  }

  /** Rows that were counted but not deleted. */
  function Lost(f: Fault): nat {
    match f
    case ScanFailed(taken) => taken
    case DeleteFailed(kept) => kept
    case _ => 0
  }

  /** A delete failed, or a scan did after a row had been chosen. */
  predicate Overcounts(f: Fault) { f.DeleteFailed? || (f.ScanFailed? && f.taken > 0) }

  /** A front of tombstones-then-live is gone, nothing else changed, and what the fault lost is counted too. */
  ghost predicate PartlyEvicted(t: Table, t': Table, evicted: nat, f: Fault) {
    && (f.DeleteFailed? ==> f.kept > 0)
    && exists dead, live, done: nat :: done + Lost(f) == evicted && TakenAlong(t, t', done, dead, live)
  }

  lemma NothingEvicted(t: Table)
    ensures PartlyEvicted(t, t, 0, QueryFailed(0)) && PartlyEvicted(t, t, 0, QueryFailed(1))
  {
    var dead := AgeOrderExists(t, true);
    var live := AgeOrderExists(t, false);
    assert Without(t, (dead + live)[..0]) == t;
    assert TakenAlong(t, t, 0, dead, live);
  }

  lemma PartlyInPhaseOne(t: Table, dead: seq<Key>, live: seq<Key>, done: nat, n: nat, f: Fault)
    requires ByAge(t, dead, true) && ByAge(t, live, false) && done <= |dead| && n == done + Lost(f)
    requires f.DeleteFailed? ==> f.kept > 0
    ensures PartlyEvicted(t, Without(t, dead[..done]), n, f)
  {
    assert (dead + live)[..done] == dead[..done];
    assert TakenAlong(t, Without(t, dead[..done]), done, dead, live);
  }

  lemma PartlyInPhaseTwo(t: Table, dead: seq<Key>, live: seq<Key>, done: nat, n: nat, f: Fault)
    requires ByAge(t, dead, true) && ByAge(Without(t, dead), live, false) && done <= |live|
    requires n == |dead| + done + Lost(f) && (f.DeleteFailed? ==> f.kept > 0)
    ensures PartlyEvicted(t, Without(Without(t, dead), live[..done]), n, f)
  {
    SurvivorsByAge(t, dead, live);
    WithoutTwice(t, dead, live[..done]);
    assert (dead + live)[..|dead| + done] == dead + live[..done];
    assert TakenAlong(t, Without(Without(t, dead), live[..done]), |dead| + done, dead, live);
  }

  /**
   Even a failed eviction only loses hits. What it reports is the number of rows it removed if and only if
   no delete failed, and no scan did after a row had been chosen.
   */
  lemma FailedEvictionCountsIff(t: Table, t': Table, evicted: nat, f: Fault)
    requires PartlyEvicted(t, t', evicted, f)
    ensures OnlyLosesHits(t, t') && |t'| <= |t|
    ensures evicted == |t| - |t'| + Lost(f)
    ensures evicted == |t| - |t'| <==> !Overcounts(f)
  {
    var dead, live, done: nat :| done + Lost(f) == evicted && TakenAlong(t, t', done, dead, live);
    var order := dead + live;
    BothOrdersEnumerate(t, dead, live);
    WithoutPrefix(t, order, done);
    LengthOfMembers(order);
    LengthOfMembers(order[done..]);
    assert |t| == |t.Keys| && |t'| == |t'.Keys|;
  }

  /** The failing input: the delete of the only row, a tombstone over the cap, fails, and one row is reported. */
  lemma FailedDeleteOverReports(k: Key, r: Row)
    requires r.deleted
    ensures var t := map[k := r]; PartlyEvicted(t, t, 1, DeleteFailed(1)) && Overcounts(DeleteFailed(1))
  {
    var t := map[k := r];
    var dead, live: seq<Key> := [k], [];
    assert Members(dead) == (set x | x in t && t[x].deleted == true);
    assert Members(live) == (set x | x in t && t[x].deleted == false);
    PartlyInPhaseOne(t, dead, live, 0, 1, DeleteFailed(1));
    assert Without(t, dead[..0]) == t;
  }

  lemma WithoutPrefix(t: Table, order: seq<Key>, n: nat)
    requires Enumerates(order, t.Keys) && (forall k :: k in order ==> k in t) && n <= |order|
    ensures Enumerates(order[n..], Without(t, order[..n]).Keys)
    ensures forall k :: k in order[n..] ==> k in Without(t, order[..n])
    ensures TotalOf(Without(t, order[..n]), order[n..]) == TotalOf(t, order) - TotalOf(t, order[..n])
  {
    var u := Without(t, order[..n]);
    assert order == order[..n] + order[n..];
    forall k ensures k in u <==> k in order[n..] {
      assert k in t <==> k in Members(order);
      assert k in order <==> k in order[..n] || k in order[n..];
    }
    assert Members(order[n..]) == u.Keys;
    TotalSplit(t, order[..n], order[n..]);
    TotalAgrees(t, u, order[n..]);
  }

  predicate Younger(t: Table, k: Key, age: int)
    requires k in t
  {
    !t[k].deleted && age <= t[k].lastIndexed
  }

  /**
   Eviction ends within a non-negative cap, removes exactly as many rows as it reports, takes no
   live row while a tombstone remains, takes no live row younger than one it keeps, and never
   makes anything hit.
   */
  lemma EvictionOrdered(t: Table, t': Table, cap: int, n: nat)
    requires Evicted(t, t', cap, n)
    ensures |t'| + n == |t|
    ensures cap >= 0 ==> WithinCap(t', cap)
    ensures forall j, k :: j in t && j !in t' && !t[j].deleted && k in t' ==> Younger(t', k, t[j].lastIndexed)
    ensures OnlyLosesHits(t, t')
  {
    var dead, live :| EvictedAlong(t, t', cap, n, dead, live);
    var order := dead + live;
    BothOrdersEnumerate(t, dead, live);
    WithoutPrefix(t, order, n);
    LengthOfMembers(order);
    LengthOfMembers(order[n..]);
    assert |t| == |t.Keys| && |t'| == |t'.Keys|;
    forall ks | cap >= 0 && Enumerates(ks, t'.Keys) && (forall k :: k in ks ==> k in t')
      ensures TotalOf(t', ks) <= cap
    {
      TotalOrderFree(t', order[n..], ks);
      if n == |order| { assert order[..n] == order; }
    }
    KeptAfterTaken(t, dead, live, n);
  }

  lemma TooFewTaken(t: Table, order: seq<Key>, m: nat, cap: int)
    requires Enumerates(order, t.Keys) && (forall k :: k in order ==> k in t) && m <= |order|
    requires TotalOf(t, order) - TotalOf(t, order[..m]) > cap
    ensures !WithinCap(Without(t, order[..m]), cap)
  {
    WithoutPrefix(t, order, m);
  }

  lemma MinimalAlong(t: Table, t': Table, cap: int, n: nat, dead: seq<Key>, live: seq<Key>)
    requires EvictedAlong(t, t', cap, n, dead, live) && n > 0
    ensures var k := (dead + live)[n - 1]; k in t && k !in t' && !WithinCap(t'[k := t[k]], cap)
  {
    var order := dead + live;
    BothOrdersEnumerate(t, dead, live);
    TooFewTaken(t, order, n - 1, cap);
    OneBack(t, order, n);
    assert order[..n][n - 1] == order[n - 1];
  }

  /** Eviction takes no row more than it must: with the last one back the table is over the cap. */
  lemma EvictionMinimal(t: Table, t': Table, cap: int, n: nat)
    requires Evicted(t, t', cap, n) && n > 0
    ensures exists k :: k in t && k !in t' && !WithinCap(t'[k := t[k]], cap)
  {
    var dead, live :| EvictedAlong(t, t', cap, n, dead, live);
    MinimalAlong(t, t', cap, n, dead, live);
  }

  lemma OneBack(t: Table, order: seq<Key>, n: nat)
    requires 0 < n <= |order| && NoDuplicates(order) && forall k :: k in order ==> k in t
    ensures Without(t, order[..n])[order[n - 1] := t[order[n - 1]]] == Without(t, order[..n - 1])
  {
    var k := order[n - 1];
    assert order[..n] == order[..n - 1] + [k];
    assert k !in order[..n - 1];
  }

  /** Later in the order means alive and younger, once a live key has been passed. */
  lemma LaterIsYounger(t: Table, dead: seq<Key>, live: seq<Key>, a: nat, b: nat)
    requires ByAge(t, dead, true) && ByAge(t, live, false) && a < b < |dead + live|
    requires (forall k :: k in dead + live ==> k in t) && !t[(dead + live)[a]].deleted
    ensures Younger(t, (dead + live)[b], t[(dead + live)[a]].lastIndexed)
  {
    forall i | 0 <= i < |dead| ensures t[dead[i]].deleted { assert dead[i] in Members(dead); }
    forall i | 0 <= i < |live| ensures !t[live[i]].deleted { assert live[i] in Members(live); }
  }

  /** A kept key comes later in the order than a taken one. */
  lemma KeptAfterTaken(t: Table, dead: seq<Key>, live: seq<Key>, n: nat)
    requires ByAge(t, dead, true) && ByAge(t, live, false) && n <= |dead + live|
    ensures forall j, k ::
      j in t && j in (dead + live)[..n] && !t[j].deleted && k in t && k !in (dead + live)[..n]
      ==> Younger(t, k, t[j].lastIndexed)
  {
    var order := dead + live;
    BothOrdersEnumerate(t, dead, live);
    forall j, k | j in t && j in order[..n] && !t[j].deleted && k in t && k !in order[..n]
      ensures Younger(t, k, t[j].lastIndexed)
    {
      var a :| 0 <= a < n && order[..n][a] == j;
      assert k in Members(order);
      var b :| 0 <= b < |order| && order[b] == k;
      assert forall i :: 0 <= i < n ==> order[..n][i] == order[i];
      LaterIsYounger(t, dead, live, a, b);
    }
  }

  class SQLiteStore {
    var rows: Table
    const capBytes: int

    constructor (capBytes: int)
      ensures rows == map[] && this.capBytes == capBytes
    {
      this.capBytes := capBytes;
      rows := map[];
    }

    /** Whether a live row matches the composite key; a failing query is an error. */
    method Hit(k: Key, want: Stamp, fails: bool) returns (r: Result<bool>)
      ensures r == if fails then Err else Ok(IsHit(rows, k, want))
    {
      if fails { return Err; }
      r := Ok(k in rows && !rows[k].deleted && StampOf(rows[k]) == want);
    }

    /** Insert or replace; clears the tombstone. */
    method Put(k: Key, want: Stamp, now: int, size: nat, fails: bool) returns (r: Result<()>)
      modifies this
      ensures r == if fails then Err else Ok(())
      ensures rows == if fails then old(rows) else WithEntry(old(rows), k, want, now, size)
    {
      if fails { return Err; }
      rows := WithEntry(rows, k, want, now, size);
      r := Ok(());
    }

    method MarkDeleted(k: Key, fails: bool) returns (r: Result<()>)
      modifies this
      ensures r == if fails then Err else Ok(())
      ensures rows == if fails then old(rows) else Tombstoned(old(rows), k)
    {
      if fails { return Err; }
      if k in rows { rows := rows[k := rows[k].(deleted := true)]; }
      r := Ok(());
    }

    /**
     Tombstone the live rows of a repository whose path is not listed; report the listed paths that
     are new or whose hash differs. A failing statement leaves some of them tombstoned.
     */
    method Reconcile(repo: string, current: map<string, string>, queryFails: bool, markFails: Key -> bool)
      returns (r: Result<seq<string>>)
      modifies this
      ensures r.Err? <==> queryFails || exists k :: Unlisted(old(rows), repo, current, k) && markFails(k)
      ensures OnlyLosesHits(old(rows), rows) && rows.Keys == old(rows).Keys
      ensures r.Ok? ==> rows == Reconciled(old(rows), repo, current)
      ensures r.Ok? ==> NoDuplicates(r.value) && forall p :: p in r.value <==>
        NeedsExtraction(old(rows), repo, current, p)
    {
      if queryFails { return Err; }
      ghost var before := rows;
      var absent := set k | k in rows && Unlisted(rows, repo, current, k);   // the query result
      var ok := TombstoneAll(absent, markFails);
      if !ok {
        assert forall k :: k in absent ==> Unlisted(before, repo, current, k);
        return Err;
      }
      assert rows == Reconciled(before, repo, current);
      r := ListChanged(before, repo, current);
    }

    /** Tombstone the listed keys in any order, until a statement fails. */
    method TombstoneAll(keys: set<Key>, markFails: Key -> bool) returns (ok: bool)
      requires keys <= rows.Keys
      modifies this
      ensures ok <==> forall k :: k in keys ==> !markFails(k)
      ensures rows.Keys == old(rows).Keys && OnlyLosesHits(old(rows), rows)
      ensures ok ==> rows == map k | k in old(rows) ::
                               if k in keys then old(rows)[k].(deleted := true) else old(rows)[k]
    {
      var todo := keys;
      while todo != {}
        invariant todo <= keys && forall k :: k in keys && k !in todo ==> !markFails(k)
        invariant rows == map k | k in old(rows) ::
                            if k in keys && k !in todo then old(rows)[k].(deleted := true) else old(rows)[k]
        decreases todo
      {
        assert exists k :: k in todo;
        var k :| k in todo;
        var marked := MarkDeleted(k, markFails(k));
        if marked.Err? { return false; }
        todo := todo - {k};
      }
      ok := true;
    }

    /** The listed paths that are new, dead or have another hash. */
    method ListChanged(ghost before: Table, repo: string, current: map<string, string>)
      returns (r: Result<seq<string>>)
      requires rows == Reconciled(before, repo, current)
      ensures r.Ok? && NoDuplicates(r.value)
      ensures forall p :: p in r.value <==> NeedsExtraction(before, repo, current, p)
    {
      var changed := [];
      var paths := current.Keys;
      while paths != {}
        invariant paths <= current.Keys && NoDuplicates(changed)
        invariant forall p :: p in changed <==> p in current && p !in paths && NeedsExtraction(rows, repo, current, p)
        decreases paths
      {
        assert exists p :: p in paths;
        var p :| p in paths;
        if NeedsExtraction(rows, repo, current, p) { changed := changed + [p]; }
        paths := paths - {p};
      }
      forall p | p in current
        ensures NeedsExtraction(rows, repo, current, p) <==> NeedsExtraction(before, repo, current, p)
      {
        assert Key(repo, p) in before ==> rows[Key(repo, p)] == before[Key(repo, p)];
      }
      r := Ok(changed);
    }

    /** SELECT ... WHERE deleted = ? ORDER BY last_indexed ASC; ties come in any order. */
    method QueryByAge(deleted: bool) returns (ks: seq<Key>)
      ensures ByAge(rows, ks, deleted)
    {
      ks := [];
      var want := set k | k in rows && rows[k].deleted == deleted;
      var todo := want;
      while todo != {}
        invariant todo <= want && (forall x :: x in ks <==> x in want && x !in todo)
        invariant (forall x :: x in ks ==> x in rows) && Ascending(ks, AgeIn(rows)) && NoDuplicates(ks)
        decreases todo
      {
        assert exists k :: k in todo;
        var k :| k in todo;
        ks := InsertByAge(ks, k, AgeIn(rows));
        todo := todo - {k};
      }
      assert Members(ks) == want;
    }

    /** SELECT SUM(size_bytes), tombstones included. */
    method RawTotalSize() returns (total: nat)
      ensures IsTotal(rows, total)
    {
      total := 0;
      var todo := rows.Keys;
      ghost var seen: seq<Key> := [];
      while todo != {}
        invariant todo <= rows.Keys && NoDuplicates(seen)
        invariant forall k :: k in seen <==> k in rows && k !in todo
        invariant forall k :: k in seen ==> k in rows
        invariant total == TotalOf(rows, seen)
        decreases todo
      {
        assert exists k :: k in todo;
        var k :| k in todo;
        TotalSplit(rows, seen, [k]);
        total := total + rows[k].sizeBytes;
        seen := seen + [k];
        todo := todo - {k};
      }
      forall ks | Enumerates(ks, rows.Keys) && (forall k :: k in ks ==> k in rows)
        ensures total == TotalOf(rows, ks)
      {
        assert Members(seen) == rows.Keys;
        TotalOrderFree(rows, seen, ks);
      }
    }

    /**
     Take victims from the front of `order` while the total is over the cap, then delete them one by one.
     A failing scan or delete ends it after the first `done` of them.
     */
    method EvictFrom(order: seq<Key>, total: int, f: EvictFaults)
      returns (left: int, n: nat, done: nat, fault: Fault)
      requires NoDuplicates(order) && forall k :: k in order ==> k in rows
      modifies this
      ensures n == done + Lost(fault) && n <= |order| && !fault.QueryFailed?
      ensures fault.DeleteFailed? ==> fault.kept > 0
      ensures !fault.NoFault? ==> Blames(fault, f)
      ensures forall i :: 0 <= i < done ==> !f.scan(order[i]) && !f.delete(order[i])
      ensures rows == Without(old(rows), order[..done])
      ensures fault.NoFault? ==>
        left == total - TotalOf(old(rows), order[..n]) && Shortest(old(rows), order, total, capBytes, n)
    {
      left, n, fault := Choose(order, total, f);
      done := 0;
      assert rows == Without(rows, order[..0]);
      if fault.NoFault? {
        done := DeleteFirst(order, n, f);
        if done < n { fault := DeleteFailed(n - done); }
      }
    }

    /** Take victims from the front while the total is over the cap; a failing scan ends it. */
    method Choose(order: seq<Key>, total: int, f: EvictFaults) returns (left: int, n: nat, fault: Fault)
      requires forall k :: k in order ==> k in rows
      ensures n <= |order| && (fault.NoFault? || (fault == ScanFailed(n) && Blames(fault, f)))
      ensures forall i :: 0 <= i < n ==> !f.scan(order[i])
      ensures left == total - TotalOf(rows, order[..n])
      ensures fault.NoFault? ==> Shortest(rows, order, total, capBytes, n)
    {
      left, n, fault := total, 0, NoFault;
      while n < |order| && left > capBytes
        invariant n <= |order| && left == total - TotalOf(rows, order[..n])
        invariant forall i :: 0 <= i < n ==> !f.scan(order[i])
        invariant forall m :: 0 <= m < n ==> total - TotalOf(rows, order[..m]) > capBytes
      {
        if f.scan(order[n]) { return left, n, ScanFailed(n); }
        PrefixStep(rows, order, n);
        left := left - rows[order[n]].sizeBytes;
        n := n + 1;
      }
    }

    /** Delete the chosen rows one by one; a failing delete ends it after the first `done` of them. */
    method DeleteFirst(order: seq<Key>, n: nat, f: EvictFaults) returns (done: nat)
      requires n <= |order|
      modifies this
      ensures done <= n && rows == Without(old(rows), order[..done])
      ensures forall i :: 0 <= i < done ==> !f.delete(order[i])
      ensures done < n ==> f.delete(order[done])
    {
      done := 0;
      assert rows == Without(rows, order[..0]);
      while done < n
        invariant done <= n && rows == Without(old(rows), order[..done])
        invariant forall i :: 0 <= i < done ==> !f.delete(order[i])
      {
        if f.delete(order[done]) { return; }
        rows := rows - {order[done]};
        assert order[..done + 1] == order[..done] + [order[done]];
        done := done + 1;
      }
    }

    /**
     Tombstones first, then live rows, oldest first, until the total is within the cap. On a failure some
     front of that order is gone; the count covers it, and what was about to be deleted as well.
     */
    method Evict(f: EvictFaults) returns (evicted: nat, fault: Fault)
      modifies this
      ensures Blames(fault, f) && Spared(old(rows), rows, f)
      ensures WithinCap(old(rows), capBytes) && !f.sum ==> fault.NoFault? && evicted == 0 && rows == old(rows)
      ensures fault.NoFault? ==> Evicted(old(rows), rows, capBytes, evicted)
      ensures !fault.NoFault? ==> PartlyEvicted(old(rows), rows, evicted, fault)
      ensures evicted == |old(rows)| - |rows| <==> !Overcounts(fault)
    {
      ghost var before := rows;
      evicted, fault := EvictPhases(f);
      if fault.NoFault? {
        EvictionOrdered(before, rows, capBytes, evicted);
      } else {
        FailedEvictionCountsIff(before, rows, evicted, fault);
      }
    }

    /** Nothing is done when the sum fails or is within the cap. */
    method EvictPhases(f: EvictFaults) returns (evicted: nat, fault: Fault)
      modifies this
      ensures Blames(fault, f) && Spared(old(rows), rows, f)
      ensures WithinCap(old(rows), capBytes) && !f.sum ==> fault.NoFault? && evicted == 0 && rows == old(rows)
      ensures fault.NoFault? ==> Evicted(old(rows), rows, capBytes, evicted)
      ensures !fault.NoFault? ==> PartlyEvicted(old(rows), rows, evicted, fault)
    {
      NothingEvicted(rows);
      if f.sum { return 0, QueryFailed(0); }
      var total: int := RawTotalSize();
      if total <= capBytes {
        ghost var dead := AgeOrderExists(rows, true);
        ghost var live := AgeOrderExists(rows, false);
        EvictedInPhaseOne(rows, capBytes, dead, live, 0, total);
        assert Without(rows, dead[..0]) == rows;
        return 0, NoFault;
      }
      OverCap(rows, capBytes, total);
      evicted, fault := EvictDead(total, f);
    }

    /** The first phase, over the tombstones, and the second one if they are not enough. */
    method EvictDead(total: int, f: EvictFaults) returns (evicted: nat, fault: Fault)
      requires IsTotal(rows, total) && total > capBytes && !f.sum
      modifies this
      ensures Blames(fault, f) && Spared(old(rows), rows, f)
      ensures fault.NoFault? ==> Evicted(old(rows), rows, capBytes, evicted)
      ensures !fault.NoFault? ==> PartlyEvicted(old(rows), rows, evicted, fault)
    {
      ghost var before := rows;
      NothingEvicted(rows);
      if f.tombstones { return 0, QueryFailed(1); }
      var left, n;
      ghost var dead;
      left, n, fault, dead := EvictTombstones(total, f);
      if !fault.NoFault? || left <= capBytes { return n, fault; }
      ghost var between := rows;
      var m;
      m, fault := EvictLive(before, dead, total, left, f);
      SparedTwice(before, between, rows, f);
      evicted := n + m;
    }

    /** The first phase; unless it fails or is enough, every tombstone is gone. */
    method EvictTombstones(total: int, f: EvictFaults) returns (left: int, n: nat, fault: Fault, ghost dead: seq<Key>)
      requires IsTotal(rows, total) && total > capBytes && !f.tombstones
      modifies this
      ensures ByAge(old(rows), dead, true) && Spared(old(rows), rows, f)
      ensures !fault.NoFault? ==> Blames(fault, f) && PartlyEvicted(old(rows), rows, n, fault)
      ensures fault.NoFault? && left <= capBytes ==> Evicted(old(rows), rows, capBytes, n)
      ensures fault.NoFault? && left > capBytes ==>
        && n == |dead| && rows == Without(old(rows), dead) && left == total - TotalOf(old(rows), dead)
        && Shortest(old(rows), dead, total, capBytes, |dead|)
    {
      ghost var before := rows;
      var order := QueryByAge(true);
      dead := order;
      var gone;
      left, n, gone, fault := EvictFrom(order, total, f);
      DeadAreSpared(before, rows, dead, gone, f);
      ghost var rest := AgeOrderExists(before, false);
      if !fault.NoFault? {
        PartlyInPhaseOne(before, dead, rest, gone, n, fault);
      } else if left <= capBytes {
        EvictedInPhaseOne(before, capBytes, dead, rest, n, total);
      } else {
        assert dead[..n] == dead;
      }
    }

    /** The second phase, when the tombstones were not enough. */
    method EvictLive(ghost before: Table, ghost dead: seq<Key>, ghost total: int, left: int, f: EvictFaults)
      returns (m: nat, fault: Fault)
      requires ByAge(before, dead, true) && rows == Without(before, dead) && IsTotal(before, total)
      requires left == total - TotalOf(before, dead) > capBytes && Shortest(before, dead, total, capBytes, |dead|)
      modifies this
      ensures !fault.NoFault? ==> Blames(fault, f)
      ensures rows.Keys <= old(rows).Keys
      ensures forall k :: k in old(rows) && k !in rows ==> !f.scan(k) && !f.delete(k) && !f.live
      ensures fault.NoFault? ==> Evicted(before, rows, capBytes, |dead| + m)
      ensures !fault.NoFault? ==> PartlyEvicted(before, rows, |dead| + m, fault)
    {
      ghost var rest := AgeOrderExists(before, false);
      PartlyInPhaseOne(before, dead, rest, |dead|, |dead|, QueryFailed(2));
      assert dead[..|dead|] == dead;
      if f.live { return 0, QueryFailed(2); }
      var live := QueryByAge(false);
      var left', n, gone, end := EvictFrom(live, left, f);
      PartlyInPhaseTwo(before, dead, live, gone, |dead| + n, end);
      if end.NoFault? { EvictedInPhaseTwo(before, capBytes, dead, live, n, total); }
      m, fault := n, end;
    }
  }
}
