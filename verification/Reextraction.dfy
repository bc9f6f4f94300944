/**
 What replacing the claims of a file needs from its extractor (pipeline/pipeline.go, extractor/registry.go),
 and what the pipeline still guarantees without it.
 */
module Reextraction {
  import opened Basics
  import opened CacheStore
  import opened ClaimsStore
  import opened GitDiff
  import opened Extraction
  import opened IncrementalSync

  // ----- deleting by extractor and file

  lemma {:induction false} DropAppend(a: seq<Claim>, b: seq<Claim>, name: string, path: string)
    ensures DropClaims(a + b, name, path) == DropClaims(a, name, path) + DropClaims(b, name, path)
  {
    if a == [] {
      assert a + b == b;
    } else {
      var first := if IsDropped(a[0], name, path) then [] else [a[0]];
      var x, y := DropClaims(a[1..], name, path), DropClaims(b, name, path);
      assert (a + b)[1..] == a[1..] + b && (a + b)[0] == a[0];
      DropAppend(a[1..], b, name, path);
      assert first + (x + y) == (first + x) + y;
    }
  }

  lemma {:induction false} DropMember(cs: seq<Claim>, name: string, path: string, c: Claim)
    ensures c in DropClaims(cs, name, path) <==> c in cs && !IsDropped(c, name, path)
  {
    if cs != [] {
      DropMember(cs[1..], name, path, c);
      assert c in cs <==> c == cs[0] || c in cs[1..];
    }
  }

  lemma DropTwice(cs: seq<Claim>, name: string, path: string)
    ensures DropClaims(DropClaims(cs, name, path), name, path) == DropClaims(cs, name, path)
  {
    forall c | c in DropClaims(cs, name, path) ensures !IsDropped(c, name, path) { DropMember(cs, name, path, c); }
    DropNothing(DropClaims(cs, name, path), name, path);
  }

  // ----- extracting a file twice

  /** Every claim of the content carries the name and the path that the pipeline deletes by. */
  ghost predicate Replaceable(env: Env, p: string, c: string)
    requires env.Eligible(p)
  {
    forall x :: x in env.Expected(p, c) ==> IsDropped(x, env.Chosen(p).value.name, p)
  }

  function Twice(env: Env, s: Stores, p: string, c1: string, c2: string, at: int): Stores
    requires env.Eligible(p)
  {
    Stored(env, Stored(env, s, map[p := c1], p, at), map[p := c2], p, at)
  }

  lemma TwiceClaims(env: Env, s: Stores, p: string, c1: string, c2: string, at: int)
    requires env.Eligible(p)
    ensures var name := env.Chosen(p).value.name;
      Twice(env, s, p, c1, c2, at).claims
      == DropClaims(s.claims, name, p) + DropClaims(env.Expected(p, c1), name, p) + env.Expected(p, c2)
  {
    var name := env.Chosen(p).value.name;
    DropAppend(DropClaims(s.claims, name, p), env.Expected(p, c1), name, p);
    DropTwice(s.claims, name, p);
  }

  /**
   In any store, extracting `c1` and then `c2` leaves the same table as extracting `c2` alone if and
   only if every claim of `c1` carries both the name and the path that the pipeline deletes by.
   */
  lemma ReextractionExactIff(env: Env, s: Stores, p: string, c1: string, c2: string, at: int)
    requires env.Eligible(p)
    ensures Twice(env, s, p, c1, c2, at).claims == Stored(env, s, map[p := c2], p, at).claims <==>
      Replaceable(env, p, c1)
  {
    var name := env.Chosen(p).value.name;
    var kept := DropClaims(env.Expected(p, c1), name, p);
    TwiceClaims(env, s, p, c1, c2, at);
    forall x ensures x in kept <==> x in env.Expected(p, c1) && !IsDropped(x, name, p) {
      DropMember(env.Expected(p, c1), name, p, x);
    }
    assert kept == [] <==> forall x :: x !in kept by { if kept != [] { assert kept[0] in kept; } }
    if kept == [] {
      assert DropClaims(s.claims, name, p) + kept == DropClaims(s.claims, name, p);
    }
  }

  /** Carrying the extractor's own name is not enough: a claim under another path survives as well. */
  lemma OwnNameIsNotEnough(env: Env, s: Stores, p: string, c1: string, c2: string, at: int, x: Claim)
    requires env.Eligible(p) && x in env.Expected(p, c1) && x.body.sourceFile != p
    ensures x in Twice(env, s, p, c1, c2, at).claims && !Replaceable(env, p, c1)
  {
    TwiceClaims(env, s, p, c1, c2, at);
    DropMember(env.Expected(p, c1), env.Chosen(p).value.name, p, x);
  }

  /**
   Without a file source the extractor is given the path under the repository directory, but claims are
   deleted by the relative path: whatever it stamps with the path it was given stays for good.
   */
  lemma LocalModeKeepsOldClaims(env: Env, s: Stores, p: string, c1: string, c2: string, at: int, x: Claim)
    requires env.Eligible(p) && !env.remote && x in env.Expected(p, c1) && x.body.sourceFile == env.Given(p)
    ensures x in Twice(env, s, p, c1, c2, at).claims && !Replaceable(env, p, c1)
    ensures !OwnPath(env)
  {
    assert |env.Given(p)| > |p|;
    OwnNameIsNotEnough(env, s, p, c1, c2, at, x);
    var i :| 0 <= i < |env.Expected(p, c1)| && env.Expected(p, c1)[i] == x;
  }

  // ----- what holds for every extractor: nothing is missing

  /** No extraction of one file emits a claim that the replacement of another would delete. */
  ghost predicate Apart(env: Env) {
    forall p, c, q, x :: env.Eligible(q) && q != p && x in env.Expected(p, c) ==>
      !IsDropped(x, env.Chosen(q).value.name, q)
  }

  /** Every claim of the content is stored. */
  ghost predicate Present(env: Env, s: Stores, p: string, c: string) {
    forall x :: x in env.Expected(p, c) ==> x in s.claims
  }

  ghost predicate AllPresent(env: Env, s: Stores, tree: Tree) {
    forall p :: p in tree ==> Present(env, s, p, tree[p])
  }

  /** A live cache row implies that nothing of the hashed content is missing. */
  ghost predicate HitsPresent(env: Env, s: Stores) {
    forall p, c :: env.Eligible(p) && IsHit(s.cache, env.KeyOf(p), env.StampFor(p, c)) ==> Present(env, s, p, c)
  }

  lemma StoredKeepsOthers(env: Env, s: Stores, tree: Tree, p: string, at: int, q: string, c: string)
    requires Apart(env) && p in tree && env.Eligible(p) && q != p && Present(env, s, q, c)
    ensures Present(env, Stored(env, s, tree, p, at), q, c)
  {
    forall x | x in env.Expected(q, c) ensures x in Stored(env, s, tree, p, at).claims {
      DropMember(s.claims, env.Chosen(p).value.name, p, x);
    }
  }

  lemma StepKeepsPresent(env: Env, s: Stores, disk: Tree, p: string, o: Outcome)
    requires CollisionFree(env) && Apart(env) && HitsPresent(env, s)
    requires Possible(env, s, disk, p, o) && !o.FailedAfterPut?
    ensures HitsPresent(env, After(env, s, disk, p, o))
    ensures forall q, c :: (q != p || p !in disk) && Present(env, s, q, c) ==>
      Present(env, After(env, s, disk, p, o), q, c)
    ensures p in disk && (!o.IsError() || Present(env, s, p, disk[p])) ==>
      Present(env, After(env, s, disk, p, o), p, disk[p])
  {
    if o.Extracted? {
      var s' := Stored(env, s, disk, p, o.at);
      forall q, c | q != p && Present(env, s, q, c) ensures Present(env, s', q, c) {
        StoredKeepsOthers(env, s, disk, p, o.at, q, c);
      }
      forall q, c | env.Eligible(q) && IsHit(s'.cache, env.KeyOf(q), env.StampFor(q, c))
        ensures Present(env, s', q, c)
      {
        if q == p {
          assert env.hash(c) == env.hash(disk[p]);
        } else {
          PutIsLocal(env, s.cache, disk, p, o.at, q, env.StampFor(q, c));
        }
      }
    }
  }

  /** The claims of a content stay, or appear, unless its file is visited and read with another content. */
  lemma {:induction false} StepsKeepPresent(env: Env, s: Stores, disk: Tree, paths: seq<string>, os: seq<Outcome>,
      p: string, c: string)
    requires CollisionFree(env) && Apart(env) && HitsPresent(env, s)
    requires |os| <= |paths| && AllPossible(env, s, disk, paths, os)
    requires forall i :: 0 <= i < |os| ==> !os[i].FailedAfterPut?
    requires p in disk && p in paths ==> disk[p] == c
    ensures HitsPresent(env, AfterAll(env, s, disk, paths, os))
    ensures (p in disk && VisitedOk(paths, os, p)) || Present(env, s, p, c) ==>
      Present(env, AfterAll(env, s, disk, paths, os), p, c)
    decreases |os|
  {
    if os != [] {
      StepKeepsPresent(env, s, disk, paths[0], os[0]);
      StepsKeepPresent(env, After(env, s, disk, paths[0], os[0]), disk, paths[1..], os[1..], p, c);
      VisitedCons(paths, os, p);
    }
  }

  lemma {:induction false} DeletesKeepPresent(env: Env, s: Stores, paths: seq<string>, os: seq<DeleteOutcome>)
    requires HitsPresent(env, s) && |os| == |paths|
    ensures HitsPresent(env, AfterDeletes(env, s, paths, os)) && AfterDeletes(env, s, paths, os).claims == s.claims
    decreases |os|
  {
    if os != [] {
      var s1 := AfterDelete(env, s, paths[0], os[0]);
      assert OnlyLosesHits(s.cache, s1.cache);
      LosingHitsKeepsPresent(env, s, s1.cache);
      DeletesKeepPresent(env, s1, paths[1..], os[1..]);
    }
  }

  lemma LosingHitsKeepsPresent(env: Env, s: Stores, cache': Table)
    requires HitsPresent(env, s) && OnlyLosesHits(s.cache, cache')
    ensures HitsPresent(env, s.(cache := cache'))
  {
    var s' := s.(cache := cache');
    forall p, c | env.Eligible(p) && IsHit(s'.cache, env.KeyOf(p), env.StampFor(p, c)) ensures Present(env, s', p, c) {
      assert IsHit(s.cache, env.KeyOf(p), env.StampFor(p, c));
      assert Present(env, s, p, c);
    }
  }

  lemma RunKeepsPresent(env: Env, s: Stores, before: Tree, changes: seq<FileChange>, disk: Tree, tree: Tree, t: Trace)
    requires CollisionFree(env) && Apart(env) && HitsPresent(env, s) && AllPresent(env, s, before)
    requires CorrectDiff(before, changes, tree)
    requires RunPossible(env, s, changes, disk, t) && Faithful(disk, tree, t)
    ensures HitsPresent(env, AfterRun(env, s, changes, disk, t)) &&
      AllPresent(env, AfterRun(env, s, changes, disk, t), tree)
  {
    var s1 := AfterDeletes(env, s, t.gone, t.deletions);
    DeletesKeepPresent(env, s, t.gone, t.deletions);
    StepsKeepHits(env, s1, disk, t.Todo(), t.steps);
    forall p | p in tree ensures Present(env, AfterRun(env, s, changes, disk, t), p, tree[p]) {
      StepsKeepPresent(env, s1, disk, t.Todo(), t.steps, p, tree[p]);
      CleanRunVisits(env, s, changes, disk, tree, t, p);
      if p !in t.Todo() {
        assert !Changes(changes, p);
        assert Present(env, s, p, before[p]);
      }
    }
  }

  lemma {:induction false} StepsKeepHits(env: Env, s: Stores, disk: Tree, paths: seq<string>, os: seq<Outcome>)
    requires CollisionFree(env) && Apart(env) && HitsPresent(env, s)
    requires |os| <= |paths| && AllPossible(env, s, disk, paths, os)
    requires forall i :: 0 <= i < |os| ==> !os[i].FailedAfterPut?
    ensures HitsPresent(env, AfterAll(env, s, disk, paths, os))
    decreases |os|
  {
    if os != [] {
      StepKeepsPresent(env, s, disk, paths[0], os[0]);
      StepsKeepHits(env, After(env, s, disk, paths[0], os[0]), disk, paths[1..], os[1..]);
    }
  }

  /**
   For an extractor that stamps neither its own name nor the relative path, incremental runs still lose
   nothing: along any history every claim of every file of the final tree is stored.
   */
  lemma {:induction false} NothingMissing(env: Env, s: Stores, before: Tree, events: seq<Event>, end: Stores,
      after: Tree)
    requires CollisionFree(env) && Apart(env) && HitsPresent(env, s) && AllPresent(env, s, before)
    requires Replays(env, s, before, events, end, after)
    ensures HitsPresent(env, end) && AllPresent(env, end, after)
    decreases |events|
  {
    if events != [] {
      match events[0]
      case CacheLoss(cache) =>
        LosingHitsKeepsPresent(env, s, cache);
        var s1 := s.(cache := cache);
        forall p | p in before ensures Present(env, s1, p, before[p]) { assert Present(env, s, p, before[p]); }
        NothingMissing(env, s1, before, events[1..], end, after);
      case Run(changes, tree, disk, t) =>
        RunKeepsPresent(env, s, before, changes, disk, tree, t);
        NothingMissing(env, AfterRun(env, s, changes, disk, t), tree, events[1..], end, after);
    }
  }

  // ----- and nothing is invented: exactly which claims a run leaves, for every extractor

  /** Step `i` extracts a content that emits the claim. */
  ghost predicate Emits(env: Env, disk: Tree, paths: seq<string>, os: seq<Outcome>, i: nat, x: Claim) {
    && i < |os| && i < |paths| && os[i].Extracted?
    && paths[i] in disk && x in env.Expected(paths[i], disk[paths[i]])
  }

  /** Step `i` replaces the claims of a file, and the claim is deleted by name and path. */
  ghost predicate Drops(env: Env, paths: seq<string>, os: seq<Outcome>, i: nat, x: Claim) {
    && i < |os| && i < |paths| && os[i].Extracted?
    && env.Chosen(paths[i]).Some? && IsDropped(x, env.Chosen(paths[i]).value.name, paths[i])
  }

  ghost predicate NotDropped(env: Env, paths: seq<string>, os: seq<Outcome>, first: nat, x: Claim) {
    forall j: nat :: first <= j < |os| ==> !Drops(env, paths, os, j, x)
  }

  ghost predicate EmittedForGood(env: Env, disk: Tree, paths: seq<string>, os: seq<Outcome>, x: Claim) {
    exists i: nat :: Emits(env, disk, paths, os, i, x) && NotDropped(env, paths, os, i + 1, x)
  }

  lemma StoredMember(env: Env, s: Stores, disk: Tree, p: string, at: int, x: Claim)
    requires p in disk && env.Eligible(p)
    ensures x in Stored(env, s, disk, p, at).claims <==>
      (x in s.claims && !IsDropped(x, env.Chosen(p).value.name, p)) || x in env.Expected(p, disk[p])
  {
    DropMember(s.claims, env.Chosen(p).value.name, p, x);
  }

  lemma NotDroppedCons(env: Env, paths: seq<string>, os: seq<Outcome>, first: nat, x: Claim)
    requires 0 < |os| <= |paths|
    ensures NotDropped(env, paths, os, first + 1, x) <==> NotDropped(env, paths[1..], os[1..], first, x)
  {
    forall j: nat | j < |os[1..]| ensures Drops(env, paths[1..], os[1..], j, x) <==> Drops(env, paths, os, j + 1, x) {}
    if NotDropped(env, paths[1..], os[1..], first, x) {
      forall j: nat | first + 1 <= j < |os| ensures !Drops(env, paths, os, j, x) {
        assert !Drops(env, paths[1..], os[1..], j - 1, x);
      }
    }
  }

  lemma EmittedCons(env: Env, disk: Tree, paths: seq<string>, os: seq<Outcome>, x: Claim)
    requires 0 < |os| <= |paths|
    ensures EmittedForGood(env, disk, paths, os, x) <==>
      || EmittedForGood(env, disk, paths[1..], os[1..], x)
      || (Emits(env, disk, paths, os, 0, x) && NotDropped(env, paths, os, 1, x))
  {
    if i: nat :| Emits(env, disk, paths, os, i, x) && NotDropped(env, paths, os, i + 1, x) {
      if i > 0 {
        NotDroppedCons(env, paths, os, i, x);
        assert Emits(env, disk, paths[1..], os[1..], i - 1, x);
      }
    }
    if i: nat :| Emits(env, disk, paths[1..], os[1..], i, x) && NotDropped(env, paths[1..], os[1..], i + 1, x) {
      NotDroppedCons(env, paths, os, i + 1, x);
      assert Emits(env, disk, paths, os, i + 1, x);
    }
  }

  lemma {:induction false} StepsLeave(env: Env, s: Stores, disk: Tree, paths: seq<string>, os: seq<Outcome>, x: Claim)
    requires |os| <= |paths| && AllPossible(env, s, disk, paths, os)
    ensures x in AfterAll(env, s, disk, paths, os).claims <==>
      EmittedForGood(env, disk, paths, os, x) || (x in s.claims && NotDropped(env, paths, os, 0, x))
    decreases |os|
  {
    if os != [] {
      StepsLeave(env, After(env, s, disk, paths[0], os[0]), disk, paths[1..], os[1..], x);
      NotDroppedCons(env, paths, os, 0, x);
      EmittedCons(env, disk, paths, os, x);
      assert NotDropped(env, paths, os, 0, x) <==>
        NotDropped(env, paths, os, 1, x) && !Drops(env, paths, os, 0, x);
      if os[0].Extracted? { StoredMember(env, s, disk, paths[0], os[0].at, x); }
    }
  }

  /**
   After any run, whatever the extractors stamp, a claim is stored if and only if some step extracted a
   content that emits it and no later step deleted it, or it was stored and no step deleted it.
   */
  lemma RunLeavesIff(env: Env, s: Stores, changes: seq<FileChange>, disk: Tree, t: Trace, x: Claim)
    requires RunPossible(env, s, changes, disk, t)
    ensures x in AfterRun(env, s, changes, disk, t).claims <==>
      || EmittedForGood(env, disk, t.Todo(), t.steps, x)
      || (x in s.claims && NotDropped(env, t.Todo(), t.steps, 0, x))
  {
    DeletesKeepClaims(env, s, t.gone, t.deletions);
    StepsLeave(env, AfterDeletes(env, s, t.gone, t.deletions), disk, t.Todo(), t.steps, x);
  }

  lemma {:induction false} DeletesKeepClaims(env: Env, s: Stores, paths: seq<string>, os: seq<DeleteOutcome>)
    requires |os| == |paths|
    ensures AfterDeletes(env, s, paths, os).claims == s.claims
    decreases |os|
  {
    if os != [] { DeletesKeepClaims(env, AfterDelete(env, s, paths[0], os[0]), paths[1..], os[1..]); }
  }

  /** Some run of the history extracted a content that emits the claim. */
  ghost predicate EmittedBy(env: Env, events: seq<Event>, x: Claim) {
    exists k, i: nat :: 0 <= k < |events| && events[k].Run? &&
      Emits(env, events[k].disk, events[k].trace.Todo(), events[k].trace.steps, i, x)
  }

  /** Along any history, every stored claim was there at first or was emitted for a content that a run read. */
  lemma {:induction false} NothingInvented(env: Env, s: Stores, before: Tree, events: seq<Event>, end: Stores,
      after: Tree, x: Claim)
    requires Replays(env, s, before, events, end, after) && x in end.claims
    ensures x in s.claims || EmittedBy(env, events, x)
    decreases |events|
  {
    if events != [] {
      var s1 := if events[0].CacheLoss? then s.(cache := events[0].cache)
                else AfterRun(env, s, events[0].changes, events[0].disk, events[0].trace);
      NothingInvented(env, s1, if events[0].Run? then events[0].tree else before, events[1..], end, after, x);
      if EmittedBy(env, events[1..], x) {
        var k, i: nat :| 0 <= k < |events[1..]| && events[1..][k].Run? &&
          Emits(env, events[1..][k].disk, events[1..][k].trace.Todo(), events[1..][k].trace.steps, i, x);
        assert events[k + 1].Run?;
      } else if events[0].Run? && x !in s.claims {
        RunLeavesIff(env, s, events[0].changes, events[0].disk, events[0].trace, x);
        var i: nat :| Emits(env, events[0].disk, events[0].trace.Todo(), events[0].trace.steps, i, x);
      }
    }
  }
}
