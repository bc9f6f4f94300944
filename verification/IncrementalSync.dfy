/**
 Incremental runs refine full extraction.

 The argument rests on an invariant that ties the cache to the claims database: a live cache
 row speaks the truth about the claims stored for its file.
 */
module IncrementalSync {
  import opened Basics
  import opened CacheStore
  import opened ClaimsStore
  import opened GitDiff
  import opened Extraction
  import opened ReverseDeps

  // ----- assumptions about the environment

  /** No two contents share a hash. */
  ghost predicate CollisionFree(env: Env) {
    forall a, b :: env.hash(a) == env.hash(b) ==> a == b
  }

  /** Claims carry the path they were extracted from. */
  ghost predicate OwnPath(env: Env) {
    forall p, c, i :: 0 <= i < |env.Expected(p, c)| ==> env.Expected(p, c)[i].body.sourceFile == p
  }

  ghost predicate StampsOwnName(env: Env, p: string, c: string) {
    env.Eligible(p) ==>
      forall i :: 0 <= i < |env.Expected(p, c)| ==> env.Expected(p, c)[i].body.extractor == env.Chosen(p).value.name
  }

  /** Claims carry the name of the extractor that the pipeline deletes by. */
  ghost predicate OwnName(env: Env) {
    forall p, c :: StampsOwnName(env, p, c)
  }

  ghost predicate WellBehaved(env: Env) {
    CollisionFree(env) && OwnPath(env) && OwnName(env)
  }

  // ----- what it means for the stores to be up to date

  /** The file's claims are exactly those of content `c`, and its row says so. */
  ghost predicate Synced(env: Env, s: Stores, p: string, c: string) {
    && FileClaims(s.claims, p) == env.Expected(p, c)
    && (env.Eligible(p) ==>
          env.KeyOf(p) in s.files && s.files[env.KeyOf(p)] == FileRow(env.StampFor(p, c), false))
  }

  ghost predicate InSync(env: Env, s: Stores, tree: Tree) {
    forall p :: p in tree ==> Synced(env, s, p, tree[p])
  }

  ghost predicate Owned(env: Env, s: Stores) {
    forall c :: c in s.claims ==>
      env.Eligible(c.body.sourceFile) && c.body.extractor == env.Chosen(c.body.sourceFile).value.name
  }

  /** A live cache row for a path implies that the stored claims are those of the hashed content. */
  ghost predicate CacheSound(env: Env, s: Stores) {
    forall p, c :: env.Eligible(p) && IsHit(s.cache, env.KeyOf(p), env.StampFor(p, c)) ==> Synced(env, s, p, c)
  }

  ghost predicate Inv(env: Env, s: Stores) {
    Owned(env, s) && CacheSound(env, s)
  }

  lemma EmptyInv(env: Env)
    ensures Inv(env, EMPTY)
  {
  }

  // ----- one path

  lemma OwnedDrop(env: Env, s: Stores, p: string)
    requires Owned(env, s) && env.Eligible(p)
    ensures FileClaims(DropClaims(s.claims, env.Chosen(p).value.name, p), p) == []
  {
    DropClaimsEffect(s.claims, env.Chosen(p).value.name, p, p);
  }

  lemma IneligibleHasNone(env: Env, s: Stores, p: string)
    requires Owned(env, s) && !env.Eligible(p)
    ensures FileClaims(s.claims, p) == []
  {
    if FileClaims(s.claims, p) != [] {
      FileClaimsMember(s.claims, p, FileClaims(s.claims, p)[0]);
    }
  }

  /** Replacing a file's claims touches no other file. */
  lemma StoredFrame(env: Env, s: Stores, tree: Tree, p: string, at: int, q: string)
    requires WellBehaved(env) && p in tree && env.Eligible(p) && q != p
    ensures FileClaims(Stored(env, s, tree, p, at).claims, q) == FileClaims(s.claims, q)
  {
    var name := env.Chosen(p).value.name;
    DropClaimsEffect(s.claims, name, p, q);
    FileClaimsAll(env.Expected(p, tree[p]), p);
    FileClaimsAppend(DropClaims(s.claims, name, p), env.Expected(p, tree[p]), q);
  }

  lemma StoredSyncs(env: Env, s: Stores, tree: Tree, p: string, at: int)
    requires WellBehaved(env) && Owned(env, s) && p in tree && env.Eligible(p)
    ensures Synced(env, Stored(env, s, tree, p, at), p, tree[p])
    ensures Owned(env, Stored(env, s, tree, p, at))
  {
    var name := env.Chosen(p).value.name;
    OwnedDrop(env, s, p);
    FileClaimsAll(env.Expected(p, tree[p]), p);
    FileClaimsAppend(DropClaims(s.claims, name, p), env.Expected(p, tree[p]), p);
    DropClaimsEffect(s.claims, name, p, p);
    assert StampsOwnName(env, p, tree[p]);
  }

  lemma StoredIsLocal(env: Env, s: Stores, tree: Tree, p: string, at: int, q: string, c: string)
    requires WellBehaved(env) && p in tree && env.Eligible(p) && q != p
    ensures Synced(env, Stored(env, s, tree, p, at), q, c) <==> Synced(env, s, q, c)
  {
    StoredFrame(env, s, tree, p, at, q);
    assert env.KeyOf(q) != env.KeyOf(p);
  }

  lemma PutIsLocal(env: Env, t: Table, tree: Tree, p: string, at: int, q: string, want: Stamp)
    requires p in tree && env.Eligible(p) && q != p
    ensures IsHit(CacheAfter(env, t, tree, p, at), env.KeyOf(q), want) <==> IsHit(t, env.KeyOf(q), want)
  {
    assert env.KeyOf(q) != env.KeyOf(p);
  }

  /** A step on `p` says nothing new about another file. */
  lemma StepFrame(env: Env, s: Stores, tree: Tree, p: string, o: Outcome, q: string, c: string)
    requires WellBehaved(env) && Possible(env, s, tree, p, o) && q != p
    ensures Synced(env, After(env, s, tree, p, o), q, c) <==> Synced(env, s, q, c)
    ensures env.Chosen(q).Some? ==>
      (IsHit(After(env, s, tree, p, o).cache, env.KeyOf(q), env.StampFor(q, c))
       <==> IsHit(s.cache, env.KeyOf(q), env.StampFor(q, c)))
  {
    if o.Extracted? { StoredIsLocal(env, s, tree, p, o.at, q, c); }
    if (o.Extracted? || o.FailedAfterPut?) && env.Chosen(q).Some? {
      PutIsLocal(env, s.cache, tree, p, o.at, q, env.StampFor(q, c));
    }
  }

  /** Hit, miss and skip keep the cross-store invariant, and leave the file up to date. */
  lemma StepKeeps(env: Env, s: Stores, tree: Tree, p: string, o: Outcome)
    requires WellBehaved(env) && Inv(env, s) && Possible(env, s, tree, p, o) && !o.FailedAfterPut?
    ensures Inv(env, After(env, s, tree, p, o))
    ensures p in tree && !o.IsError() ==> Synced(env, After(env, s, tree, p, o), p, tree[p])
    ensures p in tree && o.IsError() ==>
      (Synced(env, After(env, s, tree, p, o), p, tree[p]) <==> Synced(env, s, p, tree[p]))
  {
    var s' := After(env, s, tree, p, o);
    match o
    case Extracted(at) =>
      StoredSyncs(env, s, tree, p, at);
      forall q, c | env.Eligible(q) && IsHit(s'.cache, env.KeyOf(q), env.StampFor(q, c))
        ensures Synced(env, s', q, c)
      {
        if q == p {
          assert env.hash(c) == env.hash(tree[p]);
        } else {
          StepFrame(env, s, tree, p, o, q, c);
        }
      }
    case _ =>
      if !env.Eligible(p) { IneligibleHasNone(env, s, p); }
  }

  /**
   A failure after the cache row is written -- the source-file upsert or the commit -- leaves the
   row behind, since the cache is outside the transaction. The invariant then survives exactly
   when the claims were already those of the new content.
   */
  lemma FailedAfterPutBreaksIff(env: Env, s: Stores, tree: Tree, p: string, at: int)
    requires WellBehaved(env) && Inv(env, s) && Possible(env, s, tree, p, FailedAfterPut(at))
    ensures Inv(env, After(env, s, tree, p, FailedAfterPut(at))) <==> Synced(env, s, p, tree[p])
  {
    var s' := After(env, s, tree, p, FailedAfterPut(at));
    assert !env.isGenerated(p) && env.Eligible(p) && p in tree;
    assert IsHit(s'.cache, env.KeyOf(p), env.StampFor(p, tree[p]));
    assert Synced(env, s', p, tree[p]) <==> Synced(env, s, p, tree[p]);
    if Synced(env, s, p, tree[p]) {
      forall q, c | env.Eligible(q) && IsHit(s'.cache, env.KeyOf(q), env.StampFor(q, c))
        ensures Synced(env, s', q, c)
      {
        if q == p {
          assert env.hash(c) == env.hash(tree[p]);
        } else {
          StepFrame(env, s, tree, p, FailedAfterPut(at), q, c);
        }
      }
    }
  }

  /** Tombstoning, reconciling and evicting only lose hits, and losing hits is harmless. */
  lemma LosingHitsKeepsInv(env: Env, s: Stores, cache': Table)
    requires Inv(env, s) && OnlyLosesHits(s.cache, cache')
    ensures Inv(env, s.(cache := cache'))
  {
    var s' := s.(cache := cache');
    forall q, c | env.Eligible(q) && IsHit(s'.cache, env.KeyOf(q), env.StampFor(q, c))
      ensures Synced(env, s', q, c)
    {
      assert IsHit(s.cache, env.KeyOf(q), env.StampFor(q, c));
      assert Synced(env, s, q, c);
    }
  }

  lemma DeleteKeeps(env: Env, s: Stores, p: string, o: DeleteOutcome)
    requires Inv(env, s)
    ensures Inv(env, AfterDelete(env, s, p, o))
    ensures AfterDelete(env, s, p, o).claims == s.claims
    ensures forall q, c :: q != p ==> (Synced(env, AfterDelete(env, s, p, o), q, c) <==> Synced(env, s, q, c))
  {
    var s' := AfterDelete(env, s, p, o);
    forall q, c | env.Eligible(q) && IsHit(s'.cache, env.KeyOf(q), env.StampFor(q, c))
      ensures Synced(env, s', q, c)
    {
      assert IsHit(s.cache, env.KeyOf(q), env.StampFor(q, c));
      assert Synced(env, s, q, c);
    }
  }

  // ----- a whole run

  lemma {:induction false} DeletesKeep(env: Env, s: Stores, paths: seq<string>, os: seq<DeleteOutcome>)
    requires Inv(env, s) && |os| == |paths|
    ensures Inv(env, AfterDeletes(env, s, paths, os))
    ensures AfterDeletes(env, s, paths, os).claims == s.claims
    decreases |os|
  {
    if os != [] {
      DeleteKeeps(env, s, paths[0], os[0]);
      DeletesKeep(env, AfterDelete(env, s, paths[0], os[0]), paths[1..], os[1..]);
    }
  }

  lemma DeletedCons(paths: seq<string>, os: seq<DeleteOutcome>, p: string)
    requires |os| == |paths| > 0
    ensures DeletedOk(paths, os, p) <==>
      (paths[0] == p && os[0] == DeleteOutcome.Tombstoned) || DeletedOk(paths[1..], os[1..], p)
  {
    if i :| 0 <= i < |os| && paths[i] == p && os[i] == DeleteOutcome.Tombstoned {
      if i > 0 { assert paths[1..][i - 1] == p && os[1..][i - 1] == DeleteOutcome.Tombstoned; }
    }
    if i :| 0 <= i < |os[1..]| && paths[1..][i] == p && os[1..][i] == DeleteOutcome.Tombstoned {
      assert paths[i + 1] == p && os[i + 1] == DeleteOutcome.Tombstoned;
    }
  }

  /** A tombstone takes an eligible file out of sync; a failed deletion does not. */
  lemma DeleteSyncs(env: Env, s: Stores, x: string, o: DeleteOutcome, p: string, c: string)
    requires env.Eligible(p)
    ensures Synced(env, AfterDelete(env, s, x, o), p, c) <==>
      Synced(env, s, p, c) && !(x == p && o == DeleteOutcome.Tombstoned)
  {
  }

  lemma {:induction false} DeletesSync(env: Env, s: Stores, paths: seq<string>, os: seq<DeleteOutcome>, p: string,
      c: string)
    requires |os| == |paths| && env.Eligible(p)
    ensures Synced(env, AfterDeletes(env, s, paths, os), p, c) <==> Synced(env, s, p, c) && !DeletedOk(paths, os, p)
    decreases |os|
  {
    if os != [] {
      DeleteSyncs(env, s, paths[0], os[0], p, c);
      DeletesSync(env, AfterDelete(env, s, paths[0], os[0]), paths[1..], os[1..], p, c);
      DeletedCons(paths, os, p);
    }
  }

  lemma VisitedCons(paths: seq<string>, os: seq<Outcome>, p: string)
    requires 0 < |os| <= |paths|
    ensures VisitedOk(paths, os, p) <==> (paths[0] == p && !os[0].IsError()) || VisitedOk(paths[1..], os[1..], p)
  {
    if i :| 0 <= i < |os| && paths[i] == p && !os[i].IsError() {
      if i > 0 { assert paths[1..][i - 1] == p && !os[1..][i - 1].IsError(); }
    }
    if i :| 0 <= i < |os[1..]| && paths[1..][i] == p && !os[1..][i].IsError() {
      assert paths[i + 1] == p && !os[i + 1].IsError();
    }
  }

  lemma SyncedUnique(env: Env, s: Stores, p: string, a: string, b: string)
    requires CollisionFree(env) && env.Eligible(p) && Synced(env, s, p, a) && Synced(env, s, p, b)
    ensures a == b
  {
    assert env.hash(a) == env.hash(b);
  }

  /** What one step says about its own file. */
  lemma StepAtFile(env: Env, s: Stores, tree: Tree, p: string, o: Outcome, c: string)
    requires WellBehaved(env) && Inv(env, s) && env.Eligible(p)
    requires Possible(env, s, tree, p, o) && (p in tree ==> !o.FailedAfterPut?)
    ensures Synced(env, After(env, s, tree, p, o), p, c) <==>
      if p in tree && !o.IsError() then c == tree[p] else Synced(env, s, p, c)
  {
    if p in tree && !o.IsError() {
      StepKeeps(env, s, tree, p, o);
      if Synced(env, After(env, s, tree, p, o), p, c) { SyncedUnique(env, After(env, s, tree, p, o), p, c, tree[p]); }
    }
  }

  /**
   After the steps an eligible file is up to date for its content in the tree if a step visited it
   without an error, and otherwise for what it was up to date for before.
   */
  lemma {:induction false} StepsSync(env: Env, s: Stores, tree: Tree, paths: seq<string>, os: seq<Outcome>, p: string,
      c: string)
    requires WellBehaved(env) && Inv(env, s) && env.Eligible(p)
    requires |os| <= |paths| && AllPossible(env, s, tree, paths, os)
    requires forall i :: 0 <= i < |os| ==> !os[i].FailedAfterPut?
    ensures Synced(env, AfterAll(env, s, tree, paths, os), p, c) <==>
      if p in tree && VisitedOk(paths, os, p) then c == tree[p] else Synced(env, s, p, c)
    decreases |os|
  {
    if os != [] {
      var s1 := After(env, s, tree, paths[0], os[0]);
      StepKeeps(env, s, tree, paths[0], os[0]);
      StepsSync(env, s1, tree, paths[1..], os[1..], p, c);
      VisitedCons(paths, os, p);
      if p == paths[0] {
        StepAtFile(env, s, tree, p, os[0], c);
      } else {
        StepFrame(env, s, tree, paths[0], os[0], p, c);
      }
    }
  }

  lemma {:induction false} StepsKeepInv(env: Env, s: Stores, tree: Tree, paths: seq<string>, os: seq<Outcome>)
    requires WellBehaved(env) && Inv(env, s)
    requires |os| <= |paths| && AllPossible(env, s, tree, paths, os)
    requires forall i :: 0 <= i < |os| ==> !os[i].FailedAfterPut?
    ensures Inv(env, AfterAll(env, s, tree, paths, os))
    decreases |os|
  {
    if os != [] {
      StepKeeps(env, s, tree, paths[0], os[0]);
      StepsKeepInv(env, After(env, s, tree, paths[0], os[0]), tree, paths[1..], os[1..]);
    }
  }

  /**
   What any run says about one eligible file, whatever it read: `disk` is the working directory, or what a
   file source serves. Only a failure after the cache row is written is excluded.
   */
  lemma RunSyncs(env: Env, s: Stores, changes: seq<FileChange>, disk: Tree, t: Trace, p: string, c: string)
    requires WellBehaved(env) && Inv(env, s) && RunPossible(env, s, changes, disk, t) && t.NoneAfterPut()
    requires env.Eligible(p)
    ensures Synced(env, AfterRun(env, s, changes, disk, t), p, c) <==>
      if p in disk && t.Visited(p) then c == disk[p] else Synced(env, s, p, c) && !t.Deleted(p)
  {
    DeletesKeep(env, s, t.gone, t.deletions);
    StepsSync(env, AfterDeletes(env, s, t.gone, t.deletions), disk, t.Todo(), t.steps, p, c);
    DeletesSync(env, s, t.gone, t.deletions, p, c);
  }

  lemma RunKeepsInv(env: Env, s: Stores, changes: seq<FileChange>, disk: Tree, t: Trace)
    requires WellBehaved(env) && Inv(env, s) && RunPossible(env, s, changes, disk, t) && t.NoneAfterPut()
    ensures Inv(env, AfterRun(env, s, changes, disk, t))
  {
    DeletesKeep(env, s, t.gone, t.deletions);
    StepsKeepInv(env, AfterDeletes(env, s, t.gone, t.deletions), disk, t.Todo(), t.steps);
  }

  /** A run leaves a file with content `c` when it read that, or when the file was so and is not tombstoned. */
  ghost predicate UpToDateAfter(env: Env, s: Stores, disk: Tree, t: Trace, p: string, c: string) {
    !env.Eligible(p) ||
    if p in disk && t.Visited(p) then c == disk[p] else Synced(env, s, p, c) && !t.Deleted(p)
  }

  /**
   Any run -- over any list of changes, stopped early or not, with errors or without, whatever it read --
   leaves a file of the tree up to date if and only if it visited the file without an error and read its
   content in the tree, or did not visit it and the file was up to date and not tombstoned.
   */
  lemma RunSyncsIff(env: Env, s: Stores, changes: seq<FileChange>, disk: Tree, tree: Tree, t: Trace)
    requires WellBehaved(env) && Inv(env, s) && RunPossible(env, s, changes, disk, t) && t.NoneAfterPut()
    ensures Inv(env, AfterRun(env, s, changes, disk, t))
    ensures forall p :: p in tree ==>
      (Synced(env, AfterRun(env, s, changes, disk, t), p, tree[p]) <==> UpToDateAfter(env, s, disk, t, p, tree[p]))
  {
    RunKeepsInv(env, s, changes, disk, t);
    forall p | p in tree
      ensures Synced(env, AfterRun(env, s, changes, disk, t), p, tree[p]) <==>
        UpToDateAfter(env, s, disk, t, p, tree[p])
    {
      if env.Eligible(p) {
        RunSyncs(env, s, changes, disk, t, p, tree[p]);
      } else {
        IneligibleHasNone(env, AfterRun(env, s, changes, disk, t), p);
      }
    }
  }

  /** A completed run without an error on the tree visits every listed file. */
  lemma CleanRunVisits(env: Env, s: Stores, changes: seq<FileChange>, disk: Tree, tree: Tree, t: Trace, p: string)
    requires RunPossible(env, s, changes, disk, t) && t.Completed() && t.CleanOn(tree) && p in tree
    ensures t.Visited(p) <==> p in t.Todo()
    ensures t.Visited(p) && !env.isGenerated(p) ==> p in disk
    ensures t.Deleted(p) <==> Leaves(changes, p)
  {
    if p in t.Todo() {
      var i :| 0 <= i < |t.Todo()| && t.Todo()[i] == p;
      assert !t.steps[i].IsError();
      StepPossible(env, AfterDeletes(env, s, t.gone, t.deletions), disk, t.Todo(), t.steps, i);
    }
    if Leaves(changes, p) {
      var i :| 0 <= i < |t.gone| && t.gone[i] == p;
      assert t.deletions[i] == DeleteOutcome.Tombstoned;
    }
  }

  // ----- what a run reads

  /** A listed file of the commit has, where the run reads it, the content of the commit. */
  ghost predicate ReadsCommit(disk: Tree, tree: Tree, t: Trace) {
    forall p :: p in t.Todo() && p in disk && p in tree ==> disk[p] == tree[p]
  }

  /** A listed path that the commit does not have is not found where the run reads, either. */
  ghost predicate NoStrays(disk: Tree, tree: Tree, t: Trace) {
    forall p :: p in t.Todo() && p in disk ==> p in tree
  }

  /** A run that met no error on the commit's files and read what the commit has. */
  ghost predicate Faithful(disk: Tree, tree: Tree, t: Trace) {
    t.Completed() && t.CleanOn(tree) && t.NoneAfterPut() && ReadsCommit(disk, tree, t)
  }

  /**
   A run that stops early, or meets errors before the cache row is written, keeps the invariant
   and every file that the diff does not mention and that is not edited on disk.
   */
  lemma PartialRunKeeps(env: Env, s: Stores, before: Tree, changes: seq<FileChange>, disk: Tree, tree: Tree, t: Trace)
    requires WellBehaved(env) && Inv(env, s) && CorrectDiff(before, changes, tree)
    requires RunPossible(env, s, changes, disk, t) && t.NoneAfterPut() && ReadsCommit(disk, tree, t)
    ensures Inv(env, AfterRun(env, s, changes, disk, t))
    ensures forall p :: p in tree && !Changes(changes, p) && Synced(env, s, p, tree[p]) ==>
      Synced(env, AfterRun(env, s, changes, disk, t), p, tree[p])
  {
    RunSyncsIff(env, s, changes, disk, tree, t);
    forall p | p in tree && !Changes(changes, p) && Synced(env, s, p, tree[p])
      ensures Synced(env, AfterRun(env, s, changes, disk, t), p, tree[p])
    {
      assert !Leaves(changes, p);
      assert !t.Deleted(p) by { assert p !in t.gone; }
      if p in disk && t.Visited(p) { assert p in t.Todo(); }
    }
  }

  // ----- a run in which nothing fails

  /** The extractors take every file of the tree that is meant for them. */
  ghost predicate ExtractsAll(env: Env, tree: Tree) {
    forall p :: p in tree && env.Eligible(p) ==> env.Extracts(p, tree[p]).Ok?
  }

  /** No statement fails and the context is not cancelled. */
  ghost predicate Faultless(f: RunFaults) {
    forall i: nat :: !f.cancelled(i) && f.files(i) == NO_FILE_FAULTS && !f.cacheMark(i) && !f.fileMark(i)
  }

  lemma FaultlessIsFaithful(env: Env, s: Stores, changes: seq<FileChange>, tree: Tree, t: Trace, clock: nat -> int,
      f: RunFaults)
    requires RunPossible(env, s, changes, tree, t) && DueTrace(env, s, tree, t, clock, f)
    requires Faultless(f) && ExtractsAll(env, tree)
    ensures Faithful(tree, tree, t) && NoStrays(tree, tree, t)
  {
    NoFaultsClean(env, AfterDeletes(env, s, t.gone, t.deletions), tree, t.Todo(), 0, clock, f);
  }

  /**
   A run towards a commit that is checked out, from a store in sync with the commit before it, ends in sync
   whenever no statement fails and the extractors take every file.
   */
  lemma FaultlessRunSyncs(env: Env, s: Stores, before: Tree, changes: seq<FileChange>, tree: Tree, t: Trace,
      clock: nat -> int, f: RunFaults)
    requires WellBehaved(env) && Inv(env, s) && InSync(env, s, before) && CorrectDiff(before, changes, tree)
    requires RunPossible(env, s, changes, tree, t) && DueTrace(env, s, tree, t, clock, f)
    requires Faultless(f) && ExtractsAll(env, tree)
    ensures Inv(env, AfterRun(env, s, changes, tree, t)) && InSync(env, AfterRun(env, s, changes, tree, t), tree)
  {
    FaultlessIsFaithful(env, s, changes, tree, t, clock, f);
    RunAdvances(env, s, before, changes, tree, tree, t);
  }

  // ----- paths that left the tree

  /** Nothing can hit a path outside the tree, and its source-file row, if any, is a tombstone. */
  ghost predicate Gone(env: Env, s: Stores, p: string) {
    && (forall want :: !IsHit(s.cache, env.KeyOf(p), want))
    && (env.KeyOf(p) in s.files ==> s.files[env.KeyOf(p)].deleted)
  }

  ghost predicate AllGone(env: Env, s: Stores, tree: Tree) {
    forall p :: p !in tree ==> Gone(env, s, p)
  }

  lemma {:induction false} DeletesTombstone(env: Env, s: Stores, paths: seq<string>, os: seq<DeleteOutcome>)
    requires |os| == |paths| && forall i :: 0 <= i < |os| ==> os[i] == DeleteOutcome.Tombstoned
    ensures forall p :: p in paths || Gone(env, s, p) ==> Gone(env, AfterDeletes(env, s, paths, os), p)
    ensures AfterDeletes(env, s, paths, os).files.Keys == s.files.Keys
    decreases |os|
  {
    if os != [] {
      var s1 := AfterDelete(env, s, paths[0], os[0]);
      assert Gone(env, s1, paths[0]);
      forall p | Gone(env, s, p) ensures Gone(env, s1, p) {
        forall want ensures !IsHit(s1.cache, env.KeyOf(p), want) { assert !IsHit(s.cache, env.KeyOf(p), want); }
      }
      DeletesTombstone(env, s1, paths[1..], os[1..]);
    }
  }

  /** A path that is not visited, or is not there to be read, stays gone. */
  lemma {:induction false} StepsKeepGone(env: Env, s: Stores, disk: Tree, paths: seq<string>, os: seq<Outcome>,
      p: string)
    requires |os| <= |paths| && AllPossible(env, s, disk, paths, os)
    requires Gone(env, s, p) && (p in disk ==> p !in paths)
    ensures Gone(env, AfterAll(env, s, disk, paths, os), p)
    decreases |os|
  {
    if os != [] {
      var s1 := After(env, s, disk, paths[0], os[0]);
      forall want ensures !IsHit(s1.cache, env.KeyOf(p), want) { assert !IsHit(s.cache, env.KeyOf(p), want); }
      StepsKeepGone(env, s1, disk, paths[1..], os[1..], p);
    }
  }

  lemma {:induction false} StepsKeepRows(env: Env, s: Stores, disk: Tree, paths: seq<string>, os: seq<Outcome>)
    requires |os| <= |paths| && AllPossible(env, s, disk, paths, os)
    ensures AfterAll(env, s, disk, paths, os).files.Keys >= s.files.Keys
    decreases |os|
  {
    if os != [] { StepsKeepRows(env, After(env, s, disk, paths[0], os[0]), disk, paths[1..], os[1..]); }
  }

  lemma RunTombstones(env: Env, s: Stores, before: Tree, changes: seq<FileChange>, disk: Tree, tree: Tree, t: Trace)
    requires CorrectDiff(before, changes, tree) && AllGone(env, s, before)
    requires RunPossible(env, s, changes, disk, t) && t.CleanOn(tree) && NoStrays(disk, tree, t)
    ensures AllGone(env, AfterRun(env, s, changes, disk, t), tree)
    ensures AfterRun(env, s, changes, disk, t).files.Keys >= s.files.Keys
  {
    var s1 := AfterDeletes(env, s, t.gone, t.deletions);
    DeletesTombstone(env, s, t.gone, t.deletions);
    StepsKeepRows(env, s1, disk, t.Todo(), t.steps);
    forall p | p !in tree ensures Gone(env, AfterRun(env, s, changes, disk, t), p) {
      if p in before { assert p in t.gone; }
      StepsKeepGone(env, s1, disk, t.Todo(), t.steps, p);
    }
  }

  /** A file that was up to date and leaves the tree keeps its row, now a tombstone. */
  lemma LeavingPathTombstoned(env: Env, s: Stores, before: Tree, changes: seq<FileChange>, disk: Tree, tree: Tree,
      t: Trace, p: string)
    requires CorrectDiff(before, changes, tree) && AllGone(env, s, before)
    requires RunPossible(env, s, changes, disk, t) && t.CleanOn(tree) && NoStrays(disk, tree, t)
    requires p in before && Synced(env, s, p, before[p]) && env.Eligible(p) && p !in tree
    ensures var s' := AfterRun(env, s, changes, disk, t);
      env.KeyOf(p) in s'.files && s'.files[env.KeyOf(p)].deleted
  {
    RunTombstones(env, s, before, changes, disk, tree, t);
    assert Gone(env, AfterRun(env, s, changes, disk, t), p);
  }

  // ----- runs over a history of commits

  /** A run towards the commit `tree` that reads `disk`; between runs the cache may be reconciled or evicted. */
  datatype Event = Run(changes: seq<FileChange>, tree: Tree, disk: Tree, trace: Trace) | CacheLoss(cache: Table)

  ghost predicate Replays(env: Env, s: Stores, before: Tree, events: seq<Event>, end: Stores, after: Tree)
    decreases |events|
  {
    if events == [] then end == s && after == before
    else match events[0]
      case CacheLoss(cache) =>
        OnlyLosesHits(s.cache, cache) && Replays(env, s.(cache := cache), before, events[1..], end, after)
      case Run(changes, tree, disk, t) =>
        && CorrectDiff(before, changes, tree)
        && RunPossible(env, s, changes, disk, t) && Faithful(disk, tree, t) && NoStrays(disk, tree, t)
        && Replays(env, AfterRun(env, s, changes, disk, t), tree, events[1..], end, after)
  }

  /** A faithful run gets in sync once the files that it is not told about are. */
  lemma FaithfulRunSyncs(env: Env, s: Stores, changes: seq<FileChange>, disk: Tree, tree: Tree, t: Trace)
    requires WellBehaved(env) && Inv(env, s) && RunPossible(env, s, changes, disk, t) && Faithful(disk, tree, t)
    requires forall p :: p in tree && Leaves(changes, p) ==> Changes(changes, p)
    requires forall p :: p in tree && !Changes(changes, p) ==> Synced(env, s, p, tree[p])
    ensures Inv(env, AfterRun(env, s, changes, disk, t))
    ensures InSync(env, AfterRun(env, s, changes, disk, t), tree)
  {
    RunSyncsIff(env, s, changes, disk, tree, t);
    forall p | p in tree ensures UpToDateAfter(env, s, disk, t, p, tree[p]) {
      CleanRunVisits(env, s, changes, disk, tree, t, p);
      if p !in t.Todo() { assert !Changes(changes, p); }
    }
  }

  lemma RunAdvances(env: Env, s: Stores, before: Tree, changes: seq<FileChange>, disk: Tree, tree: Tree, t: Trace)
    requires WellBehaved(env) && Inv(env, s) && InSync(env, s, before) && CorrectDiff(before, changes, tree)
    requires RunPossible(env, s, changes, disk, t) && Faithful(disk, tree, t)
    ensures Inv(env, AfterRun(env, s, changes, disk, t))
    ensures InSync(env, AfterRun(env, s, changes, disk, t), tree)
  {
    FaithfulRunSyncs(env, s, changes, disk, tree, t);
  }

  lemma {:induction false} HistoryKeepsSync(env: Env, s: Stores, before: Tree, events: seq<Event>, end: Stores,
      after: Tree)
    requires WellBehaved(env) && Inv(env, s) && InSync(env, s, before) && AllGone(env, s, before)
    requires Replays(env, s, before, events, end, after)
    ensures Inv(env, end) && InSync(env, end, after) && AllGone(env, end, after)
    decreases |events|
  {
    if events != [] {
      match events[0]
      case CacheLoss(cache) =>
        LosingHitsKeepsInv(env, s, cache);
        var s1 := s.(cache := cache);
        assert forall p :: Gone(env, s, p) ==> Gone(env, s1, p);
        assert InSync(env, s1, before) by { assert forall p, c :: Synced(env, s, p, c) ==> Synced(env, s1, p, c); }
        HistoryKeepsSync(env, s1, before, events[1..], end, after);
      case Run(changes, tree, disk, t) =>
        RunAdvances(env, s, before, changes, disk, tree, t);
        RunTombstones(env, s, before, changes, disk, tree, t);
        HistoryKeepsSync(env, AfterRun(env, s, changes, disk, t), tree, events[1..], end, after);
    }
  }

  /** A single run on empty stores that lists every file of the tree as added, and reads the tree. */
  ghost predicate FullRun(env: Env, changes: seq<FileChange>, tree: Tree, t: Trace) {
    && CorrectDiff(map[], changes, tree)
    && RunPossible(env, EMPTY, changes, tree, t) && Faithful(tree, tree, t)
  }

  /**
   Along any sequence of correct diffs, with evictions in between, every file of the final tree
   holds exactly the claims that one full run on empty stores gives it, in the same order, and
   the same source-file row; and every path outside the final tree is tombstoned.
   */
  lemma IncrementalRefinesFull(env: Env, events: seq<Event>, end: Stores, tree: Tree,
                               changes: seq<FileChange>, t: Trace, p: string)
    requires WellBehaved(env)
    requires Replays(env, EMPTY, map[], events, end, tree)
    requires FullRun(env, changes, tree, t)
    ensures p in tree ==>
      && FileClaims(end.claims, p) == FileClaims(AfterRun(env, EMPTY, changes, tree, t).claims, p)
      && (env.Eligible(p) ==>
            && env.KeyOf(p) in end.files && env.KeyOf(p) in AfterRun(env, EMPTY, changes, tree, t).files
            && end.files[env.KeyOf(p)] == AfterRun(env, EMPTY, changes, tree, t).files[env.KeyOf(p)])
    ensures p !in tree ==> Gone(env, end, p)
  {
    HistoryKeepsSync(env, EMPTY, map[], events, end, tree);
    RunAdvances(env, EMPTY, map[], changes, tree, tree, t);
    if p in tree {
      assert Synced(env, end, p, tree[p]);
      assert Synced(env, AfterRun(env, EMPTY, changes, tree, t), p, tree[p]);
    }
  }

  // ----- runs in terms of contents

  /** What the store is up to date for: exactly these contents, and nothing else. */
  ghost predicate Mirrors(env: Env, s: Stores, known: Tree) {
    forall p, c :: env.Eligible(p) ==> (Synced(env, s, p, c) <==> p in known && known[p] == c)
  }

  predicate SameIn(known: Tree, tree: Tree, p: string)
    requires p in tree
  {
    p in known && known[p] == tree[p]
  }

  /** Every eligible file of the tree has the same content in `known`. */
  ghost predicate SameFiles(env: Env, known: Tree, tree: Tree) {
    forall p :: p in tree && env.Eligible(p) ==> SameIn(known, tree, p)
  }

  lemma EmptyMirrors(env: Env)
    ensures Mirrors(env, EMPTY, map[])
  {
  }

  /** A store in sync with a commit, and with nothing left of other paths, mirrors the commit. */
  lemma SyncMirrors(env: Env, s: Stores, cur: Tree)
    requires CollisionFree(env) && InSync(env, s, cur) && AllGone(env, s, cur)
    ensures Mirrors(env, s, cur)
  {
    forall p, c | env.Eligible(p) ensures Synced(env, s, p, c) <==> p in cur && cur[p] == c {
      if p in cur {
        assert Synced(env, s, p, cur[p]);
        if Synced(env, s, p, c) { SyncedUnique(env, s, p, c, cur[p]); }
      } else {
        assert Gone(env, s, p);
      }
    }
  }

  lemma InSyncIffSame(env: Env, s: Stores, known: Tree, tree: Tree)
    requires Owned(env, s) && Mirrors(env, s, known)
    ensures InSync(env, s, tree) <==> SameFiles(env, known, tree)
  {
    forall p | p in tree ensures Synced(env, s, p, tree[p]) <==> !env.Eligible(p) || SameIn(known, tree, p) {
      if !env.Eligible(p) { IneligibleHasNone(env, s, p); }
    }
  }

  /** After a run: the files it visited without an error as it read them, the others unless tombstoned. */
  ghost function KnownAfter(known: Tree, disk: Tree, t: Trace): Tree {
    map p | p in known.Keys + disk.Keys && ((p in disk && t.Visited(p)) || (p in known && !t.Deleted(p))) ::
      if p in disk && t.Visited(p) then disk[p] else known[p]
  }

  /** Any run, over any list of changes, stopped early or not, with errors or without, keeps the books. */
  lemma RunMirrors(env: Env, s: Stores, known: Tree, changes: seq<FileChange>, disk: Tree, t: Trace)
    requires WellBehaved(env) && Inv(env, s) && Mirrors(env, s, known) && RunPossible(env, s, changes, disk, t)
    requires t.NoneAfterPut()
    ensures Inv(env, AfterRun(env, s, changes, disk, t))
    ensures Mirrors(env, AfterRun(env, s, changes, disk, t), KnownAfter(known, disk, t))
  {
    RunKeepsInv(env, s, changes, disk, t);
    var known' := KnownAfter(known, disk, t);
    forall p, c | env.Eligible(p)
      ensures Synced(env, AfterRun(env, s, changes, disk, t), p, c) <==> p in known' && known'[p] == c
    {
      RunSyncs(env, s, changes, disk, t, p, c);
    }
  }

  /** Where a run visits the file, what it read decides; elsewhere, what was known, unless it was tombstoned. */
  ghost predicate ReadOrKept(known: Tree, disk: Tree, tree: Tree, t: Trace, p: string)
    requires p in tree
  {
    if p in disk && t.Visited(p) then disk[p] == tree[p] else SameIn(known, tree, p) && !t.Deleted(p)
  }

  /**
   From a store that is up to date for `known`, any run -- whatever commit its diff starts from, whatever it
   reads, stopped early or with errors -- ends in sync with `tree` if and only if every eligible file that it
   visited without an error had the content of `tree` when read, and every other one has it in `known` and
   was not tombstoned.
   */
  lemma RunFromKnownSyncsIff(env: Env, s: Stores, known: Tree, changes: seq<FileChange>, disk: Tree, tree: Tree,
      t: Trace)
    requires WellBehaved(env) && Inv(env, s) && Mirrors(env, s, known)
    requires RunPossible(env, s, changes, disk, t) && t.NoneAfterPut()
    ensures InSync(env, AfterRun(env, s, changes, disk, t), tree) <==>
      forall p :: p in tree && env.Eligible(p) ==> ReadOrKept(known, disk, tree, t, p)
  {
    RunMirrors(env, s, known, changes, disk, t);
    InSyncIffSame(env, AfterRun(env, s, changes, disk, t), KnownAfter(known, disk, t), tree);
    forall p | p in tree
      ensures SameIn(KnownAfter(known, disk, t), tree, p) <==> ReadOrKept(known, disk, tree, t, p)
    {
    }
  }

  /**
   A completed run without an error on the tree, from any start commit, ends in sync if and only if every
   eligible file that it was told to look at is on disk as in the tree, and every other one has the same
   content in the commit the store had.
   */
  lemma ResumeSyncsIff(env: Env, s: Stores, cur: Tree, from: Tree, changes: seq<FileChange>, disk: Tree, tree: Tree,
      t: Trace)
    requires WellBehaved(env) && Inv(env, s) && Mirrors(env, s, cur)
    requires CorrectDiff(from, changes, tree)
    requires RunPossible(env, s, changes, disk, t) && t.Completed() && t.CleanOn(tree) && t.NoneAfterPut()
    ensures InSync(env, AfterRun(env, s, changes, disk, t), tree) <==>
      forall p :: p in tree && env.Eligible(p) ==> SameIn(if p in t.Todo() then disk else cur, tree, p)
  {
    RunFromKnownSyncsIff(env, s, cur, changes, disk, tree, t);
    forall p | p in tree && env.Eligible(p)
      ensures ReadOrKept(cur, disk, tree, t, p) <==> SameIn(if p in t.Todo() then disk else cur, tree, p)
    {
      CleanRunVisits(env, s, changes, disk, tree, t, p);
      if p !in t.Todo() { assert !Changes(changes, p); }
    }
  }

  // ----- files that are listed but not there

  /** A completed run that met no error on what it could read is free of errors if and only if it skipped the rest. */
  lemma ErrorFreeIff(env: Env, s: Stores, changes: seq<FileChange>, disk: Tree, t: Trace)
    requires RunPossible(env, s, changes, disk, t) && t.Completed() && t.CleanOn(disk)
    ensures t.ErrorFree() <==> forall p :: p in t.Todo() && p !in disk ==> env.isGenerated(p)
  {
    forall i | 0 <= i < |t.steps| && t.Todo()[i] !in disk
      ensures t.steps[i].IsError() <==> !env.isGenerated(t.Todo()[i])
    {
      StepPossible(env, AfterDeletes(env, s, t.gone, t.deletions), disk, t.Todo(), t.steps, i);
    }
    if t.ErrorFree() {
      forall p | p in t.Todo() && p !in disk ensures env.isGenerated(p) {
        var i :| 0 <= i < |t.Todo()| && t.Todo()[i] == p;
        assert !t.steps[i].IsError();
      }
    }
  }

  /**
   The claims of a removed file stay, so the file is still listed as an importer when what it imports
   changes; its read then fails. For a correct diff the claims tell beforehand whether a run that is clean
   on the tree is free of errors: if and only if every importer that is not in the tree is generated.
   */
  lemma RemovedImporterFails(env: Env, s: Stores, before: Tree, changes: seq<FileChange>, tree: Tree, t: Trace)
    requires CorrectDiff(before, changes, tree) && RunPossible(env, s, changes, tree, t)
    requires t.Completed() && t.CleanOn(tree) && IsReverseDeps(s.claims, t.changed, t.extra)
    ensures t.ErrorFree() <==>
      forall f :: ImportsChanged(s.claims, t.changed, f) && f !in tree ==> env.isGenerated(f)
  {
    ErrorFreeIff(env, s, changes, tree, t);
    forall p | p !in tree ensures p in t.Todo() <==> ImportsChanged(s.claims, t.changed, p) {
      assert p !in t.changed;
      assert p in t.Todo() <==> p in t.extra;
    }
  }

  lemma {:induction false} StepPossible(env: Env, s: Stores, tree: Tree, paths: seq<string>, os: seq<Outcome>, k: nat)
    requires k < |os| <= |paths| && AllPossible(env, s, tree, paths, os)
    ensures exists s' :: Possible(env, s', tree, paths[k], os[k])
    decreases |os|
  {
    if k == 0 {
      assert Possible(env, s, tree, paths[0], os[0]);
    } else {
      StepPossible(env, After(env, s, tree, paths[0], os[0]), tree, paths[1..], os[1..], k - 1);
    }
  }
}
