/**
 The pipeline object (pipeline/pipeline.go): its methods work on the two stores in place and are
 proved against the step functions of module Extraction.
 */
module Pipeline {
  import opened Basics
  import opened CacheStore
  import opened ClaimsStore
  import opened GitDiff
  import opened Extraction
  import opened ReverseDeps

  /** The counters of one run, the paths it was to visit, and the warning about an empty diff. */
  datatype Tally = Tally(filesChanged: nat, filesExtracted: nat, filesDeleted: nat, filesSkipped: nat, cacheHits: nat,
                         claimsStored: nat, reverseDepFiles: nat, errors: nat, changedPaths: seq<string>, warning: bool)

  datatype RunStatus = DiffFailed | Cancelled | Completed

  function Count(os: seq<Outcome>, f: Outcome -> bool): nat {
    if os == [] then 0 else Count(os[..|os| - 1], f) + (if f(os[|os| - 1]) then 1 else 0)
  }

  function CountFailed(os: seq<DeleteOutcome>): nat {
    if os == [] then 0 else CountFailed(os[..|os| - 1]) + (if os[|os| - 1].Tombstoned? then 0 else 1)
  }

  /** The claims that a step stored: those of the content that it extracted. */
  function ClaimsOf(env: Env, disk: Tree, path: string, o: Outcome): nat {
    if o.Extracted? && path in disk then |env.Expected(path, disk[path])| else 0
  }

  /** The claims of the contents that the steps stored. */
  function ClaimsStored(env: Env, disk: Tree, todo: seq<string>, os: seq<Outcome>): nat
    requires |os| <= |todo|
  {
    if os == [] then 0
    else
      var n := |os| - 1;
      ClaimsStored(env, disk, todo, os[..n])
      + ClaimsOf(env, disk, todo[n], os[n])
  }

  /** Two different commits whose comparison names no file. */
  predicate SuspiciousDiff(changes: seq<FileChange>, from: string, to: string) {
    changes == [] && from != to && from != "" && to != ""
  }

  /** The counters are a function of the trace: each step is counted once, under its own outcome. */
  function TallyOf(env: Env, changes: seq<FileChange>, from: string, to: string, disk: Tree, t: Trace): Tally
    requires |t.steps| <= |t.Todo()|
  {
    Tally(|t.Todo()|,
          Count(t.steps, (o: Outcome) => o.Extracted?),
          |t.deletions|,
          Count(t.steps, (o: Outcome) => o.Skipped?),
          Count(t.steps, (o: Outcome) => o.CacheHit?),
          ClaimsStored(env, disk, t.Todo(), t.steps),
          |t.extra|,
          CountFailed(t.deletions) + Count(t.steps, (o: Outcome) => o.IsError()),
          t.Todo(),
          SuspiciousDiff(changes, from, to))
  }

  lemma CountSnoc(os: seq<Outcome>, o: Outcome, f: Outcome -> bool)
    ensures Count(os + [o], f) == Count(os, f) + if f(o) then 1 else 0
  {
    assert (os + [o])[..|os|] == os;
  }

  /** The counters of the steps. */
  datatype Counted = Counted(extracted: nat, skipped: nat, hits: nat, errors: nat, stored: nat)

  function CountedOf(env: Env, disk: Tree, todo: seq<string>, os: seq<Outcome>): Counted
    requires |os| <= |todo|
  {
    Counted(Count(os, (o: Outcome) => o.Extracted?), Count(os, (o: Outcome) => o.Skipped?),
            Count(os, (o: Outcome) => o.CacheHit?), Count(os, (o: Outcome) => o.IsError()),
            ClaimsStored(env, disk, todo, os))
  }

  /** One more step counts once, under its own outcome. */
  function CountedStep(c: Counted, o: Outcome, added: nat): Counted {
    match o
    case Extracted(_) => c.(extracted := c.extracted + 1, stored := c.stored + added)
    case Skipped => c.(skipped := c.skipped + 1)
    case CacheHit => c.(hits := c.hits + 1)
    case _ => c.(errors := c.errors + 1)
  }

  lemma CountedSnoc(env: Env, disk: Tree, todo: seq<string>, os: seq<Outcome>, o: Outcome, added: nat)
    requires |os| < |todo|
    requires added == ClaimsOf(env, disk, todo[|os|], o)
    ensures CountedOf(env, disk, todo, os + [o]) == CountedStep(CountedOf(env, disk, todo, os), o, added)
  {
    assert (os + [o])[..|os|] == os;
    CountSnoc(os, o, (o: Outcome) => o.Extracted?);
    CountSnoc(os, o, (o: Outcome) => o.Skipped?);
    CountSnoc(os, o, (o: Outcome) => o.CacheHit?);
    CountSnoc(os, o, (o: Outcome) => o.IsError());
  }

  lemma ConsToSnoc(front: seq<Outcome>, o: Outcome, back: seq<Outcome>)
    ensures front + ([o] + back) == (front + [o]) + back
  {
  }

  lemma StepsFromCons(env: Env, s: Stores, disk: Tree, todo: seq<string>, k: nat, clock: nat -> int, f: RunFaults)
    requires k < |todo| && !f.cancelled(k)
    ensures var o := OutcomeOf(env, s, disk, todo[k], clock(k), f.files(k));
      && Possible(env, s, disk, todo[k], o)
      && StepsFrom(env, s, disk, todo[k..], k, clock, f)
         == [o] + StepsFrom(env, After(env, s, disk, todo[k], o), disk, todo[k + 1..], k + 1, clock, f)
  {
    OutcomePossible(env, s, disk, todo[k], clock(k), f.files(k));
    assert todo[k..][1..] == todo[k + 1..];
  }

  /** The state of a run after these steps: what is still to come is what the whole run would still do. */
  ghost predicate Reached(env: Env, start: Stores, s: Stores, disk: Tree, todo: seq<string>, steps: seq<Outcome>,
                          c: Counted, clock: nat -> int, f: RunFaults)
  {
    && |steps| <= |todo| && AllPossible(env, start, disk, todo, steps)
    && s == AfterAll(env, start, disk, todo, steps) && c == CountedOf(env, disk, todo, steps)
    && StepsFrom(env, start, disk, todo, 0, clock, f)
       == steps + StepsFrom(env, s, disk, todo[|steps|..], |steps|, clock, f)
  }

  lemma ReachedStep(env: Env, start: Stores, s: Stores, disk: Tree, todo: seq<string>, steps: seq<Outcome>, c: Counted,
                    clock: nat -> int, f: RunFaults, o: Outcome, added: nat)
    requires Reached(env, start, s, disk, todo, steps, c, clock, f) && |steps| < |todo| && !f.cancelled(|steps|)
    requires o == OutcomeOf(env, s, disk, todo[|steps|], clock(|steps|), f.files(|steps|))
    requires added == ClaimsOf(env, disk, todo[|steps|], o)
    ensures Possible(env, s, disk, todo[|steps|], o)
    ensures Reached(env, start, After(env, s, disk, todo[|steps|], o), disk, todo, steps + [o],
                    CountedStep(c, o, added), clock, f)
  {
    StepsFromCons(env, s, disk, todo, |steps|, clock, f);
    AfterAllSnoc(env, start, disk, todo, steps, o);
    CountedSnoc(env, disk, todo, steps, o, added);
    ConsToSnoc(steps, o, StepsFrom(env, After(env, s, disk, todo[|steps|], o), disk, todo[|steps| + 1..], |steps| + 1,
                                   clock, f));
  }

  lemma ReachedEnd(env: Env, start: Stores, s: Stores, disk: Tree, todo: seq<string>, steps: seq<Outcome>, c: Counted,
                   clock: nat -> int, f: RunFaults)
    requires Reached(env, start, s, disk, todo, steps, c, clock, f)
    requires |steps| == |todo| || f.cancelled(|steps|)
    ensures steps == StepsFrom(env, start, disk, todo, 0, clock, f)
  {
    assert steps + [] == steps;
  }

  class Pipeline {
    const env: Env
    const cache: SQLiteStore
    const db: ClaimsDB

    constructor (env: Env, cache: SQLiteStore, db: ClaimsDB)
      requires db.Valid() && db.backup.None?
      ensures this.env == env && this.cache == cache && this.db == db && Valid()
    {
      this.env, this.cache, this.db := env, cache, db;
    }

    ghost predicate Valid()
      reads db
    {
      db.Valid() && db.backup.None?
    }

    ghost function State(): Stores
      requires Valid()
      reads cache, db
    {
      Stores(cache.rows, db.Claims(), db.tables.files)
    }

    /** Upsert the subject of every claim and insert the claim, stopping at the first failure. */
    method StoreClaims(path: string, drafts: seq<Draft>, fails: nat -> bool) returns (r: Result<()>)
      requires db.Valid() && db.backup.Some?
      modifies db
      ensures db.Valid() && db.backup == old(db.backup) && db.tables.files == old(db.tables.files)
      ensures r.Err? <==> exists i: nat :: i < |drafts| && fails(i)
      ensures r.Ok? ==> db.Claims() == old(db.Claims()) + env.Complete(path, drafts)
    {
      for i := 0 to |drafts|
        invariant !exists k: nat :: k < i && fails(k)
        invariant db.Valid() && db.backup == old(db.backup) && db.tables.files == old(db.tables.files)
        invariant db.Claims() == old(db.Claims()) + env.Complete(path, drafts)[..i]
      {
        var one := StoreClaim(path, drafts[i], fails(i));
        if one.Err? { return Err; }
        assert env.Complete(path, drafts)[..i + 1] == env.Complete(path, drafts)[..i] + [env.Complete(path, drafts)[i]];
      }
      assert env.Complete(path, drafts)[..|drafts|] == env.Complete(path, drafts);
      r := Ok(());
    }

    /** The subject of a claim, then the claim. */
    method StoreClaim(path: string, d: Draft, fails: bool) returns (r: Result<()>)
      requires db.Valid() && db.backup.Some?
      modifies db
      ensures db.Valid() && db.backup == old(db.backup) && db.tables.files == old(db.tables.files)
      ensures r.Err? <==> fails
      ensures r.Ok? ==> db.Claims() == old(db.Claims()) + [Claim(env.SubjectOf(path, d), d.body)]
    {
      var id := db.UpsertSymbol(SymbolRow(env.SubjectOf(path, d), d.info), fails);
      if id.Err? { return Err; }
      r := db.InsertClaim(ClaimRow(id.value, d.body), fails);
    }

    /** The body of the transaction; `put` tells whether the cache row was written. */
    method Replace(name: string, path: string, drafts: seq<Draft>, stamp: Stamp, now: int, size: nat, f: FileFaults)
      returns (r: Result<()>, put: bool)
      requires db.Valid() && db.backup.Some?
      modifies cache, db
      ensures db.Valid() && db.backup == old(db.backup)
      ensures cache.rows ==
        if put then WithEntry(old(cache.rows), env.KeyOf(path), stamp, now, size) else old(cache.rows)
      ensures put <==> FailsBeforePut(f.(begin := false), |drafts|) == false
      ensures r.Ok? <==> put && !f.upsert
      ensures r.Ok? ==> db.Claims() == DropClaims(old(db.Claims()), name, path) + env.Complete(path, drafts)
      ensures r.Ok? ==> db.tables.files == old(db.tables.files)[env.KeyOf(path) := FileRow(stamp, false)]
    {
      put := false;
      var deleted := db.DeleteClaimsByExtractorAndFile(name, path, f.delete);
      if deleted.Err? { return Err, put; }
      var stored := StoreClaims(path, drafts, f.insert);
      if stored.Err? { return Err, put; }
      var cached := cache.Put(env.KeyOf(path), stamp, now, size, f.put);
      if cached.Err? { return Err, put; }
      put := true;
      r := db.UpsertSourceFile(env.KeyOf(path), stamp, false, f.upsert);
    }

    /** Hash, cache check, extraction, then one transaction around the writes. */
    method ProcessFile(path: string, disk: Tree, now: int, f: FileFaults) returns (o: Outcome, stored: nat)
      requires Valid() && !env.isGenerated(path)
      modifies cache, db
      ensures Valid()
      ensures o == OutcomeOf(env, old(State()), disk, path, now, f) && Possible(env, old(State()), disk, path, o)
      ensures State() == After(env, old(State()), disk, path, o)
      ensures stored == ClaimsOf(env, disk, path, o)
    {
      stored := 0;
      if path !in disk { return Failed, 0; }
      if f.read { return Failed, 0; }
      var content := disk[path];
      var ex := env.Chosen(path);
      if ex.None? { return Skipped, 0; }
      var stamp := env.StampFor(path, content);
      var hit := cache.Hit(env.KeyOf(path), stamp, f.hit);
      if hit.Err? { return Failed, 0; }
      if hit.value { return CacheHit, 0; }
      if env.remote && ex.value.needsLocalFS { return Skipped, 0; }
      var drafts := ex.value.extract(env.Given(path), content);
      if drafts.Err? { return Failed, 0; }

      var begun := db.Begin(f.begin);
      if begun.Err? { return Failed, 0; }
      var replaced, put := Replace(ex.value.name, path, drafts.value, stamp, now, |content|, f);
      if replaced.Err? {
        db.Rollback();
        return if put then FailedAfterPut(now) else Failed, 0;
      }
      var committed := db.Commit(f.commit);
      if committed.Err? { return FailedAfterPut(now), 0; }
      o, stored := Extracted(now), |drafts.value|;
    }

    /** Generated files are skipped before anything is read. */
    method ProcessNext(path: string, disk: Tree, now: int, f: FileFaults) returns (o: Outcome, stored: nat)
      requires Valid()
      modifies cache, db
      ensures Valid()
      ensures o == OutcomeOf(env, old(State()), disk, path, now, f) && Possible(env, old(State()), disk, path, o)
      ensures State() == After(env, old(State()), disk, path, o)
      ensures stored == ClaimsOf(env, disk, path, o)
    {
      if env.isGenerated(path) { return Skipped, 0; }
      o, stored := ProcessFile(path, disk, now, f);
    }

    /** Tombstone in the cache, then in the claims database; a missing row there is no error. */
    method MarkDeleted(path: string, cacheFails: bool, filesFail: bool) returns (o: DeleteOutcome)
      requires Valid()
      modifies cache, db
      ensures o == DeleteOutcomeOf(cacheFails, filesFail)
      ensures Valid() && State() == AfterDelete(env, old(State()), path, o)
    {
      var c := cache.MarkDeleted(env.KeyOf(path), cacheFails);
      if c.Err? { return CacheFailed; }
      var d := db.MarkFileDeleted(env.KeyOf(path), filesFail);
      o := if d.Err? then FilesFailed else Tombstoned;
    }

    method DeletePhase(gone: seq<string>, f: RunFaults) returns (deletions: seq<DeleteOutcome>, errors: nat)
      requires Valid()
      modifies cache, db
      ensures deletions == DeletionsOf(gone, f)
      ensures Valid() && |deletions| == |gone|
      ensures State() == AfterDeletes(env, old(State()), gone, deletions)
      ensures errors == CountFailed(deletions)
    {
      deletions, errors := [], 0;
      for i := 0 to |gone|
        invariant Valid() && |deletions| == i
        invariant State() == AfterDeletes(env, old(State()), gone[..i], deletions)
        invariant errors == CountFailed(deletions)
        invariant forall k :: 0 <= k < i ==> deletions[k] == DeleteOutcomeOf(f.cacheMark(k), f.fileMark(k))
      {
        var o := MarkDeleted(gone[i], f.cacheMark(i), f.fileMark(i));
        AfterDeletesSnoc(env, old(State()), gone[..i], deletions, gone[i], o);
        assert gone[..i + 1] == gone[..i] + [gone[i]];
        assert (deletions + [o])[..i] == deletions;
        deletions := deletions + [o];
        if o != Tombstoned { errors := errors + 1; }
      }
      assert gone[..|gone|] == gone;
    }

    /** Visit the listed files in order until the context is cancelled. */
    method ProcessPhase(todo: seq<string>, disk: Tree, clock: nat -> int, f: RunFaults)
      returns (steps: seq<Outcome>, c: Counted)
      requires Valid()
      modifies cache, db
      ensures Valid() && |steps| <= |todo|
      ensures steps == StepsFrom(env, old(State()), disk, todo, 0, clock, f)
      ensures AllPossible(env, old(State()), disk, todo, steps)
      ensures State() == AfterAll(env, old(State()), disk, todo, steps)
      ensures c == CountedOf(env, disk, todo, steps)
    {
      steps, c := [], Counted(0, 0, 0, 0, 0);
      ghost var start := State();
      assert Reached(env, start, start, disk, todo, [], c, clock, f) by { assert todo[0..] == todo; }
      while |steps| < |todo|
        invariant Valid() && Reached(env, start, State(), disk, todo, steps, c, clock, f)
        decreases |todo| - |steps|
      {
        if f.cancelled(|steps|) {                  // ctx.Done()
          ReachedEnd(env, start, State(), disk, todo, steps, c, clock, f);
          return;
        }
        ghost var before, counted := State(), c;
        var o, added := ProcessNext(todo[|steps|], disk, clock(|steps|), f.files(|steps|));
        ReachedStep(env, start, before, disk, todo, steps, counted, clock, f, o, added);
        steps := steps + [o];
        match o {
          case Extracted(_) => c := c.(extracted := c.extracted + 1, stored := c.stored + added);
          case Skipped => c := c.(skipped := c.skipped + 1);
          case CacheHit => c := c.(hits := c.hits + 1);
          case _ => c := c.(errors := c.errors + 1);
        }
      }
      ReachedEnd(env, start, State(), disk, todo, steps, c, clock, f);
    }

    /**
     One run over a diff. A diff that cannot be computed stores nothing; otherwise the new state is
     that of the recorded trace, deletions first, and a failing reverse-dependency lookup only
     leaves those extra files out.
     */
    method Run(diff: Result<seq<FileChange>>, from: string, to: string, disk: Tree, clock: nat -> int, f: RunFaults)
      returns (status: RunStatus, tally: Tally, trace: Trace)
      requires Valid()
      modifies cache, db
      ensures Valid()
      ensures status == DiffFailed <==> diff.Err?
      ensures diff.Err? ==> State() == old(State()) && tally == Tally(0, 0, 0, 0, 0, 0, 0, 0, [], false)
      ensures diff.Ok? ==>
        && RunPossible(env, old(State()), diff.value, disk, trace)
        && State() == AfterRun(env, old(State()), diff.value, disk, trace)
        && DueTrace(env, old(State()), disk, trace, clock, f)
        && (if trace.changed == [] || f.lookup then trace.extra == []
            else IsReverseDeps(old(db.Claims()), trace.changed, trace.extra))
        && (status == Completed <==> trace.Completed())
        && tally == TallyOf(env, diff.value, from, to, disk, trace)
    {
      trace, tally := Trace([], [], [], [], []), Tally(0, 0, 0, 0, 0, 0, 0, 0, [], false);
      if diff.Err? { return DiffFailed, tally, trace; }
      var failed, c;
      trace, failed, c := RunPhases(diff.value, disk, clock, f);
      tally := Tally(|trace.Todo()|, c.extracted, |trace.gone|, c.skipped, c.hits, c.stored, |trace.extra|,
                     failed + c.errors, trace.Todo(), SuspiciousDiff(diff.value, from, to));
      status := if |trace.steps| == |trace.Todo()| then Completed else Cancelled;
    }

    /** Deletions, the changed files and their importers, then one file after the other. */
    method RunPhases(changes: seq<FileChange>, disk: Tree, clock: nat -> int, f: RunFaults)
      returns (trace: Trace, failed: nat, c: Counted)
      requires Valid()
      modifies cache, db
      ensures Valid()
      ensures RunPossible(env, old(State()), changes, disk, trace)
      ensures State() == AfterRun(env, old(State()), changes, disk, trace)
      ensures DueTrace(env, old(State()), disk, trace, clock, f)
      ensures if trace.changed == [] || f.lookup then trace.extra == []
              else IsReverseDeps(old(db.Claims()), trace.changed, trace.extra)
      ensures failed == CountFailed(trace.deletions) && c == CountedOf(env, disk, trace.Todo(), trace.steps)
    {
      var gone := DeletedPaths(changes);
      var deletions;
      deletions, failed := DeletePhase(gone, f);
      DeletesKeepClaims(env, old(State()), gone, deletions);
      var changed := ChangedPaths(changes);
      var extra := Importers(changed, f.lookup);
      var steps;
      steps, c := ProcessPhase(changed + extra, disk, clock, f);
      trace := Trace(gone, deletions, changed, extra, steps);
    }

    /** The files that import what changed; a lookup that fails finds none. */
    method Importers(changed: seq<string>, fails: bool) returns (extra: seq<string>)
      requires Valid()
      ensures if changed == [] || fails then extra == [] else IsReverseDeps(db.Claims(), changed, extra)
    {
      if changed == [] || fails { return []; }
      var rows := ResolvedClaims();
      extra := ReverseDepPaths(rows, changed);
    }

    /** The join of claims with symbols that both reverse-dependency queries read. */
    method ResolvedClaims() returns (cs: seq<Claim>)
      requires Valid()
      ensures cs == db.Claims()
    {
      cs := [];
      for i := 0 to |db.tables.claims|
        invariant cs == db.Claims()[..i]
      {
        var row := db.tables.claims[i];
        cs := cs + [Claim(db.tables.symbols[row.subjectId].key, row.body)];
      }
    }
  }

  lemma {:induction false} DeletesKeepClaims(env: Env, s: Stores, paths: seq<string>, os: seq<DeleteOutcome>)
    requires |os| == |paths|
    ensures AfterDeletes(env, s, paths, os).claims == s.claims
    decreases |os|
  {
    if os != [] {
      DeletesKeepClaims(env, AfterDelete(env, s, paths[0], os[0]), paths[1..], os[1..]);
    }
  }

  // ----- what the counters count

  lemma {:induction false} CountIsSize(os: seq<Outcome>, f: Outcome -> bool)
    ensures Count(os, f) == |Places(os, f)|
  {
    PlacesSnoc(os, f);
    if os != [] { CountIsSize(os[..|os| - 1], f); }
  }

  /** Each step is counted under exactly one of four counters. */
  lemma CountersAddUp(env: Env, disk: Tree, todo: seq<string>, os: seq<Outcome>)
    requires |os| <= |todo|
    ensures var c := CountedOf(env, disk, todo, os);
      && c.extracted + c.skipped + c.hits + c.errors == |os|
      && c.extracted == |set i: nat | i < |os| && os[i].Extracted?|
      && c.skipped == |set i: nat | i < |os| && os[i] == Skipped|
      && c.hits == |set i: nat | i < |os| && os[i] == CacheHit|
  {
    CountIsSize(os, (o: Outcome) => o.Extracted?);
    CountIsSize(os, (o: Outcome) => o.Skipped?);
    CountIsSize(os, (o: Outcome) => o.CacheHit?);
    assert Places(os, (o: Outcome) => o.Extracted?) == set i: nat | i < |os| && os[i].Extracted?;
    assert Places(os, (o: Outcome) => o.Skipped?) == set i: nat | i < |os| && os[i] == Skipped;
    assert Places(os, (o: Outcome) => o.CacheHit?) == set i: nat | i < |os| && os[i] == CacheHit;
    SumOfCounts(os);
  }

  lemma {:induction false} SumOfCounts(os: seq<Outcome>)
    ensures Count(os, (o: Outcome) => o.Extracted?) + Count(os, (o: Outcome) => o.Skipped?) +
            Count(os, (o: Outcome) => o.CacheHit?) + Count(os, (o: Outcome) => o.IsError()) == |os|
  {
    if os != [] { SumOfCounts(os[..|os| - 1]); }
  }

  lemma {:induction false} FailedDeletions(os: seq<DeleteOutcome>)
    ensures CountFailed(os) == |Places(os, NotDone)|
  {
    PlacesSnoc(os, NotDone);
    if os != [] { FailedDeletions(os[..|os| - 1]); }
  }

  predicate NotDone(o: DeleteOutcome) { o != Tombstoned }

  /**
   What a run reports: every listed file is extracted, skipped, found in the cache or an error, unless the run is
   cancelled; failed deletions are errors too; and a diff of two different commits that lists nothing is warned of.
   */
  lemma TallyAccounts(env: Env, changes: seq<FileChange>, from: string, to: string, disk: Tree, t: Trace)
    requires |t.steps| <= |t.Todo()|
    ensures var r := TallyOf(env, changes, from, to, disk, t);
      && r.filesChanged == |t.changed| + |t.extra| && r.reverseDepFiles == |t.extra|
      && r.changedPaths == t.changed + t.extra && r.filesDeleted == |t.deletions|
      && r.filesExtracted + r.filesSkipped + r.cacheHits + r.errors
         == |t.steps| + |Places(t.deletions, NotDone)|
      && r.filesExtracted == |set i: nat | i < |t.steps| && t.steps[i].Extracted?|
      && r.filesSkipped == |set i: nat | i < |t.steps| && t.steps[i] == Skipped|
      && r.cacheHits == |set i: nat | i < |t.steps| && t.steps[i] == CacheHit|
      && (r.warning <==> changes == [] && from != to && from != "" && to != "")
  {
    CountersAddUp(env, disk, t.Todo(), t.steps);
    FailedDeletions(t.deletions);
  }

  // ----- the stored claims that a run reports

  lemma {:induction false} ClaimsStoredCons(env: Env, disk: Tree, todo: seq<string>, os: seq<Outcome>)
    requires 0 < |os| <= |todo|
    ensures ClaimsStored(env, disk, todo, os)
            == ClaimsOf(env, disk, todo[0], os[0]) + ClaimsStored(env, disk, todo[1..], os[1..])
    decreases |os|
  {
    var n := |os| - 1;
    if n > 0 {
      ClaimsStoredCons(env, disk, todo, os[..n]);
      assert os[..n][1..] == os[1..][..n - 1] && todo[1..][n - 1] == todo[n] && os[1..][n - 1] == os[n];
    }
  }

  /**
   For extractors that stamp the path, steps over files without claims, each listed once, add as many rows to
   the claims table as the run reports.
   */
  lemma {:induction false} ClaimsStoredIsGrowth(env: Env, s: Stores, disk: Tree, todo: seq<string>, os: seq<Outcome>)
    requires forall p, c, x :: x in env.Expected(p, c) ==> x.body.sourceFile == p
    requires |os| <= |todo| && AllPossible(env, s, disk, todo, os) && NoDuplicates(todo)
    requires forall x :: x in s.claims ==> x.body.sourceFile !in todo
    ensures |AfterAll(env, s, disk, todo, os).claims| == |s.claims| + ClaimsStored(env, disk, todo, os)
    decreases |os|
  {
    if os != [] {
      var s1 := After(env, s, disk, todo[0], os[0]);
      if os[0].Extracted? { DropNothing(s.claims, env.Chosen(todo[0]).value.name, todo[0]); }
      assert forall i :: 0 <= i < |todo[1..]| ==> todo[1..][i] == todo[i + 1];
      forall x | x in s1.claims ensures x.body.sourceFile !in todo[1..] {
        assert x in s.claims || x.body.sourceFile == todo[0];
      }
      ClaimsStoredIsGrowth(env, s1, disk, todo[1..], os[1..]);
      ClaimsStoredCons(env, disk, todo, os);
    }
  }

}
