/**
 What one pipeline step does to the stores (pipeline/pipeline.go), as functions of values.

 Extractors and the content hash are parameters. Everything the environment decides -- a read,
 a query or a commit that fails, the clock -- is recorded in the outcome of the step.
 */
module Extraction {
  import opened Basics
  import opened CacheStore
  import opened ClaimsStore
  import opened GitDiff

  /** A claim as an extractor emits it; empty repo and import path are filled in when stored. */
  datatype Draft = Draft(repo: string, importPath: string, name: string, info: SymbolInfo, body: Assertion)

  datatype Extractor = Extractor(name: string, version: string, needsLocalFS: bool,
                                 extract: (string, string) -> Result<seq<Draft>>)

  datatype LanguageConfig = LanguageConfig(grammar: string, deep: Option<Extractor>, fast: Option<Extractor>)

  /**
   `remote`: a file source is configured, so the extractor is given the content under its relative
   path. Otherwise it is given the path of the file under `repoDir`.
   */
  datatype Env = Env(repo: string, repoDir: string, remote: bool, hash: string -> string, isGenerated: string -> bool,
                     configFor: string -> Option<LanguageConfig>)
  {
    function Given(path: string): string { if remote then path else repoDir + "/" + path }

    /** The deep extractor if there is one, otherwise the fast one. */
    function Chosen(path: string): Option<Extractor> {
      match configFor(path)
      case None => None
      case Some(cfg) => if cfg.deep.Some? then cfg.deep else cfg.fast
    }

    predicate Eligible(path: string) {
      !isGenerated(path) && Chosen(path).Some? && !(remote && Chosen(path).value.needsLocalFS)
    }

    function Extracts(path: string, content: string): Result<seq<Draft>>
      requires Chosen(path).Some?
    {
      Chosen(path).value.extract(Given(path), content)
    }

    function KeyOf(path: string): Key { Key(repo, path) }

    function StampFor(path: string, content: string): Stamp
      requires Chosen(path).Some?
    {
      Stamp(hash(content), Chosen(path).value.version, configFor(path).value.grammar)
    }

    function SubjectOf(path: string, d: Draft): SymbolKey {
      SymbolKey(if d.repo == "" then repo else d.repo, if d.importPath == "" then path else d.importPath, d.name)
    }

    function Complete(path: string, ds: seq<Draft>): (cs: seq<Claim>)
      ensures |cs| == |ds|
    {
      seq(|ds|, i requires 0 <= i < |ds| => Claim(SubjectOf(path, ds[i]), ds[i].body))
    }

    /** The claims a content stands for; a file that no extractor takes stands for none. */
    function Expected(path: string, content: string): seq<Claim> {
      if Eligible(path) && Extracts(path, content).Ok?
      then Complete(path, Extracts(path, content).value)
      else []
    }
  }

  datatype Stores = Stores(cache: Table, claims: seq<Claim>, files: Files)

  const EMPTY := Stores(map[], [], map[])

  /** What happened to one path. `FailedAfterPut`: the cache row is written, the transaction is not. */
  datatype Outcome = Skipped | CacheHit | Extracted(at: int) | Failed | FailedAfterPut(at: int)
  {
    predicate IsError() { Failed? || FailedAfterPut? }
  }

  /** Which outcomes the code can produce for a path, given the stores and `tree`, the files it can read. */
  ghost predicate Possible(env: Env, s: Stores, tree: Tree, path: string, o: Outcome) {
    if env.isGenerated(path) then o == Skipped
    else
      || o == Failed
      || (path in tree &&
          if env.Chosen(path).None? then o == Skipped
          else if IsHit(s.cache, env.KeyOf(path), env.StampFor(path, tree[path])) then o == CacheHit
          else if !env.Eligible(path) then o == Skipped
          else env.Extracts(path, tree[path]).Ok? && (o.Extracted? || o.FailedAfterPut?))
  }

  // ----- which statement fails decides which outcome it is

  /** The statements about one file that fail; `insert(i)` is storing the i-th claim or its subject. */
  datatype FileFaults = FileFaults(read: bool, hit: bool, begin: bool, delete: bool, insert: nat -> bool, put: bool,
                                   upsert: bool, commit: bool)

  const NO_FILE_FAULTS := FileFaults(false, false, false, false, (i: nat) => false, false, false, false)

  /** A statement in front of the cache row fails. */
  ghost predicate FailsBeforePut(f: FileFaults, drafts: nat) {
    f.begin || f.delete || f.put || exists i: nat :: i < drafts && f.insert(i)
  }

  /** What happens to a path, given the stores, what can be read, and the statements that fail. */
  ghost function OutcomeOf(env: Env, s: Stores, disk: Tree, path: string, now: int, f: FileFaults): Outcome {
    if env.isGenerated(path) then Skipped
    else if path !in disk || f.read then Failed
    else if env.Chosen(path).None? then Skipped
    else if f.hit then Failed
    else if IsHit(s.cache, env.KeyOf(path), env.StampFor(path, disk[path])) then CacheHit
    else if !env.Eligible(path) then Skipped
    else
      match env.Extracts(path, disk[path])
      case Err => Failed
      case Ok(drafts) =>
        if FailsBeforePut(f, |drafts|) then Failed
        else if f.upsert || f.commit then FailedAfterPut(now)
        else Extracted(now)
  }

  /** The outcomes that are possible are exactly those of some clock and some failing statements. */
  lemma PossibleIff(env: Env, s: Stores, disk: Tree, path: string, o: Outcome)
    ensures Possible(env, s, disk, path, o) <==>
      exists now, f :: o == OutcomeOf(env, s, disk, path, now, f)
  {
    if Possible(env, s, disk, path, o) {
      var f := if o == Failed then NO_FILE_FAULTS.(read := true)
               else if o.FailedAfterPut? then NO_FILE_FAULTS.(commit := true) else NO_FILE_FAULTS;
      var now := if o.Extracted? || o.FailedAfterPut? then o.at else 0;
      assert o == OutcomeOf(env, s, disk, path, now, f);
    }
  }

  function CacheAfter(env: Env, t: Table, tree: Tree, path: string, at: int): Table
    requires path in tree && env.Eligible(path)
  {
    WithEntry(t, env.KeyOf(path), env.StampFor(path, tree[path]), at, |tree[path]|)
  }

  /** Replace the claims of the file, write the cache row, then the source-file row. */
  function Stored(env: Env, s: Stores, tree: Tree, path: string, at: int): Stores
    requires path in tree && env.Eligible(path)
  {
    Stores(CacheAfter(env, s.cache, tree, path, at),
           DropClaims(s.claims, env.Chosen(path).value.name, path) + env.Expected(path, tree[path]),
           s.files[env.KeyOf(path) := FileRow(env.StampFor(path, tree[path]), false)])
  }

  ghost function After(env: Env, s: Stores, tree: Tree, path: string, o: Outcome): Stores
    requires Possible(env, s, tree, path, o)
  {
    match o
    case Extracted(at) => Stored(env, s, tree, path, at)
    case FailedAfterPut(at) => s.(cache := CacheAfter(env, s.cache, tree, path, at))
    case _ => s
  }

  /**
   A file that was stored under one environment is a cache hit under another, or for another content, if and
   only if the hash, the version of its extractor and the version of its grammar are all the same. After an
   upgrade of either no unchanged file hits, so a run that lists it extracts it again.
   */
  lemma HitAfterStoreIff(env: Env, later: Env, s: Stores, tree: Tree, p: string, at: int, now: Tree)
    requires p in tree && env.Eligible(p) && p in now
    requires later.repo == env.repo && !later.isGenerated(p) && later.Chosen(p).Some?
    ensures Possible(later, Stored(env, s, tree, p, at), now, p, CacheHit) <==>
      && later.hash(now[p]) == env.hash(tree[p])
      && later.Chosen(p).value.version == env.Chosen(p).value.version
      && later.configFor(p).value.grammar == env.configFor(p).value.grammar
  {
  }

  /** Tombstoning writes the cache first, then the claims database. */
  datatype DeleteOutcome = Tombstoned | CacheFailed | FilesFailed

  function DeleteOutcomeOf(cacheFails: bool, filesFail: bool): DeleteOutcome {
    if cacheFails then CacheFailed else if filesFail then FilesFailed else Tombstoned
  }

  function AfterDelete(env: Env, s: Stores, path: string, o: DeleteOutcome): Stores {
    match o
    case CacheFailed => s
    case FilesFailed => s.(cache := CacheStore.Tombstoned(s.cache, env.KeyOf(path)))
    case Tombstoned => s.(cache := CacheStore.Tombstoned(s.cache, env.KeyOf(path)),
                          files := FileTombstoned(s.files, env.KeyOf(path)))
  }

  // ----- a whole run: deletions, then changed files and reverse dependencies

  ghost predicate AllPossible(env: Env, s: Stores, tree: Tree, paths: seq<string>, os: seq<Outcome>)
    requires |os| <= |paths|
    decreases |os|
  {
    os == [] ||
    (Possible(env, s, tree, paths[0], os[0]) &&
     AllPossible(env, After(env, s, tree, paths[0], os[0]), tree, paths[1..], os[1..]))
  }

  ghost function AfterAll(env: Env, s: Stores, tree: Tree, paths: seq<string>, os: seq<Outcome>): Stores
    requires |os| <= |paths| && AllPossible(env, s, tree, paths, os)
    decreases |os|
  {
    if os == [] then s
    else AfterAll(env, After(env, s, tree, paths[0], os[0]), tree, paths[1..], os[1..])
  }

  function AfterDeletes(env: Env, s: Stores, paths: seq<string>, os: seq<DeleteOutcome>): Stores
    requires |os| == |paths|
    decreases |os|
  {
    if os == [] then s else AfterDeletes(env, AfterDelete(env, s, paths[0], os[0]), paths[1..], os[1..])
  }

  /** The record of one run: `steps` is shorter than `todo` when the context was cancelled. */
  datatype Trace = Trace(gone: seq<string>, deletions: seq<DeleteOutcome>, changed: seq<string>,
                         extra: seq<string>, steps: seq<Outcome>)
  {
    function Todo(): seq<string> { changed + extra }
    predicate Completed() { |steps| == |changed + extra| }

    ghost predicate ErrorFree() {
      && (forall i :: 0 <= i < |deletions| ==> deletions[i] == Tombstoned)
      && (forall i :: 0 <= i < |steps| ==> !steps[i].IsError())
    }

    /** No deletion failed, and no file of the tree did; other listed paths cannot be read anyway. */
    ghost predicate CleanOn(tree: Tree) {
      && (forall i :: 0 <= i < |deletions| ==> deletions[i] == Tombstoned)
      && (forall i :: 0 <= i < |steps| && i < |Todo()| && Todo()[i] in tree ==> !steps[i].IsError())
    }

    ghost predicate NoneAfterPut() { forall i :: 0 <= i < |steps| ==> !steps[i].FailedAfterPut? }

    /** Some step visited the path without an error. */
    ghost predicate Visited(p: string) { VisitedOk(Todo(), steps, p) }

    ghost predicate Deleted(p: string) { DeletedOk(gone, deletions, p) }
  }

  ghost predicate VisitedOk(paths: seq<string>, os: seq<Outcome>, p: string) {
    exists i :: 0 <= i < |os| && i < |paths| && paths[i] == p && !os[i].IsError()
  }

  ghost predicate DeletedOk(paths: seq<string>, os: seq<DeleteOutcome>, p: string) {
    exists i :: 0 <= i < |os| && i < |paths| && paths[i] == p && os[i] == Tombstoned
  }

  ghost predicate RunPossible(env: Env, s: Stores, changes: seq<FileChange>, tree: Tree, t: Trace) {
    && |t.deletions| == |t.gone| && |t.steps| <= |t.Todo()|
    && (forall p :: p in t.gone <==> Leaves(changes, p))
    && (forall p :: p in t.changed <==> Changes(changes, p))
    && AllPossible(env, AfterDeletes(env, s, t.gone, t.deletions), tree, t.Todo(), t.steps)
  }

  ghost function AfterRun(env: Env, s: Stores, changes: seq<FileChange>, tree: Tree, t: Trace): Stores
    requires RunPossible(env, s, changes, tree, t)
  {
    AfterAll(env, AfterDeletes(env, s, t.gone, t.deletions), tree, t.Todo(), t.steps)
  }

  // ----- the record of a run, given what fails

  /** What fails in a run: the lookup of importers, single statements, and whether it is cancelled at a step. */
  datatype RunFaults = RunFaults(lookup: bool, cancelled: nat -> bool, files: nat -> FileFaults,
                                 cacheMark: nat -> bool, fileMark: nat -> bool)

  function DeletionsOf(gone: seq<string>, f: RunFaults): (os: seq<DeleteOutcome>)
    ensures |os| == |gone| && forall i :: 0 <= i < |os| ==> os[i] == DeleteOutcomeOf(f.cacheMark(i), f.fileMark(i))
  {
    seq(|gone|, i requires 0 <= i < |gone| => DeleteOutcomeOf(f.cacheMark(i), f.fileMark(i)))
  }

  lemma OutcomePossible(env: Env, s: Stores, disk: Tree, path: string, now: int, f: FileFaults)
    ensures Possible(env, s, disk, path, OutcomeOf(env, s, disk, path, now, f))
  {
    PossibleIff(env, s, disk, path, OutcomeOf(env, s, disk, path, now, f));
  }

  /** The outcomes of the listed paths from step `at` on, each in the stores that the steps before it left. */
  ghost function StepsFrom(env: Env, s: Stores, disk: Tree, paths: seq<string>, at: nat, clock: nat -> int,
      f: RunFaults): (os: seq<Outcome>)
    ensures |os| <= |paths| && AllPossible(env, s, disk, paths, os)
    decreases |paths|
  {
    if paths == [] || f.cancelled(at) then []
    else
      var o := OutcomeOf(env, s, disk, paths[0], clock(at), f.files(at));
      OutcomePossible(env, s, disk, paths[0], clock(at), f.files(at));
      [o] + StepsFrom(env, After(env, s, disk, paths[0], o), disk, paths[1..], at + 1, clock, f)
  }

  /** The record is that of the failing statements: every deletion and every step is as they make it. */
  ghost predicate DueTrace(env: Env, s: Stores, disk: Tree, t: Trace, clock: nat -> int, f: RunFaults) {
    && t.deletions == DeletionsOf(t.gone, f)
    && t.steps == StepsFrom(env, AfterDeletes(env, s, t.gone, t.deletions), disk, t.Todo(), 0, clock, f)
  }

  /** Without failing statements, and with extractors that take every listed file, a run is complete and clean. */
  lemma {:induction false} NoFaultsClean(env: Env, s: Stores, disk: Tree, paths: seq<string>, at: nat,
      clock: nat -> int, f: RunFaults)
    requires forall i: nat :: !f.cancelled(i) && f.files(i) == NO_FILE_FAULTS
    requires forall p :: p in paths && p in disk && env.Eligible(p) ==> env.Extracts(p, disk[p]).Ok?
    ensures var os := StepsFrom(env, s, disk, paths, at, clock, f);
      && |os| == |paths| && (forall i :: 0 <= i < |os| ==> !os[i].FailedAfterPut?)
      && forall i :: 0 <= i < |os| && paths[i] in disk ==> !os[i].IsError()
    decreases |paths|
  {
    if paths != [] {
      assert paths[0] in paths && forall p :: p in paths[1..] ==> p in paths;
      var o := OutcomeOf(env, s, disk, paths[0], clock(at), f.files(at));
      assert !o.FailedAfterPut? && (paths[0] in disk ==> o != Failed);
      NoFaultsClean(env, After(env, s, disk, paths[0], o), disk, paths[1..], at + 1, clock, f);
    }
  }

  // ----- snoc forms, for loops that work from the left

  lemma {:induction false} AfterAllSnoc(env: Env, s: Stores, tree: Tree, paths: seq<string>, os: seq<Outcome>,
      o: Outcome)
    requires |os| < |paths| && AllPossible(env, s, tree, paths, os)
    requires Possible(env, AfterAll(env, s, tree, paths, os), tree, paths[|os|], o)
    ensures AllPossible(env, s, tree, paths, os + [o])
    ensures AfterAll(env, s, tree, paths, os + [o])
            == After(env, AfterAll(env, s, tree, paths, os), tree, paths[|os|], o)
    decreases |os|
  {
    var os' := os + [o];
    if os == [] {
      assert os' == [o] && os'[1..] == [];
    } else {
      var s1 := After(env, s, tree, paths[0], os[0]);
      AfterAllSnoc(env, s1, tree, paths[1..], os[1..], o);
      assert os'[1..] == os[1..] + [o] && os'[0] == os[0];
      assert paths[1..][|os[1..]|] == paths[|os|];
    }
  }

  lemma {:induction false} AfterDeletesSnoc(env: Env, s: Stores, paths: seq<string>, os: seq<DeleteOutcome>,
                                            p: string, o: DeleteOutcome)
    requires |os| == |paths|
    ensures AfterDeletes(env, s, paths + [p], os + [o])
            == AfterDelete(env, AfterDeletes(env, s, paths, os), p, o)
    decreases |os|
  {
    if os == [] {
      assert os + [o] == [o] && paths + [p] == [p];
    } else {
      AfterDeletesSnoc(env, AfterDelete(env, s, paths[0], os[0]), paths[1..], os[1..], p, o);
      assert (os + [o])[1..] == os[1..] + [o] && (paths + [p])[1..] == paths[1..] + [p];
    }
  }

  // ----- what is stored, column by column

  /** The extractor of a file: the deep one of its language if there is one, else the fast one. */
  lemma ChosenIff(env: Env, path: string)
    ensures env.Chosen(path) ==
      match env.configFor(path)
      case Some(LanguageConfig(_, Some(deep), _)) => Some(deep)
      case Some(LanguageConfig(_, None, fast)) => fast
      case None => None
    ensures env.Eligible(path) <==>
      && env.Chosen(path).Some? && !env.isGenerated(path)
      && (env.remote ==> !env.Chosen(path).value.needsLocalFS)
  {
  }

  /** The claims of a content are what the extractor emits for it, one by one, with repo and import path filled in. */
  lemma ExpectedIsEmitted(env: Env, path: string, content: string)
    requires env.Eligible(path) && env.Extracts(path, content).Ok?
    ensures var ds, cs := env.Extracts(path, content).value, env.Expected(path, content);
      |cs| == |ds| && forall i :: 0 <= i < |ds| ==>
        && cs[i].body == ds[i].body && cs[i].subject.name == ds[i].name
        && cs[i].subject.repo == (if ds[i].repo != "" then ds[i].repo else env.repo)
        && cs[i].subject.importPath == (if ds[i].importPath != "" then ds[i].importPath else path)
  {
  }

  /** The rows that an extraction writes, in the cache and in the claims database, and that it touches no others. */
  lemma StoredRows(env: Env, s: Stores, tree: Tree, path: string, at: int)
    requires path in tree && env.Eligible(path)
    ensures var after, k, ex := Stored(env, s, tree, path, at), Key(env.repo, path), env.Chosen(path).value;
      var grammar := env.configFor(path).value.grammar;
      && k in after.cache && k in after.files
      && after.cache[k] == Row(env.hash(tree[path]), ex.version, grammar, at, |tree[path]|, false)
      && after.files[k] == FileRow(Stamp(env.hash(tree[path]), ex.version, grammar), false)
      && after.cache - {k} == s.cache - {k} && after.files - {k} == s.files - {k}
  {
  }

  /** Deleting a path tombstones its rows, if any, and touches no others and no claim. */
  lemma DeletedRows(env: Env, s: Stores, path: string)
    ensures var after, k := AfterDelete(env, s, path, Tombstoned), Key(env.repo, path);
      && after.claims == s.claims && after.cache.Keys == s.cache.Keys && after.files.Keys == s.files.Keys
      && after.cache - {k} == s.cache - {k} && after.files - {k} == s.files - {k}
      && (k in s.cache ==> after.cache[k] == s.cache[k].(deleted := true))
      && (k in s.files ==> after.files[k] == s.files[k].(deleted := true))
  {
  }

}
