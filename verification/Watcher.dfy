/**
 The polling watcher (watch/watcher.go, watch/state.go): which commit the next run starts from,
 what is persisted, and why the store stays in sync with HEAD.
 */
module Watcher {
  import opened Basics
  import opened CacheStore
  import opened ClaimsStore
  import opened GitDiff
  import opened Extraction
  import opened IncrementalSync
  import P = Pipeline

  const EMPTY_TREE_SHA := "4b825dc642cb6eb9a060e54bf899d69f82cf7118"

  /** The repository: the tree of every commit, and the diff between any two. */
  datatype History = History(tree: string -> Tree, diff: (string, string) -> seq<FileChange>)

  ghost predicate CorrectHistory(h: History) {
    && h.tree(EMPTY_TREE_SHA) == map[]
    && forall a, b :: CorrectDiff(h.tree(a), h.diff(a, b), h.tree(b))
  }

  /** `mem` is the watcher's last SHA, `file` the persisted one; "" means none. */
  datatype World = World(mem: string, file: string, stores: Stores)

  /**
   One poll. Only the last two cases reach the stores: the run diffs two commits, but reads `disk`, the
   working directory or what a file source serves, which need not have the content of HEAD.
   */
  datatype Poll =
    | Quiet(error: bool)                                               // no HEAD, no ancestry, no diff, or no change
    | Partial(from: string, head: string, disk: Tree, trace: Trace)    // the run was cancelled
    | Advanced(from: string, head: string, disk: Tree, trace: Trace, saved: bool)

  /** The commit a run starts from: the last SHA while it is an ancestor of HEAD, else the empty tree. */
  function FromSHA(mem: string, ancestor: bool): string {
    if mem == "" || !ancestor then EMPTY_TREE_SHA else mem
  }

  ghost predicate PollPossible(env: Env, h: History, w: World, head: string, ancestor: bool, poll: Poll) {
    match poll
    case Quiet(error) => !error ==> head == w.mem
    case Partial(from, to, disk, t) =>
      && to == head != w.mem && from == FromSHA(w.mem, ancestor)
      && RunPossible(env, w.stores, h.diff(from, to), disk, t) && !t.Completed()
    case Advanced(from, to, disk, t, _) =>
      && to == head != w.mem && from == FromSHA(w.mem, ancestor)
      && RunPossible(env, w.stores, h.diff(from, to), disk, t) && t.Completed()
  }

  ghost function AfterPoll(env: Env, h: History, w: World, head: string, ancestor: bool, poll: Poll): World
    requires PollPossible(env, h, w, head, ancestor, poll)
  {
    match poll
    case Quiet(_) => w
    case Partial(from, to, disk, t) => w.(stores := AfterRun(env, w.stores, h.diff(from, to), disk, t))
    case Advanced(from, to, disk, t, saved) =>
      World(to, if saved then to else w.file, AfterRun(env, w.stores, h.diff(from, to), disk, t))
  }

  // ----- the objects

  class State {
    var repos: map<string, string>
    var disk: Option<map<string, string>>   // None: the file is missing or corrupt

    constructor (disk: Option<map<string, string>>)
      ensures this.disk == disk && repos == if disk.Some? then disk.value else map[]
    {
      this.disk := disk;
      repos := if disk.Some? then disk.value else map[];
    }

    function GetSHA(repo: string): (sha: string)
      reads this
      ensures sha == Lookup(repos, repo)
    {
      if repo in repos then repos[repo] else ""
    }

    method SetSHA(repo: string, sha: string)
      modifies this`repos
      ensures repos == old(repos)[repo := sha]
    {
      repos := repos[repo := sha];
    }

    /** Write a temporary file, then rename it: a failure leaves the old file. */
    method Save(fails: bool) returns (ok: bool)
      modifies this`disk
      ensures ok == !fails
      ensures disk == if ok then Some(repos) else old(disk)
    {
      if fails { return false; }
      disk := Some(repos);
      ok := true;
    }
  }

  function Lookup(m: map<string, string>, repo: string): string {
    if repo in m then m[repo] else ""
  }

  class Watcher {
    const repo: string
    const pipeline: P.Pipeline
    const state: State
    var lastSHA: string

    /** A (re)start resumes from what the state knows. */
    constructor (repo: string, pipeline: P.Pipeline, state: State)
      ensures this.repo == repo && this.pipeline == pipeline && this.state == state
      ensures lastSHA == Lookup(state.repos, repo)
    {
      this.repo, this.pipeline, this.state := repo, pipeline, state;
      lastSHA := state.GetSHA(repo);
    }

    ghost function View(): World
      requires pipeline.Valid()
      reads this, state, pipeline.cache, pipeline.db
    {
      World(lastSHA, if state.disk.Some? then Lookup(state.disk.value, repo) else "", pipeline.State())
    }

    /** The run itself: the pipeline over the diff of the two commits. */
    method RunFrom(from: string, head: string, h: History, diffFails: bool, disk: Tree, clock: nat -> int, f: RunFaults)
      returns (status: P.RunStatus, trace: Trace)
      requires pipeline.Valid()
      modifies pipeline.cache, pipeline.db
      ensures pipeline.Valid()
      ensures status == P.DiffFailed <==> diffFails
      ensures diffFails ==> pipeline.State() == old(pipeline.State())
      ensures !diffFails ==>
        && RunPossible(pipeline.env, old(pipeline.State()), h.diff(from, head), disk, trace)
        && pipeline.State() == AfterRun(pipeline.env, old(pipeline.State()), h.diff(from, head), disk, trace)
        && (status == P.Completed <==> trace.Completed())
        && DueTrace(pipeline.env, old(pipeline.State()), disk, trace, clock, f)
    {
      var diff := if diffFails then Err else Ok(h.diff(from, head));
      var tally;
      status, tally, trace := pipeline.Run(diff, from, head, disk, clock, f);
    }

    /** One poll cycle. Per-file errors do not stop the SHA from advancing; only a failing run does. */
    method Check(head: Result<string>, ancestor: Result<bool>, h: History, diffFails: bool, disk: Tree,
                 clock: nat -> int, f: RunFaults, saveFails: bool)
      returns (ok: bool, poll: Poll)
      requires pipeline.Valid()
      modifies this`lastSHA, state, pipeline.cache, pipeline.db
      ensures pipeline.Valid()
      ensures var sha := if head.Ok? then head.value else "";
        var anc := ancestor.Ok? && ancestor.value;
        && PollPossible(pipeline.env, h, old(View()), sha, anc, poll)
        && View() == AfterPoll(pipeline.env, h, old(View()), sha, anc, poll)
      ensures ok <==> (poll.Quiet? && !poll.error) || (poll.Advanced? && poll.saved)
      ensures head.Err? ==> poll == Quiet(true)
      ensures poll.Advanced? ==> Lookup(state.repos, repo) == poll.head
      ensures !poll.Quiet? ==> poll.disk == disk
      ensures !poll.Quiet? ==> DueTrace(pipeline.env, old(View()).stores, disk, poll.trace, clock, f)
      ensures poll.Advanced? ==> poll.saved == !saveFails
      ensures poll == Quiet(false) <==> head == Ok(old(lastSHA))
      ensures poll == Quiet(true) <==>
        head.Err? || (head.value != old(lastSHA) && (diffFails || (old(lastSHA) != "" && ancestor.Err?)))
      ensures state.repos - {repo} == old(state.repos) - {repo}
    {
      if head.Err? { return false, Quiet(true); }
      if head.value == lastSHA { return true, Quiet(false); }
      var from := EMPTY_TREE_SHA;
      ghost var anc := ancestor.Ok? && ancestor.value;
      if lastSHA != "" {
        if ancestor.Err? { return false, Quiet(true); }
        if ancestor.value { from := lastSHA; }
      }
      ok, poll := PollFrom(from, head.value, anc, h, diffFails, disk, clock, f, saveFails);
    }

    /** The rest of the cycle: the run, then the SHA in memory and in the file. */
    method PollFrom(from: string, head: string, ghost ancestor: bool, h: History, diffFails: bool, disk: Tree,
                    clock: nat -> int, f: RunFaults, saveFails: bool)
      returns (ok: bool, poll: Poll)
      requires pipeline.Valid() && head != lastSHA && from == FromSHA(lastSHA, ancestor)
      modifies this`lastSHA, state, pipeline.cache, pipeline.db
      ensures pipeline.Valid()
      ensures PollPossible(pipeline.env, h, old(View()), head, ancestor, poll)
      ensures View() == AfterPoll(pipeline.env, h, old(View()), head, ancestor, poll)
      ensures ok <==> poll.Advanced? && poll.saved
      ensures if diffFails then poll == Quiet(true) else poll.Partial? || poll.Advanced?
      ensures !poll.Quiet? ==> poll.disk == disk
      ensures !poll.Quiet? ==> DueTrace(pipeline.env, old(View()).stores, disk, poll.trace, clock, f)
      ensures poll.Advanced? ==> poll.saved == !saveFails && Lookup(state.repos, repo) == poll.head
      ensures state.repos - {repo} == old(state.repos) - {repo}
    {
      var status, trace := RunFrom(from, head, h, diffFails, disk, clock, f);
      if status == P.DiffFailed { return false, Quiet(true); }
      if status == P.Cancelled { return false, Partial(from, head, disk, trace); }
      lastSHA := head;
      state.SetSHA(repo, head);
      var saved := state.Save(saveFails);
      return saved, Advanced(from, head, disk, trace, saved);
    }
  }

  /** A HEAD that does not descend from the last SHA, and a first poll, look at every file of the commit. */
  lemma RestartListsAll(env: Env, h: History, w: World, head: string, ancestor: bool, poll: Poll)
    requires CorrectHistory(h) && PollPossible(env, h, w, head, ancestor, poll) && !poll.Quiet?
    requires w.mem == "" || !ancestor
    ensures forall p :: p in h.tree(head) ==> p in poll.trace.Todo()
  {
    assert CorrectDiff(h.tree(EMPTY_TREE_SHA), h.diff(EMPTY_TREE_SHA, head), h.tree(head));
  }

  /** A HEAD that descends from the last SHA looks at what changed since then and at its importers, no more. */
  lemma FastForwardListsChanges(env: Env, h: History, w: World, head: string, poll: Poll, p: string)
    requires PollPossible(env, h, w, head, true, poll) && !poll.Quiet? && w.mem != ""
    ensures poll.from == w.mem
    ensures p in poll.trace.Todo() && p !in poll.trace.extra ==> Changes(h.diff(w.mem, head), p)
    ensures Changes(h.diff(w.mem, head), p) ==> p in poll.trace.Todo()
    ensures Leaves(h.diff(w.mem, head), p) <==> p in poll.trace.gone
  {
  }

  // ----- soundness over runs of polls

  /**
   What is known about a commit as the starting point of the next run. `Clean`: the store is in
   sync with it. `Retry(h)`: it is good only for another run towards `h`. `Unknown`: not good at all.
   */
  datatype Standing = Clean | Retry(head: string) | Unknown

  ghost predicate ReadyFor(env: Env, h: History, s: Stores, from: string, head: string) {
    forall p :: p in h.tree(head) && !Changes(h.diff(from, head), p) ==> Synced(env, s, p, h.tree(head)[p])
  }

  ghost predicate Holds(env: Env, h: History, s: Stores, sha: string, st: Standing) {
    sha == "" ||
    match st
    case Clean => InSync(env, s, h.tree(sha))
    case Retry(head) => head != sha && ReadyFor(env, h, s, sha, head)
    case Unknown => true
  }

  /** The watcher's state with the standing of both SHAs and the commits whose runs completed. */
  datatype Tracked = Tracked(w: World, mem: Standing, file: Standing, done: set<string>)

  ghost predicate Sound(env: Env, h: History, t: Tracked) {
    && Inv(env, t.w.stores)
    && Holds(env, h, t.w.stores, t.w.mem, t.mem)
    && Holds(env, h, t.w.stores, t.w.file, t.file)
    && (t.w.file != "" ==> t.w.file in t.done)
    && (t.w.mem != "" ==> t.w.mem in t.done)
  }

  datatype Step =
    | PollStep(head: string, ancestor: bool, poll: Poll)
    | Restart            // lastSHA := persisted SHA
    | OtherSave          // another repository's watcher saves the shared state
    | FileLost           // the state file disappears or is corrupt
    | CacheLossStep(cache: Table)

  /**
   A poll is covered when its run meets no error on a file of the tree and writes no cache row that it then
   rolls back, when the files that it reads are as in HEAD, and when a commit that is only good for a retry
   is used for that retry.
   */
  ghost predicate Covered(h: History, t: Tracked, head: string, ancestor: bool, poll: Poll) {
    match poll
    case Quiet(error) => !error ==> t.mem.Clean?
    case Partial(from, _, disk, tr) =>
      && tr.NoneAfterPut() && ReadsCommit(disk, h.tree(head), tr)
      && (from == EMPTY_TREE_SHA || t.mem.Clean? || t.mem == Retry(head))
    case Advanced(from, _, disk, tr, _) =>
      Faithful(disk, h.tree(head), tr) && (from == EMPTY_TREE_SHA || t.mem.Clean? || t.mem == Retry(head))
  }

  ghost predicate StepAllowed(env: Env, h: History, t: Tracked, step: Step) {
    match step
    case PollStep(head, ancestor, poll) =>
      && head != "" && head != EMPTY_TREE_SHA
      && PollPossible(env, h, t.w, head, ancestor, poll) && Covered(h, t, head, ancestor, poll)
    case CacheLossStep(cache) => OnlyLosesHits(t.w.stores.cache, cache)
    case _ => true
  }

  ghost function AfterStep(env: Env, h: History, t: Tracked, step: Step): Tracked
    requires StepAllowed(env, h, t, step)
  {
    match step
    case PollStep(head, ancestor, poll) =>
      var w := AfterPoll(env, h, t.w, head, ancestor, poll);
      (match poll
       case Quiet(_) => t
       case Partial(from, _, _, _) =>
         var st := if from == t.w.mem then Retry(head) else Unknown;
         Tracked(w, st, if t.w.file == t.w.mem then st else Unknown, t.done)
       case Advanced(_, _, _, _, saved) =>
         Tracked(w, Clean, if saved || t.w.file == head then Clean else Retry(head), t.done + {head}))
    case Restart => t.(w := t.w.(mem := t.w.file), mem := t.file)
    case OtherSave => t.(w := t.w.(file := t.w.mem), file := t.mem)
    case FileLost => t.(w := t.w.(file := ""), file := Clean)
    case CacheLossStep(cache) => t.(w := t.w.(stores := t.w.stores.(cache := cache)))
  }

  lemma SyncIsReady(env: Env, h: History, s: Stores, from: string, head: string)
    requires CorrectHistory(h) && InSync(env, s, h.tree(from))
    ensures ReadyFor(env, h, s, from, head)
  {
    assert CorrectDiff(h.tree(from), h.diff(from, head), h.tree(head));
    forall p | p in h.tree(head) && !Changes(h.diff(from, head), p)
      ensures Synced(env, s, p, h.tree(head)[p])
    {
      assert p in h.tree(from) && h.tree(from)[p] == h.tree(head)[p];
    }
  }

  lemma EmptyTreeIsReady(env: Env, h: History, s: Stores, head: string)
    requires CorrectHistory(h)
    ensures ReadyFor(env, h, s, EMPTY_TREE_SHA, head)
  {
    assert CorrectDiff(h.tree(EMPTY_TREE_SHA), h.diff(EMPTY_TREE_SHA, head), h.tree(head));
  }

  /** The start commit of a covered run leaves out only files that are already up to date. */
  lemma CoveredIsReady(env: Env, h: History, t: Tracked, head: string, ancestor: bool, poll: Poll)
    requires CorrectHistory(h) && Sound(env, h, t)
    requires PollPossible(env, h, t.w, head, ancestor, poll) && Covered(h, t, head, ancestor, poll) && !poll.Quiet?
    ensures ReadyFor(env, h, t.w.stores, poll.from, head)
  {
    if poll.from == EMPTY_TREE_SHA {
      EmptyTreeIsReady(env, h, t.w.stores, head);
    } else if t.mem.Clean? {
      SyncIsReady(env, h, t.w.stores, poll.from, head);
    }
  }

  lemma ReadyRunSyncs(env: Env, h: History, s: Stores, from: string, head: string, disk: Tree, tr: Trace)
    requires WellBehaved(env) && CorrectHistory(h) && Inv(env, s) && ReadyFor(env, h, s, from, head)
    requires RunPossible(env, s, h.diff(from, head), disk, tr) && Faithful(disk, h.tree(head), tr)
    ensures Inv(env, AfterRun(env, s, h.diff(from, head), disk, tr))
    ensures InSync(env, AfterRun(env, s, h.diff(from, head), disk, tr), h.tree(head))
  {
    assert CorrectDiff(h.tree(from), h.diff(from, head), h.tree(head));
    FaithfulRunSyncs(env, s, h.diff(from, head), disk, h.tree(head), tr);
  }

  lemma PollKeepsSound(env: Env, h: History, t: Tracked, head: string, ancestor: bool, poll: Poll)
    requires WellBehaved(env) && CorrectHistory(h) && Sound(env, h, t)
    requires StepAllowed(env, h, t, PollStep(head, ancestor, poll))
    ensures Sound(env, h, AfterStep(env, h, t, PollStep(head, ancestor, poll)))
    ensures Succeeded(PollStep(head, ancestor, poll)) ==>
      InSync(env, AfterStep(env, h, t, PollStep(head, ancestor, poll)).w.stores, h.tree(head))
  {
    match poll
    case Quiet(_) =>
    case Partial(from, _, disk, tr) =>
      CoveredIsReady(env, h, t, head, ancestor, poll);
      assert CorrectDiff(h.tree(from), h.diff(from, head), h.tree(head));
      PartialRunKeeps(env, t.w.stores, h.tree(from), h.diff(from, head), disk, h.tree(head), tr);
    case Advanced(from, _, disk, tr, saved) =>
      CoveredIsReady(env, h, t, head, ancestor, poll);
      ReadyRunSyncs(env, h, t.w.stores, from, head, disk, tr);
      var s' := AfterRun(env, t.w.stores, h.diff(from, head), disk, tr);
      forall p | p in h.tree(head) ensures Synced(env, s', p, h.tree(head)[p]) {}
      assert ReadyFor(env, h, s', t.w.file, head);
  }

  lemma StepKeepsSound(env: Env, h: History, t: Tracked, step: Step)
    requires WellBehaved(env) && CorrectHistory(h) && Sound(env, h, t) && StepAllowed(env, h, t, step)
    ensures Sound(env, h, AfterStep(env, h, t, step))
  {
    match step
    case PollStep(head, ancestor, poll) => PollKeepsSound(env, h, t, head, ancestor, poll);
    case CacheLossStep(cache) =>
      LosingHitsKeepsInv(env, t.w.stores, cache);
      var s' := t.w.stores.(cache := cache);
      assert forall p, c :: Synced(env, t.w.stores, p, c) ==> Synced(env, s', p, c);
    case _ =>
  }

  /** A check that found no change, or whose run completed, whether or not its save did. */
  ghost predicate Succeeded(step: Step) {
    step.PollStep? && (step.poll.Advanced? || (step.poll.Quiet? && !step.poll.error))
  }

  ghost predicate Execution(env: Env, h: History, ts: seq<Tracked>, steps: seq<Step>) {
    && |ts| == |steps| + 1
    && forall i :: 0 <= i < |steps| ==>
      StepAllowed(env, h, ts[i], steps[i]) && ts[i + 1] == AfterStep(env, h, ts[i], steps[i])
  }

  /**
   Over any run of polls, restarts, lost saves, force pushes and evictions: the persisted SHA is
   always one whose run completed, and after each successful check every file at HEAD is in sync -- as
   long as the files that runs read are as in HEAD (see Covered; WatcherExact asks nothing of them).
   */
  lemma {:induction false} WatcherSoundness(env: Env, h: History, ts: seq<Tracked>, steps: seq<Step>)
    requires WellBehaved(env) && CorrectHistory(h) && Execution(env, h, ts, steps)
    requires ts[0] == Tracked(World("", "", EMPTY), Clean, Clean, {})
    ensures forall i :: 0 <= i < |ts| ==> Sound(env, h, ts[i]) && (ts[i].w.file == "" || ts[i].w.file in ts[i].done)
    ensures forall i :: 0 <= i < |steps| && Succeeded(steps[i]) ==>
      InSync(env, ts[i + 1].w.stores, h.tree(steps[i].head))
    decreases |steps|
  {
    if steps == [] {
      EmptyInv(env);
    } else {
      var n := |steps| - 1;
      WatcherSoundness(env, h, ts[..n + 1], steps[..n]);
      assert Sound(env, h, ts[..n + 1][n]);
      StepKeepsSound(env, h, ts[n], steps[n]);
      if steps[n].PollStep? {
        PollKeepsSound(env, h, ts[n], steps[n].head, steps[n].ancestor, steps[n].poll);
      }
      forall i | 0 <= i < |ts| ensures Sound(env, h, ts[i]) && (ts[i].w.file == "" || ts[i].w.file in ts[i].done) {
        if i <= n { assert ts[i] == ts[..n + 1][i]; }
      }
      forall i | 0 <= i < |steps| && Succeeded(steps[i])
        ensures InSync(env, ts[i + 1].w.stores, h.tree(steps[i].head))
      {
        if i < n { assert steps[i] == steps[..n][i] && ts[i + 1] == ts[..n + 1][i + 1]; }
      }
    }
  }

  // ----- exactly when a poll ends in sync

  /** No file failed after its cache row was written. */
  ghost predicate PutsCommitted(poll: Poll) {
    poll.Quiet? || poll.trace.NoneAfterPut()
  }

  /**
   When the store is up to date for `known`, whatever the watcher's SHA is and whatever is on disk, a poll
   ends in sync with HEAD if and only if: it ran, every eligible file of HEAD that it visited without an
   error had its committed content when read, and every other one has it in `known` and was not tombstoned;
   or it did not run, and HEAD has the files of `known`.
   */
  lemma PollSyncsIff(env: Env, h: History, w: World, known: Tree, head: string, ancestor: bool, poll: Poll)
    requires WellBehaved(env) && Inv(env, w.stores) && Mirrors(env, w.stores, known)
    requires PollPossible(env, h, w, head, ancestor, poll) && PutsCommitted(poll)
    ensures InSync(env, AfterPoll(env, h, w, head, ancestor, poll).stores, h.tree(head)) <==>
      if poll.Quiet? then SameFiles(env, known, h.tree(head))
      else forall p :: p in h.tree(head) && env.Eligible(p) ==>
        ReadOrKept(known, poll.disk, h.tree(head), poll.trace, p)
  {
    if poll.Quiet? {
      InSyncIffSame(env, w.stores, known, h.tree(head));
    } else {
      RunFromKnownSyncsIff(env, w.stores, known, h.diff(poll.from, head), poll.disk, h.tree(head), poll.trace);
    }
  }

  /**
   Resuming from any SHA with a store that is in sync with commit `cur`: a completed run without an
   error on the tree ends in sync if and only if every eligible file that differs between the two commits
   of the diff, or is listed as an importer, is on disk as in HEAD, and every other one is in `cur` as in HEAD.
   */
  lemma ResumedPollSyncsIff(env: Env, h: History, w: World, cur: string, head: string, ancestor: bool, poll: Poll)
    requires WellBehaved(env) && CorrectHistory(h) && Inv(env, w.stores)
    requires InSync(env, w.stores, h.tree(cur)) && AllGone(env, w.stores, h.tree(cur))
    requires PollPossible(env, h, w, head, ancestor, poll) && poll.Advanced? && PutsCommitted(poll)
    requires poll.trace.CleanOn(h.tree(head))
    ensures InSync(env, AfterPoll(env, h, w, head, ancestor, poll).stores, h.tree(head)) <==>
      forall p :: p in h.tree(head) && env.Eligible(p) ==>
        SameIn(if p in poll.trace.Todo() then poll.disk else h.tree(cur), h.tree(head), p)
  {
    assert CorrectDiff(h.tree(poll.from), h.diff(poll.from, head), h.tree(head));
    SyncMirrors(env, w.stores, h.tree(cur));
    ResumeSyncsIff(env, w.stores, h.tree(cur), h.tree(poll.from), h.diff(poll.from, head), poll.disk, h.tree(head),
                   poll.trace);
  }

  /**
   The failing input: the save of `lost` fails, the watcher restarts with the SHA `kept`, and HEAD
   returns to `kept` itself. The check sees no change and reports success without a run; the files are
   up to date if and only if both commits have the same eligible files.
   */
  lemma LostSaveThenRevert(env: Env, h: History, t: Tracked, lost: string, kept: string, ancestor: bool)
    requires WellBehaved(env) && CorrectHistory(h) && Inv(env, t.w.stores) && kept != ""
    requires InSync(env, t.w.stores, h.tree(lost)) && AllGone(env, t.w.stores, h.tree(lost))
    requires t.w.mem == lost && t.w.file == kept
    ensures var restarted := AfterStep(env, h, t, Restart).w;
      && PollPossible(env, h, restarted, kept, ancestor, Quiet(false))
      && (InSync(env, AfterPoll(env, h, restarted, kept, ancestor, Quiet(false)).stores, h.tree(kept))
          <==> SameFiles(env, h.tree(lost), h.tree(kept)))
  {
    SyncMirrors(env, t.w.stores, h.tree(lost));
    PollSyncsIff(env, h, AfterStep(env, h, t, Restart).w, h.tree(lost), kept, ancestor, Quiet(false));
  }

  /**
   The same when HEAD is a new commit with the content of the persisted one: the diff is empty, the run
   completes without errors, and a file whose content the lost commit had changed stays out of date.
   */
  lemma LostSaveThenSameContent(env: Env, s: Stores, p: string, c1: string, c2: string)
    requires WellBehaved(env) && env.Eligible(p) && c1 != c2
    requires Inv(env, s) && InSync(env, s, map[p := c2]) && AllGone(env, s, map[p := c2])
    ensures var t := Trace([], [], [], [], []);
      && CorrectDiff(map[p := c1], [], map[p := c1])
      && RunPossible(env, s, [], map[p := c1], t) && t.Completed() && t.ErrorFree()
      && !InSync(env, AfterRun(env, s, [], map[p := c1], t), map[p := c1])
  {
    var t := Trace([], [], [], [], []);
    var tree1 := map[p := c1];
    SyncMirrors(env, s, map[p := c2]);
    ResumeSyncsIff(env, s, map[p := c2], tree1, [], tree1, tree1, t);
    assert p in tree1 && !SameIn(map[p := c2], tree1, p);
  }

  /**
   What a completed run gets wrong stays wrong. The SHA advances although an eligible file of HEAD was not
   visited without an error and not known, or had another content on disk when it was read; every later
   check at this HEAD reports success without a run, and the file stays out of date.
   */
  lemma MissedThenQuiet(env: Env, h: History, w: World, known: Tree, head: string, ancestor: bool, poll: Poll,
      p: string)
    requires WellBehaved(env) && Inv(env, w.stores) && Mirrors(env, w.stores, known)
    requires PollPossible(env, h, w, head, ancestor, poll) && poll.Advanced? && PutsCommitted(poll)
    requires p in h.tree(head) && env.Eligible(p) && !ReadOrKept(known, poll.disk, h.tree(head), poll.trace, p)
    ensures var w' := AfterPoll(env, h, w, head, ancestor, poll);
      && w'.mem == head && PollPossible(env, h, w', head, ancestor, Quiet(false))
      && AfterPoll(env, h, w', head, ancestor, Quiet(false)) == w'
      && !Synced(env, w'.stores, p, h.tree(head)[p])
  {
    RunMirrors(env, w.stores, known, h.diff(poll.from, head), poll.disk, poll.trace);
  }

  /** Per-file errors do not stop the watcher. */
  lemma ErrorThenQuiet(env: Env, h: History, w: World, known: Tree, head: string, ancestor: bool, poll: Poll, p: string)
    requires WellBehaved(env) && Inv(env, w.stores) && Mirrors(env, w.stores, known)
    requires PollPossible(env, h, w, head, ancestor, poll) && poll.Advanced? && PutsCommitted(poll)
    requires p in h.tree(head) && env.Eligible(p) && !SameIn(known, h.tree(head), p) && !poll.trace.Visited(p)
    ensures var w' := AfterPoll(env, h, w, head, ancestor, poll);
      && PollPossible(env, h, w', head, ancestor, Quiet(false)) && !Synced(env, w'.stores, p, h.tree(head)[p])
  {
    MissedThenQuiet(env, h, w, known, head, ancestor, poll, p);
  }

  /**
   Nor does an edit that is not committed: one file that a run without any error reads with another content
   than HEAD's stays out of date, and a later check is quiet -- also when the edit is undone on disk.
   */
  lemma EditThenQuiet(env: Env, h: History, w: World, known: Tree, head: string, ancestor: bool, poll: Poll, p: string)
    requires WellBehaved(env) && Inv(env, w.stores) && Mirrors(env, w.stores, known)
    requires PollPossible(env, h, w, head, ancestor, poll) && poll.Advanced? && poll.trace.ErrorFree()
    requires p in h.tree(head) && env.Eligible(p) && p in poll.trace.Todo()
    requires p in poll.disk && poll.disk[p] != h.tree(head)[p]
    ensures var w' := AfterPoll(env, h, w, head, ancestor, poll);
      && PollPossible(env, h, w', head, ancestor, Quiet(false)) && !Synced(env, w'.stores, p, h.tree(head)[p])
      && Synced(env, w'.stores, p, poll.disk[p])
  {
    CleanRunVisits(env, w.stores, h.diff(poll.from, head), poll.disk, poll.disk, poll.trace, p);
    MissedThenQuiet(env, h, w, known, head, ancestor, poll, p);
    RunSyncs(env, w.stores, h.diff(poll.from, head), poll.disk, poll.trace, p, poll.disk[p]);
  }

  // ----- exactness over runs of polls

  /** The contents the store is up to date for, kept from the record of the runs alone. */
  ghost function KnownAfterStep(known: Tree, step: Step): Tree {
    if step.PollStep? && !step.poll.Quiet? then KnownAfter(known, step.poll.disk, step.poll.trace) else known
  }

  /** A step of the program; the only thing asked of it is that written cache rows are not rolled back. */
  ghost predicate StepPossible(env: Env, h: History, w: World, step: Step) {
    match step
    case PollStep(head, ancestor, poll) => PollPossible(env, h, w, head, ancestor, poll) && PutsCommitted(poll)
    case CacheLossStep(cache) => OnlyLosesHits(w.stores.cache, cache)
    case _ => true
  }

  ghost function AfterAnyStep(env: Env, h: History, w: World, step: Step): World
    requires StepPossible(env, h, w, step)
  {
    match step
    case PollStep(head, ancestor, poll) => AfterPoll(env, h, w, head, ancestor, poll)
    case Restart => w.(mem := w.file)
    case OtherSave => w.(file := w.mem)
    case FileLost => w.(file := "")
    case CacheLossStep(cache) => w.(stores := w.stores.(cache := cache))
  }

  ghost predicate AnyExecution(env: Env, h: History, ws: seq<World>, known: seq<Tree>, steps: seq<Step>) {
    && |ws| == |known| == |steps| + 1 && ws[0] == World("", "", EMPTY) && known[0] == map[]
    && forall i :: 0 <= i < |steps| ==>
      && StepPossible(env, h, ws[i], steps[i]) && ws[i + 1] == AfterAnyStep(env, h, ws[i], steps[i])
      && known[i + 1] == KnownAfterStep(known[i], steps[i])
  }

  lemma AnyStepMirrors(env: Env, h: History, w: World, known: Tree, step: Step)
    requires WellBehaved(env) && Inv(env, w.stores) && Mirrors(env, w.stores, known) && StepPossible(env, h, w, step)
    ensures Inv(env, AfterAnyStep(env, h, w, step).stores)
    ensures Mirrors(env, AfterAnyStep(env, h, w, step).stores, KnownAfterStep(known, step))
  {
    match step
    case PollStep(head, ancestor, poll) =>
      if !poll.Quiet? { RunMirrors(env, w.stores, known, h.diff(poll.from, head), poll.disk, poll.trace); }
    case CacheLossStep(cache) =>
      LosingHitsKeepsInv(env, w.stores, cache);
      var s' := w.stores.(cache := cache);
      assert forall p, c :: Synced(env, w.stores, p, c) <==> Synced(env, s', p, c);
    case _ =>
  }

  /**
   Over any run at all -- per-file errors, edits on disk, cancelled runs, lost saves, restarts, HEADs that
   move in any way -- the files at HEAD are up to date after a check if and only if every eligible one has
   the content that some run read when it last visited it without an error, and no run has tombstoned it since.
   */
  lemma {:induction false} WatcherExact(env: Env, h: History, ws: seq<World>, known: seq<Tree>, steps: seq<Step>,
      n: nat)
    requires WellBehaved(env) && AnyExecution(env, h, ws, known, steps) && n <= |steps|
    ensures Inv(env, ws[n].stores) && Mirrors(env, ws[n].stores, known[n])
    ensures n > 0 && steps[n - 1].PollStep? ==>
      (InSync(env, ws[n].stores, h.tree(steps[n - 1].head)) <==> SameFiles(env, known[n], h.tree(steps[n - 1].head)))
  {
    if n == 0 {
      EmptyInv(env);
      EmptyMirrors(env);
    } else {
      WatcherExact(env, h, ws, known, steps, n - 1);
      AnyStepMirrors(env, h, ws[n - 1], known[n - 1], steps[n - 1]);
      if steps[n - 1].PollStep? { InSyncIffSame(env, ws[n].stores, known[n], h.tree(steps[n - 1].head)); }
    }
  }
}
