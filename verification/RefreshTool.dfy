/** The guarded refresh of a document (evergreen/mcptools.go). */
module RefreshTool {
  import opened Basics
  import opened EvergreenStore
  import opened Detector

  datatype Refreshed = Refreshed(answer: string, manifest: seq<ManifestEntry>, backend: string,
      externalId: Option<string>)

  datatype Reply = MissingId | StoreFails | DocNotFound | Blocked | RateLimited | ExecutorFails | SaveFails
                 | Refresh(doc: Document, findings: seq<Finding>)

  /** The refreshed document: what the executor returned, everything else as it was. */
  function NewDoc(d: Document, r: Refreshed, now: int): Document {
    d.(answer := r.answer, manifest := r.manifest, backend := if r.backend != "" then r.backend else d.backend,
       externalId := r.externalId, lastRefreshedAt := now, status := Fresh)
  }

  /** Where a call that does not refresh stops. */
  function Stops(reply: Reply): Option<Reply> { if reply.Refresh? then None else Some(reply) }

  /** The first guard that fails, in the order of the code; None when the document is refreshed. */
  function DueStop(docs: map<string, Document>, id: string, acknowledge: bool, limiterAllows: bool,
      executor: Result<Refreshed>, getFails: bool, saveFails: bool): Option<Reply>
  {
    if id == "" then Some(MissingId)
    else if getFails then Some(StoreFails)
    else if id !in docs then Some(DocNotFound)
    else if docs[id].status == Orphaned && !acknowledge then Some(Blocked)
    else if !limiterAllows then Some(RateLimited)
    else if executor.Err? then Some(ExecutorFails)
    else if saveFails then Some(SaveFails)
    else None
  }

  /**
   A document is refreshed exactly when it is there, is not an unacknowledged orphan, and every party allows
   it; each reply of a call that stops names a cause that holds, and a later cause never hides an earlier one.
   */
  lemma RefreshedIff(docs: map<string, Document>, id: string, acknowledge: bool, limiterAllows: bool,
      executor: Result<Refreshed>, getFails: bool, saveFails: bool)
    ensures var stop := DueStop(docs, id, acknowledge, limiterAllows, executor, getFails, saveFails);
      && (stop == None <==>
            && id != "" && id in docs && (docs[id].status != Orphaned || acknowledge)
            && limiterAllows && executor.Ok? && !getFails && !saveFails)
      && (stop == Some(MissingId) <==> id == "")
      && (stop == Some(StoreFails) <==> id != "" && getFails)
      && (stop == Some(DocNotFound) <==> id != "" && !getFails && id !in docs)
      && (stop == Some(Blocked) <==>
            id != "" && !getFails && id in docs && docs[id].status == Orphaned && !acknowledge)
      && (stop in {Some(RateLimited), Some(ExecutorFails), Some(SaveFails)} ==>
            id in docs && (docs[id].status == Orphaned ==> acknowledge))
      && (stop == Some(RateLimited) ==> !limiterAllows)
      && (stop in {Some(ExecutorFails), Some(SaveFails)} ==> limiterAllows)
      && (stop == Some(SaveFails) ==> executor.Ok?)
  {
  }

  class RefreshTool {
    const store: DocumentStore
    const claims: Option<ClaimsReader>
    var limiterCalls: nat
    var executorCalls: nat

    constructor (store: DocumentStore, claims: Option<ClaimsReader>)
      ensures this.store == store && this.claims == claims && limiterCalls == executorCalls == 0
    {
      this.store, this.claims := store, claims;
      limiterCalls, executorCalls := 0, 0;
    }

    /**
     The guards in order: a blocked document costs no limiter token, a denied call no executor run,
     and only a successful executor run reaches the store -- as a save, so the old answer is kept.
     */
    method Handle(id: string, acknowledge: bool, limiterAllows: bool, executor: Result<Refreshed>, savedAt: int,
        checkedAt: int, getFails: bool, saveFails: bool)
      returns (reply: Reply)
      requires store.Valid()
      modifies this, store
      ensures store.Valid()
      ensures !reply.Refresh? ==> store.View() == old(store.View())
      ensures Stops(reply) == DueStop(old(store.docs), id, acknowledge, limiterAllows, executor, getFails, saveFails)
      ensures limiterCalls == old(limiterCalls) +
        if reply.MissingId? || reply.StoreFails? || reply.DocNotFound? || reply.Blocked? then 0 else 1
      ensures executorCalls == old(executorCalls) +
        if reply.ExecutorFails? || reply.SaveFails? || reply.Refresh? then 1 else 0
      ensures reply.Refresh? ==>
        && executor.Ok? && id in old(store.docs)
        && reply.doc == NewDoc(old(store.docs[id]), executor.value, savedAt)
        && StepsTo(old(store.View()), Save(reply.doc, store.maxRevisions), store.View())
        && (var found := Detected(reply.doc, claims, checkedAt);
            reply.findings == if found.Ok? then found.value else [])
    {
      if id == "" { return MissingId; }
      var got := store.Get(id, getFails);
      if got.Err? { return StoreFails; }
      if got.value.None? { return DocNotFound; }
      var doc := got.value.value;
      if doc.status == Orphaned && !acknowledge { return Blocked; }
      limiterCalls := limiterCalls + 1;
      if !limiterAllows { return RateLimited; }
      executorCalls := executorCalls + 1;
      if executor.Err? { return ExecutorFails; }
      var newDoc := NewDoc(doc, executor.value, savedAt);
      var saved := store.Save(newDoc, saveFails);
      if saved != Done { return SaveFails; }
      var found := Detect(newDoc, claims, checkedAt);
      reply := Refresh(newDoc, if found.Ok? then found.value else []);
    }
  }

  /** A refresh replaces what the executor returned, stamps the document, and leaves all else as it was. */
  lemma RefreshKeeps(d: Document, r: Refreshed, now: int)
    ensures var n := NewDoc(d, r, now);
      && n.answer == r.answer && n.manifest == r.manifest && n.externalId == r.externalId
      && n.backend == (if r.backend == "" then d.backend else r.backend)
      && n.lastRefreshedAt == now && n.status == Fresh
      && (n.id, n.query, n.policy, n.maxAgeDays, n.createdAt) == (d.id, d.query, d.policy, d.maxAgeDays, d.createdAt)
  {
  }

  /**
   Over a session of the store that ends with a refresh of a document: the answer it had is the newest
   revision, numbered by the saves before, and the document has the new one.
   */
  lemma RefreshKeepsOldAnswer(ts: seq<Tables>, ops: seq<Op>, d: Document, r: Refreshed, now: int, cap: nat, t: Tables)
    requires Session(ts, ops) && cap > 0 && d.id != "" && d.id in ts[|ops|].docs && d == ts[|ops|].docs[d.id]
    requires StepsTo(ts[|ops|], Save(NewDoc(d, r, now), cap), t)
    ensures var n := |SavedDocs(ops, d.id)|;
      && d.id in t.docs && t.docs[d.id].answer == r.answer && t.docs[d.id].manifest == r.manifest
      && RevKey(d.id, n) in t.revs && t.revs[RevKey(d.id, n)] == Revision(d.answer, d.manifest)
  {
    var op := Save(NewDoc(d, r, now), cap);
    var all := ops + [op];
    RevisionsAreSaves(ts, ops, d.id);
    BoundedHistoryRefines(ts, ops, d.id);
    LifeIsSaved(ops, d.id);
    assert all[..|all| - 1] == ops && all[|all| - 1] == op;
    SaveMirrors(ts[|ops|], t, NewDoc(d, r, now), cap, d.id, LifeOf(ops, d.id));
  }

  /**
   Right after a refresh whose manifest has no location-only entries, the findings are empty exactly
   when every precise entry matches the claims and, for a document with an age limit, the two clock
   reads of the refresh are not that far apart.
   */
  lemma RefreshQuietIff(d: Document, r: Refreshed, claims: ClaimsReader, savedAt: int, checkedAt: int)
    requires forall e :: e in r.manifest ==> !LocationOnly(e)
    requires savedAt != NEVER
    ensures Detected(NewDoc(d, r, savedAt), Some(claims), checkedAt) == Ok([]) <==>
      && (d.maxAgeDays > 0 ==> checkedAt - savedAt <= d.maxAgeDays * DAY)
      && forall i :: 0 <= i < |r.manifest| && Precise(r.manifest[i]) ==> Matches(r.manifest[i], claims)
  {
    NoFindingsIff(NewDoc(d, r, savedAt), claims, checkedAt);
  }
}
