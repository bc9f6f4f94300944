/**
 Batch enrichment with a content-hash cache and failure tombstones (sourcegraph/enrich.go).
 The router, its context text and the selection of symbols are parameters.
 */
module Enricher {
  import opened Basics

  const EXTRACTOR := "sourcegraph-deepsearch"
  const VERSION := "0.1.0"
  const MAX_BATCH_SIZE := 50
  const MAX_CONSECUTIVE_FAILURES := 3

  datatype Predicate = Semantic(name: string) | EnrichmentFailed | PermanentlyFailed | Structural(name: string)

  datatype Tier = StructuralTier | SemanticTier | MetaTier

  datatype Claim = Claim(pred: Predicate, text: string, sourceFile: string, confidence: real, tier: Tier,
                         extractor: string, version: string)

  datatype Symbol = Symbol(id: int, repo: string)

  /** The claims of each symbol, in insertion order. */
  type Store = map<int, seq<Claim>>

  /** One router call. `text` is what is left after trimming, empty for an empty or null context. */
  datatype Reply = RouteError | LowConfidence | Context(text: string, mentionsSymbol: bool, insertFails: bool)

  /**
   Which statements about one symbol fail in a run, their errors being dropped: reading its claims, counting
   its failure rows, removing them or its permanent row, inserting a tombstone.
   */
  datatype Faults = Faults(read: bool, count: bool, removeFailed: bool, removePermanent: bool, insert: bool)

  const NO_FAULTS := Faults(false, false, false, false, false)

  /** What a run meets: the router's reply to each call, and the failing statements about each symbol. */
  datatype World = World(reply: (int, nat) -> Reply, faults: int -> Faults)

  /** A non-positive budget means no limit. */
  datatype Opts = Opts(force: bool, budget: int, preds: seq<string>)

  function DEFAULT_PREDICATES(): seq<string> { ["purpose", "usage_pattern", "complexity", "stability"] }

  function ClaimsOf(s: Store, id: int): seq<Claim> { if id in s then s[id] else [] }

  function VersionFor(hash: string): string { if hash != "" then VERSION + "@" + hash else VERSION }

  /** The first claim with a source file names the file. */
  function SourceFileOf(claims: seq<Claim>): string {
    if claims == [] then ""
    else if claims[0].sourceFile != "" then claims[0].sourceFile
    else SourceFileOf(claims[1..])
  }

  /** A symbol without a file, or whose file is not recorded, has no hash. */
  function HashOf(claims: seq<Claim>, repo: string, fileHash: (string, string) -> string): string {
    if SourceFileOf(claims) == "" then "" else fileHash(repo, SourceFileOf(claims))
  }

  predicate IsOurs(c: Claim) { c.extractor == EXTRACTOR }

  predicate SkipsFor(c: Claim, hash: string) {
    IsOurs(c) && c.version == VERSION + "@" + hash
    && (c.pred.PermanentlyFailed? || (!c.pred.EnrichmentFailed? && c.tier == SemanticTier))
  }

  /** A current semantic claim or a current permanent tombstone; plain tombstones are retried. */
  predicate IsCacheHit(claims: seq<Claim>, hash: string) {
    hash != "" && exists c :: c in claims && SkipsFor(c, hash)
  }

  function FailedCount(claims: seq<Claim>): nat {
    if claims == [] then 0
    else FailedCount(claims[..|claims| - 1]) + if IsTombstone(claims[|claims| - 1], EnrichmentFailed) then 1 else 0
  }

  predicate IsTombstone(c: Claim, p: Predicate) { IsOurs(c) && c.pred == p }

  function Removed(claims: seq<Claim>, p: Predicate): seq<Claim> {
    if claims == [] then []
    else Removed(claims[..|claims| - 1], p)
         + if IsTombstone(claims[|claims| - 1], p) then [] else [claims[|claims| - 1]]
  }

  predicate Stores(r: Reply) { r.Context? && r.text != "" && !r.insertFails }

  function ClaimFor(r: Reply, pred: string, file: string, hash: string): Claim
    requires r.Context?
  {
    Claim(Semantic(pred), r.text, file, if r.mentionsSymbol then 0.8 else 0.4, SemanticTier, EXTRACTOR,
          VersionFor(hash))
  }

  /** The claims stored for the replies, each under its own predicate. */
  function NewClaims(replies: seq<Reply>, preds: seq<string>, file: string, hash: string): seq<Claim>
    requires |replies| <= |preds|
  {
    if replies == [] then []
    else
      var n := |replies| - 1;
      NewClaims(replies[..n], preds, file, hash)
      + if Stores(replies[n]) then [ClaimFor(replies[n], preds[n], file, hash)] else []
  }

  predicate Enriched(replies: seq<Reply>) { exists r :: r in replies && Stores(r) }

  predicate AllFailed(replies: seq<Reply>) { forall r :: r in replies ==> r.RouteError? }

  function Tombstone(p: Predicate, file: string, hash: string): Claim {
    Claim(p, "enrichment failed", file, 0.0, MetaTier, EXTRACTOR, VersionFor(hash))
  }

  function RemovedUnless(fails: bool, claims: seq<Claim>, p: Predicate): seq<Claim> {
    if fails then claims else Removed(claims, p)
  }

  /** One more failure row, or from the third failure on a permanent one instead of them; a failing count is 0. */
  function Escalated(claims: seq<Claim>, file: string, hash: string, f: Faults): seq<Claim> {
    var count := if f.count then 0 else FailedCount(claims);
    var permanent := count + 1 >= MAX_CONSECUTIVE_FAILURES;
    var kept := if permanent then RemovedUnless(f.removeFailed, claims, EnrichmentFailed) else claims;
    kept + if f.insert then [] else [Tombstone(if permanent then PermanentlyFailed else EnrichmentFailed, file, hash)]
  }

  /** The claims without both kinds of tombstones, as far as removing them works. */
  function Cleared(claims: seq<Claim>, f: Faults): seq<Claim> {
    RemovedUnless(f.removePermanent, RemovedUnless(f.removeFailed, claims, EnrichmentFailed), PermanentlyFailed)
  }

  /** What an attempt with these replies does to a symbol's claims. */
  function AfterAttempt(claims: seq<Claim>, replies: seq<Reply>, preds: seq<string>, file: string,
      hash: string, f: Faults): seq<Claim>
    requires |replies| <= |preds|
  {
    var stored := claims + NewClaims(replies, preds, file, hash);
    if Enriched(replies) then Cleared(stored, f)
    else if AllFailed(replies) then Escalated(claims, file, hash, f)
    else claims
  }

  /** The claims as a run reads them. */
  function ReadClaims(s: Store, id: int, f: Faults): seq<Claim> {
    if f.read then [] else ClaimsOf(s, id)
  }

  // ----- a run as a function of the store

  function CallsFor(opts: Opts, calls: nat): nat {
    if opts.budget > 0 && opts.budget - calls < |opts.preds|
    then (if opts.budget > calls then opts.budget - calls else 0)
    else |opts.preds|
  }

  predicate Spent(opts: Opts, calls: nat) { opts.budget > 0 && calls >= opts.budget }

  function Replies(world: World, id: int, calls: nat, n: nat): (r: seq<Reply>)
    ensures |r| == n
  {
    seq(n, i requires 0 <= i < n => world.reply(id, calls + i))
  }

  predicate Skips(s: Store, sym: Symbol, opts: Opts, world: World, fileHash: (string, string) -> string) {
    var claims := ReadClaims(s, sym.id, world.faults(sym.id));
    !opts.force && IsCacheHit(claims, HashOf(claims, sym.repo, fileHash))
  }

  function AfterSymbol(s: Store, sym: Symbol, opts: Opts, world: World, fileHash: (string, string) -> string,
      calls: nat): Store
  {
    var f := world.faults(sym.id);
    var claims := ReadClaims(s, sym.id, f);
    var replies := Replies(world, sym.id, calls, CallsFor(opts, calls));
    if Enriched(replies) || AllFailed(replies) then
      s[sym.id := AfterAttempt(ClaimsOf(s, sym.id), replies, opts.preds, SourceFileOf(claims),
                               HashOf(claims, sym.repo, fileHash), f)]
    else s
  }

  datatype Progress = Progress(store: Store, calls: nat, enriched: nat, skipped: nat)

  function AfterSymbols(p: Progress, syms: seq<Symbol>, opts: Opts, world: World,
                        fileHash: (string, string) -> string): Progress
    decreases |syms|
  {
    if syms == [] || Spent(opts, p.calls) then p
    else AfterSymbols(AfterOne(p, syms[0], opts, world, fileHash), syms[1..], opts, world, fileHash)
  }

  function AfterOne(p: Progress, sym: Symbol, opts: Opts, world: World,
      fileHash: (string, string) -> string): Progress {
    if Skips(p.store, sym, opts, world, fileHash) then p.(skipped := p.skipped + 1)
    else Progress(AfterSymbol(p.store, sym, opts, world, fileHash, p.calls), p.calls + CallsFor(opts, p.calls),
                  p.enriched + (if Enriched(Replies(world, sym.id, p.calls, CallsFor(opts, p.calls))) then 1 else 0),
                    p.skipped)
  }

  lemma {:induction false} AfterSymbolsSnoc(p: Progress, syms: seq<Symbol>, sym: Symbol, opts: Opts,
                                            world: World, fileHash: (string, string) -> string)
    ensures AfterSymbols(p, syms + [sym], opts, world, fileHash) ==
            var q := AfterSymbols(p, syms, opts, world, fileHash);
            if Spent(opts, q.calls) then q else AfterOne(q, sym, opts, world, fileHash)
    decreases |syms|
  {
    if syms == [] {
      assert syms + [sym] == [sym];
      if !Spent(opts, p.calls) {
        var q := AfterOne(p, sym, opts, world, fileHash);
        assert AfterSymbols(q, [sym][1..], opts, world, fileHash) == q;
      }
    } else if !Spent(opts, p.calls) {
      assert (syms + [sym])[1..] == syms[1..] + [sym];
      AfterSymbolsSnoc(AfterOne(p, syms[0], opts, world, fileHash), syms[1..], sym, opts, world, fileHash);
    }
  }

  /** The progress of a run over its first `n` symbols, within its budget. */
  ghost predicate Reached(start: Progress, symbols: seq<Symbol>, n: nat, opts: Opts, world: World,
                          fileHash: (string, string) -> string, p: Progress)
  {
    && n <= |symbols| && p == AfterSymbols(start, symbols[..n], opts, world, fileHash)
    && (opts.budget > 0 ==> p.calls <= opts.budget)
  }

  lemma Considered(start: Progress, symbols: seq<Symbol>, n: nat, opts: Opts, world: World,
                   fileHash: (string, string) -> string, p: Progress, q: Progress)
    requires n < |symbols| && Reached(start, symbols, n, opts, world, fileHash, p) && !Spent(opts, p.calls)
    requires q == AfterOne(p, symbols[n], opts, world, fileHash) && (opts.budget > 0 ==> q.calls <= opts.budget)
    ensures Reached(start, symbols, n + 1, opts, world, fileHash, q)
  {
    assert symbols[..n + 1] == symbols[..n] + [symbols[n]];
    AfterSymbolsSnoc(start, symbols[..n], symbols[n], opts, world, fileHash);
  }

  // ----- the object

  class Enricher {
    var store: Store

    constructor (store: Store)
      ensures this.store == store
    {
      this.store := store;
    }

    /** The error of the statement is dropped. */
    method RemoveTombstonesByPredicate(id: int, p: Predicate, fails: bool)
      modifies this
      ensures store == old(store)[id := RemovedUnless(fails, ClaimsOf(old(store), id), p)]
    {
      store := store[id := if fails then ClaimsOf(store, id) else Removed(ClaimsOf(store, id), p)];
    }

    method RemoveTombstones(id: int, f: Faults)
      modifies this
      ensures store == old(store)[id := Cleared(ClaimsOf(old(store), id), f)]
    {
      RemoveTombstonesByPredicate(id, EnrichmentFailed, f.removeFailed);
      RemoveTombstonesByPredicate(id, PermanentlyFailed, f.removePermanent);
    }

    method InsertClaim(id: int, c: Claim, fails: bool)
      modifies this
      ensures store == old(store)[id := ClaimsOf(old(store), id) + if fails then [] else [c]]
    {
      store := store[id := ClaimsOf(store, id) + if fails then [] else [c]];
    }

    /** A count that fails is 0; the errors of the other statements are dropped. */
    method InsertOrEscalateTombstone(id: int, file: string, hash: string, f: Faults)
      modifies this
      ensures store == old(store)[id := Escalated(ClaimsOf(old(store), id), file, hash, f)]
    {
      var failCount := if f.count then 0 else FailedCount(ClaimsOf(store, id));
      var p := EnrichmentFailed;
      if failCount + 1 >= MAX_CONSECUTIVE_FAILURES {
        p := PermanentlyFailed;
        RemoveTombstonesByPredicate(id, EnrichmentFailed, f.removeFailed);
      }
      InsertClaim(id, Tombstone(p, file, hash), f.insert);
    }

    /** Route every predicate until the budget is spent, storing what comes back. */
    method RoutePredicates(sym: Symbol, opts: Opts, world: World, calls: nat, file: string, hash: string)
      returns (made: nat, enriched: bool, allFailed: bool)
      requires !Spent(opts, calls)
      modifies this
      ensures made == CallsFor(opts, calls)
      ensures Routed(old(store), store, sym.id, Replies(world, sym.id, calls, made), opts.preds, file, hash, enriched,
        allFailed)
    {
      made, enriched, allFailed := 0, false, true;
      while made < |opts.preds| && !(opts.budget > 0 && calls + made >= opts.budget)
        invariant made <= |opts.preds| && (opts.budget > 0 ==> calls + made <= opts.budget)
        invariant Routed(old(store), store, sym.id, Replies(world, sym.id, calls, made), opts.preds, file, hash,
          enriched, allFailed)
        decreases |opts.preds| - made
      {
        var reply := world.reply(sym.id, calls + made);
        RoutedSnoc(old(store), store, sym.id, Replies(world, sym.id, calls, made), reply, opts.preds, file, hash,
          enriched, allFailed);
        assert Replies(world, sym.id, calls, made + 1) == Replies(world, sym.id, calls, made) + [reply];
        if !reply.RouteError? { allFailed := false; }
        if reply.Context? && reply.text != "" && !reply.insertFails {
          InsertClaim(sym.id, ClaimFor(reply, opts.preds[made], file, hash), false);
          enriched := true;
        }
        made := made + 1;
      }
    }

    method EnrichOne(sym: Symbol, opts: Opts, world: World, fileHash: (string, string) -> string,
        calls: nat)
      returns (made: nat, enriched: bool)
      requires !Spent(opts, calls)
      modifies this
      ensures made == CallsFor(opts, calls) && enriched == Enriched(Replies(world, sym.id, calls, made))
      ensures store == AfterSymbol(old(store), sym, opts, world, fileHash, calls)
    {
      var f := world.faults(sym.id);
      var claims := if f.read then [] else ClaimsOf(store, sym.id);
      var file, hash := SourceFileOf(claims), HashOf(claims, sym.repo, fileHash);
      var allFailed;
      made, enriched, allFailed := RoutePredicates(sym, opts, world, calls, file, hash);
      if enriched {
        RemoveTombstones(sym.id, f);
      } else if allFailed {
        InsertOrEscalateTombstone(sym.id, file, hash, f);
      }
    }

    /** Skip a symbol that the cache answers, enrich any other. */
    method EnrichNext(p: Progress, sym: Symbol, opts: Opts, world: World,
        fileHash: (string, string) -> string)
      returns (q: Progress)
      requires p.store == store && !Spent(opts, p.calls)
      modifies this
      ensures q == AfterOne(p, sym, opts, world, fileHash) && q.store == store
      ensures opts.budget > 0 ==> q.calls <= opts.budget
    {
      var claims := if world.faults(sym.id).read then [] else ClaimsOf(store, sym.id);
      if !opts.force && IsCacheHit(claims, HashOf(claims, sym.repo, fileHash)) {
        return p.(skipped := p.skipped + 1);
      }
      var made, enriched := EnrichOne(sym, opts, world, fileHash, p.calls);
      q := Progress(store, p.calls + made, if enriched then p.enriched + 1 else p.enriched, p.skipped);
    }

    /**
     The symbols are already selected and ranked; at most a batch of them is considered, and fewer
     if the context is cancelled. The calls of a budgeted run stay within its budget.
     */
    method Run(selected: seq<Symbol>, o: Opts, world: World, fileHash: (string, string) -> string,
        dryRun: bool, cancelled: nat -> bool)
      returns (p: Progress, considered: nat)
      modifies this
      ensures considered <= |selected| && considered <= MAX_BATCH_SIZE
      ensures dryRun ==> store == old(store) && p == Progress(old(store), 0, 0, BatchSize(|selected|))
      ensures !dryRun ==> ConsideredAllBut(BatchSize(|selected|), considered, p, WithDefaults(o), cancelled)
      ensures !dryRun ==>
        p == AfterSymbols(Progress(old(store), 0, 0, 0), selected[..considered], WithDefaults(o), world, fileHash) &&
          p.store == store
      ensures o.budget > 0 ==> p.calls <= o.budget
    {
      var opts := WithDefaults(o);
      var symbols := if |selected| > MAX_BATCH_SIZE then selected[..MAX_BATCH_SIZE] else selected;
      p := Progress(store, 0, 0, 0);
      if dryRun { return p.(skipped := |symbols|), |symbols|; }
      p, considered := EnrichAll(symbols, opts, world, fileHash, cancelled);
      assert symbols[..considered] == selected[..considered];
    }

    method EnrichAll(symbols: seq<Symbol>, opts: Opts, world: World, fileHash: (string, string) -> string,
        cancelled: nat -> bool)
      returns (p: Progress, considered: nat)
      modifies this
      ensures considered <= |symbols| && ConsideredAllBut(|symbols|, considered, p, opts, cancelled)
      ensures p == AfterSymbols(Progress(old(store), 0, 0, 0), symbols[..considered], opts, world, fileHash) &&
        p.store == store
      ensures opts.budget > 0 ==> p.calls <= opts.budget
    {
      p := Progress(store, 0, 0, 0);
      ghost var start := p;
      considered := 0;
      while considered < |symbols|
        invariant p.store == store && NotCancelled(cancelled, considered)
        invariant Reached(start, symbols, considered, opts, world, fileHash, p)
        decreases |symbols| - considered
      {
        if cancelled(considered) { return; }          // ctx.Done()
        if opts.budget > 0 && p.calls >= opts.budget { return; }
        var q := EnrichNext(p, symbols[considered], opts, world, fileHash);
        Considered(start, symbols, considered, opts, world, fileHash, p, q);
        p := q;
        considered := considered + 1;
      }
    }
  }

  /** At most a batch of the selected symbols is considered. */
  function BatchSize(selected: nat): (n: nat)
    ensures n <= selected && n <= MAX_BATCH_SIZE && (n == selected || n == MAX_BATCH_SIZE)
  {
    if selected > MAX_BATCH_SIZE then MAX_BATCH_SIZE else selected
  }

  ghost predicate NotCancelled(cancelled: nat -> bool, n: nat) { forall i: nat :: i < n ==> !cancelled(i) }

  /** A run stops early only because it is cancelled or its budget is spent. */
  ghost predicate ConsideredAllBut(all: int, considered: nat, p: Progress, opts: Opts, cancelled: nat -> bool) {
    && NotCancelled(cancelled, considered)
    && (considered < all ==> cancelled(considered) || Spent(opts, p.calls))
  }

  function WithDefaults(o: Opts): Opts {
    if o.preds == [] then o.(preds := DEFAULT_PREDICATES()) else o
  }

  /** The replies so far: what they stored, whether any did, and whether all failed. */
  ghost predicate Routed(before: Store, after: Store, id: int, replies: seq<Reply>, preds: seq<string>, file: string,
      hash: string, enriched: bool, allFailed: bool)
    requires |replies| <= |preds|
  {
    && enriched == Enriched(replies) && allFailed == AllFailed(replies)
    && (!enriched ==> NewClaims(replies, preds, file, hash) == [])
    && after == if enriched then before[id := ClaimsOf(before, id) + NewClaims(replies, preds, file, hash)] else before
  }

  lemma RoutedSnoc(before: Store, now: Store, id: int, replies: seq<Reply>, r: Reply, preds: seq<string>,
      file: string, hash: string, enriched: bool, allFailed: bool)
    requires |replies| < |preds| && Routed(before, now, id, replies, preds, file, hash, enriched, allFailed)
    ensures Routed(before,
                   if Stores(r) then now[id := ClaimsOf(now, id) + [ClaimFor(r, preds[|replies|], file, hash)]]
                   else now,
                   id, replies + [r], preds, file, hash, enriched || Stores(r), allFailed && r.RouteError?)
  {
    var all := replies + [r];
    assert all[..|replies|] == replies;
    assert forall x :: x in all <==> x in replies || x == r;
    var earlier := NewClaims(replies, preds, file, hash);
    assert NewClaims(all, preds, file, hash) ==
           earlier + if Stores(r) then [ClaimFor(r, preds[|replies|], file, hash)] else [];
    assert earlier + [] == earlier;
    if Stores(r) {
      var c := ClaimFor(r, preds[|replies|], file, hash);
      assert ClaimsOf(before, id) + (earlier + [c]) == ClaimsOf(before, id) + earlier + [c];
      if !enriched { assert ClaimsOf(before, id) + [] + [c] == ClaimsOf(before, id) + [c]; }
    }
  }
}
