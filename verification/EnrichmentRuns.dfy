/** What enrichment costs over many runs: tombstone counts, retries and cache hits. */
module EnrichmentRuns {
  import opened Basics
  import opened Enricher

  // ----- tombstone rows

  lemma {:induction false} FailedCountAppend(a: seq<Claim>, b: seq<Claim>)
    ensures FailedCount(a + b) == FailedCount(a) + FailedCount(b)
  {
    if b == [] {
      assert a + b == a;
    } else {
      assert (a + b)[..|a + b| - 1] == a + b[..|b| - 1];
      FailedCountAppend(a, b[..|b| - 1]);
    }
  }

  lemma {:induction false} RemovedMembers(claims: seq<Claim>, p: Predicate)
    ensures forall c :: c in Removed(claims, p) <==> c in claims && !IsTombstone(c, p)
  {
    if claims != [] {
      var front, last := claims[..|claims| - 1], claims[|claims| - 1];
      RemovedMembers(front, p);
      assert claims == front + [last];
    }
  }

  lemma FailedCountOne(c: Claim)
    ensures FailedCount([c]) == if IsTombstone(c, EnrichmentFailed) then 1 else 0
  {
    assert [c][..0] == [];
  }

  lemma {:induction false} RemovedCount(claims: seq<Claim>, p: Predicate)
    ensures FailedCount(Removed(claims, p)) == if p == EnrichmentFailed then 0 else FailedCount(claims)
  {
    if claims != [] {
      var front, last := claims[..|claims| - 1], claims[|claims| - 1];
      RemovedCount(front, p);
      FailedCountAppend(Removed(front, p), if IsTombstone(last, p) then [] else [last]);
      FailedCountOne(last);
    }
  }

  lemma RemovedEffect(claims: seq<Claim>, p: Predicate)
    ensures forall c :: c in Removed(claims, p) <==> c in claims && !IsTombstone(c, p)
    ensures FailedCount(Removed(claims, p)) == if p == EnrichmentFailed then 0 else FailedCount(claims)
  {
    RemovedMembers(claims, p);
    RemovedCount(claims, p);
  }

  // ----- what decides about a symbol

  /** The file of a symbol is that of its first claim that has one; without any, it has neither file nor hash. */
  lemma {:induction false} SourceFileIff(claims: seq<Claim>, repo: string, fileHash: (string, string) -> string)
    ensures SourceFileOf(claims) == "" <==> forall c :: c in claims ==> c.sourceFile == ""
    ensures SourceFileOf(claims) != "" ==>
      exists i :: 0 <= i < |claims| && claims[i].sourceFile == SourceFileOf(claims) &&
        forall k :: 0 <= k < i ==> claims[k].sourceFile == ""
    ensures HashOf(claims, repo, fileHash) ==
      if forall c :: c in claims ==> c.sourceFile == "" then "" else fileHash(repo, SourceFileOf(claims))
  {
    if claims != [] {
      SourceFileIff(claims[1..], repo, fileHash);
      assert forall c :: c in claims <==> c == claims[0] || c in claims[1..];
      if claims[0].sourceFile == "" && SourceFileOf(claims[1..]) != "" {
        var i :| 0 <= i < |claims[1..]| && claims[1..][i].sourceFile == SourceFileOf(claims[1..])
          && forall k :: 0 <= k < i ==> claims[1..][k].sourceFile == "";
        assert claims[i + 1].sourceFile == SourceFileOf(claims);
        assert forall k :: 0 < k < i + 1 ==> claims[k] == claims[1..][k - 1];
      }
    }
  }

  /**
   A run skips a symbol exactly when it is not forced and one of the claims that it can read is its own, of the
   current hash, and either a permanent tombstone or semantic and no failure; a symbol without a hash, or whose
   claims cannot be read, is never skipped.
   */
  lemma SkipsIff(s: Store, sym: Symbol, opts: Opts, world: World, fileHash: (string, string) -> string)
    ensures Skips(s, sym, opts, world, fileHash) <==>
      && !opts.force && !world.faults(sym.id).read && sym.id in s
      && HashOf(s[sym.id], sym.repo, fileHash) != ""
      && exists c :: c in s[sym.id] && c.extractor == EXTRACTOR
           && c.version == VERSION + "@" + HashOf(s[sym.id], sym.repo, fileHash)
           && (c.pred.PermanentlyFailed? || (c.tier == SemanticTier && !c.pred.EnrichmentFailed?))
  {
  }

  /** The calls that an attempt may make are those before which the budget is not spent. */
  lemma CallsForIff(opts: Opts, calls: nat, i: nat)
    ensures i < CallsFor(opts, calls) <==> i < |opts.preds| && (opts.budget > 0 ==> calls + i < opts.budget)
    ensures Spent(opts, calls) <==> 0 < opts.budget <= calls
  {
  }

  /** The i-th reply of an attempt is a usable context that could be stored. */
  predicate ReplyStored(world: World, id: int, calls: nat, i: nat) {
    var r := world.reply(id, calls + i);
    r.Context? && r.text != "" && !r.insertFails
  }

  /** How one symbol counts: skipped, or with its calls, and as enriched when some context of it was stored. */
  lemma OneSymbolCounts(p: Progress, sym: Symbol, opts: Opts, world: World, fileHash: (string, string) -> string)
    ensures var q := AfterOne(p, sym, opts, world, fileHash);
      if Skips(p.store, sym, opts, world, fileHash) then q == Progress(p.store, p.calls, p.enriched, p.skipped + 1)
      else
        && q.skipped == p.skipped && q.calls == p.calls + CallsFor(opts, p.calls)
        && (forall id :: id != sym.id ==> ClaimsOf(q.store, id) == ClaimsOf(p.store, id))
        && (if exists i: nat :: i < CallsFor(opts, p.calls) && ReplyStored(world, sym.id, p.calls, i)
            then q.enriched == p.enriched + 1 else q.enriched == p.enriched)
  {
    var replies := Replies(world, sym.id, p.calls, CallsFor(opts, p.calls));
    if r :| r in replies && Stores(r) {
      var i: nat :| i < |replies| && replies[i] == r;
      assert ReplyStored(world, sym.id, p.calls, i);
    }
    if i: nat :| i < |replies| && ReplyStored(world, sym.id, p.calls, i) { assert replies[i] in replies; }
  }

  /** Without predicates of its own a run asks the four default ones; every other option is as given. */
  lemma DefaultsIff(o: Opts)
    ensures WithDefaults(o).(preds := []) == o.(preds := [])
    ensures WithDefaults(o).preds ==
      if |o.preds| > 0 then o.preds else ["purpose", "usage_pattern", "complexity", "stability"]
  {
  }

  /** The row that a failed attempt adds says what failed, under the file and hash it was about, and is no claim. */
  lemma EscalatedRow(claims: seq<Claim>, file: string, hash: string, f: Faults, c: Claim)
    requires c in Escalated(claims, file, hash, f) && c !in claims
    ensures !f.insert && c.extractor == EXTRACTOR && c.sourceFile == file
    ensures c.tier == MetaTier && c.confidence == 0.0
    ensures c.version == if hash == "" then VERSION else VERSION + "@" + hash
    ensures c.pred == if !f.count && FailedCount(claims) >= 2 then PermanentlyFailed else EnrichmentFailed
  {
    RemovedMembers(claims, EnrichmentFailed);
  }

  /** A claim that enrichment stores for a successful reply. */
  predicate IsStored(c: Claim, file: string, hash: string) {
    IsOurs(c) && c.sourceFile == file && c.pred.Semantic? && c.tier == SemanticTier && c.version == VersionFor(hash)
  }

  lemma {:induction false} NewClaimsEffect(replies: seq<Reply>, preds: seq<string>, file: string, hash: string)
    requires |replies| <= |preds|
    ensures FailedCount(NewClaims(replies, preds, file, hash)) == 0
    ensures forall c :: c in NewClaims(replies, preds, file, hash) ==> IsStored(c, file, hash)
    ensures Enriched(replies) <==> NewClaims(replies, preds, file, hash) != []
  {
    if replies != [] {
      var n := |replies| - 1;
      var before := NewClaims(replies[..n], preds, file, hash);
      NewClaimsEffect(replies[..n], preds, file, hash);
      assert forall r :: r in replies <==> r in replies[..n] || r == replies[n];
      if Stores(replies[n]) {
        var c := ClaimFor(replies[n], preds[n], file, hash);
        assert NewClaims(replies, preds, file, hash) == before + [c];
        FailedCountAppend(before, [c]);
        assert [c][..0] == [] && FailedCount([c]) == 0;
      } else {
        assert NewClaims(replies, preds, file, hash) == before;
      }
    }
  }

  lemma EscalatedCount(claims: seq<Claim>, file: string, hash: string, f: Faults)
    ensures FailedCount(Escalated(claims, file, hash, f)) ==
            if !f.count && FailedCount(claims) + 1 >= MAX_CONSECUTIVE_FAILURES
            then (if f.removeFailed then FailedCount(claims) else 0)
            else FailedCount(claims) + (if f.insert then 0 else 1)
  {
    RemovedEffect(claims, EnrichmentFailed);
    var t, p := Tombstone(EnrichmentFailed, file, hash), Tombstone(PermanentlyFailed, file, hash);
    var kept := RemovedUnless(f.removeFailed, claims, EnrichmentFailed);
    FailedCountAppend(claims, [t]);
    FailedCountAppend(kept, [p]);
    FailedCountOne(t);
    FailedCountOne(p);
    assert claims + [] == claims && kept + [] == kept;
  }

  lemma ClearedCount(stored: seq<Claim>, f: Faults)
    ensures FailedCount(Cleared(stored, f)) == if f.removeFailed then FailedCount(stored) else 0
  {
    RemovedEffect(stored, EnrichmentFailed);
    RemovedEffect(RemovedUnless(f.removeFailed, stored, EnrichmentFailed), PermanentlyFailed);
  }

  /** The count of two failure rows fails, is taken for none, and a third row is stored. */
  predicate Miscounts(claims: seq<Claim>, replies: seq<Reply>, f: Faults) {
    f.count && !f.insert && FailedCount(claims) >= 2 && AllFailed(replies) && !Enriched(replies)
  }

  /** What the i-th reply stores under the i-th predicate, if it stores anything. */
  ghost predicate StoredFor(replies: seq<Reply>, preds: seq<string>, file: string, hash: string, i: nat, c: Claim)
    requires |replies| <= |preds|
  {
    && i < |replies| && replies[i].Context? && replies[i].text != "" && !replies[i].insertFails
    && c.pred == Semantic(preds[i]) && c.text == replies[i].text && c.sourceFile == file
    && c.confidence == (if replies[i].mentionsSymbol then 0.8 else 0.4) && c.tier == SemanticTier
    && c.extractor == EXTRACTOR && c.version == (if hash == "" then VERSION else VERSION + "@" + hash)
  }

  /** The replies that are stored, by their place. */
  function StoredPlaces(replies: seq<Reply>): set<nat> {
    set i: nat | i < |replies| && replies[i].Context? && replies[i].text != "" && !replies[i].insertFails
  }

  lemma {:induction false} NewClaimsCount(replies: seq<Reply>, preds: seq<string>, file: string, hash: string)
    requires |replies| <= |preds|
    ensures |NewClaims(replies, preds, file, hash)| == |StoredPlaces(replies)|
  {
    if replies == [] {
      assert StoredPlaces(replies) == {};
    } else {
      var n := |replies| - 1;
      NewClaimsCount(replies[..n], preds, file, hash);
      PlacesStep(replies);
    }
  }

  lemma PlacesStep(replies: seq<Reply>)
    requires replies != []
    ensures var n: nat := |replies| - 1;
      && n !in StoredPlaces(replies[..n])
      && StoredPlaces(replies) == StoredPlaces(replies[..n]) + if Stores(replies[n]) then {n} else {}
  {
  }

  /** An attempt stores one claim for each context that it gets, the i-th under the i-th predicate, and no other. */
  lemma {:induction false} NewClaimsIff(replies: seq<Reply>, preds: seq<string>, file: string, hash: string, c: Claim)
    requires |replies| <= |preds|
    ensures c in NewClaims(replies, preds, file, hash) <==>
      exists i: nat :: StoredFor(replies, preds, file, hash, i, c)
    ensures |NewClaims(replies, preds, file, hash)| == |StoredPlaces(replies)|
  {
    NewClaimsCount(replies, preds, file, hash);
    if replies != [] {
      var n := |replies| - 1;
      NewClaimsIff(replies[..n], preds, file, hash, c);
      NewClaimsSnoc(replies, preds, file, hash, c);
      forall i: nat | i < n
        ensures StoredFor(replies[..n], preds, file, hash, i, c) <==> StoredFor(replies, preds, file, hash, i, c) {}
    }
  }

  lemma NewClaimsSnoc(replies: seq<Reply>, preds: seq<string>, file: string, hash: string, c: Claim)
    requires 0 < |replies| <= |preds|
    ensures var n: nat := |replies| - 1;
      c in NewClaims(replies, preds, file, hash) <==>
        c in NewClaims(replies[..n], preds, file, hash) || StoredFor(replies, preds, file, hash, n, c)
  {
  }

  /** An attempt that begins with at most two failure rows leaves at most two if and only if it does not miscount. */
  lemma AttemptBoundedIff(claims: seq<Claim>, replies: seq<Reply>, preds: seq<string>, file: string, hash: string,
      f: Faults)
    requires |replies| <= |preds| && FailedCount(claims) <= 2
    ensures FailedCount(AfterAttempt(claims, replies, preds, file, hash, f)) <= 2 <==> !Miscounts(claims, replies, f)
  {
    var added := NewClaims(replies, preds, file, hash);
    NewClaimsEffect(replies, preds, file, hash);
    FailedCountAppend(claims, added);
    ClearedCount(claims + added, f);
    EscalatedCount(claims, file, hash, f);
  }

  ghost predicate Bounded(s: Store) {
    forall id :: FailedCount(ClaimsOf(s, id)) <= 2
  }

  /** No count of failure rows fails in the run. */
  ghost predicate Counts(world: World) { forall id :: !world.faults(id).count }

  lemma {:induction false} RunKeepsBounded(p: Progress, syms: seq<Symbol>, opts: Opts, world: World,
                                           fileHash: (string, string) -> string)
    requires Bounded(p.store) && Counts(world)
    ensures Bounded(AfterSymbols(p, syms, opts, world, fileHash).store)
    decreases |syms|
  {
    if syms != [] && !Spent(opts, p.calls) {
      var sym := syms[0];
      var q := AfterOne(p, sym, opts, world, fileHash);
      var claims := ReadClaims(p.store, sym.id, world.faults(sym.id));
      AttemptBoundedIff(ClaimsOf(p.store, sym.id), Replies(world, sym.id, p.calls, CallsFor(opts, p.calls)), opts.preds,
                        SourceFileOf(claims), HashOf(claims, sym.repo, fileHash), world.faults(sym.id));
      assert forall id :: id != sym.id ==> ClaimsOf(q.store, id) == ClaimsOf(p.store, id);
      RunKeepsBounded(q, syms[1..], opts, world, fileHash);
    }
  }

  datatype RunInput = RunInput(syms: seq<Symbol>, opts: Opts, world: World)

  function AfterRun(s: Store, r: RunInput, fileHash: (string, string) -> string): Store {
    AfterSymbols(Progress(s, 0, 0, 0), r.syms, r.opts, r.world, fileHash).store
  }

  function AfterRuns(s: Store, runs: seq<RunInput>, fileHash: (string, string) -> string): Store
    decreases |runs|
  {
    if runs == [] then s else AfterRuns(AfterRun(s, runs[0], fileHash), runs[1..], fileHash)
  }

  /** From a store without failure rows, no symbol ever has more than two of them, as long as they can be counted. */
  lemma {:induction false} NeverMoreThanTwo(s: Store, runs: seq<RunInput>, fileHash: (string, string) -> string)
    requires Bounded(s) && forall i :: 0 <= i < |runs| ==> Counts(runs[i].world)
    ensures Bounded(AfterRuns(s, runs, fileHash))
    decreases |runs|
  {
    if runs != [] {
      RunKeepsBounded(Progress(s, 0, 0, 0), runs[0].syms, runs[0].opts, runs[0].world, fileHash);
      NeverMoreThanTwo(AfterRun(s, runs[0], fileHash), runs[1..], fileHash);
    }
  }

  // ----- the file and hash of a symbol do not move

  function NotOurs(claims: seq<Claim>): seq<Claim> {
    if claims == [] then []
    else (if IsOurs(claims[0]) then [] else [claims[0]]) + NotOurs(claims[1..])
  }

  /** The symbol's file is named by a claim that enrichment never touches, and enrichment uses that file. */
  ghost predicate Anchored(claims: seq<Claim>, file: string) {
    && file != "" && SourceFileOf(NotOurs(claims)) == file
    && forall c :: c in claims && IsOurs(c) ==> c.sourceFile == file || c.sourceFile == ""
  }

  lemma {:induction false} NotOursAppend(a: seq<Claim>, b: seq<Claim>)
    ensures NotOurs(a + b) == NotOurs(a) + NotOurs(b)
  {
    if a == [] {
      assert a + b == b;
    } else {
      assert (a + b)[1..] == a[1..] + b;
      NotOursAppend(a[1..], b);
    }
  }

  lemma {:induction false} NotOursRemoved(claims: seq<Claim>, p: Predicate)
    ensures NotOurs(Removed(claims, p)) == NotOurs(claims)
  {
    if claims != [] {
      var front, last := claims[..|claims| - 1], claims[|claims| - 1];
      NotOursRemoved(front, p);
      NotOursAppend(front, [last]);
      assert front + [last] == claims;
      NotOursAppend(Removed(front, p), if IsTombstone(last, p) then [] else [last]);
      assert [last][1..] == [];
    }
  }

  lemma {:induction false} NotOursAllOurs(claims: seq<Claim>)
    requires forall c :: c in claims ==> IsOurs(c)
    ensures NotOurs(claims) == []
  {
    if claims != [] {
      assert claims[0] in claims && forall c :: c in claims[1..] ==> c in claims;
      NotOursAllOurs(claims[1..]);
    }
  }

  lemma {:induction false} AnchoredSource(claims: seq<Claim>, file: string)
    requires Anchored(claims, file)
    ensures SourceFileOf(claims) == file
  {
    if claims != [] {
      assert claims[0] in claims && forall c :: c in claims[1..] ==> c in claims;
      if claims[0].sourceFile == "" {
        var rest := NotOurs(claims[1..]);
        assert NotOurs(claims) == if IsOurs(claims[0]) then rest else [claims[0]] + rest;
        assert ([claims[0]] + rest)[1..] == rest;
        AnchoredSource(claims[1..], file);
      } else if !IsOurs(claims[0]) {
        assert NotOurs(claims)[0] == claims[0];
      }
    }
  }

  lemma AppendKeepsAnchor(claims: seq<Claim>, more: seq<Claim>, file: string)
    requires Anchored(claims, file)
    requires forall c :: c in more ==> IsOurs(c) && (c.sourceFile == file || c.sourceFile == "")
    ensures Anchored(claims + more, file)
  {
    NotOursAppend(claims, more);
    NotOursAllOurs(more);
    assert NotOurs(claims) + [] == NotOurs(claims);
  }

  lemma RemoveKeepsAnchor(claims: seq<Claim>, p: Predicate, file: string)
    requires Anchored(claims, file)
    ensures Anchored(Removed(claims, p), file)
  {
    NotOursRemoved(claims, p);
    RemovedEffect(claims, p);
  }

  lemma RemoveUnlessKeepsAnchor(fails: bool, claims: seq<Claim>, p: Predicate, file: string)
    requires Anchored(claims, file)
    ensures Anchored(RemovedUnless(fails, claims, p), file)
  {
    RemoveKeepsAnchor(claims, p, file);
  }

  /** `at` is the file that the attempt read: the symbol's, or none if the read failed. */
  lemma AttemptKeepsAnchor(claims: seq<Claim>, replies: seq<Reply>, preds: seq<string>, file: string, at: string,
      hash: string, f: Faults)
    requires |replies| <= |preds| && Anchored(claims, file) && (at == file || at == "")
    ensures Anchored(AfterAttempt(claims, replies, preds, at, hash, f), file)
  {
    var added := NewClaims(replies, preds, at, hash);
    NewClaimsEffect(replies, preds, at, hash);
    AppendKeepsAnchor(claims, added, file);
    RemoveUnlessKeepsAnchor(f.removeFailed, claims + added, EnrichmentFailed, file);
    RemoveUnlessKeepsAnchor(f.removePermanent, RemovedUnless(f.removeFailed, claims + added, EnrichmentFailed),
                            PermanentlyFailed, file);
    EscalationKeepsAnchor(claims, file, at, hash, f);
  }

  lemma EscalationKeepsAnchor(claims: seq<Claim>, file: string, at: string, hash: string, f: Faults)
    requires Anchored(claims, file) && (at == file || at == "")
    ensures Anchored(Escalated(claims, at, hash, f), file)
  {
    var kept := RemovedUnless(f.removeFailed, claims, EnrichmentFailed);
    RemoveUnlessKeepsAnchor(f.removeFailed, claims, EnrichmentFailed, file);
    AppendKeepsAnchor(kept, [Tombstone(PermanentlyFailed, at, hash)], file);
    AppendKeepsAnchor(claims, [Tombstone(EnrichmentFailed, at, hash)], file);
    AppendKeepsAnchor(kept, [], file);
    AppendKeepsAnchor(claims, [], file);
  }

  // ----- one symbol in one run

  /** Router calls that a run makes about one symbol. */
  function CallsTo(p: Progress, syms: seq<Symbol>, opts: Opts, world: World,
      fileHash: (string, string) -> string, id: int): nat
    decreases |syms|
  {
    if syms == [] || Spent(opts, p.calls) then 0
    else (if syms[0].id == id && !Skips(p.store, syms[0], opts, world, fileHash) then CallsFor(opts, p.calls) else 0)
         + CallsTo(AfterOne(p, syms[0], opts, world, fileHash), syms[1..], opts, world, fileHash, id)
  }

  ghost predicate DistinctSymbols(syms: seq<Symbol>) {
    forall i, j :: 0 <= i < j < |syms| ==> syms[i].id != syms[j].id
  }

  lemma {:induction false} OthersLeaveAlone(p: Progress, syms: seq<Symbol>, opts: Opts, world: World,
                                            fileHash: (string, string) -> string, id: int)
    requires forall i :: 0 <= i < |syms| ==> syms[i].id != id
    ensures ClaimsOf(AfterSymbols(p, syms, opts, world, fileHash).store, id) == ClaimsOf(p.store, id)
    ensures CallsTo(p, syms, opts, world, fileHash, id) == 0
    decreases |syms|
  {
    if syms != [] && !Spent(opts, p.calls) {
      OthersLeaveAlone(AfterOne(p, syms[0], opts, world, fileHash), syms[1..], opts, world, fileHash, id);
    }
  }

  /** Either the symbol is left alone at no cost, or it is attempted once and paid for. */
  ghost predicate LeftAlone(s: Store, s': Store, id: int, calls: nat) {
    ClaimsOf(s', id) == ClaimsOf(s, id) && calls == 0
  }

  ghost predicate Attempted(s: Store, s': Store, sym: Symbol, opts: Opts, world: World,
                            fileHash: (string, string) -> string, from: nat, calls: nat)
  {
    var claims := ReadClaims(s, sym.id, world.faults(sym.id));
    && 0 < calls <= |opts.preds| && !Skips(s, sym, opts, world, fileHash)
    && ClaimsOf(s', sym.id) ==
      AfterAttempt(ClaimsOf(s, sym.id), Replies(world, sym.id, from, calls), opts.preds, SourceFileOf(claims),
                   HashOf(claims, sym.repo, fileHash), world.faults(sym.id))
  }

  /** The symbol is skipped, or attempted. */
  lemma SymbolTurn(p: Progress, opts: Opts, world: World, fileHash: (string, string) -> string, sym: Symbol)
    requires !Spent(opts, p.calls) && |opts.preds| > 0
    ensures var s', n := AfterOne(p, sym, opts, world, fileHash).store, CallsFor(opts, p.calls);
      if Skips(p.store, sym, opts, world, fileHash) then s' == p.store
      else Attempted(p.store, s', sym, opts, world, fileHash, p.calls, n)
  {
  }

  lemma {:induction false} OneSymbolInRun(p: Progress, syms: seq<Symbol>, opts: Opts, world: World,
                                          fileHash: (string, string) -> string, sym: Symbol) returns (from: nat)
    requires DistinctSymbols(syms) && |opts.preds| > 0
    requires forall i :: 0 <= i < |syms| && syms[i].id == sym.id ==> syms[i] == sym
    ensures var s', n := AfterSymbols(p, syms, opts, world, fileHash).store,
      CallsTo(p, syms, opts, world, fileHash, sym.id);
      LeftAlone(p.store, s', sym.id, n) || Attempted(p.store, s', sym, opts, world, fileHash, from, n)
    decreases |syms|
  {
    from := p.calls;
    if syms != [] && !Spent(opts, p.calls) {
      var q := AfterOne(p, syms[0], opts, world, fileHash);
      if syms[0].id == sym.id {
        SymbolTurn(p, opts, world, fileHash, sym);
        OthersLeaveAlone(q, syms[1..], opts, world, fileHash, sym.id);
        assert ClaimsOf(AfterSymbols(q, syms[1..], opts, world, fileHash).store, sym.id) == ClaimsOf(q.store, sym.id);
      } else {
        from := OneSymbolInRun(q, syms[1..], opts, world, fileHash, sym);
        assert ClaimsOf(q.store, sym.id) == ClaimsOf(p.store, sym.id);
      }
    }
  }

  // ----- an always-failing symbol, and an enriched one, over runs

  /** How far a failing symbol has come: its failure rows, of which two are enough, or 3 when it is skipped. */
  function Phase(claims: seq<Claim>, hash: string): nat {
    if IsCacheHit(claims, hash) then 3 else if FailedCount(claims) >= 2 then 2 else FailedCount(claims)
  }

  lemma FailureAdvances(claims: seq<Claim>, file: string, hash: string)
    requires hash != "" && !IsCacheHit(claims, hash)
    ensures Phase(Escalated(claims, file, hash, NO_FAULTS), hash) == Phase(claims, hash) + 1
  {
    EscalatedCount(claims, file, hash, NO_FAULTS);
    RemovedEffect(claims, EnrichmentFailed);
    var after := Escalated(claims, file, hash, NO_FAULTS);
    if FailedCount(claims) >= 2 {
      var c := after[|after| - 1];
      assert c in after && SkipsFor(c, hash);
    } else {
      assert forall c :: c in after <==> c in claims || c == Tombstone(EnrichmentFailed, file, hash);
    }
  }

  lemma EscalatedKeeps(claims: seq<Claim>, file: string, hash: string, f: Faults, c: Claim)
    requires c in claims && !c.pred.EnrichmentFailed?
    ensures c in Escalated(claims, file, hash, f)
  {
    RemovedMembers(claims, EnrichmentFailed);
    assert c in RemovedUnless(f.removeFailed, claims, EnrichmentFailed);
  }

  /** A failure with failing statements loses the rows at worst; a symbol that is skipped stays so. */
  lemma FaultyFailureLoses(claims: seq<Claim>, at: string, seen: string, hash: string, f: Faults)
    ensures Phase(Escalated(claims, at, seen, f), hash) + 2 >= Phase(claims, hash)
  {
    if IsCacheHit(claims, hash) {
      var c :| c in claims && SkipsFor(c, hash);
      EscalatedKeeps(claims, at, seen, f, c);
      assert IsCacheHit(Escalated(claims, at, seen, f), hash);
    }
  }

  /** Not forced, and the symbol is considered at most once, under its own repository. */
  ghost predicate UnforcedRun(r: RunInput, sym: Symbol) {
    && !r.opts.force && |r.opts.preds| > 0 && DistinctSymbols(r.syms)
    && forall i :: 0 <= i < |r.syms| && r.syms[i].id == sym.id ==> r.syms[i] == sym
  }

  /** The router always fails for the symbol. */
  ghost predicate FailingRun(r: RunInput, sym: Symbol) {
    UnforcedRun(r, sym) && forall n: nat :: r.world.reply(sym.id, n) == RouteError
  }

  function RunCallsTo(s: Store, r: RunInput, fileHash: (string, string) -> string, id: int): nat {
    CallsTo(Progress(s, 0, 0, 0), r.syms, r.opts, r.world, fileHash, id)
  }

  /** Runs that spend router calls on the symbol. */
  function RoutedRuns(s: Store, runs: seq<RunInput>, fileHash: (string, string) -> string, id: int): nat
    decreases |runs|
  {
    if runs == [] then 0
    else (if RunCallsTo(s, runs[0], fileHash, id) > 0 then 1 else 0)
         + RoutedRuns(AfterRun(s, runs[0], fileHash), runs[1..], fileHash, id)
  }

  /** Runs in which some statement about the symbol fails. */
  function FaultyRuns(runs: seq<RunInput>, id: int): nat
    decreases |runs|
  {
    if runs == [] then 0 else (if runs[0].world.faults(id) != NO_FAULTS then 1 else 0) + FaultyRuns(runs[1..], id)
  }

  ghost predicate Failing(s: Store, sym: Symbol, file: string, hash: string) {
    Anchored(ClaimsOf(s, sym.id), file) && hash != ""
  }

  /** A run without faults moves a symbol that it routes one phase on; one with faults moves it two back at most. */
  lemma FailingRunAdvances(s: Store, r: RunInput, fileHash: (string, string) -> string, sym: Symbol, file: string)
    requires FailingRun(r, sym) && Failing(s, sym, file, fileHash(sym.repo, file))
    ensures var hash, s' := fileHash(sym.repo, file), AfterRun(s, r, fileHash);
      && Failing(s', sym, file, hash)
      && (if r.world.faults(sym.id) == NO_FAULTS then
            Phase(ClaimsOf(s', sym.id), hash)
            == Phase(ClaimsOf(s, sym.id), hash) + (if RunCallsTo(s, r, fileHash, sym.id) > 0 then 1 else 0)
          else Phase(ClaimsOf(s', sym.id), hash) + 2 >= Phase(ClaimsOf(s, sym.id), hash))
  {
    var claims, f := ClaimsOf(s, sym.id), r.world.faults(sym.id);
    var hash := fileHash(sym.repo, file);
    AnchoredSource(claims, file);
    var from := OneSymbolInRun(Progress(s, 0, 0, 0), r.syms, r.opts, r.world, fileHash, sym);
    var n := RunCallsTo(s, r, fileHash, sym.id);
    if n > 0 {
      var read := ReadClaims(s, sym.id, f);
      var replies := Replies(r.world, sym.id, from, n);
      assert AllFailed(replies) && !Enriched(replies);
      AttemptKeepsAnchor(claims, replies, r.opts.preds, file, SourceFileOf(read), HashOf(read, sym.repo, fileHash), f);
      if f == NO_FAULTS {
        FailureAdvances(claims, file, hash);
      } else {
        FaultyFailureLoses(claims, SourceFileOf(read), HashOf(read, sym.repo, fileHash), hash, f);
      }
    }
  }

  /**
   With a fixed hash and no force, an always-failing symbol is routed in at most three runs, and in at most
   three more for every run in which a statement about it fails.
   */
  lemma {:induction false} FailingSymbolRoutedAtMostThrice(s: Store, runs: seq<RunInput>,
      fileHash: (string, string) -> string, sym: Symbol, file: string)
    requires Failing(s, sym, file, fileHash(sym.repo, file))
    requires forall i :: 0 <= i < |runs| ==> FailingRun(runs[i], sym)
    ensures RoutedRuns(s, runs, fileHash, sym.id) + Phase(ClaimsOf(s, sym.id), fileHash(sym.repo, file))
            <= 3 + 3 * FaultyRuns(runs, sym.id)
    ensures RoutedRuns(s, runs, fileHash, sym.id) <= 3 + 3 * FaultyRuns(runs, sym.id)
    decreases |runs|
  {
    if runs != [] {
      FailingRunAdvances(s, runs[0], fileHash, sym, file);
      FailingSymbolRoutedAtMostThrice(AfterRun(s, runs[0], fileHash), runs[1..], fileHash, sym, file);
    }
  }

  lemma ClearedMembers(stored: seq<Claim>, f: Faults)
    ensures forall c :: c in Cleared(stored, f) <==>
      && c in stored && (IsTombstone(c, EnrichmentFailed) ==> f.removeFailed)
      && (IsTombstone(c, PermanentlyFailed) ==> f.removePermanent)
  {
    RemovedMembers(stored, EnrichmentFailed);
    RemovedMembers(RemovedUnless(f.removeFailed, stored, EnrichmentFailed), PermanentlyFailed);
  }

  /**
   Storing something for the current hash makes the symbol a cache hit, whatever fails after that, and clears
   exactly the tombstones whose removal does not fail.
   */
  lemma EnrichingMakesHit(claims: seq<Claim>, replies: seq<Reply>, preds: seq<string>, file: string, hash: string,
      f: Faults)
    requires |replies| <= |preds| && Enriched(replies) && hash != ""
    ensures var after := AfterAttempt(claims, replies, preds, file, hash, f);
      && IsCacheHit(after, hash)
      && (forall c :: IsTombstone(c, EnrichmentFailed) ==> (c in after <==> f.removeFailed && c in claims))
      && (forall c :: IsTombstone(c, PermanentlyFailed) ==> (c in after <==> f.removePermanent && c in claims))
  {
    var added := NewClaims(replies, preds, file, hash);
    var stored := claims + added;
    NewClaimsEffect(replies, preds, file, hash);
    var c := added[0];
    assert c in added && c in stored;
    ClearedMembers(stored, f);
    forall x | x in added ensures x.pred.Semantic? {}
    assert SkipsFor(c, hash);
  }

  /** No attempt makes a symbol a hit under another hash than the one that it read. */
  lemma OtherHashStaysMiss(claims: seq<Claim>, replies: seq<Reply>, preds: seq<string>, file: string, hash: string,
      f: Faults, other: string)
    requires |replies| <= |preds| && other != hash && !IsCacheHit(claims, other)
    ensures !IsCacheHit(AfterAttempt(claims, replies, preds, file, hash, f), other)
  {
    var after := AfterAttempt(claims, replies, preds, file, hash, f);
    var stored := claims + NewClaims(replies, preds, file, hash);
    NewClaimsEffect(replies, preds, file, hash);
    ClearedMembers(stored, f);
    RemovedMembers(claims, EnrichmentFailed);
    if other != "" { VersionsDiffer(hash, other); }
    forall c | c in after ensures !(other != "" && SkipsFor(c, other)) {
      if c in claims { assert !(other != "" && SkipsFor(c, other)); }
    }
  }

  lemma VersionsDiffer(hash: string, other: string)
    requires other != hash && other != ""
    ensures VersionFor(hash) != VERSION + "@" + other
  {
    var prefix := VERSION + "@";
    assert (prefix + hash)[|prefix|..] == hash && (prefix + other)[|prefix|..] == other;
  }

  /** The run can read the symbol's claims, and it is not forced to route it. */
  ghost predicate ReadingRun(r: RunInput, sym: Symbol) { UnforcedRun(r, sym) && !r.world.faults(sym.id).read }

  /** A symbol that hits costs no router call in any later unforced run that can read it, and keeps its claims. */
  lemma {:induction false} HitCostsNothing(s: Store, runs: seq<RunInput>, fileHash: (string, string) -> string,
      sym: Symbol)
    requires IsCacheHit(ClaimsOf(s, sym.id), HashOf(ClaimsOf(s, sym.id), sym.repo, fileHash))
    requires forall i :: 0 <= i < |runs| ==> ReadingRun(runs[i], sym)
    ensures RoutedRuns(s, runs, fileHash, sym.id) == 0
    ensures ClaimsOf(AfterRuns(s, runs, fileHash), sym.id) == ClaimsOf(s, sym.id)
    decreases |runs|
  {
    if runs != [] {
      var r := runs[0];
      var from := OneSymbolInRun(Progress(s, 0, 0, 0), r.syms, r.opts, r.world, fileHash, sym);
      HitCostsNothing(AfterRun(s, r, fileHash), runs[1..], fileHash, sym);
    }
  }

  /** The run reads the symbol, attempts it, and stores something for it. */
  ghost predicate EnrichedIn(s: Store, r: RunInput, fileHash: (string, string) -> string, sym: Symbol) {
    !r.world.faults(sym.id).read &&
    exists from: nat, n: nat ::
      Attempted(s, AfterRun(s, r, fileHash), sym, r.opts, r.world, fileHash, from, n) &&
        Enriched(Replies(r.world, sym.id, from, n))
  }

  lemma EnrichedRunMakesHit(s: Store, r: RunInput, fileHash: (string, string) -> string, sym: Symbol, file: string)
    requires Anchored(ClaimsOf(s, sym.id), file) && fileHash(sym.repo, file) != "" && EnrichedIn(s, r, fileHash, sym)
    ensures var after := ClaimsOf(AfterRun(s, r, fileHash), sym.id);
      Anchored(after, file) && IsCacheHit(after, fileHash(sym.repo, file))
  {
    var from: nat, n: nat :| Attempted(s, AfterRun(s, r, fileHash), sym, r.opts, r.world, fileHash, from, n)
      && Enriched(Replies(r.world, sym.id, from, n));
    var claims, replies, hash := ClaimsOf(s, sym.id), Replies(r.world, sym.id, from, n), fileHash(sym.repo, file);
    AnchoredSource(claims, file);
    EnrichingMakesHit(claims, replies, r.opts.preds, file, hash, r.world.faults(sym.id));
    AttemptKeepsAnchor(claims, replies, r.opts.preds, file, file, hash, r.world.faults(sym.id));
  }

  /**
   A symbol whose file is known, once enriched in some run, costs no router call in any number of later
   unforced runs that can read it, as long as the hash of the file stays what it was.
   */
  lemma EnrichedOnceCostsNothing(s: Store, r: RunInput, runs: seq<RunInput>, fileHash: (string, string) -> string,
      sym: Symbol, file: string)
    requires Anchored(ClaimsOf(s, sym.id), file) && fileHash(sym.repo, file) != "" && EnrichedIn(s, r, fileHash, sym)
    requires forall i :: 0 <= i < |runs| ==> ReadingRun(runs[i], sym)
    ensures RoutedRuns(AfterRun(s, r, fileHash), runs, fileHash, sym.id) == 0
    ensures ClaimsOf(AfterRuns(s, [r] + runs, fileHash), sym.id) == ClaimsOf(AfterRun(s, r, fileHash), sym.id)
  {
    EnrichedRunMakesHit(s, r, fileHash, sym, file);
    AnchoredSource(ClaimsOf(AfterRun(s, r, fileHash), sym.id), file);
    HitCostsNothing(AfterRun(s, r, fileHash), runs, fileHash, sym);
    assert ([r] + runs)[1..] == runs;
  }
}
