# A verified model of live documentation

This project models the parts of the repository that keep documentation in step with code, and proves
properties of them that span several functions or whole runs.

The program keeps *claims* about source files in a database. A git diff drives an incremental run: paths that
left the tree are tombstoned, changed files and the files that import them are hashed, looked up in a
content-hash cache and, on a miss, extracted again in one transaction. A watcher chains such runs over
commits. Around that core sit a pool of database handles, caches with a time to live and a call budget, a store
of "tribal" facts with evidence and reverification, documents with a bounded revision history and a drift
detector, LLM enrichment with failure tombstones and a debounced queue, a routing index for search, an index of
anchored claims that diffs invalidate, and three text or binary formats.

## How the model is built

- Every file whose code changes things in place becomes a class with the same fields, and every method of that
  class is proved against a function or predicate on plain values (`View() == AfterOpen(old(View()), ...)`).
  Results about many calls, whole runs or interleavings are lemmas about those functions.
- An SQL table is a map or a sequence. Each statement has one contract. Which statements, transactions and file
  operations fail, and where a context is cancelled, are parameters, so that contracts say exactly what is done for any
  combination of failures; the failures that are not modelled are listed at the end.
- Beside the lemmas about whole runs stand lemmas that say what each specification function means without it: in the
  columns of a row, the lines of a hunk, the letters of a pattern, what was saved or what a source reported.
- An extractor is given what the code gives it: the relative path and the content when a file source is configured,
  otherwise the path of the file under the repository directory. Claims are deleted by the relative path in both cases.
- A run diffs two commits but reads the working directory (`pipeline/pipeline.go:220-227`), or what a file source
  serves. The two are separate in the model: what a run read is part of its record.
- Extractors, the content hash, the cluster hash, the claims reader, the LLM router and the liveness runner are
  function parameters. Clocks are integers.
- The concurrent parts -- liveness probes that release their lock between check and store, and the enrichment
  queue -- are transition systems; every step is one critical section, and the results hold for all interleavings.

| Module | Code it follows |
|---|---|
| `GitDiff`, `DiffParser`, `NameStatusRoundTrip`, `UnifiedDiff`, `DiffRoundTrip`, `DiffGrammar` | `gitdiff/gitdiff.go` |
| `GitQuoting` | how git writes the paths that those parsers read |
| `CacheStore` | `cache/sqlite.go` |
| `ClaimsStore` | `db/claims.go` |
| `ReverseDeps`, `Extraction`, `Pipeline`, `IncrementalSync`, `Reextraction` | `pipeline/pipeline.go`, `pipeline/reversedep.go`, `extractor/registry.go` |
| `Watcher` | `watch/watcher.go`, `watch/state.go` |
| `DBPool` | `mcpserver/dbpool.go` |
| `TtlLru`, `LivenessProbe` | `mcpserver/staleness.go` (the cache), `drift/tribal.go` (the cache) |
| `TribalStore`, `TribalDrift`, `TribalReverify` | `db/tribal_upsert.go`, `drift/tribal.go`, `drift/tribal_reverify.go` |
| `EvergreenStore`, `Detector`, `RefreshTool` | `evergreen/sqlite_store.go`, `evergreen/detector.go`, `evergreen/mcptools.go` |
| `Enricher`, `EnrichmentRuns`, `EnrichmentQueue` | `sourcegraph/enrich.go`, `sourcegraph/queue.go` |
| `RoutingIndex` | `mcpserver/routing.go`, `mcpserver/tools_search.go` |
| `AnchorIndex` | `anchor/anchor.go` |
| `ScipSymbol`, `ScipGrammar` | `scip/symbol.go` |
| `PRIdSet` | `db/pr_id_set.go` |
| `Basics`, `Recency`, `AgeOrder`, `Text`, `StringOrder`, `IntSort` | shared values, recency lists, age order, splitting and joining, the order of strings, the contract of the library sort |

## What the proofs found

Properties that hold only under a condition are stated as an equivalence with that condition.

- **What an extractor must stamp.** The pipeline deletes a file's old claims by the extractor's own name and the
  relative path. `Reextraction.ReextractionExactIff`: re-extraction is exact, in any store, if and only if every old claim
  carries both. The universal tree-sitter extractor is called `tree-sitter` but stamps `tree-sitter-<language>`
  (`extractor/treesitter/extractor.go:46`, `:141`). Without a file source, extractors are given the absolute path
  (`pipeline/pipeline.go:262-263`): tree-sitter stamps it, and the Go deep extractor leaves absolute paths and emits the
  claims of other files as well (`extractor/goextractor/goextractor.go:91-97`, `:126`), so its own name does not help it.
  In that mode neither default extractor meets the assumptions of the refinement theorem; with a file source,
  tree-sitter still misses the name and the deep extractor is skipped. What holds without these assumptions is
  `Reextraction.NothingMissing`: old claims may stay, but none of the current ones is ever lost.
- **The cache is outside the transaction.** A failure after `cache.Put` leaves a cache row for claims that were
  rolled back. `IncrementalSync.FailedAfterPutBreaksIff`: the invariant survives exactly when the claims were
  already those of the new content.
- **Removed importers.** The claims of a removed file stay, so it is still listed as an importer and its read fails.
  `IncrementalSync.RemovedImporterFails`: a run that is clean on the tree is free of errors if and only if every importer
  of what changed that is not in the tree is generated. The results about runs therefore ask only that no file of the tree
  meets an error.
- **Uncommitted edits.** A run towards HEAD stores what it reads on disk. One listed file that is edited when it is read
  ends out of date with HEAD after a run without errors, later checks are quiet, and undoing the edit changes nothing
  (`Watcher.EditThenQuiet`). `Watcher.ResumedPollSyncsIff` gives the exact condition over the commits and the disk.
- **A lost save, then a revert.** The watcher advances its SHA in memory, and in the file only if the save succeeds.
  After a lost save and a restart, HEAD may return to the persisted SHA: the check then reports success without a run,
  and the files are up to date if and only if both commits have the same eligible files (`Watcher.LostSaveThenRevert`).
  `Watcher.PollSyncsIff` and `Watcher.ResumedPollSyncsIff` give the exact conditions for any poll, in terms of commits.
- **Per-file errors do not stop the watcher.** A run that fails on a file advances the SHA; every later check at that
  HEAD reports success and the file stays out of date (`Watcher.ErrorThenQuiet`). `Watcher.WatcherExact` says, over any
  run at all, exactly which files are up to date, and `Watcher.MissedThenQuiet` that what one run gets wrong stays so.
- **The interface comment of the cache says that `Put` evicts; the SQLite `Put` does not** (`cache/cache.go:27-29`,
  `cache/sqlite.go:82-101`). `CacheStore.PutWithinCapIff`: the table is within the cap after a `Put` if and only if the new
  size fits beside the rows that stay.
- **`_` in a routed query.** SQL LIKE treats `_` as a wildcard, the routing index as a letter.
  `RoutingIndex.NeverLosesIff`: routing never loses an answer if and only if the query is shorter than three
  characters, contains `%`, has no `_` among its first three characters, or holds a character that is not ASCII
  (such a query matches no ASCII name).
- **Large PR numbers wrap around.** The comment of `EncodePRIDSet` says that they are clamped to the largest int32; the
  code truncates to 32 bits. `PRIdSet.LargeIdsWrap`: an id is stored as the comment says if and only if it is no larger
  than that, or happens to wrap around to it. The round trip holds if and only if all ids are below 2^32.
- **A negative age limit.** `TribalReverify.PassDrainsIff`: a pass takes what it asked about out of the eligible set
  if and only if it accepted nothing or the age limit is not negative.
- **Two clock reads.** A refresh stamps the document and then checks drift at a later time;
  `RefreshTool.RefreshQuietIff` gives the exact condition under which it reports nothing.
- **Quoted paths.** Unless told otherwise git writes a path with a character beyond ASCII, a control character, `"` or
  `\` in quotes, with escapes; the parsers take the quoted text as it stands. A name-status list reads back if and only if
  no path needs quotes and no file changed its type (`NameStatusRoundTrip.NameStatusRoundTripIff`), and what a run is told
  about two commits is right if and only if no path that changed or left needs quotes
  (`NameStatusRoundTrip.ReadDiffCorrectIff`; for the list of files of a first run, `NameStatusRoundTrip.ReadTreeCorrectIff`).
  The assumption of correct diffs below therefore fails for histories with such paths.
- **Diff headers.** `DiffRoundTrip.UnifiedRoundTripIff`: a diff reads back if and only if no file is a copy, none is a
  rename with a mode change, no path that is read needs quotes, and no path of another file contains ` b/`. One quoted path
  of a file that keeps its name and has no ` b/` in it fails the whole diff (`DiffRoundTrip.QuotedPathFailsAll`). Copies,
  and renames with a mode change, read as plain modifications (`DiffRoundTrip.StoppedHeaderReadsAsModified`).
- **A failed eviction over-reports.** `CacheStore.FailedEvictionCountsIff`: the count that a failing `Evict` returns is
  that of the rows it removed if and only if no delete failed and no scan failed after a row had been chosen
  (`CacheStore.FailedDeleteOverReports` is a failing input).
- **Dropped errors of the enricher.** An attempt that begins with at most two failure rows leaves at most two if and only if
  it does not fail to count two and then stores a third (`EnrichmentRuns.AttemptBoundedIff`). A failing symbol is routed in
  at most three runs, and in up to three more for every run in which a statement about it fails
  (`EnrichmentRuns.FailingSymbolRoutedAtMostThrice`).

## Model

| member | source | states |
|---|---|---|
| IncrementalSync.IncrementalRefinesFull | pipeline/pipeline.go:82-200 | Along any sequence of correct diffs (rename swaps included) whose runs meet no error on a file of the tree, removed importers or not, and read the listed files as the commit has them, with cache evictions in between, every file of the final tree has exactly the claims, in order, and the source-file row that one full run on empty stores gives; every path outside the tree cannot hit and its row, if any, is a tombstone |
| IncrementalSync.StepKeeps | pipeline/pipeline.go:251-356 | Hit, miss, skip and early failure keep the cross-store invariant (a live cache row implies that the stored claims are those of the hashed content); a step without error leaves its file up to date, a failing one changes nothing about that |
| IncrementalSync.FailedAfterPutBreaksIff | pipeline/pipeline.go:326-349 | A failure after the cache row is written keeps the invariant if and only if the claims were already in sync with the new content |
| IncrementalSync.RunSyncsIff | pipeline/pipeline.go:114-196 | Any run, stopped early or with errors, whatever it reads, leaves a file of the tree up to date if and only if it visited it without an error and read its content there, or did not visit it and found it up to date and did not tombstone it |
| IncrementalSync.RunMirrors | pipeline/pipeline.go:82-200 | What the store is up to date for after any run is computed from what it was up to date for and the record of the run alone |
| IncrementalSync.RunFromKnownSyncsIff | pipeline/pipeline.go:82-200 | Any run ends in sync with the tree if and only if every eligible file that it visited without an error had the content of the tree when read, and every other one was known with it and was not tombstoned |
| IncrementalSync.ResumeSyncsIff | pipeline/pipeline.go:82-200 | From a store that has the contents of one commit, a completed run over a diff from any other ends in sync if and only if every eligible file it listed is on disk as in the tree and every other one is so in that commit |
| IncrementalSync.RemovedImporterFails | pipeline/reversedep.go:70-111 | A completed run that is clean on the tree is free of errors if and only if every file outside the tree whose claims import what changed is generated |
| IncrementalSync.ErrorFreeIff | pipeline/pipeline.go:211-240 | A completed run that met no error on what it could read is free of errors if and only if every listed path that is not there is generated |
| IncrementalSync.PartialRunKeeps | pipeline/pipeline.go:159-164 | A cancelled run, or one with early errors, keeps the invariant and every up-to-date file that the diff does not change and that is not edited on disk |
| IncrementalSync.LosingHitsKeepsInv | cache/sqlite.go:105-246 | Tombstoning, reconciling and evicting rows, which only lose hits, keep the invariant |
| IncrementalSync.RunTombstones | pipeline/pipeline.go:114-119 | After a run without an error on the tree nothing outside the new tree can hit the cache or has a live source-file row |
| IncrementalSync.LeavingPathTombstoned | pipeline/pipeline.go:359-373 | An indexed file that leaves the tree keeps its source-file row, marked deleted |
| IncrementalSync.HistoryKeepsSync | pipeline/pipeline.go:82-200 | Invariant, synchronisation and tombstones are kept over any sequence of runs and cache losses |
| IncrementalSync.FaultlessRunSyncs | pipeline/pipeline.go:82-200 | When no statement fails and the extractors take every file, a run towards a commit that is checked out is complete, clean and ends in sync |
| Reextraction.ReextractionExactIff | db/claims.go:445-451 | In any store, extracting a file twice leaves the same claims as extracting the second content alone if and only if every claim of the first carries the deleting name and the relative path |
| Reextraction.OwnNameIsNotEnough | pipeline/pipeline.go:275-281 | A claim under another path survives the replacement, whatever name it carries |
| Reextraction.LocalModeKeepsOldClaims | pipeline/pipeline.go:259-264 | Without a file source, a claim stamped with the path the extractor was given survives every replacement, and the path assumption fails |
| Reextraction.NothingMissing | pipeline/pipeline.go:82-200 | For extractors that stamp foreign names or paths, along any history every claim of every file of the final tree is stored |
| Reextraction.NothingInvented | pipeline/pipeline.go:82-200 | Along any history every stored claim was there at first or was emitted for a content that a run extracted |
| Reextraction.RunLeavesIff | pipeline/pipeline.go:251-356 | After any run a claim is stored if and only if some step emitted it and no later step deleted it by name and path, or it was stored and no step deleted it |
| Reextraction.RunKeepsPresent | pipeline/pipeline.go:82-200 | One run keeps that, and that a live cache row implies that no claim of the hashed content is missing |
| Pipeline.Pipeline.Run | pipeline/pipeline.go:82-200 | The new state of cache and claims database is the fold of a recorded trace of possible outcomes, deletions first, then changed files, then reverse dependencies; the counters, stored claims, listed paths and the warning about an empty diff are those of that trace; a failing diff changes nothing |
| Pipeline.Pipeline.ProcessFile | pipeline/pipeline.go:211-356 | Hash, cache check, extraction from the path the mode gives, and the transaction: the outcome is one the environment allows, the stores change exactly as it says, and the count is that of the claims of the content |
| Pipeline.Pipeline.Replace | pipeline/pipeline.go:275-349 | The body of the transaction deletes by extractor and file, stores the completed claims, writes the cache row and the source-file row, in this order |
| Pipeline.Pipeline.StoreClaims | pipeline/pipeline.go:282-324 | Appends the extracted claims with empty repo and import path filled in, subjects resolved through the symbol table |
| Pipeline.Pipeline.MarkDeleted | pipeline/pipeline.go:359-373 | Tombstones in the cache and then in the claims database; a missing row is no error |
| Pipeline.TallyAccounts | pipeline/pipeline.go:114-196 | Every listed file is extracted, skipped, found in the cache or an error, each counted once; failed deletions are errors; an empty diff of two different commits is warned of |
| Pipeline.ClaimsStoredIsGrowth | pipeline/pipeline.go:282-324 | The claims that a run reports as stored are those by which the table grows, for files without claims |
| Extraction.PossibleIff | pipeline/pipeline.go:211-356 | The outcomes of a file that the relation allows are exactly those of some clock and some failing statements |
| Extraction.HitAfterStoreIff | pipeline/pipeline.go:231-256 | A stored file hits under another environment if and only if hash, extractor version and grammar version are the same: after an upgrade unchanged files miss |
| Extraction.ExpectedIsEmitted | pipeline/pipeline.go:282-324 | The claims of a content are the emitted ones, one by one, with empty repo and import path filled in |
| Extraction.StoredRows | pipeline/pipeline.go:326-349 | The columns of the two rows that an extraction writes; no other row is touched |
| Extraction.DeletedRows | pipeline/pipeline.go:359-373 | Deleting a path tombstones its two rows, if any, and touches no other row and no claim |
| Extraction.ChosenIff | pipeline/pipeline.go:231-247 | The deep extractor of the language if there is one, else the fast one; which files are eligible |
| ReverseDeps.ReverseDepPaths | pipeline/reversedep.go:18-111 | Exactly the distinct unchanged files with an import claim on an import path that a changed file defines |
| ReverseDeps.ImportersIff | pipeline/reversedep.go:18-111 | File by file: an unlisted file is an importer exactly when one of its claims imports the import path of what a changed file defines |
| GitDiff.ChangedPaths | gitdiff/gitdiff.go:282-290 | Exactly the paths of non-deleted changes |
| GitDiff.DeletedPaths | gitdiff/gitdiff.go:294-305 | Exactly the deleted paths and the old paths of renames |
| GitDiff.LinesName | gitdiff/gitdiff.go:282-305 | A run looks at exactly the paths that some line adds, edits, renames to or copies to, and tombstones exactly those that some line deletes or renames away |
| GitDiff.PlainDiffCorrect | gitdiff/gitdiff.go:50-66 | A diff whose lines hold of the two commits, by status letter and paths alone, and that has a line for every new, edited and gone path is a correct diff |
| DiffParser.ParseNameStatus | gitdiff/gitdiff.go:91-134 | The changes of the non-blank lines in order, or an error when one line is malformed |
| DiffGrammar.NamesFailIff | gitdiff/gitdiff.go:91-134 | A list is refused exactly when a line that is not blank is malformed; otherwise it has one change for each such line |
| DiffGrammar.PlainLineReads | gitdiff/gitdiff.go:100-115 | A line with A, M or D gives its first field, whatever follows |
| DiffGrammar.MovedLineReads | gitdiff/gitdiff.go:116-125 | A line with R or C and any score needs two fields, the old path and the new one |
| DiffGrammar.OtherLineFails | gitdiff/gitdiff.go:126-128 | Any other code is an error |
| DiffParser.ListAllFiles | gitdiff/gitdiff.go:72-86 | One added file for each non-blank line, in order |
| NameStatusRoundTrip.NameStatusRoundTripIff | gitdiff/gitdiff.go:88-134 | Reading a name-status list as git writes it, with either setting of the quoting of paths, gives its changes back if and only if no path needs quotes, no line is a type change, and only renames and copies have an old path |
| NameStatusRoundTrip.NameListReads | gitdiff/gitdiff.go:88-134 | What any such list reads as: the changes with their paths as written, or an error for a type change |
| NameStatusRoundTrip.ReadDiffCorrectIff | gitdiff/gitdiff.go:56-66 | The changes read for two commits describe them correctly if and only if no path that changed or left needs quotes |
| NameStatusRoundTrip.ReadTreeCorrectIff | gitdiff/gitdiff.go:68-86 | The files read for a first run are those of the commit if and only if none of their paths needs quotes |
| UnifiedDiff.ParseUnifiedDiff | gitdiff/gitdiff.go:142-185 | One change per file header, with the hunks that follow it; an error for a malformed header or hunk line |
| UnifiedDiff.ParseDiffHeader | gitdiff/gitdiff.go:190-237 | The change after its metadata lines, and the index just behind them |
| DiffGrammar.HunkIff | gitdiff/gitdiff.go:137-263 | A line is read as a hunk exactly when it is written as one, by the pattern of the header; every other line is malformed |
| DiffGrammar.HeaderIff | gitdiff/gitdiff.go:190-206 | A header names the path behind its last separator, and is malformed exactly without one or with fewer than three spaces |
| DiffGrammar.DiffFailsIff | gitdiff/gitdiff.go:142-185 | A text is refused exactly when some header is malformed, or some hunk behind a header is |
| DiffGrammar.ChangesAreHeaders | gitdiff/gitdiff.go:142-185 | A text that is accepted has one change for each header |
| DiffRoundTrip.UnifiedRoundTripIff | gitdiff/gitdiff.go:137-263 | Parsing the text of any diff that git writes with its usual prefixes -- quoted paths, any file modes, mode changes, binary notes, copies and arbitrary bodies included -- gives the same changes, hunks included, if and only if none is a copy, none a rename with a mode change, no path that is read needs quotes and no header hides its path |
| DiffRoundTrip.LinesRoundTripIff | gitdiff/gitdiff.go:142-237 | The same for the lines of the diff |
| DiffRoundTrip.QuotedPathFailsAll | gitdiff/gitdiff.go:196-200 | One file that keeps a path that needs quotes, without a separator in it, makes the whole diff an error |
| DiffRoundTrip.QuotedHeaderReads | gitdiff/gitdiff.go:190-201 | A quoted header names no path, or what follows the last separator of its path, escaped and with the closing quote |
| DiffRoundTrip.HunkRoundTrip | gitdiff/gitdiff.go:137-263 | Every printed hunk header reads back, whether or not a count of one is left out |
| DiffRoundTrip.StoppedHeaderReadsAsModified | gitdiff/gitdiff.go:210-236 | A copy, or a rename with a mode change, reads as a modification, with its hunks, of the path that the header names -- the new path unless it is quoted or holds a separator -- or fails with a header that names none |
| CacheStore.SQLiteStore.Hit | cache/sqlite.go:66-79 | True exactly for a live row with the same hash, extractor version and grammar version |
| CacheStore.PutHitsIff | cache/sqlite.go:66-101 | After a Put the key hits for exactly the stamp that was put, hash and both versions, and every other key as before |
| CacheStore.ReconciledHitsIff | cache/sqlite.go:117-160 | Reconciling keeps exactly the hits of other repositories and of listed paths |
| CacheStore.NeedsExtractionIff | cache/sqlite.go:117-160 | A listed path is reported exactly when it hits for its hash under no versions at all |
| CacheStore.SQLiteStore.Put | cache/sqlite.go:82-101 | Inserts or replaces the row and clears its tombstone; evicts nothing |
| CacheStore.PutWithinCapIff | cache/cache.go:27-29 | After a Put the table is within the cap, as the interface promises, if and only if the old total without the replaced row and with the new size is |
| CacheStore.SQLiteStore.Reconcile | cache/sqlite.go:117-160 | Tombstones the live rows whose path is not listed and reports exactly the listed paths that are new or changed; a partial failure only loses hits |
| CacheStore.SQLiteStore.Evict | cache/sqlite.go:164-232 | Removes the shortest prefix of (tombstones, then live rows, each oldest first) that brings the total within the cap; a failing statement leaves some front of that order removed; the returned count is that of the removed rows if and only if no delete failed and no scan did after a row had been chosen |
| CacheStore.EvictionOrdered | cache/sqlite.go:164-232 | Eviction ends within a non-negative cap, removes as many rows as it reports, takes no live row while a tombstone remains and none younger than a live row it keeps |
| CacheStore.EvictionMinimal | cache/sqlite.go:164-232 | Eviction takes no row more than it must: with the last one back the table is over the cap |
| CacheStore.FailedEvictionCountsIff | cache/sqlite.go:164-232 | A failed eviction only loses hits, over-reports by exactly the rows that were chosen and not deleted, and so counts right if and only if there are none |
| CacheStore.FailedDeleteOverReports | cache/sqlite.go:195-199 | A failing input: the delete of the only row, a tombstone, fails, and one row is reported |
| ClaimsStore.ClaimsDB.UpsertSymbol | db/claims.go:314-341 | The id of the composite key, old or fresh; no stored claim changes its subject |
| ClaimsStore.ClaimsDB.InsertClaim | db/claims.go:344-359 | Appends one claim about the subject with that id |
| ClaimsStore.ClaimsDB.DeleteClaimsByExtractorAndFile | db/claims.go:445-451 | Drops exactly the claims with that extractor and file, seen through the symbol table |
| ClaimsStore.ClaimsDB.Commit | db/claims.go:124-142 | A failing commit leaves the state before the transaction |
| Watcher.WatcherSoundness | watch/watcher.go:197-249 | Over any run of polls, restarts, lost saves, force-pushes and evictions whose runs meet no error on the tree, read listed files as HEAD has them and retry what they must, the persisted SHA is empty or one whose run completed, and after each successful check every file at HEAD is in sync |
| Watcher.WatcherExact | watch/watcher.go:197-249 | Over any run at all, with per-file errors, edits on disk, cancelled runs, lost saves and any movement of HEAD, the files at HEAD are up to date after a check if and only if every eligible one has the content that a run read when it last visited it without an error and none has tombstoned it since |
| Watcher.PollSyncsIff | watch/watcher.go:197-249 | The exact condition for one poll, with or without a run, in terms of the contents the store has and those on disk |
| Watcher.ResumedPollSyncsIff | watch/watcher.go:208-231 | Resuming from any SHA ends in sync if and only if every eligible file that the run lists is on disk as in HEAD, and every other one is so in the commit the store is in sync with |
| Watcher.PollKeepsSound | watch/watcher.go:197-249 | One poll keeps that invariant, incremental or after a force-push fallback to the empty tree |
| Watcher.RestartListsAll | watch/watcher.go:208-221 | After a force push, and on a first poll, every file of the commit is listed |
| Watcher.FastForwardListsChanges | watch/watcher.go:208-221 | A HEAD that descends from the last SHA lists what changed since then and its importers, no more |
| Watcher.LostSaveThenRevert | watch/watcher.go:203-205 | After a lost save and a restart, a HEAD that returns to the persisted SHA is reported as unchanged, and the files are up to date if and only if both commits have the same eligible files |
| Watcher.LostSaveThenSameContent | watch/watcher.go:238-246 | If a new commit has the persisted content instead, the diff is empty and an error-free run leaves a file out of date |
| Watcher.ErrorThenQuiet | watch/watcher.go:228-246 | A run with an error on a file advances the SHA; every later check at that HEAD succeeds without a run and the file stays out of date |
| Watcher.EditThenQuiet | pipeline/pipeline.go:220-227 | A run without errors that reads an uncommitted edit stores that, and the file stays out of date with HEAD through later checks |
| Watcher.MissedThenQuiet | watch/watcher.go:203-246 | Any file that a completed run leaves out of date stays so: every later check at that HEAD succeeds without a run |
| Watcher.Watcher.Check | watch/watcher.go:197-249 | One cycle: no change, ancestor test, run, SHA in memory, save; the SHA advances even when files had errors, and other repositories keep theirs |
| Watcher.State.Save | watch/state.go:56-89 | The file holds the SHAs in memory after success and the old content after a failure |
| DBPool.DBPool.Open | mcpserver/dbpool.go:93-149 | A valid cached handle is promoted, a stale one is closed and reopened, a full pool first closes its least recently used handle; what is returned is open |
| DBPool.OpenKnown | mcpserver/dbpool.go:93-149 | An open repo keeps its handle if and only if its file is not newer; otherwise that handle is closed and a new one, with the time of the file, takes its place if it opens |
| DBPool.OpenUnknown | mcpserver/dbpool.go:93-171 | Opening another repo closes exactly the least recent handle of a full pool, even if the file then does not open |
| DBPool.ValidNameIff | mcpserver/dbpool.go:73-87 | A valid name is not empty and holds neither a slash nor two dots in a row |
| DBPool.DBPool.EvictLRU | mcpserver/dbpool.go:162-171 | Closes the handle at the back of a full list, so that there is room for one more |
| DBPool.OpenKeepsSound | mcpserver/dbpool.go:93-171 | Opened minus closed equals the length of the list, at most the limit; repos are distinct, the open handles are exactly those listed, none is closed twice |
| DBPool.CallsKeepSound | mcpserver/dbpool.go:93-171 | The same after any sequence of opens, failing ones included |
| DBPool.Survival | mcpserver/dbpool.go:93-171 | An entry whose file is not newer stays with its handle while fewer than the limit distinct other repos are asked for |
| DBPool.OpenedRepoSurvives | mcpserver/dbpool.go:93-171 | Reopening a repo after such calls returns the handle of the first open |
| DBPool.DBPool.Close | mcpserver/dbpool.go:212-227 | Closes every open handle once and empties list and map |
| DBPool.DBPool.Len | mcpserver/dbpool.go:239-243 | Map size, list length and open handles agree and stay within the limit |
| TtlLru.BoundedCache.Get | mcpserver/staleness.go:59-76 | A fresh entry is returned and promoted, an expired one dropped; map and list stay in bijection |
| TtlLru.BoundedCache.Put | mcpserver/staleness.go:79-108 | An existing key is replaced and promoted, a new one may evict the oldest; map and list stay in bijection and bounded |
| TtlLru.GotIff | mcpserver/staleness.go:59-76 | A lookup answers exactly with a stored value that is younger than its time to live |
| TtlLru.StoredThenGot | mcpserver/staleness.go:59-108 | A stored value is answered until it expires, no other entry changes, and only the least recent one of a full cache goes |
| TtlLru.StoredSurvives | mcpserver/staleness.go:59-108 | A stored value is still returned within its time to live while fewer than the maximum distinct other keys are used |
| LivenessProbe.EveryInterleaving | drift/tribal.go:202-279 | Under every interleaving of callers, runner invocations never exceed a positive budget, map and list agree and stay bounded, and every answer that reports something was said by a runner result less than 24 hours old |
| LivenessProbe.StepKeepsInv | drift/tribal.go:202-279 | Each critical section of any caller keeps that invariant |
| LivenessProbe.LivenessCache.CheckSourceRefLive | drift/tribal.go:202-260 | One uninterrupted call: a hit, a spent budget or a missing runner costs no invocation, a not-found is cached as gone, any other error is not cached |
| LivenessProbe.ProbeAnswers | drift/tribal.go:202-260 | With budget left a reference that is not cached costs one call; not found is gone, found is there with its hash, both answered for 24 hours; an error is not cached; without a runner nothing is said |
| LivenessProbe.NoProbeAnswers | drift/tribal.go:202-232 | A fresh cached answer, or a spent budget, costs nothing; the latter says nothing |
| LivenessProbe.AloneIsSteps | drift/tribal.go:202-279 | A call that is not interrupted is the run of one caller's steps in the system of all callers |
| TribalDrift.CheckTribalWithLiveness | drift/tribal.go:57-101 | Each fact up to where the pass got moves exactly as its subject, its evidence hashes and the probes say, the others stay, nothing but statuses changes, and the counts are the facts that moved; a failing statement ends the pass |
| TribalDrift.PRCommentLivenessChanged | drift/tribal.go:119-136 | True exactly when some probe of a PR comment contradicts the fact |
| TribalDrift.NextStatusIff | drift/tribal.go:57-136 | When a checked fact is quarantined and when it is stale, by its symbol, the hashes of its evidence and what is said of its PR comments |
| TribalDrift.PassMovesIff | drift/tribal.go:57-101 | What a pass does to each fact by its own evidence, subject and answers; only its status can change |
| TribalDrift.GoneCommentStales | drift/tribal.go:57-260 | A fact whose PR comment the runner does not find goes stale |
| TribalDrift.ProbeCountsIff | drift/tribal.go:119-260 | A probe that is made counts against a fact if and only if the source is not found or has another, known hash |
| TribalDrift.EvidenceCount | drift/tribal.go:66-100 | Exactly the evidence rows of the fact are looked at, each as often as it is stored |
| TribalDrift.MovedCounts | drift/tribal.go:57-101 | The counts of a pass are the numbers of facts that moved |
| TribalDrift.StaleNeedsReport | drift/tribal.go:57-260 | Under any interleaving of callers of the liveness cache, the pass makes an active fact with matching hashes stale only if a runner result less than 24 hours old about one of its sources reported it gone or different |
| TribalDrift.AnswerJustified | drift/tribal.go:202-260 | Every answer a caller got in an interleaving, unless an error or fail-open, is backed by a report in every later state |
| TribalStore.TribalDB.UpsertTribalFact | db/tribal_upsert.go:37-136 | Inserts or merges in one transaction, returns the fact of that cluster and whether it was merged; rejected or failing calls change nothing |
| TribalStore.UpsertsReflectCalls | db/tribal_upsert.go:37-168 | After any calls there is exactly one fact per cluster, with the fields of its first call, the union of the references of its calls, and corroboration equal to the first value plus the number of later calls that brought something new |
| TribalStore.UpsertAppends | db/tribal_upsert.go:37-168 | An upsert only adds evidence rows, under the fact of its cluster, each one that it was given; a new fact gets all of them in order |
| TribalStore.CorroborationBounded | db/tribal_upsert.go:141-168 | Corroboration grows by at most the number of new distinct references |
| TribalStore.RefsOrderFree | db/tribal_upsert.go:37-168 | For the same calls in any order the store has the same clusters, and each has the same stored references |
| TribalReverify.ReverifyTribal | drift/tribal_reverify.go:55-114 | Asks about exactly min(eligible, positive sample size, positive budget) facts, the oldest ones, each once, settles exactly those, and reports exhaustion exactly when the sample is longer than a positive budget; a failing verifier or statement ends it early with what was settled so far |
| TribalReverify.PassTouchesOnly | drift/tribal_reverify.go:55-114 | Facts asked about are active, model-written and older than the limit; accepting renews, downgrading takes the confidence to three fifths, rejecting makes stale, and nothing else changes |
| TribalReverify.CallsIff | drift/tribal_reverify.go:55-114 | A pass makes as many calls as there are eligible facts, a positive sample size or a positive budget, whichever is least |
| TribalReverify.UnlimitedPassAsksAll | drift/tribal_reverify.go:55-114 | Without limits it asks about every active, model-written fact older than the age limit |
| TribalReverify.TalliesAddUp | drift/tribal_reverify.go:80-114 | Every fact asked about is counted once |
| TribalReverify.PassDrainsIff | drift/tribal_reverify.go:55-114 | Without downgrades a pass removes exactly the facts it asked about from the eligible set if and only if it accepted none or the age limit is not negative |
| TribalReverify.PassesDrain | drift/tribal_reverify.go:55-114 | At a fixed clock the eligible count falls by the number of calls each pass |
| TribalReverify.PassesEmptyThePool | drift/tribal_reverify.go:55-114 | As many passes as there are eligible facts leave none |
| TribalReverify.GetActiveLLMFactsOlderThan | db/tribal.go:419-432 | Exactly the active LLM facts older than the cutoff, oldest first |
| EvergreenStore.DocumentStore.Save | evergreen/sqlite_store.go:156-217 | One transaction: capture the overwritten pair, prune, upsert; a failure or an empty id changes nothing |
| EvergreenStore.DocumentStore.CaptureRevision | evergreen/sqlite_store.go:222-279 | The overwritten answer and manifest are stored under the next number, and what is older than the cap is pruned |
| EvergreenStore.BoundedHistoryRefines | evergreen/sqlite_store.go:156-360 | After any mix of saves, status updates and deletes, with caps that may differ, the stored revisions are a contiguous suffix of the pairs overwritten since creation or the last delete, numbered up to the last |
| EvergreenStore.RevisionsAreSaves | evergreen/sqlite_store.go:156-360 | The document is the last one saved, with its last status, and revision n holds the answer and manifest of the n-th save since creation, never the current ones |
| EvergreenStore.OneCapKeepsLast | evergreen/sqlite_store.go:256-279 | With one cap exactly the last min(n - 1, cap) pairs are kept |
| EvergreenStore.OverwrittenCountsSaves | evergreen/sqlite_store.go:156-217 | The unbounded history has one pair for each save but the first since creation |
| EvergreenStore.DocumentStore.Delete | evergreen/sqlite_store.go:328-341 | Removes the document and all its revisions, or reports that it does not exist |
| Detector.Detect | evergreen/detector.go:47-83 | The stable severity sort of one optional finding per entry and at most one age finding, or the reader's error |
| Detector.FindingsIff | evergreen/detector.go:47-231 | The findings are exactly what the citations say -- moved signature, moved body, gone or replaced symbol, empty location -- each citation once, and one cold finding for a document that is too old; it fails exactly when a citation cannot be read |
| Detector.FindingsInOrder | evergreen/detector.go:235-254 | Findings come most severe first, and within a severity in the order of the manifest |
| Detector.OnlyAgeIff | evergreen/detector.go:47-83 | Without a claims reader only the age is looked at |
| Detector.StableSortUnique | evergreen/detector.go:235-254 | Sorted by severity with the order inside each severity kept determines the result |
| Detector.SortFindings | evergreen/detector.go:235-254 | The in-place sort computes that stable order |
| Detector.ErasingRemovesExactly | evergreen/detector.go:123-254 | Erasing both render hashes of any set of entries removes exactly their hot and warm findings and keeps all others in order |
| Detector.NoFindingsIff | evergreen/detector.go:47-231 | Without location-only entries nothing is found if and only if the document is not too old and every precise entry matches the claims |
| RefreshTool.RefreshTool.Handle | evergreen/mcptools.go:202-252 | The guards in order, with the limiter and executor calls they cost; only a successful run reaches the store, as a save that keeps the old answer, and the reported findings are those of the new document |
| RefreshTool.RefreshedIff | evergreen/mcptools.go:202-252 | A document is refreshed exactly when it is there, is not an unacknowledged orphan and every party allows it; which reply the other calls get |
| RefreshTool.RefreshKeeps | evergreen/mcptools.go:225-240 | Answer, manifest and external id are replaced, an empty backend is not, and all else is as it was |
| RefreshTool.RefreshKeepsOldAnswer | evergreen/mcptools.go:225-245 | After a refresh the overwritten answer is the newest revision, numbered by the saves before it |
| RefreshTool.RefreshQuietIff | evergreen/mcptools.go:202-252 | Right after a refresh there are no findings if and only if every precise entry matches and the two clock reads are within the age limit |
| Enricher.Enricher.Run | sourcegraph/enrich.go:115-240 | The store after a run is the fold of its symbols, at most a batch, and the calls of a budgeted run stay within the budget; a dry run changes nothing |
| Enricher.Enricher.EnrichOne | sourcegraph/enrich.go:181-232 | One symbol: route every predicate until the budget is spent, then clear tombstones on success or escalate them when all calls failed |
| Enricher.Enricher.EnrichNext | sourcegraph/enrich.go:169-232 | Skips a symbol that the cache answers and enriches any other, within the budget |
| Enricher.Enricher.InsertOrEscalateTombstone | sourcegraph/enrich.go:442-495 | Two failure rows become one permanent row, otherwise a failure row is added; a count that fails is zero, and the errors of the other statements are dropped |
| EnrichmentRuns.AttemptBoundedIff | sourcegraph/enrich.go:438-480 | An attempt on a symbol with at most two failure rows leaves at most two if and only if it does not fail to count two of them and store a third |
| EnrichmentRuns.NeverMoreThanTwo | sourcegraph/enrich.go:442-483 | From a store without failure rows no symbol ever has more than two, over runs that can count them |
| EnrichmentRuns.FailingSymbolRoutedAtMostThrice | sourcegraph/enrich.go:161-240 | With a fixed hash and no force, an always-failing symbol is routed in at most three of any number of runs, and in at most three more for each run in which a statement about it fails |
| EnrichmentRuns.EnrichingMakesHit | sourcegraph/enrich.go:411-437 | Storing something for a non-empty hash makes the symbol a cache hit, whatever fails afterwards, and leaves exactly the tombstones whose removal fails |
| EnrichmentRuns.NewClaimsIff | sourcegraph/enrich.go:181-224 | An attempt stores one claim for each usable context, the i-th under the i-th predicate, with the confidence of what it mentions, and no other |
| EnrichmentRuns.SkipsIff | sourcegraph/enrich.go:173-179 | A symbol is skipped exactly when the run is not forced and reads an own claim of the current hash that is semantic or a permanent tombstone |
| EnrichmentRuns.SourceFileIff | sourcegraph/enrich.go:388-404 | File and hash of a symbol are those of its first claim with a file |
| EnrichmentRuns.CallsForIff | sourcegraph/enrich.go:166-190 | An attempt makes exactly the calls before which the budget is not spent |
| EnrichmentRuns.OneSymbolCounts | sourcegraph/enrich.go:171-232 | A symbol is counted as skipped, or with its calls and as enriched exactly when a context of it was stored; the claims of others stay |
| EnrichmentRuns.EscalatedRow | sourcegraph/enrich.go:442-471 | The columns of the row that a failed attempt adds |
| EnrichmentRuns.DefaultsIff | sourcegraph/enrich.go:119-122 | Without predicates the four default ones are asked |
| EnrichmentRuns.OtherHashStaysMiss | sourcegraph/enrich.go:411-437 | No attempt makes a symbol a hit under another hash than the one that it read |
| EnrichmentRuns.HitCostsNothing | sourcegraph/enrich.go:176-190 | A symbol that hits costs no call in any later unforced run that can read its claims, and keeps them |
| EnrichmentRuns.EnrichedOnceCostsNothing | sourcegraph/enrich.go:161-240 | A symbol of a known file, once enriched in some run, costs no call in any later unforced run that can read its claims while the hash stays |
| EnrichmentQueue.QueueConserves | sourcegraph/queue.go:84-176 | Under every interleaving, the paths of the accepted batches are, as a set, those in the channel, in the accumulated set or handed to a batch; the guard never rejects; a non-empty accumulated set has its timer armed or fired |
| EnrichmentQueue.EverySendDelivered | sourcegraph/queue.go:84-176 | Every path of every single accepted batch, sent before or not, is still in the channel or the accumulated set, or was in a batch handed to processing after that very send |
| EnrichmentQueue.Debounced | sourcegraph/queue.go:103-142 | Between any receive and a later tick the timer that it armed has run out: a batch starts only after a quiet period |
| EnrichmentQueue.BatchIsReceived | sourcegraph/queue.go:103-142 | A batch is everything received since the tick before, each path once, and nothing else |
| EnrichmentQueue.TicksAnswerReceives | sourcegraph/queue.go:95-142 | Every tick but the first answers a receive after the one before, and an expiry makes a tick possible |
| EnrichmentQueue.HandedIsBatches | sourcegraph/queue.go:103-142 | What was handed over are exactly the batches |
| EnrichmentQueue.BatchesFinish | sourcegraph/queue.go:147-176 | A batch that was let in runs to its end and touches neither channel nor accumulated set nor timer |
| EnrichmentQueue.DropsCounted | sourcegraph/queue.go:84-93 | Exactly the sends that found the channel full are dropped |
| EnrichmentQueue.CancelIsFinal | sourcegraph/queue.go:104-108 | Once cancelled the loop takes nothing more and its timer is stopped |
| EnrichmentQueue.StepMovesOn | sourcegraph/queue.go:103-142 | One step keeps a path on its way or hands it over |
| EnrichmentQueue.HandedBatchEnters | sourcegraph/queue.go:147-158 | A batch that was handed over runs |
| EnrichmentQueue.StepKeepsInv | sourcegraph/queue.go:84-176 | Each send and each case of the event loop keeps the invariant behind it |
| EnrichmentQueue.SentIsAccepted | sourcegraph/queue.go:84-93 | The set of accepted paths is that of the sends that returned true |
| EnrichmentQueue.EnrichmentQueue.TrySend | sourcegraph/queue.go:84-93 | Non-blocking: succeeds exactly when the channel has room |
| EnrichmentQueue.EnrichmentQueue.EnterBatch | sourcegraph/queue.go:147-158 | The in-flight guard lets the batch in whenever the invariant holds |
| EnrichmentQueue.ResolveSymbolIDs | sourcegraph/queue.go:179-197 | Exactly the ids found under some path, each once; failing lookups are skipped |
| RoutingIndex.RoutingIndex.Build | mcpserver/routing.go:35-72 | Maps each three-letter prefix to exactly the readable repos that have it, and lists all repos sorted |
| RoutingIndex.RoutingIndex.Lookup | mcpserver/routing.go:77-100 | All repos for short or wildcard queries, otherwise exactly those with the query's prefix, sorted |
| RoutingIndex.SearchMultiRepo | mcpserver/tools_search.go:110-184 | Whatever order the repos finish in and whichever of them fail, the page holds the first results by repo and name among all matches of the repos that answer, and the total counts all of them |
| RoutingIndex.AllFoundCount | mcpserver/tools_search.go:110-184 | A search finds every row of every repo that answers, as often as it is stored, if LIKE selects it, and nothing else |
| RoutingIndex.FoundCount | db/claims.go:728-753 | The same for one repository |
| RoutingIndex.LikeLetters | db/claims.go:728-734 | A pattern without a percent sign matches letter by letter, ASCII case aside, an underscore any one |
| RoutingIndex.LikeRun | db/claims.go:728-734 | A percent sign stands for any run of characters in front of a match of the rest |
| RoutingIndex.LikeFront | db/claims.go:728-734 | The letters in front of it match the front of the text |
| RoutingIndex.SearchSymbols | mcpserver/tools_search.go:38-68 | Candidates first, then the search: for complete queries over a complete index the page and total are those of all repos that answer |
| RoutingIndex.RoutingLosesNothing | mcpserver/routing.go:77-100 | For complete queries the candidates give the same multiset of LIKE matches as all repos, whichever of them answer |
| RoutingIndex.NeverLosesIff | mcpserver/routing.go:77-100 | Routing never loses an answer if and only if the query is short, has a percent sign, has no underscore among its first three characters, or is not ASCII |
| RoutingIndex.PageUnique | mcpserver/tools_search.go:152-169 | What was found determines the page, up to the order of matches with equal repo and name |
| StringOrder.LeqIff | mcpserver/tools_search.go:152-169 | The order of the page: a string comes before another if it is a beginning of it, or smaller at the first place they differ |
| AnchorIndex.Index.BuildFromClaims | anchor/anchor.go:101-116 | One verified anchor per claim, filed under its file, clipped at line one or whole-file |
| AnchorIndex.Index.Invalidate | anchor/anchor.go:126-156 | The index becomes the fold of the marks of the changes, and exactly the anchors whose status changed are reported, in order |
| AnchorIndex.EditStalesIff | anchor/anchor.go:101-203 | A modified file stales a claim if and only if some old line of some hunk, or new line of a hunk without old ones, is within the radius of the line of the claim |
| AnchorIndex.WholeFileVerdict | anchor/anchor.go:126-174 | Without hunks or without a line any change of the file stales the claim; a deletion invalidates it |
| AnchorIndex.OtherFileVerdict | anchor/anchor.go:126-174 | A rename stales the claims of the old path; changes of other files leave a claim alone |
| AnchorIndex.AnchorStays | anchor/anchor.go:101-203 | Whatever happens, an anchor keeps the id, file and lines of its claim |
| AnchorIndex.OverlapsIff | anchor/anchor.go:55-66 | An anchor overlaps a range if it is (0, 0) or they share a line |
| AnchorIndex.ApplyMarksIsFold | anchor/anchor.go:126-203 | The in-place changes act on each anchor separately |
| AnchorIndex.OverlapIsDistance | anchor/anchor.go:61-66 | The overlap test says that some line of the hunk is within the radius, exactly for hunks with a line and a radius that is not negative; for others it can only find more |
| AnchorIndex.FinalIsVerdict | anchor/anchor.go:101-203 | The final status of a fresh anchor is decided by the last change that hits its claim, by path and reach |
| AnchorIndex.IndexHoldsOutcome | anchor/anchor.go:101-203 | A built and invalidated index holds exactly one anchor per claim, with that verdict |
| AnchorIndex.SummaryAccountsForAll | anchor/anchor.go:232-273 | The counts and the stale ids account for every claim |
| AnchorIndex.ReportByVerdict | anchor/anchor.go:206-273 | The summary counts the claims by their verdicts, and the stale ids list each claim that is stale or invalid once |
| AnchorIndex.MovedIff | anchor/anchor.go:160-203 | A mark reports exactly the anchors that it touches and that had another status, with the new one |
| AnchorIndex.MovedCount | anchor/anchor.go:160-203 | Each of them once |
| AnchorIndex.Index.GetSummary | anchor/anchor.go:257-273 | The counts over all anchors, whatever order the map yields |
| AnchorIndex.Index.StaleClaimIDs | anchor/anchor.go:232-240 | The sorted ids of all anchors that are not verified |
| AnchorIndex.WiderRadiusHitsMore | anchor/anchor.go:101-116 | The non-verified claims grow with the radius |
| AnchorIndex.HunksMarkNoMore | anchor/anchor.go:160-203 | What hunk-level marking marks, file-level marking marks too |
| ScipSymbol.ParseSymbol | scip/symbol.go:82-113 | The index-based parser computes the grammar's parse, errors included |
| ScipGrammar.ParsesIff | scip/symbol.go:82-290 | The parser accepts exactly the texts of the grammar -- four fields without spaces, then names, quoted or not to be mistaken, each with a suffix -- and reads the one symbol that each spells |
| ScipSymbol.RoundTripIff | scip/symbol.go:64-113 | Parsing a printed symbol gives it back if and only if no header field has a space and all suffixes are the four defined ones, whatever the descriptor names |
| ScipSymbol.FormatInjective | scip/symbol.go:64-79 | Printing is injective on those symbols |
| ScipSymbol.ParseIsStable | scip/symbol.go:64-113 | Printing what was parsed and parsing again gives the same symbol |
| ScipSymbol.FormatGoSymbol | scip/symbol.go:118-154 | The text parses back to module, version, the segments of the relative path, owner and name if and only if module and version have no space |
| ScipSymbol.GoSymbolText | scip/symbol.go:118-167 | The text of a Go symbol: scheme, manager, module, version, the segments of the path under the module, the owner of a method and the name with the mark of its kind |
| ScipSymbol.RelPathOf | scip/symbol.go:127-129 | The path of a package under its module, and of one outside it |
| ScipSymbol.PrintedAsIsIff | scip/symbol.go:169-187 | A name is printed as it is exactly when it has none of the special characters, otherwise in backticks |
| ScipSymbol.SegmentsSpell | scip/symbol.go:127-136 | The namespaces of a path are the only list of segments that spells it |
| PRIdSet.EncodePRIDSet | db/pr_id_set.go:20-49 | Filter, sort, in-place dedupe and words give the encoding of the canonical list |
| PRIdSet.Dedupe | db/pr_id_set.go:33-43 | In place, a sorted array becomes the strictly increasing list of its members |
| PRIdSet.DecodePRIDSet | db/pr_id_set.go:54-67 | The words of the blob, or an error when its length is not a multiple of four |
| PRIdSet.RoundTripIff | db/pr_id_set.go:20-67 | Decoding an encoding gives the strictly increasing distinct non-negative ids if and only if all ids are below 2^32 |
| PRIdSet.SameMembersSameBytes | db/pr_id_set.go:20-49 | Lists with the same non-negative members encode to the same bytes; below 2^32 also conversely |
| PRIdSet.LengthIsFourPerMember | db/pr_id_set.go:45-48 | Four bytes for each distinct non-negative id |
| PRIdSet.ReencodesIff | db/pr_id_set.go:20-67 | A blob of words re-encodes to itself if and only if its words strictly increase |
| PRIdSet.LargeIdsWrap | db/pr_id_set.go:16-19 | Any id is stored as the same word as the id it wraps around to; it is clamped to the largest int32, as the comment says, if and only if it is no larger or wraps around to that |

## Left out

- IncrementalSync.IncrementalRefinesFull: compares claims by subject key and body, not by row id or timestamp of verification, since a re-run gives fresh ones; assumes an extractor that is a function of path and content and stamps its own name and the relative path (see above; NothingMissing drops the stamps); runs with errors on the tree or edits on disk are covered by RunSyncsIff and WatcherExact.
- IncrementalSync.RunTombstones: says nothing about the claims of removed files, since the code keeps them; a removed path that is still on disk and is listed as an importer is indexed again, and is excluded.
- Watcher.WatcherSoundness: asks that runs meet no error on the tree, that listed files are on disk as in HEAD, and that a SHA that is only good for a retry is retried; WatcherExact and PollSyncsIff give the exact conditions without this.
- Watcher.WatcherExact: asks that no file fails after its cache row was written; FailedAfterPutBreaksIff says what such a failure does.
- Watcher.Watcher.Check: what is on disk does not change during one run, so hash and extraction see the same content.
- UnifiedDiff.ParseUnifiedDiff: numbers in hunk headers are unbounded; overflow of the integer conversion is not modelled.
- RoutingIndex.RoutingLosesNothing: names are ASCII, as SQL LIKE folds case only there.
- RoutingIndex.SearchSymbols: the multi-repo mode; the single-repo mode is one query of one database.
- Enricher.Enricher.Run: starts from the selected and ranked symbols.
- LivenessProbe.LivenessCache.CheckSourceRefLive: states one call without interference; interleaved calls are the transition system of EveryInterleaving.
- SQL text, drivers, pragmas, connection pools and schema migrations: each statement is a contract instead; foreign keys are on for the evergreen store.
- Extractors, tree-sitter, go/packages, the SCIP protobuf import, the LLM and Sourcegraph clients and the content hash: parameters of the model.
- Batch reading of files before a run: it changes where content comes from, not what is done with it.
- The writers that bypass the pipeline (re-extraction in the staleness checker and in the init command): they update claims without the pipeline's cache.
- Tombstoning after a force-push full run: the code does none, so nothing is stated.
- Symbol selection and ranking of the enricher.
- Row iterations that the driver ends early without an error that the code looks at, as in the eviction queries.
- Extractors that read other files than the one they are given, as the Go deep extractor does: they are no function of path and content.
- The deep-extraction callback of the watcher (cmd/livedocs/watch_cmd.go:246-261): it stores claims into the same database without deleting any, outside pipeline and cache.
- Poll intervals, debounce durations and overflow of durations: only the order of events is modelled.
- MarkVerified, QueryByStatus and ForFile of the anchor index, List of the evergreen store, the status tool: readers or single updates.
- Bytes and UTF-8: strings are sequences of characters, except in the PR-id format and in the escapes of quoted paths.
- Settings of git that change the prefixes or the kind of its diffs.
- MCP and HTTP transport, command line, badge worker, telemetry, rendering, clustering calibration, configuration defaults.
