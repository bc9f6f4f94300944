/** Drift detection for evergreen documents (evergreen/detector.go). */
module Detector {
  import opened Basics
  import opened EvergreenStore

  const DAY := 24 * 60 * 60

  /** The zero time of LastRefreshedAt. */
  const NEVER := 0

  datatype Severity = OrphanedSeverity | HotSeverity | WarmSeverity | ColdSeverity

  datatype ChangeKind = SignatureChange | BodyChange | DeletedChange | RenamedChange | AgeChange

  /** `entry` is the index of the citation in the manifest, None for a document-scoped finding. */
  datatype Finding = Finding(entry: Option<nat>, severity: Severity, kind: ChangeKind, was: string, current: string)

  datatype SymbolAnswer = Symbol(contentHash: string, signatureHash: string) | NoSymbol | SymbolFails

  datatype LocationAnswer = SymbolAt(id: int) | NothingThere | LocationFails

  datatype ClaimsReader = ClaimsReader(getSymbol: (string, int) -> SymbolAnswer,
                                       resolve: (string, string, int, int) -> LocationAnswer)

  function At(claims: ClaimsReader, e: ManifestEntry): LocationAnswer {
    claims.resolve(e.repo, e.filePath, e.lineStart, e.lineEnd)
  }

  predicate Differs(was: string, current: string) { was != "" && current != "" && was != current }

  /** A symbol that is gone was renamed if another one now lives where it was cited. */
  function ClassifyMissing(e: ManifestEntry, i: nat, claims: ClaimsReader): Finding {
    var renamed := e.filePath != "" && e.lineStart != 0 && At(claims, e).SymbolAt? &&
      e.symbolId != Some(At(claims, e).id);
    Finding(Some(i), OrphanedSeverity, if renamed then RenamedChange else DeletedChange, "", "")
  }

  function ClassifyEntry(e: ManifestEntry, i: nat, claims: ClaimsReader): Result<Option<Finding>> {
    if e.fuzzy then Ok(None)
    else if e.symbolId.Some? then
      match claims.getSymbol(e.repo, e.symbolId.value)
      case SymbolFails => Err
      case NoSymbol => Ok(Some(ClassifyMissing(e, i, claims)))
      case Symbol(content, signature) =>
        if Differs(e.signatureHash, signature) then
          Ok(Some(Finding(Some(i), HotSeverity, SignatureChange, e.signatureHash, signature)))
        else if Differs(e.contentHash, content) then
          Ok(Some(Finding(Some(i), WarmSeverity, BodyChange, e.contentHash, content)))
        else Ok(None)
    else if e.filePath != "" && e.lineStart > 0 then
      match At(claims, e)
      case LocationFails => Err
      case NothingThere => Ok(Some(Finding(Some(i), OrphanedSeverity, DeletedChange, "", "")))
      case SymbolAt(_) => Ok(None)
    else Ok(None)
  }

  predicate Aged(d: Document, now: int) {
    d.maxAgeDays > 0 && d.lastRefreshedAt != NEVER && now - d.lastRefreshedAt > d.maxAgeDays * DAY
  }

  function ClassifyAge(d: Document, now: int): seq<Finding> {
    if Aged(d, now) then [Finding(None, ColdSeverity, AgeChange, "", "")] else []
  }

  /** The findings of the first `n` entries, in manifest order. */
  function EntryFindings(m: seq<ManifestEntry>, n: nat, claims: ClaimsReader): Result<seq<Finding>>
    requires n <= |m|
  {
    if n == 0 then Ok([])
    else
      match EntryFindings(m, n - 1, claims)
      case Err => Err
      case Ok(fs) =>
        match ClassifyEntry(m[n - 1], n - 1, claims)
        case Err => Err
        case Ok(None) => Ok(fs)
        case Ok(Some(f)) => Ok(fs + [f])
  }

  // ----- stable sort by severity

  function Rank(s: Severity): nat {
    match s
    case OrphanedSeverity => 0
    case HotSeverity => 1
    case WarmSeverity => 2
    case ColdSeverity => 3
  }

  function WithRank(fs: seq<Finding>, r: nat): seq<Finding> {
    if fs == [] then []
    else WithRank(fs[..|fs| - 1], r) + if Rank(fs[|fs| - 1].severity) == r then [fs[|fs| - 1]] else []
  }

  /** Most severe first; within one severity, the order they came in. */
  function BySeverity(fs: seq<Finding>): seq<Finding> {
    WithRank(fs, 0) + WithRank(fs, 1) + WithRank(fs, 2) + WithRank(fs, 3)
  }

  ghost predicate SortedByRank(fs: seq<Finding>) {
    forall i, j :: 0 <= i < j < |fs| ==> Rank(fs[i].severity) <= Rank(fs[j].severity)
  }

  /** Same findings of each severity, in the same order. */
  ghost predicate SameRanks(a: seq<Finding>, b: seq<Finding>) {
    forall r: nat :: WithRank(a, r) == WithRank(b, r)
  }

  lemma {:induction false} WithRankAppend(a: seq<Finding>, b: seq<Finding>, r: nat)
    ensures WithRank(a + b, r) == WithRank(a, r) + WithRank(b, r)
  {
    if b == [] {
      assert a + b == a;
    } else {
      assert (a + b)[..|a + b| - 1] == a + b[..|b| - 1];
      WithRankAppend(a, b[..|b| - 1], r);
    }
  }

  lemma {:induction false} WithRankUniform(fs: seq<Finding>, r: nat)
    ensures (forall f :: f in fs ==> Rank(f.severity) == r) ==> WithRank(fs, r) == fs
    ensures (forall f :: f in fs ==> Rank(f.severity) != r) ==> WithRank(fs, r) == []
  {
    if fs != [] {
      WithRankUniform(fs[..|fs| - 1], r);
      assert forall f :: f in fs <==> f in fs[..|fs| - 1] || f == fs[|fs| - 1];
      assert fs == fs[..|fs| - 1] + [fs[|fs| - 1]];
    }
  }

  lemma WithRankSnoc(front: seq<Finding>, last: Finding, r: nat)
    ensures WithRank(front + [last], r) == WithRank(front, r) + if Rank(last.severity) == r then [last] else []
  {
    assert (front + [last])[..|front + [last]| - 1] == front;
  }

  lemma NothingAfter(front: seq<Finding>, last: Finding, r: nat)
    requires SortedByRank(front + [last]) && r > Rank(last.severity)
    ensures WithRank(front, r) == []
  {
    var fs := front + [last];
    forall f | f in front ensures Rank(f.severity) != r {
      var i :| 0 <= i < |front| && front[i] == f;
      assert fs[i] == f && fs[|front|] == last;
    }
    WithRankUniform(front, r);
  }

  /** Appending a least severe finding appends it to the stable order. */
  lemma BySeveritySnoc(front: seq<Finding>, last: Finding)
    requires SortedByRank(front + [last])
    ensures BySeverity(front + [last]) == BySeverity(front) + [last]
  {
    var k := Rank(last.severity);
    forall r: nat | r < 4 ensures WithRank(front + [last], r) == WithRank(front, r) + if k == r then [last] else [] {
      WithRankSnoc(front, last, r);
    }
    forall r: nat | k < r ensures WithRank(front, r) == [] { NothingAfter(front, last, r); }
    LastOfFour(WithRank(front, 0), WithRank(front, 1), WithRank(front, 2), WithRank(front, 3), last, k);
  }

  lemma LastOfFour(a: seq<Finding>, b: seq<Finding>, c: seq<Finding>, d: seq<Finding>, x: Finding, k: nat)
    requires k < 4 && (k < 1 ==> b == []) && (k < 2 ==> c == []) && (k < 3 ==> d == [])
    ensures (a + if k == 0 then [x] else []) + (b + if k == 1 then [x] else []) + (c + if k == 2 then [x] else []) +
      (d + if k == 3 then [x] else [])
            == a + b + c + d + [x]
  {}

  /** There is only one stable sort: a sorted list is its own severities in order. */
  lemma {:induction false} SortedIsBySeverity(fs: seq<Finding>)
    requires SortedByRank(fs)
    ensures fs == BySeverity(fs)
  {
    if fs != [] {
      var front, last := fs[..|fs| - 1], fs[|fs| - 1];
      assert fs == front + [last];
      SortedIsBySeverity(front);
      BySeveritySnoc(front, last);
    }
  }

  lemma StableSortUnique(fs: seq<Finding>, sorted: seq<Finding>)
    requires SortedByRank(sorted) && SameRanks(fs, sorted)
    ensures sorted == BySeverity(fs)
  {
    SortedIsBySeverity(sorted);
    assert WithRank(fs, 0) == WithRank(sorted, 0) && WithRank(fs, 1) == WithRank(sorted, 1)
        && WithRank(fs, 2) == WithRank(sorted, 2) && WithRank(fs, 3) == WithRank(sorted, 3);
  }

  /** Where a finding goes behind everything that is at least as severe. */
  method InsertStable(sorted: seq<Finding>, f: Finding) returns (r: seq<Finding>)
    requires SortedByRank(sorted)
    ensures SortedByRank(r) && SameRanks(sorted + [f], r)
  {
    var i := |sorted|;
    while i > 0 && Rank(sorted[i - 1].severity) > Rank(f.severity)
      invariant 0 <= i <= |sorted|
      invariant forall k :: i <= k < |sorted| ==> Rank(sorted[k].severity) > Rank(f.severity)
    {
      i := i - 1;
    }
    r := sorted[..i] + [f] + sorted[i..];
    InsertionKeepsOrder(sorted, f, i);
    InsertionIsStable(sorted, f, i);
  }

  lemma InsertionKeepsRank(a: seq<Finding>, b: seq<Finding>, f: Finding, k: nat)
    requires forall g :: g in b ==> Rank(g.severity) > Rank(f.severity)
    ensures WithRank(a + b + [f], k) == WithRank(a + [f] + b, k)
  {
    WithRankSnoc(a + b, f, k);
    WithRankAppend(a, b, k);
    WithRankAppend(a + [f], b, k);
    WithRankSnoc(a, f, k);
    WithRankUniform(b, k);
    var x, y := WithRank(a, k), WithRank(b, k);
    if k == Rank(f.severity) {
      assert y == [] && x + [] == x && x + [f] + [] == x + [f];
    } else {
      assert x + [] == x && (x + y) + [] == x + y;
    }
  }

  lemma InsertionIsStable(sorted: seq<Finding>, f: Finding, i: nat)
    requires i <= |sorted| && forall k :: i <= k < |sorted| ==> Rank(sorted[k].severity) > Rank(f.severity)
    ensures SameRanks(sorted + [f], sorted[..i] + [f] + sorted[i..])
  {
    assert sorted == sorted[..i] + sorted[i..];
    forall k: nat ensures WithRank(sorted + [f], k) == WithRank(sorted[..i] + [f] + sorted[i..], k) {
      InsertionKeepsRank(sorted[..i], sorted[i..], f, k);
    }
  }

  lemma InsertionKeepsOrder(sorted: seq<Finding>, f: Finding, i: nat)
    requires SortedByRank(sorted) && i <= |sorted|
    requires i > 0 ==> Rank(sorted[i - 1].severity) <= Rank(f.severity)
    requires forall k :: i <= k < |sorted| ==> Rank(sorted[k].severity) > Rank(f.severity)
    ensures SortedByRank(sorted[..i] + [f] + sorted[i..])
  {
    var r := sorted[..i] + [f] + sorted[i..];
    forall j | 0 <= j < |r| ensures r[j] == if j < i then sorted[j] else if j == i then f else sorted[j - 1] {}
    forall k | 0 <= k < i ensures Rank(sorted[k].severity) <= Rank(f.severity) {}
  }

  method SortFindings(fs: seq<Finding>) returns (sorted: seq<Finding>)
    ensures sorted == BySeverity(fs)
  {
    sorted := [];
    for i := 0 to |fs|
      invariant SortedByRank(sorted) && SameRanks(fs[..i], sorted)
    {
      ghost var before := sorted;
      sorted := InsertStable(sorted, fs[i]);
      assert fs[..i + 1] == fs[..i] + [fs[i]];
      forall k: nat ensures WithRank(fs[..i + 1], k) == WithRank(sorted, k) {
        WithRankAppend(fs[..i], [fs[i]], k);
        WithRankAppend(before, [fs[i]], k);
        assert WithRank(fs[..i], k) == WithRank(before, k);
      }
    }
    assert fs[..|fs|] == fs;
    StableSortUnique(fs, sorted);
  }

  // ----- the detector

  function Detected(d: Document, claims: Option<ClaimsReader>, now: int): Result<seq<Finding>> {
    var entries := if claims.Some? then EntryFindings(d.manifest, |d.manifest|, claims.value) else Ok([]);
    if entries.Err? then Err else Ok(BySeverity(entries.value + ClassifyAge(d, now)))
  }

  method Detect(d: Document, claims: Option<ClaimsReader>, now: int) returns (r: Result<seq<Finding>>)
    ensures r == Detected(d, claims, now)
  {
    var findings := [];
    if claims.Some? {
      for i := 0 to |d.manifest|
        invariant EntryFindings(d.manifest, i, claims.value) == Ok(findings)
      {
        var f := ClassifyEntry(d.manifest[i], i, claims.value);
        if f.Err? {
          ErrorsPropagate(d.manifest, i + 1, claims.value);
          return Err;
        }
        if f.value.Some? { findings := findings + [f.value.value]; }
      }
    }
    if Aged(d, now) { findings := findings + [Finding(None, ColdSeverity, AgeChange, "", "")]; }
    assert findings + [] == findings;
    var sorted := SortFindings(findings);
    r := Ok(sorted);
  }

  lemma {:induction false} ErrorsPropagate(m: seq<ManifestEntry>, n: nat, claims: ClaimsReader)
    requires n <= |m| && EntryFindings(m, n, claims).Err?
    ensures EntryFindings(m, |m|, claims).Err?
    decreases |m| - n
  {
    if n < |m| { ErrorsPropagate(m, n + 1, claims); }
  }

  // ----- erasing hashes

  function Erased(m: seq<ManifestEntry>, erased: set<nat>): (r: seq<ManifestEntry>)
    ensures |r| == |m|
  {
    seq(|m|, i requires 0 <= i < |m| => if i in erased then m[i].(contentHash := "", signatureHash := "") else m[i])
  }

  predicate NeedsHash(f: Finding, erased: set<nat>) {
    f.entry.Some? && f.entry.value in erased && (f.severity == HotSeverity || f.severity == WarmSeverity)
  }

  function WithoutHashed(fs: seq<Finding>, erased: set<nat>): seq<Finding> {
    if fs == [] then []
    else WithoutHashed(fs[..|fs| - 1], erased) + if NeedsHash(fs[|fs| - 1], erased) then [] else [fs[|fs| - 1]]
  }

  lemma {:induction false} WithoutHashedAppend(a: seq<Finding>, b: seq<Finding>, w: set<nat>)
    ensures WithoutHashed(a + b, w) == WithoutHashed(a, w) + WithoutHashed(b, w)
  {
    if b == [] {
      assert a + b == a;
    } else {
      assert (a + b)[..|a + b| - 1] == a + b[..|b| - 1];
      WithoutHashedAppend(a, b[..|b| - 1], w);
    }
  }

  lemma {:induction false} WithRankWithoutHashed(fs: seq<Finding>, w: set<nat>, r: nat)
    ensures WithRank(WithoutHashed(fs, w), r) == WithoutHashed(WithRank(fs, r), w)
  {
    if fs != [] {
      var front, last := fs[..|fs| - 1], fs[|fs| - 1];
      WithRankWithoutHashed(front, w, r);
      WithRankAppend(WithoutHashed(front, w), if NeedsHash(last, w) then [] else [last], r);
      WithoutHashedAppend(WithRank(front, r), if Rank(last.severity) == r then [last] else [], w);
    }
  }

  lemma ErasedEntry(m: seq<ManifestEntry>, i: nat, claims: ClaimsReader, w: set<nat>)
    requires i < |m|
    ensures ClassifyEntry(Erased(m, w)[i], i, claims) ==
            match ClassifyEntry(m[i], i, claims)
            case Err => Err
            case Ok(None) => Ok(None)
            case Ok(Some(f)) => if NeedsHash(f, w) then Ok(None) else Ok(Some(f))
  {
  }

  lemma {:induction false} ErasedEntries(m: seq<ManifestEntry>, n: nat, claims: ClaimsReader, w: set<nat>)
    requires n <= |m|
    ensures EntryFindings(Erased(m, w), n, claims) ==
            match EntryFindings(m, n, claims)
            case Err => Err
            case Ok(fs) => Ok(WithoutHashed(fs, w))
  {
    if n > 0 {
      ErasedEntries(m, n - 1, claims, w);
      ErasedEntry(m, n - 1, claims, w);
      var fs := EntryFindings(m, n - 1, claims);
      var c := ClassifyEntry(m[n - 1], n - 1, claims);
      if fs.Ok? && c.Ok? && c.value.Some? {
        var f := c.value.value;
        assert (fs.value + [f])[..|fs.value|] == fs.value;
        assert WithoutHashed(fs.value, w) + [] == WithoutHashed(fs.value, w);
      }
    }
  }

  /**
   Losing both render hashes of some entries removes exactly their hot and warm findings and keeps
   every other finding, in the same order.
   */
  lemma ErasingRemovesExactly(d: Document, claims: Option<ClaimsReader>, now: int, w: set<nat>)
    ensures Detected(d.(manifest := Erased(d.manifest, w)), claims, now) ==
            match Detected(d, claims, now)
            case Err => Err
            case Ok(fs) => Ok(WithoutHashed(fs, w))
  {
    if claims.Some? { ErasedEntries(d.manifest, |d.manifest|, claims.value, w); }
    var entries := if claims.Some? then EntryFindings(d.manifest, |d.manifest|, claims.value) else Ok([]);
    if entries.Ok? {
      var all := entries.value + ClassifyAge(d, now);
      WithoutHashedAppend(entries.value, ClassifyAge(d, now), w);
      assert WithoutHashed(ClassifyAge(d, now), w) == ClassifyAge(d, now);
      forall r: nat { WithRankWithoutHashed(all, w, r); }
      WithoutHashedAppend(WithRank(all, 0), WithRank(all, 1), w);
      WithoutHashedAppend(WithRank(all, 0) + WithRank(all, 1), WithRank(all, 2), w);
      WithoutHashedAppend(WithRank(all, 0) + WithRank(all, 1) + WithRank(all, 2), WithRank(all, 3), w);
    }
  }

  // ----- when there is nothing to find

  /** A precise entry shows no drift exactly when its symbol is there and no known hash moved. */
  predicate Matches(e: ManifestEntry, claims: ClaimsReader)
    requires e.symbolId.Some?
  {
    var s := claims.getSymbol(e.repo, e.symbolId.value);
    s.Symbol? && !Differs(e.signatureHash, s.signatureHash) && !Differs(e.contentHash, s.contentHash)
  }

  predicate Precise(e: ManifestEntry) { !e.fuzzy && e.symbolId.Some? }

  predicate LocationOnly(e: ManifestEntry) { !e.fuzzy && e.symbolId.None? && e.filePath != "" && e.lineStart > 0 }

  lemma {:induction false} EntriesQuietIff(m: seq<ManifestEntry>, n: nat, claims: ClaimsReader)
    requires n <= |m| && forall e :: e in m ==> !LocationOnly(e)
    ensures EntryFindings(m, n, claims) == Ok([]) <==>
            forall i :: 0 <= i < n && Precise(m[i]) ==> Matches(m[i], claims)
  {
    if n > 0 {
      assert m[n - 1] in m;
      EntriesQuietIff(m, n - 1, claims);
    }
  }

  lemma BySeverityEmptyIff(fs: seq<Finding>)
    ensures BySeverity(fs) == [] <==> fs == []
  {
    if fs != [] {
      var last := fs[|fs| - 1];
      assert last in WithRank(fs, Rank(last.severity));
      assert last in BySeverity(fs);
    }
  }

  /**
   A manifest without location-only entries has no findings exactly when every precise entry
   matches the claims and the document is not too old.
   */
  lemma NoFindingsIff(d: Document, claims: ClaimsReader, now: int)
    requires forall e :: e in d.manifest ==> !LocationOnly(e)
    ensures Detected(d, Some(claims), now) == Ok([]) <==>
            !Aged(d, now) && forall i :: 0 <= i < |d.manifest| && Precise(d.manifest[i]) ==>
              Matches(d.manifest[i], claims)
  {
    EntriesQuietIff(d.manifest, |d.manifest|, claims);
    var entries := EntryFindings(d.manifest, |d.manifest|, claims);
    if entries.Ok? { BySeverityEmptyIff(entries.value + ClassifyAge(d, now)); }
  }

  // ----- what each finding says, in terms of the citation and the claims

  predicate SignatureMoved(e: ManifestEntry, s: SymbolAnswer) {
    s.Symbol? && e.signatureHash != "" && s.signatureHash != "" && e.signatureHash != s.signatureHash
  }

  predicate BodyMoved(e: ManifestEntry, s: SymbolAnswer) {
    s.Symbol? && e.contentHash != "" && s.contentHash != "" && e.contentHash != s.contentHash
  }

  /** Another symbol than the cited one lives at a known location. */
  ghost predicate ReplacedAt(e: ManifestEntry, claims: ClaimsReader) {
    && e.filePath != "" && e.lineStart != 0
    && exists id :: claims.resolve(e.repo, e.filePath, e.lineStart, e.lineEnd) == SymbolAt(id) && Some(id) != e.symbolId
  }

  /** What a drifting citation says, by severity. */
  ghost predicate Says(e: ManifestEntry, claims: ClaimsReader, f: Finding) {
    && !e.fuzzy
    && match f.severity
       case HotSeverity =>
         && e.symbolId.Some? && SignatureMoved(e, claims.getSymbol(e.repo, e.symbolId.value))
         && f.kind == SignatureChange && f.was == e.signatureHash
         && f.current == claims.getSymbol(e.repo, e.symbolId.value).signatureHash
       case WarmSeverity =>
         && e.symbolId.Some? && BodyMoved(e, claims.getSymbol(e.repo, e.symbolId.value))
         && !SignatureMoved(e, claims.getSymbol(e.repo, e.symbolId.value))
         && f.kind == BodyChange && f.was == e.contentHash
         && f.current == claims.getSymbol(e.repo, e.symbolId.value).contentHash
       case OrphanedSeverity =>
         && f.was == "" && f.current == ""
         && (if e.symbolId.Some? then
               && claims.getSymbol(e.repo, e.symbolId.value).NoSymbol?
               && f.kind == (if ReplacedAt(e, claims) then RenamedChange else DeletedChange)
             else
               && e.filePath != "" && e.lineStart > 0 && f.kind == DeletedChange
               && claims.resolve(e.repo, e.filePath, e.lineStart, e.lineEnd).NothingThere?)
       case ColdSeverity => false
  }

  /** The reader fails where the detector cannot do without it. */
  ghost predicate Unreadable(e: ManifestEntry, claims: ClaimsReader) {
    && !e.fuzzy
    && (if e.symbolId.Some? then claims.getSymbol(e.repo, e.symbolId.value).SymbolFails?
        else
          && e.filePath != "" && e.lineStart > 0
          && claims.resolve(e.repo, e.filePath, e.lineStart, e.lineEnd).LocationFails?)
  }

  lemma EntrySays(e: ManifestEntry, i: nat, claims: ClaimsReader)
    ensures ClassifyEntry(e, i, claims).Err? <==> Unreadable(e, claims)
    ensures ClassifyEntry(e, i, claims).Ok? ==> forall f: Finding ::
      ClassifyEntry(e, i, claims).value == Some(f) <==> f.entry == Some(i) && Says(e, claims, f)
  {
  }

  /** Entries come in order, each with at most one finding. */
  ghost predicate ByEntry(fs: seq<Finding>) {
    && (forall k :: 0 <= k < |fs| ==> fs[k].entry.Some?)
    && forall k, l :: 0 <= k < l < |fs| ==> fs[k].entry.value < fs[l].entry.value
  }

  /** The finding is about one of the first `n` entries, which says so. */
  ghost predicate SaidBy(m: seq<ManifestEntry>, n: nat, claims: ClaimsReader, f: Finding)
    requires n <= |m|
  {
    f.entry.Some? && f.entry.value < n && Says(m[f.entry.value], claims, f)
  }

  lemma {:induction false} EntriesFailIff(m: seq<ManifestEntry>, n: nat, claims: ClaimsReader)
    requires n <= |m|
    ensures EntryFindings(m, n, claims).Err? <==> exists i :: 0 <= i < n && Unreadable(m[i], claims)
  {
    if n > 0 {
      EntriesFailIff(m, n - 1, claims);
      EntrySays(m[n - 1], n - 1, claims);
    }
  }

  lemma {:induction false} EntriesSay(m: seq<ManifestEntry>, n: nat, claims: ClaimsReader)
    requires n <= |m|
    ensures EntryFindings(m, n, claims).Ok? ==>
      && ByEntry(EntryFindings(m, n, claims).value)
      && forall f: Finding :: f in EntryFindings(m, n, claims).value <==> SaidBy(m, n, claims, f)
  {
    if n > 0 {
      EntriesSay(m, n - 1, claims);
      EntrySays(m[n - 1], n - 1, claims);
      var before, c := EntryFindings(m, n - 1, claims), ClassifyEntry(m[n - 1], n - 1, claims);
      if before.Ok? && c.Ok? {
        OneEntryMore(m, n, claims, before.value, c.value);
      }
    }
  }

  lemma OneEntryMore(m: seq<ManifestEntry>, n: nat, claims: ClaimsReader, before: seq<Finding>, c: Option<Finding>)
    requires 0 < n <= |m| && ByEntry(before)
    requires forall f: Finding :: f in before <==> SaidBy(m, n - 1, claims, f)
    requires forall f: Finding :: c == Some(f) <==> f.entry == Some(n - 1) && Says(m[n - 1], claims, f)
    ensures var fs := if c.Some? then before + [c.value] else before;
      ByEntry(fs) && forall f: Finding :: f in fs <==> SaidBy(m, n, claims, f)
  {
    var fs := if c.Some? then before + [c.value] else before;
    forall k | 0 <= k < |before| ensures before[k].entry.value < n - 1 { assert before[k] in before; }
    forall f: Finding ensures f in fs <==> SaidBy(m, n, claims, f) {
      assert f in fs <==> f in before || c == Some(f);
    }
  }

  lemma {:induction false} SortedMultiset(fs: seq<Finding>)
    ensures multiset(BySeverity(fs)) == multiset(fs)
  {
    if fs != [] {
      var front, last := fs[..|fs| - 1], fs[|fs| - 1];
      SortedMultiset(front);
      assert fs == front + [last];
      var k := Rank(last.severity);
      forall r: nat ensures WithRank(fs, r) == WithRank(front, r) + if r == k then [last] else [] {
        WithRankSnoc(front, last, r);
      }
      RankMultiset(WithRank(front, 0), WithRank(front, 1), WithRank(front, 2), WithRank(front, 3), last, k);
    }
  }

  lemma RankMultiset(a: seq<Finding>, b: seq<Finding>, c: seq<Finding>, d: seq<Finding>, x: Finding, k: nat)
    requires k < 4
    ensures multiset((a + if 0 == k then [x] else []) + (b + if 1 == k then [x] else []) +
                     (c + if 2 == k then [x] else []) + (d + if 3 == k then [x] else []))
            == multiset(a + b + c + d) + multiset{x}
  {
  }

  /** The document is too old: it has an age limit in days and a refresh time, and the limit has passed. */
  predicate TooOld(d: Document, now: int) {
    d.maxAgeDays > 0 && d.lastRefreshedAt != 0 && now > d.lastRefreshedAt + 86400 * d.maxAgeDays
  }

  /** The one finding about the age. */
  function Cold(): Finding { Finding(None, ColdSeverity, AgeChange, "", "") }

  lemma AgeSays(d: Document, now: int)
    ensures ClassifyAge(d, now) == if TooOld(d, now) then [Cold()] else []
  {
  }

  /**
   The findings of a document are exactly what its citations say, each citation at most once, and one cold
   finding if it is too old, without any entry; the detector fails exactly when a citation cannot be read.
   */
  lemma FindingsIff(d: Document, claims: ClaimsReader, now: int)
    ensures Detected(d, Some(claims), now).Err? <==>
      exists i :: 0 <= i < |d.manifest| && Unreadable(d.manifest[i], claims)
    ensures Detected(d, Some(claims), now).Ok? ==> forall f: Finding ::
      multiset(Detected(d, Some(claims), now).value)[f] ==
        if SaidBy(d.manifest, |d.manifest|, claims, f) || (f == Cold() && TooOld(d, now)) then 1 else 0
  {
    var entries := EntryFindings(d.manifest, |d.manifest|, claims);
    EntriesFailIff(d.manifest, |d.manifest|, claims);
    EntriesSay(d.manifest, |d.manifest|, claims);
    if entries.Ok? {
      SortedMultiset(entries.value + ClassifyAge(d, now));
      forall f: Finding
        ensures multiset(entries.value + ClassifyAge(d, now))[f] ==
          if SaidBy(d.manifest, |d.manifest|, claims, f) || (f == Cold() && TooOld(d, now)) then 1 else 0
      {
        OnceEach(entries.value, f);
        AgeSays(d, now);
      }
    }
  }

  lemma {:induction false} OnceEach(fs: seq<Finding>, f: Finding)
    requires ByEntry(fs)
    ensures multiset(fs)[f] == if f in fs then 1 else 0
  {
    if fs != [] {
      var front, last := fs[..|fs| - 1], fs[|fs| - 1];
      assert fs == front + [last];
      OnceEach(front, f);
      forall k | 0 <= k < |front| ensures front[k] != last { assert fs[k].entry.value < last.entry.value; }
    }
  }

  /** Without a claims reader only the age is looked at. */
  lemma OnlyAgeIff(d: Document, now: int)
    ensures Detected(d, None, now) == Ok(if TooOld(d, now) then [Cold()] else [])
  {
    AgeSays(d, now);
    SortedIsBySeverity(ClassifyAge(d, now));
    assert [] + ClassifyAge(d, now) == ClassifyAge(d, now);
  }

  // ----- in what order

  /** More severe, or as severe and about an earlier entry. */
  predicate Before(a: Finding, b: Finding) {
    match a.severity
    case OrphanedSeverity => b.severity != OrphanedSeverity || EarlierEntry(a, b)
    case HotSeverity => b.severity in {WarmSeverity, ColdSeverity} || (b.severity == HotSeverity && EarlierEntry(a, b))
    case WarmSeverity => b.severity == ColdSeverity || (b.severity == WarmSeverity && EarlierEntry(a, b))
    case ColdSeverity => false
  }

  predicate EarlierEntry(a: Finding, b: Finding) {
    a.entry.Some? && b.entry.Some? && a.entry.value < b.entry.value
  }

  ghost predicate InOrder(fs: seq<Finding>) { forall i, j :: 0 <= i < j < |fs| ==> Before(fs[i], fs[j]) }

  lemma InOrderConcat(a: seq<Finding>, b: seq<Finding>)
    requires InOrder(a) && InOrder(b) && forall x, y :: x in a && y in b ==> Before(x, y)
    ensures InOrder(a + b)
  {
  }

  lemma {:induction false} RankInOrder(fs: seq<Finding>, s: Severity)
    requires ByEntry(fs) && s != ColdSeverity
    ensures InOrder(WithRank(fs, Rank(s))) && forall f :: f in WithRank(fs, Rank(s)) ==> f in fs && f.severity == s
  {
    if fs != [] {
      var front, last := fs[..|fs| - 1], fs[|fs| - 1];
      assert fs == front + [last];
      RankInOrder(front, s);
      forall x | x in front ensures EarlierEntry(x, last) {
        var k :| 0 <= k < |front| && front[k] == x;
        assert fs[k] == x;
      }
      if Rank(last.severity) == Rank(s) { InOrderConcat(WithRank(front, Rank(s)), [last]); }
    }
  }

  lemma {:induction false} NoneCold(fs: seq<Finding>)
    requires forall f :: f in fs ==> f.severity != ColdSeverity
    ensures WithRank(fs, 3) == []
  {
    WithRankUniform(fs, 3);
  }

  lemma SortedInOrder(entries: seq<Finding>, age: seq<Finding>)
    requires ByEntry(entries) && forall f :: f in entries ==> f.severity != ColdSeverity
    requires |age| <= 1 && forall f :: f in age ==> f.severity == ColdSeverity
    ensures InOrder(BySeverity(entries + age))
  {
    var a, b, c := WithRank(entries, 0), WithRank(entries, 1), WithRank(entries, 2);
    NoneCold(entries);
    RankInOrder(entries, OrphanedSeverity);
    RankInOrder(entries, HotSeverity);
    RankInOrder(entries, WarmSeverity);
    FourInOrder(a, b, c, age);
    WithAge(entries, age, 0);
    WithAge(entries, age, 1);
    WithAge(entries, age, 2);
    WithRankAppend(entries, age, 3);
    WithRankUniform(age, 3);
    assert [] + age == age;
  }

  lemma WithAge(entries: seq<Finding>, age: seq<Finding>, r: nat)
    requires r < 3 && forall f :: f in age ==> f.severity == ColdSeverity
    ensures WithRank(entries + age, r) == WithRank(entries, r)
  {
    WithRankAppend(entries, age, r);
    WithRankUniform(age, r);
    assert WithRank(entries, r) + [] == WithRank(entries, r);
  }

  /** Findings come most severe first, and within a severity in the order of the manifest. */
  lemma FindingsInOrder(d: Document, claims: ClaimsReader, now: int)
    requires Detected(d, Some(claims), now).Ok?
    ensures InOrder(Detected(d, Some(claims), now).value)
  {
    EntriesSay(d.manifest, |d.manifest|, claims);
    AgeSays(d, now);
    SortedInOrder(EntryFindings(d.manifest, |d.manifest|, claims).value, ClassifyAge(d, now));
  }

  lemma FourInOrder(a: seq<Finding>, b: seq<Finding>, c: seq<Finding>, age: seq<Finding>)
    requires InOrder(a) && InOrder(b) && InOrder(c) && |age| <= 1
    requires forall f :: f in a ==> f.severity == OrphanedSeverity
    requires forall f :: f in b ==> f.severity == HotSeverity
    requires forall f :: f in c ==> f.severity == WarmSeverity
    requires forall f :: f in age ==> f.severity == ColdSeverity
    ensures InOrder(a + b + c + age)
  {
    InOrderConcat(a, b);
    InOrderConcat(a + b, c);
    InOrderConcat(a + b + c, age);
  }
}
