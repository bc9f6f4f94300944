/** The drift pass over tribal facts (drift/tribal.go). */
module TribalDrift {
  import opened Basics
  import opened TribalStore
  import opened LivenessProbe
  import opened TtlLru

  const PR_COMMENT := "pr_comment"

  /** A fact's evidence rows, in order. */
  function EvidenceOf(evidence: seq<Evidence>, id: nat): seq<Support> {
    if evidence == [] then []
    else EvidenceOf(evidence[..|evidence| - 1], id)
         + (if evidence[|evidence| - 1].factId == id then [evidence[|evidence| - 1].support] else [])
  }

  predicate HashesDiffer(f: Fact, evs: seq<Support>) {
    exists e :: e in evs && e.contentHash != f.stalenessHash
  }

  /** An answer that counts against a fact; errors and fail-open answers never do. */
  predicate Contradicts(a: Answer, stalenessHash: string) {
    a.Said? && (!a.verdict.live || (a.verdict.hash != "" && a.verdict.hash != stalenessHash))
  }

  predicate Probed(e: Support) { e.sourceType == PR_COMMENT && e.ref != "" }

  /** `answers(i)` is what the checker says when asked about the i-th evidence row. */
  predicate ProbesContradict(f: Fact, evs: seq<Support>, answers: nat -> Answer) {
    exists i: nat :: i < |evs| && Probed(evs[i]) && Contradicts(answers(i), f.stalenessHash)
  }

  predicate Changed(f: Fact, evs: seq<Support>, checker: Option<nat -> Answer>) {
    HashesDiffer(f, evs) || (checker.Some? && ProbesContradict(f, evs, checker.value))
  }

  function NextStatus(f: Fact, evs: seq<Support>, symbolExists: bool, checker: Option<nat -> Answer>): Status {
    if f.status != Active && f.status != Stale then f.status
    else if !symbolExists then Quarantined
    else if f.status == Active && Changed(f, evs, checker) then Stale
    else f.status
  }

  // ----- what moves a fact

  lemma {:induction false} EvidenceAppend(a: seq<Evidence>, b: seq<Evidence>, id: nat)
    ensures EvidenceOf(a + b, id) == EvidenceOf(a, id) + EvidenceOf(b, id)
  {
    if b == [] {
      assert a + b == a;
    } else {
      assert (a + b)[..|a + b| - 1] == a + b[..|b| - 1];
      EvidenceAppend(a, b[..|b| - 1], id);
    }
  }

  /** Every row of the fact counts, as often as it is stored, and no row of another. */
  lemma {:induction false} EvidenceCount(evidence: seq<Evidence>, id: nat, s: Support)
    ensures multiset(EvidenceOf(evidence, id))[s] == multiset(evidence)[Evidence(id, s)]
  {
    if evidence != [] {
      var front, last := evidence[..|evidence| - 1], evidence[|evidence| - 1];
      EvidenceCount(front, id, s);
      assert evidence == front + [last];
    }
  }

  /** A PR comment with a reference whose source the checker says is gone, or has another hash than the fact. */
  ghost predicate CommentContradicts(f: Fact, evs: seq<Support>, answers: nat -> Answer) {
    exists i: nat ::
      && i < |evs| && evs[i].sourceType == "pr_comment" && evs[i].ref != "" && answers(i).Said?
      && (answers(i).verdict.live ==> answers(i).verdict.hash !in {"", f.stalenessHash})
  }

  /**
   Where a checked fact ends: quarantined when its symbol is gone and it was active or stale; stale when it was
   active, its symbol is there, and its evidence or a PR comment speaks against it; as it was otherwise.
   */
  lemma NextStatusIff(f: Fact, evs: seq<Support>, symbolExists: bool, checker: Option<nat -> Answer>)
    ensures var to := NextStatus(f, evs, symbolExists, checker);
      && (to == Quarantined <==> f.status == Quarantined || (f.status in {Active, Stale} && !symbolExists))
      && (to == Stale <==>
            && f.status in {Active, Stale} && symbolExists
            && (f.status == Active ==>
                  || (exists i :: 0 <= i < |evs| && evs[i].contentHash != f.stalenessHash)
                  || (checker.Some? && CommentContradicts(f, evs, checker.value))))
      && (to != f.status ==> to in {Stale, Quarantined})
  {
    if checker.Some? {
      forall i: nat | i < |evs|
        ensures Probed(evs[i]) && Contradicts(checker.value(i), f.stalenessHash) <==>
          && evs[i].sourceType == "pr_comment" && evs[i].ref != "" && checker.value(i).Said?
          && (checker.value(i).verdict.live ==> checker.value(i).verdict.hash !in {"", f.stalenessHash})
      {
      }
    }
    if e :| e in evs && e.contentHash != f.stalenessHash {
      var i :| 0 <= i < |evs| && evs[i] == e;
    }
  }

  /**
   One probe of a source that is not cached, with budget left, counts against a fact if and only if the runner
   does not find the source or finds it with another, known hash.
   */
  lemma ProbeCountsIff(c: Cache<Verdict>, calls: nat, budget: int, ref: string, lookupAt: int, outcome: RunnerOutcome,
      at: int, stalenessHash: string)
    requires Got(c, ref, lookupAt, TTL).1.None? && (budget > 0 ==> calls < budget)
    ensures Contradicts(AloneEffect(c, calls, budget, ref, lookupAt, outcome, at).0, stalenessHash) <==>
      outcome == NotFound || (outcome.Found? && outcome.hash != "" && outcome.hash != stalenessHash)
  {
    ProbeAnswers(c, calls, budget, ref, lookupAt, outcome, at);
  }

  /** A fact whose PR comment was deleted goes stale: the checker asks the runner, which does not find it. */
  lemma GoneCommentStales(f: Fact, evs: seq<Support>, answers: nat -> Answer, i: nat, c: Cache<Verdict>, calls: nat,
      budget: int, lookupAt: int, at: int)
    requires f.status == Active && i < |evs| && evs[i].sourceType == PR_COMMENT && evs[i].ref != ""
    requires Got(c, evs[i].ref, lookupAt, TTL).1.None? && (budget > 0 ==> calls < budget)
    requires answers(i) == AloneEffect(c, calls, budget, evs[i].ref, lookupAt, NotFound, at).0
    ensures NextStatus(f, evs, true, Some(answers)) == Stale
  {
    ProbeCountsIff(c, calls, budget, evs[i].ref, lookupAt, NotFound, at, f.stalenessHash);
    assert Probed(evs[i]);
  }

  /** The facts that moved to a status, as a set. */
  function MovedIds(before: seq<Fact>, after: seq<Fact>, n: nat, to: Status): set<nat>
    requires n <= |before| == |after|
  {
    set i: nat | i < n && before[i].status != to && after[i].status == to
  }

  lemma {:induction false} MovedCounts(before: seq<Fact>, after: seq<Fact>, n: nat, to: Status)
    requires n <= |before| == |after|
    ensures Moved(before, after, n, to) == |MovedIds(before, after, n, to)|
  {
    if n > 0 {
      MovedCounts(before, after, n - 1, to);
      MovedIdsStep(before, after, n - 1, to);
    }
  }

  lemma MovedIdsStep(before: seq<Fact>, after: seq<Fact>, n: nat, to: Status)
    requires n < |before| == |after|
    ensures n !in MovedIds(before, after, n, to)
    ensures MovedIds(before, after, n + 1, to) == MovedIds(before, after, n, to) +
      if before[n].status != to && after[n].status == to then {n} else {}
  {
  }

  function Moved(before: seq<Fact>, after: seq<Fact>, n: nat, to: Status): nat
    requires n <= |before| == |after|
  {
    if n == 0 then 0
    else Moved(before, after, n - 1, to) + if before[n - 1].status != to && after[n - 1].status == to then 1 else 0
  }

  lemma {:induction false} MovedFrame(before: seq<Fact>, a: seq<Fact>, b: seq<Fact>, n: nat, to: Status)
    requires n <= |before| == |a| == |b| && a[..n] == b[..n]
    ensures Moved(before, a, n, to) == Moved(before, b, n, to)
  {
    if n > 0 {
      assert a[..n][n - 1] == b[..n][n - 1];
      assert a[..n - 1] == a[..n][..n - 1] && b[..n - 1] == b[..n][..n - 1];
      MovedFrame(before, a, b, n - 1, to);
    }
  }

  /** Stop at the first probe that contradicts the fact. */
  method PRCommentLivenessChanged(f: Fact, evs: seq<Support>, answers: nat -> Answer) returns (changed: bool)
    ensures changed == ProbesContradict(f, evs, answers)
  {
    for i := 0 to |evs|
      invariant forall k: nat :: k < i && Probed(evs[k]) ==> !Contradicts(answers(k), f.stalenessHash)
    {
      if evs[i].sourceType == PR_COMMENT && evs[i].ref != "" {
        var a := answers(i);
        if a.Said? {
          if !a.verdict.live { return true; }
          if a.verdict.hash != "" && a.verdict.hash != f.stalenessHash { return true; }
        }
      }
    }
    changed := false;
  }

  method EvidenceHashChanged(f: Fact, evs: seq<Support>) returns (changed: bool)
    ensures changed == HashesDiffer(f, evs)
  {
    for i := 0 to |evs|
      invariant forall k :: 0 <= k < i ==> evs[k].contentHash == f.stalenessHash
    {
      if evs[i].contentHash != f.stalenessHash { return true; }
    }
    changed := false;
  }

  /** Only active and stale facts are looked at; hashes are compared before anything is probed. */
  method CheckFact(f: Fact, evs: seq<Support>, symbolExists: bool, checker: Option<nat -> Answer>)
    returns (status: Status)
    ensures status == NextStatus(f, evs, symbolExists, checker)
    ensures status != f.status ==> status == Stale || status == Quarantined
  {
    status := f.status;
    if f.status == Active || f.status == Stale {
      if !symbolExists { return Quarantined; }
      if f.status == Active {
        var changed := EvidenceHashChanged(f, evs);
        if !changed && checker.Some? { changed := PRCommentLivenessChanged(f, evs, checker.value); }
        if changed { return Stale; }
      }
    }
  }

  function Checked(facts: seq<Fact>, evidence: seq<Evidence>, symbolExists: int -> bool,
      checker: Option<nat -> nat -> Answer>, i: nat): Fact
    requires i < |facts|
  {
    var f := facts[i];
    f.(status := NextStatus(f, EvidenceOf(evidence, i), symbolExists(f.subject),
                            if checker.Some? then Some(checker.value(i)) else None))
  }

  /** The first `n` facts are checked, the others are as they were. */
  ghost predicate PassedTo(before: seq<Fact>, after: seq<Fact>, evidence: seq<Evidence>, symbolExists: int -> bool,
                           checker: Option<nat -> nat -> Answer>, n: nat)
  {
    && n <= |after| == |before|
    && (forall k :: 0 <= k < n ==> after[k] == Checked(before, evidence, symbolExists, checker, k))
    && (forall k :: n <= k < |before| ==> after[k] == before[k])
  }

  lemma PassStep(before: seq<Fact>, facts: seq<Fact>, evidence: seq<Evidence>, symbolExists: int -> bool,
                 checker: Option<nat -> nat -> Answer>, n: nat, to: Status)
    requires n < |before| && PassedTo(before, facts, evidence, symbolExists, checker, n)
    ensures var f := Checked(before, evidence, symbolExists, checker, n);
      && PassedTo(before, facts[n := f], evidence, symbolExists, checker, n + 1)
      && Moved(before, facts[n := f], n + 1, to)
         == Moved(before, facts, n, to) + if before[n].status != to && f.status == to then 1 else 0
  {
    MovedFrame(before, facts, facts[n := Checked(before, evidence, symbolExists, checker, n)], n, to);
  }

  /** The first place, from `i` on, where a statement fails; the end if none does. */
  function FirstFailing(fails: nat -> bool, i: nat, end: nat): (n: nat)
    requires i <= end
    ensures i <= n <= end && (forall k: nat :: i <= k < n ==> !fails(k)) && (n < end ==> fails(n))
    decreases end - i
  {
    if i == end || fails(i) then i else FirstFailing(fails, i + 1, end)
  }

  /**
   Every fact up to where the pass got moves exactly as NextStatus says, the others and all other columns
   stay; the counts are the facts that became stale and that became quarantined. A failing statement
   ends the pass.
   */
  method CheckTribalWithLiveness(db: TribalDB, symbolExists: int -> bool, checker: Option<nat -> nat -> Answer>,
      queryFails: bool, fails: nat -> bool)
    returns (ok: bool, stale: nat, quarantined: nat, ghost n: nat)
    modifies db`facts
    ensures PassedTo(old(db.facts), db.facts, db.evidence, symbolExists, checker, n)
    ensures n == if queryFails then 0 else FirstFailing(fails, 0, |db.facts|)
    ensures ok <==> !queryFails && n == |db.facts|
    ensures stale == Moved(old(db.facts), db.facts, n, Stale)
    ensures quarantined == Moved(old(db.facts), db.facts, n, Quarantined)
  {
    ok, stale, quarantined, n := true, 0, 0, 0;
    if queryFails { return false, 0, 0, 0; }
    ghost var before := db.facts;
    for i := 0 to |db.facts|
      invariant |db.facts| == |before| && FirstFailing(fails, 0, |before|) == FirstFailing(fails, i, |before|)
      invariant n == i && ok && PassedTo(before, db.facts, db.evidence, symbolExists, checker, i)
      invariant stale == Moved(before, db.facts, i, Stale)
      invariant quarantined == Moved(before, db.facts, i, Quarantined)
    {
      if fails(i) { return false, stale, quarantined, i; }   // a lookup or an update
      PassStep(before, db.facts, db.evidence, symbolExists, checker, i, Stale);
      PassStep(before, db.facts, db.evidence, symbolExists, checker, i, Quarantined);
      var fact := db.facts[i];
      var next := CheckFact(fact, EvidenceOf(db.evidence, i), symbolExists(fact.subject),
                            if checker.Some? then Some(checker.value(i)) else None);
      assert fact.(status := next) == Checked(before, db.evidence, symbolExists, checker, i);
      db.facts := db.facts[i := fact.(status := next)];
      if next != fact.status {
        if next == Stale { stale := stale + 1; } else { quarantined := quarantined + 1; }
      }
      n := i + 1;
    }
  }

  /**
   What a pass does to one fact, by its own evidence rows, its own subject and the answers about it: only its
   status can change, and it ends quarantined or stale exactly as NextStatusIff says.
   */
  lemma PassMovesIff(before: seq<Fact>, after: seq<Fact>, evidence: seq<Evidence>, symbolExists: int -> bool,
                     checker: Option<nat -> nat -> Answer>, n: nat, k: nat)
    requires PassedTo(before, after, evidence, symbolExists, checker, n) && k < |before|
    ensures after[k] == before[k].(status := after[k].status)
    ensures k >= n ==> after[k] == before[k]
    ensures k < n && before[k].status in {Active, Stale} && !symbolExists(before[k].subject) ==>
      after[k].status == Quarantined
    ensures k < n && before[k].status == Active && symbolExists(before[k].subject) ==>
      (after[k].status == Stale <==>
        || (exists e :: e in EvidenceOf(evidence, k) && e.contentHash != before[k].stalenessHash)
        || (checker.Some? && CommentContradicts(before[k], EvidenceOf(evidence, k), checker.value(k))))
    ensures k < n && before[k].status == Stale && symbolExists(before[k].subject) ==> after[k].status == Stale
    ensures before[k].status !in {Active, Stale} ==> after[k].status == before[k].status
  {
    var evs := EvidenceOf(evidence, k);
    NextStatusIff(before[k], evs, symbolExists(before[k].subject),
                  if checker.Some? then Some(checker.value(k)) else None);
    if e :| e in evs && e.contentHash != before[k].stalenessHash {
      var i :| 0 <= i < |evs| && evs[i] == e;
    }
  }

  // ----- probes made through the shared cache, under any interleaving

  /** The pass asks about a row unless an earlier one has settled the matter. */
  predicate Asked(f: Fact, evs: seq<Support>, answers: nat -> Answer, i: nat) {
    i < |evs| && Probed(evs[i]) && forall j: nat :: j < i && Probed(evs[j]) ==>
      !Contradicts(answers(j), f.stalenessHash)
  }

  /** Some caller of the cache got this answer about the reference, at time `asOf`, in one of the first `n` states. */
  ghost predicate Answered(ss: seq<System>, n: nat, ref: string, a: Answer, asOf: int) {
    exists m: nat, t: nat :: m < n && m < |ss| && t in ss[m].callers && ss[m].callers[t] == Done(ref, a, asOf)
  }

  lemma {:induction false} ReportsGrow(ss: seq<System>, steps: seq<Step>, budget: int, m: nat, n: nat)
    requires Interleaving(ss, steps, budget) && m <= n < |ss|
    ensures ss[m].reports <= ss[n].reports
    decreases n - m
  {
    if m < n {
      ReportsGrow(ss, steps, budget, m, n - 1);
      assert ss[n] == Next(ss[n - 1], steps[n - 1], budget);
    }
  }

  lemma AnswerJustified(ss: seq<System>, steps: seq<Step>, budget: int, n: nat, ref: string, a: Answer, asOf: int)
    requires Interleaving(ss, steps, budget) && n < |ss| && Answered(ss, n, ref, a, asOf)
    ensures Justified(ss[n].reports, ref, a, asOf)
  {
    var m: nat, t: nat :| m < n && m < |ss| && t in ss[m].callers && ss[m].callers[t] == Done(ref, a, asOf);
    EveryInterleaving(ss, steps, budget, m);
    ReportsGrow(ss, steps, budget, m, n);
    JustifiedGrows(ss[m].reports, ss[n].reports, ref, a, asOf);
  }

  lemma {:induction false} FirstContradiction(f: Fact, evs: seq<Support>, answers: nat -> Answer, k: nat)
    returns (i: nat)
    requires k < |evs| && Probed(evs[k]) && Contradicts(answers(k), f.stalenessHash)
    ensures Asked(f, evs, answers, i) && Contradicts(answers(i), f.stalenessHash)
  {
    if j: nat :| j < k && Probed(evs[j]) && Contradicts(answers(j), f.stalenessHash) {
      i := FirstContradiction(f, evs, answers, j);
    } else {
      i := k;
    }
  }

  /**
   A runner reported, less than a day before the answer was formed, that a source of the fact is gone or
   different.
   */
  ghost predicate SourceChanged(reports: set<Report>, f: Fact, e: Support, asOf: int) {
    exists r :: r in reports && r.ref == e.ref && 0 <= asOf - r.at < TTL &&
      Contradicts(Said(r.verdict), f.stalenessHash)
  }

  /**
   Under any interleaving of concurrent callers of the cache: when the pass makes an active fact with
   matching evidence hashes stale, and its probes were answered by calls in that interleaving, then some
   runner result, less than 24 hours old when the answer was formed, reported one of the fact's sources
   gone or with a different hash. Spent budgets, missing runners and transport errors never do it.
   */
  lemma StaleNeedsReport(ss: seq<System>, steps: seq<Step>, budget: int, n: nat, facts: seq<Fact>,
      evidence: seq<Evidence>, symbolExists: int -> bool, checker: nat -> nat -> Answer, asOf: nat -> int, k: nat)
    requires Interleaving(ss, steps, budget) && n < |ss| && k < |facts|
    requires facts[k].status == Active && !HashesDiffer(facts[k], EvidenceOf(evidence, k))
    requires forall i: nat :: Asked(facts[k], EvidenceOf(evidence, k), checker(k), i) ==>
      Answered(ss, n, EvidenceOf(evidence, k)[i].ref, checker(k)(i), asOf(i))
    requires Checked(facts, evidence, symbolExists, Some(checker), k).status == Stale
    ensures exists i: nat :: i < |EvidenceOf(evidence, k)| && Probed(EvidenceOf(evidence, k)[i])
              && SourceChanged(ss[n].reports, facts[k], EvidenceOf(evidence, k)[i], asOf(i))
  {
    var f, evs, answers := facts[k], EvidenceOf(evidence, k), checker(k);
    var c: nat :| c < |evs| && Probed(evs[c]) && Contradicts(answers(c), f.stalenessHash);
    var i := FirstContradiction(f, evs, answers, c);
    AnswerJustified(ss, steps, budget, n, evs[i].ref, answers(i), asOf(i));
    assert Witnessed(ss[n].reports, evs[i].ref, answers(i).verdict, asOf(i));
    var r :| r in ss[n].reports && r.ref == evs[i].ref && r.verdict == answers(i).verdict && 0 <= asOf(i) - r.at < TTL;
    assert Contradicts(Said(r.verdict), f.stalenessHash);
  }
}
