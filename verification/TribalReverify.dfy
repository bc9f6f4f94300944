/** Budgeted semantic reverification (drift/tribal_reverify.go, db/tribal.go). */
module TribalReverify {
  import opened AgeOrder
  import opened Basics
  import opened TribalStore

  datatype Verdict = Accept | Downgrade | Reject

  /** Non-positive `sampleSize` and `budget` mean no limit; times are in seconds. */
  datatype Options = Options(sampleSize: int, maxAge: int, now: int, budget: int)

  datatype Summary = Summary(accepted: nat, downgraded: nat, rejected: nat, exhausted: bool)

  predicate Eligible(f: Fact, cutoff: int) {
    f.status == Active && f.model != "" && f.lastVerified < cutoff
  }

  function EligibleIds(facts: seq<Fact>, cutoff: int): set<nat> {
    set i: nat | i < |facts| && Eligible(facts[i], cutoff)
  }

  /** What a verdict does to the fact it is about. */
  function Settled(f: Fact, v: Verdict, now: int): Fact {
    match v
    case Accept => f.(lastVerified := now)
    case Downgrade => f.(confidence := f.confidence * 0.6)
    case Reject => f.(status := Stale)
  }

  function Least(a: nat, limit: int): nat {
    if limit > 0 && a > limit then limit else a
  }

  /** How many facts one pass asks about. */
  function Calls(eligible: nat, o: Options): nat {
    Least(Least(eligible, o.sampleSize), o.budget)
  }

  // ----- the query: ORDER BY last_verified ASC, ties in any order

  ghost predicate InRange(facts: seq<Fact>, ids: seq<nat>) {
    forall k :: 0 <= k < |ids| ==> ids[k] < |facts|
  }

  ghost predicate OldestFirst(facts: seq<Fact>, ids: seq<nat>)
    requires InRange(facts, ids)
  {
    forall a, b :: 0 <= a < b < |ids| ==> facts[ids[a]].lastVerified <= facts[ids[b]].lastVerified
  }

  ghost predicate IsSample(facts: seq<Fact>, cutoff: int, ids: seq<nat>) {
    && NoDuplicates(ids) && Members(ids) == EligibleIds(facts, cutoff)
    && InRange(facts, ids) && OldestFirst(facts, ids)
  }

  function AgeIn(facts: seq<Fact>): nat -> int {
    (i: nat) => if i < |facts| then facts[i].lastVerified else 0
  }

  method GetActiveLLMFactsOlderThan(facts: seq<Fact>, cutoff: int) returns (ids: seq<nat>)
    ensures IsSample(facts, cutoff, ids)
  {
    ids := [];
    for i := 0 to |facts|
      invariant forall x: nat :: x in ids <==> x < i && Eligible(facts[x], cutoff)
      invariant NoDuplicates(ids) && InRange(facts, ids) && Ascending(ids, AgeIn(facts))
    {
      if Eligible(facts[i], cutoff) {
        ids := InsertByAge<nat>(ids, i, AgeIn(facts));
        assert forall k :: 0 <= k < |ids| ==> ids[k] in ids;
      }
    }
    assert Members(ids) == EligibleIds(facts, cutoff);
  }

  // ----- one pass

  /** The facts after the listed ones are settled, each by its own verdict. */
  ghost predicate SettledBy(before: seq<Fact>, after: seq<Fact>, ids: seq<nat>, verdict: nat -> Verdict, now: int) {
    && |after| == |before|
    && forall i: nat :: i < |before| ==> after[i] == if i in ids then Settled(before[i], verdict(i), now) else before[i]
  }

  function CountVerdict(ids: seq<nat>, verdict: nat -> Verdict, v: Verdict): nat {
    if ids == [] then 0
    else CountVerdict(ids[..|ids| - 1], verdict, v) + if verdict(ids[|ids| - 1]) == v then 1 else 0
  }

  function Sum(r: Summary): nat { r.accepted + r.downgraded + r.rejected }

  /**
   A pass asks about the oldest eligible facts up to both limits, settles exactly those, and says the
   budget was exhausted exactly when the sampled list was longer than a positive budget. A failing
   verifier or statement ends it early, with what was settled so far; `asked` is what was settled.
   */
  method ReverifyTribal(db: TribalDB, o: Options, verdict: nat -> Verdict, queryFails: bool, fails: nat -> bool)
    returns (ok: bool, r: Summary, ghost asked: seq<nat>)
    modifies db`facts
    ensures var n := |EligibleIds(old(db.facts), o.now - o.maxAge)|;
      && |asked| == r.accepted + r.downgraded + r.rejected
      && (ok ==> |asked| == Calls(n, o) && (r.exhausted <==> o.budget > 0 && Least(n, o.sampleSize) > o.budget))
      && (!ok ==> !r.exhausted && (queryFails || (|asked| < Calls(n, o) && fails(|asked|))))
      && (ok <==> !queryFails && forall c: nat :: c < Calls(n, o) ==> !fails(c))
      && (queryFails ==> asked == [])
    ensures OldestOf(old(db.facts), asked, EligibleIds(old(db.facts), o.now - o.maxAge))
    ensures SettledBy(old(db.facts), db.facts, asked, verdict, o.now)
    ensures Tallies(r, asked, verdict)
  {
    if queryFails { return false, Summary(0, 0, 0, false), []; }
    var facts, n := Sample(db.facts, o);
    ok, r, asked := SettleInOrder(db, facts, o, verdict, fails);
    FrontIsOldest(old(db.facts), facts, EligibleIds(old(db.facts), o.now - o.maxAge), asked);
  }

  /** The oldest eligible facts, cut to a positive sample size. */
  method Sample(facts: seq<Fact>, o: Options) returns (ids: seq<nat>, ghost n: nat)
    ensures n == |EligibleIds(facts, o.now - o.maxAge)| && |ids| == Least(n, o.sampleSize)
    ensures InRange(facts, ids) && OldestOf(facts, ids, EligibleIds(facts, o.now - o.maxAge)) && OldestFirst(facts, ids)
  {
    ids := GetActiveLLMFactsOlderThan(facts, o.now - o.maxAge);
    ghost var all := ids;
    LengthOfMembers(all);
    n := |all|;
    if o.sampleSize > 0 && |ids| > o.sampleSize { ids := ids[..o.sampleSize]; }
    assert ids == all[..|ids|];
    PrefixOldest(facts, o.now - o.maxAge, all, |ids|);
  }

  ghost predicate OldestOf(facts: seq<Fact>, asked: seq<nat>, eligible: set<nat>) {
    NoDuplicates(asked) && Members(asked) <= eligible && Oldest(facts, asked, eligible)
  }

  /** The front of the oldest, in order of age, are the oldest of all. */
  lemma FrontIsOldest(facts: seq<Fact>, ids: seq<nat>, eligible: set<nat>, front: seq<nat>)
    requires InRange(facts, ids) && OldestFirst(facts, ids) && OldestOf(facts, ids, eligible) && front <= ids
    ensures OldestOf(facts, front, eligible)
  {
    assert forall x :: x in front ==> x in ids;
    forall a, b | a in front && b in eligible && b !in front && a < |facts| && b < |facts|
      ensures facts[a].lastVerified <= facts[b].lastVerified
    {
      var i :| 0 <= i < |front| && front[i] == a;
      if b in ids {
        var j :| 0 <= j < |ids| && ids[j] == b;
        assert forall k :: 0 <= k < |front| ==> front[k] == ids[k];
      }
    }
  }

  /** Ask about the listed facts in order until the budget is spent or a call fails. */
  method SettleInOrder(db: TribalDB, ids: seq<nat>, o: Options, verdict: nat -> Verdict, fails: nat -> bool)
    returns (ok: bool, r: Summary, ghost asked: seq<nat>)
    requires NoDuplicates(ids) && InRange(db.facts, ids)
    modifies db`facts
    ensures asked <= ids && |asked| == r.accepted + r.downgraded + r.rejected
    ensures if ok then |asked| == Least(|ids|, o.budget) else |asked| < Least(|ids|, o.budget) && fails(|asked|)
    ensures forall c: nat :: c < |asked| ==> !fails(c)
    ensures r.exhausted <==> ok && o.budget > 0 && |ids| > o.budget
    ensures SettledBy(old(db.facts), db.facts, asked, verdict, o.now)
    ensures Tallies(r, asked, verdict)
  {
    r := Summary(0, 0, 0, false);
    var calls := 0;
    while calls < |ids|
      invariant 0 <= calls <= |ids| && !r.exhausted && forall c: nat :: c < calls ==> !fails(c)
      invariant o.budget > 0 ==> calls <= o.budget
      invariant SettledBy(old(db.facts), db.facts, ids[..calls], verdict, o.now)
      invariant Tallies(r, ids[..calls], verdict) && calls == Sum(r)
      decreases |ids| - calls
    {
      if o.budget > 0 && calls >= o.budget {
        r := r.(exhausted := true);
        break;
      }
      if fails(calls) { return false, r, ids[..calls]; }     // the verifier or the update
      var id := ids[calls];
      var v := verdict(id);
      SettleSnoc(old(db.facts), db.facts, ids, calls, verdict, o.now);
      db.facts := db.facts[id := Settled(db.facts[id], v, o.now)];
      TallySnoc(r, ids, calls, verdict);
      r := Counted(r, v);
      calls := calls + 1;
    }
    ok, asked := true, ids[..calls];
  }

  ghost predicate Tallies(r: Summary, asked: seq<nat>, verdict: nat -> Verdict) {
    && r.accepted == CountVerdict(asked, verdict, Accept) && r.downgraded == CountVerdict(asked, verdict, Downgrade)
    && r.rejected == CountVerdict(asked, verdict, Reject)
  }

  function Counted(r: Summary, v: Verdict): Summary {
    match v
    case Accept => r.(accepted := r.accepted + 1)
    case Downgrade => r.(downgraded := r.downgraded + 1)
    case Reject => r.(rejected := r.rejected + 1)
  }

  lemma TallySnoc(r: Summary, ids: seq<nat>, n: nat, verdict: nat -> Verdict)
    requires n < |ids| && Tallies(r, ids[..n], verdict)
    ensures Tallies(Counted(r, verdict(ids[n])), ids[..n + 1], verdict)
  {
    assert ids[..n + 1][..n] == ids[..n];
  }

  lemma SettleSnoc(before: seq<Fact>, facts: seq<Fact>, ids: seq<nat>, n: nat, verdict: nat -> Verdict, now: int)
    requires n < |ids| && NoDuplicates(ids) && InRange(before, ids)
    requires SettledBy(before, facts, ids[..n], verdict, now)
    ensures ids[n] < |facts| && ids[..n + 1][..n] == ids[..n]
    ensures SettledBy(before, facts[ids[n] := Settled(facts[ids[n]], verdict(ids[n]), now)], ids[..n + 1], verdict, now)
  {
    var id := ids[n];
    assert id in ids;
    assert ids[..n + 1] == ids[..n] + [id];
    assert id !in ids[..n];
  }

  /** No eligible fact that was left out is older than one that was asked about. */
  ghost predicate Oldest(facts: seq<Fact>, asked: seq<nat>, eligible: set<nat>) {
    forall a, b :: a in asked && b in eligible && b !in asked ==>
      a < |facts| && b < |facts| && facts[a].lastVerified <= facts[b].lastVerified
  }

  lemma PrefixOldest(facts: seq<Fact>, cutoff: int, all: seq<nat>, n: nat)
    requires IsSample(facts, cutoff, all) && n <= |all|
    ensures NoDuplicates(all[..n]) && Members(all[..n]) <= EligibleIds(facts, cutoff)
    ensures Oldest(facts, all[..n], EligibleIds(facts, cutoff))
  {
    forall x | x in all[..n] ensures x in EligibleIds(facts, cutoff) { assert x in Members(all); }
    forall a, b | a in all[..n] && b in EligibleIds(facts, cutoff) && b !in all[..n]
      ensures a < |facts| && b < |facts| && facts[a].lastVerified <= facts[b].lastVerified
    {
      assert b in Members(all);
      var i :| 0 <= i < n && all[..n][i] == a;
      var j :| 0 <= j < |all| && all[j] == b;
      assert forall k :: 0 <= k < n ==> all[..n][k] == all[k];
    }
  }

  // ----- draining

  /**
   Without downgrades, a pass takes exactly the facts it asked about out of the eligible set -- if
   and only if it accepted none of them or the age limit is not negative.
   */
  lemma PassDrainsIff(before: seq<Fact>, after: seq<Fact>, asked: seq<nat>, verdict: nat -> Verdict, o: Options)
    requires SettledBy(before, after, asked, verdict, o.now)
    requires Members(asked) <= EligibleIds(before, o.now - o.maxAge)
    requires forall i :: i in asked ==> verdict(i) != Downgrade
    ensures EligibleIds(after, o.now - o.maxAge) == EligibleIds(before, o.now - o.maxAge) - Members(asked)
            <==> (o.maxAge >= 0 || forall i :: i in asked ==> verdict(i) != Accept)
  {
    var cutoff := o.now - o.maxAge;
    forall i: nat | i < |before|
      ensures i in EligibleIds(after, cutoff) <==>
              i in EligibleIds(before, cutoff) && (i in asked ==> verdict(i) == Accept && o.maxAge < 0)
    {
      if i in asked { assert i in Members(asked); }
    }
    if !(o.maxAge >= 0 || forall i :: i in asked ==> verdict(i) != Accept) {
      var i :| i in asked && verdict(i) == Accept;
      assert i in Members(asked);
    }
  }

  ghost predicate Pass(before: seq<Fact>, after: seq<Fact>, asked: seq<nat>, verdict: nat -> Verdict, o: Options) {
    && SettledBy(before, after, asked, verdict, o.now)
    && NoDuplicates(asked) && Members(asked) <= EligibleIds(before, o.now - o.maxAge)
    && |asked| == Calls(|EligibleIds(before, o.now - o.maxAge)|, o)
    && forall i :: i in asked ==> verdict(i) != Downgrade
  }

  /**
   Every fact that a pass asks about is active, written by a model and older than the limit; accepting it only
   renews it, downgrading only lowers its confidence to three fifths, rejecting only makes it stale, and every
   other fact is as it was.
   */
  lemma PassTouchesOnly(before: seq<Fact>, after: seq<Fact>, asked: seq<nat>, verdict: nat -> Verdict, o: Options,
      i: nat)
    requires SettledBy(before, after, asked, verdict, o.now) && i < |before|
    requires Members(asked) <= EligibleIds(before, o.now - o.maxAge)
    ensures i !in asked ==> after[i] == before[i]
    ensures i in asked ==>
      && before[i].status == Active && before[i].model != "" && before[i].lastVerified + o.maxAge < o.now
      && after[i].(status := Active, confidence := 0.0, lastVerified := 0)
         == before[i].(status := Active, confidence := 0.0, lastVerified := 0)
      && after[i].lastVerified == (if verdict(i) == Accept then o.now else before[i].lastVerified)
      && after[i].confidence * 5.0 == (if verdict(i) == Downgrade then 3.0 else 5.0) * before[i].confidence
      && after[i].status == (if verdict(i) == Reject then Stale else Active)
  {
    assert i in asked <==> i in Members(asked);
  }

  /** The size of a pass: all that is eligible, but no more than a positive sample size and a positive budget. */
  lemma CallsIff(eligible: nat, o: Options)
    ensures Calls(eligible, o) <= eligible
    ensures o.sampleSize > 0 ==> Calls(eligible, o) <= o.sampleSize
    ensures o.budget > 0 ==> Calls(eligible, o) <= o.budget
    ensures Calls(eligible, o) == eligible
      || (o.sampleSize > 0 && Calls(eligible, o) == o.sampleSize) || (o.budget > 0 && Calls(eligible, o) == o.budget)
  {
  }

  /** A pass without limits asks about every active fact of a model that is older than the age limit. */
  lemma UnlimitedPassAsksAll(before: seq<Fact>, asked: seq<nat>, o: Options, i: nat)
    requires o.sampleSize <= 0 && o.budget <= 0
    requires NoDuplicates(asked) && Members(asked) <= EligibleIds(before, o.now - o.maxAge)
    requires |asked| == Calls(|EligibleIds(before, o.now - o.maxAge)|, o) && i < |before|
    ensures i in asked <==>
      before[i].status == Active && before[i].model != "" && before[i].lastVerified + o.maxAge < o.now
  {
    LengthOfMembers(asked);
    SameSizeSame(Members(asked), EligibleIds(before, o.now - o.maxAge));
    assert i in asked <==> i in Members(asked);
  }

  lemma SameSizeSame(a: set<nat>, b: set<nat>)
    requires a <= b && |a| == |b|
    ensures a == b
  {
    SetMinus(b, a);
    assert b - a == {};
  }

  /** A summary counts what the verifier said about the facts asked. */
  lemma {:induction false} VerdictsCounted(ids: seq<nat>, verdict: nat -> Verdict, v: Verdict)
    ensures CountVerdict(ids, verdict, v) == |Places(ids, Gives(verdict, v))|
  {
    PlacesSnoc(ids, Gives(verdict, v));
    if ids != [] { VerdictsCounted(ids[..|ids| - 1], verdict, v); }
  }

  /** Every fact asked about is counted once. */
  lemma {:induction false} TalliesAddUp(asked: seq<nat>, verdict: nat -> Verdict)
    ensures CountVerdict(asked, verdict, Accept) + CountVerdict(asked, verdict, Downgrade)
            + CountVerdict(asked, verdict, Reject) == |asked|
  {
    if asked != [] { TalliesAddUp(asked[..|asked| - 1], verdict); }
  }

  function Gives(verdict: nat -> Verdict, v: Verdict): nat -> bool { (id: nat) => verdict(id) == v }

  /** Facts asked about in each pass, for as many passes as there are lists. */
  ghost predicate Passes(states: seq<seq<Fact>>, asked: seq<seq<nat>>, verdict: nat -> nat -> Verdict, o: Options) {
    && |states| == |asked| + 1
    && forall k: nat :: k < |asked| ==> Pass(states[k], states[k + 1], asked[k], verdict(k), o)
  }

  function Remaining(eligible: nat, o: Options, passes: nat): nat
    decreases passes
  {
    if passes == 0 then eligible else Remaining(eligible - Calls(eligible, o), o, passes - 1)
  }

  /** At a fixed clock with no downgrades the eligible count falls by the number of calls each pass. */
  lemma {:induction false} PassesDrain(states: seq<seq<Fact>>, asked: seq<seq<nat>>, verdict: nat -> nat -> Verdict,
      o: Options, n: nat)
    requires Passes(states, asked, verdict, o) && o.maxAge >= 0 && n <= |asked|
    ensures |EligibleIds(states[n], o.now - o.maxAge)| == Remaining(|EligibleIds(states[0], o.now - o.maxAge)|, o, n)
  {
    var cutoff := o.now - o.maxAge;
    if n > 0 {
      PassesDrain(states, asked, verdict, o, n - 1);
      var k: nat := n - 1;
      PassDrops(states[k], states[k + 1], asked[k], verdict(k), o);
      RemainingStep(|EligibleIds(states[0], cutoff)|, o, k);
    }
  }

  lemma PassDrops(before: seq<Fact>, after: seq<Fact>, asked: seq<nat>, verdict: nat -> Verdict, o: Options)
    requires Pass(before, after, asked, verdict, o) && o.maxAge >= 0
    ensures |EligibleIds(after, o.now - o.maxAge)|
            == |EligibleIds(before, o.now - o.maxAge)| - Calls(|EligibleIds(before, o.now - o.maxAge)|, o)
  {
    PassDrainsIff(before, after, asked, verdict, o);
    LengthOfMembers(asked);
    SetMinus(EligibleIds(before, o.now - o.maxAge), Members(asked));
  }

  lemma SetMinus(a: set<nat>, b: set<nat>)
    requires b <= a
    ensures |a - b| == |a| - |b|
  {
    assert (a - b) + b == a;
  }

  lemma {:induction false} RemainingStep(eligible: nat, o: Options, k: nat)
    ensures Remaining(eligible, o, k + 1) == Remaining(eligible, o, k) - Calls(Remaining(eligible, o, k), o)
    decreases k
  {
    if k > 0 { RemainingStep(eligible - Calls(eligible, o), o, k - 1); }
  }

  /** After as many passes as there were eligible facts, none is left. */
  lemma {:induction false} RemainingReachesZero(eligible: nat, o: Options, passes: nat)
    requires passes >= eligible
    ensures Remaining(eligible, o, passes) == 0
    decreases passes
  {
    if passes > 0 {
      if eligible > 0 { assert Calls(eligible, o) >= 1; }
      RemainingReachesZero(eligible - Calls(eligible, o), o, passes - 1);
    }
  }

  /** Enough passes at a fixed clock leave nothing eligible. */
  lemma PassesEmptyThePool(states: seq<seq<Fact>>, asked: seq<seq<nat>>, verdict: nat -> nat -> Verdict, o: Options)
    requires Passes(states, asked, verdict, o) && o.maxAge >= 0
    requires |asked| >= |EligibleIds(states[0], o.now - o.maxAge)|
    ensures EligibleIds(states[|asked|], o.now - o.maxAge) == {}
  {
    PassesDrain(states, asked, verdict, o, |asked|);
    RemainingReachesZero(|EligibleIds(states[0], o.now - o.maxAge)|, o, |asked|);
  }
}
