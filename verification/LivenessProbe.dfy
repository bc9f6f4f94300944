/**
 Liveness probes shared by concurrent callers (LivenessCache in drift/tribal.go). One call takes
 three locked steps with unlocked gaps between them -- look up, charge the budget, store -- so the
 system is modelled as interleaved atomic steps of any number of callers.
 */
module LivenessProbe {
  import opened Basics
  import opened TtlLru

  const TTL := 24 * 60 * 60        // seconds
  const MAX_ENTRIES: nat := 10000

  /** What a probe says about a source: reachable or gone, and the hash of its content. */
  datatype Verdict = Verdict(live: bool, hash: string)

  /** The answer used when the budget is spent or there is no runner: nothing is known to have changed. */
  const FAIL_OPEN := Verdict(true, "")

  datatype Answer = Said(verdict: Verdict) | Error

  datatype RunnerOutcome = NoRunner | TransportError | NotFound | Found(hash: string)

  /** A runner result, stamped when it is recorded. */
  datatype Report = Report(ref: string, verdict: Verdict, at: int)

  /** Where a caller is inside CheckSourceRefLive. */
  datatype Caller =
    | Charging(ref: string)
    | Calling(ref: string)
    | Storing(report: Report)
    | Done(ref: string, answer: Answer, asOf: int)

  datatype System = System(cache: Cache<Verdict>, calls: nat, invocations: nat, callers: map<nat, Caller>,
                           reports: set<Report>, now: int)

  datatype Step = Tick(to: int) | Lookup(t: nat, ref: string) | Charge(t: nat) |
      Probe(t: nat, outcome: RunnerOutcome) | Store(t: nat)

  predicate Free(s: System, t: nat) { t !in s.callers || s.callers[t].Done? }

  predicate Enabled(s: System, step: Step) {
    match step
    case Tick(to) => s.now <= to
    case Lookup(t, _) => Free(s, t)
    case Charge(t) => t in s.callers && s.callers[t].Charging?
    case Probe(t, _) => t in s.callers && s.callers[t].Calling?
    case Store(t) => t in s.callers && s.callers[t].Storing?
  }

  function MayCall(calls: nat, budget: int): bool { !(budget > 0 && calls >= budget) }

  function Next(s: System, step: Step, budget: int): System
    requires Enabled(s, step)
  {
    match step
    case Tick(to) => s.(now := to)
    case Lookup(t, ref) =>
      if ref == "" then s.(callers := s.callers[t := Done(ref, Error, s.now)])
      else
        var (cache, hit) := Got(s.cache, ref, s.now, TTL);
        s.(cache := cache,
           callers := s.callers[t := if hit.Some? then Done(ref, Said(hit.value), s.now) else Charging(ref)])
    case Charge(t) =>
      var ref := s.callers[t].ref;
      if !MayCall(s.calls, budget) then s.(callers := s.callers[t := Done(ref, Said(FAIL_OPEN), s.now)])
      else s.(calls := s.calls + 1, callers := s.callers[t := Calling(ref)])
    case Probe(t, outcome) =>
      var ref := s.callers[t].ref;
      (match outcome
       case NoRunner => s.(callers := s.callers[t := Done(ref, Said(FAIL_OPEN), s.now)])
       case TransportError => s.(invocations := s.invocations + 1, callers := s.callers[t := Done(ref, Error, s.now)])
       case NotFound => Reported(s, t, Report(ref, Verdict(false, ""), s.now))
       case Found(hash) => Reported(s, t, Report(ref, Verdict(true, hash), s.now)))
    case Store(t) =>
      var r := s.callers[t].report;
      s.(cache := Stored(s.cache, r.ref, r.verdict, r.at, MAX_ENTRIES),
         callers := s.callers[t := Done(r.ref, Said(r.verdict), r.at)])
  }

  function Reported(s: System, t: nat, r: Report): System {
    s.(invocations := s.invocations + 1, reports := s.reports + {r}, callers := s.callers[t := Storing(r)])
  }

  /** One call's answer and effect when no other caller comes in between. */
  function AloneEffect(c: Cache<Verdict>, calls: nat, budget: int, ref: string, lookupAt: int, outcome: RunnerOutcome,
      at: int)
    : (Answer, Cache<Verdict>, nat, bool)
  {
    var (looked, hit) := Got(c, ref, lookupAt, TTL);
    if hit.Some? then (Said(hit.value), looked, calls, false)
    else if !MayCall(calls, budget) then (Said(FAIL_OPEN), looked, calls, false)
    else match outcome
      case NoRunner => (Said(FAIL_OPEN), looked, calls + 1, false)
      case TransportError => (Error, looked, calls + 1, true)
      case NotFound =>
        (Said(Verdict(false, "")), Stored(looked, ref, Verdict(false, ""), at, MAX_ENTRIES), calls + 1, true)
      case Found(hash) =>
        (Said(Verdict(true, hash)), Stored(looked, ref, Verdict(true, hash), at, MAX_ENTRIES), calls + 1, true)
  }

  /** The steps of one caller with no other in between: the probe ends at `at`. */
  function AloneSteps(s: System, t: nat, ref: string, outcome: RunnerOutcome, at: int, budget: int): System
    requires Free(s, t) && s.now <= at
  {
    var looked := Next(s, Lookup(t, ref), budget);
    if !looked.callers[t].Charging? then looked
    else
      var charged := Next(looked, Charge(t), budget);
      if !charged.callers[t].Calling? then charged
      else
        var probed := Next(Next(charged, Tick(at), budget), Probe(t, outcome), budget);
        if !probed.callers[t].Storing? then probed else Next(probed, Store(t), budget)
  }

  /** A call that is not interrupted is the run of one caller's steps in the system of all of them. */
  lemma AloneIsSteps(s: System, t: nat, ref: string, outcome: RunnerOutcome, at: int, budget: int)
    requires Free(s, t) && s.now <= at && ref != ""
    ensures var end := AloneSteps(s, t, ref, outcome, at, budget);
      var (a, cache, calls, invoked) := AloneEffect(s.cache, s.calls, budget, ref, s.now, outcome, at);
      && t in end.callers && end.callers[t].Done? && end.callers[t].ref == ref && end.callers[t].answer == a
      && end.cache == cache && end.calls == calls && end.invocations == s.invocations + (if invoked then 1 else 0)
      && end.callers - {t} == s.callers - {t}
  {
    var looked := Next(s, Lookup(t, ref), budget);
    if looked.callers[t].Charging? {
      var charged := Next(looked, Charge(t), budget);
      if charged.callers[t].Calling? {
        var probed := Next(Next(charged, Tick(at), budget), Probe(t, outcome), budget);
        assert probed.callers - {t} == s.callers - {t};
      }
    }
  }

  /** The answers that say what the runner found, and for how long they are given again. */
  ghost predicate CachedUntil(c: Cache<Verdict>, ref: string, v: Verdict, at: int) {
    forall now :: Got(c, ref, now, TTL).1 == if now - at < TTL then Some(v) else None
  }

  /**
   A reference that is not cached, with budget left, costs one call. A source that is not found is gone, one
   that is found is there with its hash, and both are answered from the cache for a day; an error is not
   cached; without a runner nothing is known to have changed.
   */
  lemma ProbeAnswers(c: Cache<Verdict>, calls: nat, budget: int, ref: string, lookupAt: int, outcome: RunnerOutcome,
      at: int)
    requires Got(c, ref, lookupAt, TTL).1.None? && (budget > 0 ==> calls < budget)
    ensures var (a, after, charged, invoked) := AloneEffect(c, calls, budget, ref, lookupAt, outcome, at);
      && charged == calls + 1 && (invoked <==> outcome != NoRunner)
      && (outcome.NotFound? ==> a.Said? && !a.verdict.live && CachedUntil(after, ref, a.verdict, at))
      && (outcome.Found? ==> a == Said(Verdict(true, outcome.hash)) && CachedUntil(after, ref, a.verdict, at))
      && (outcome.TransportError? ==> a.Error? && ref !in after.entries)
      && (outcome.NoRunner? ==> a.Said? && a.verdict.live && a.verdict.hash == "" && ref !in after.entries)
  {
  }

  /** A cached reference costs nothing and gives what was stored; a spent budget gives an answer that says nothing. */
  lemma NoProbeAnswers(c: Cache<Verdict>, calls: nat, budget: int, ref: string, lookupAt: int, outcome: RunnerOutcome,
      at: int)
    requires Got(c, ref, lookupAt, TTL).1.Some? || (budget > 0 && calls >= budget)
    ensures var (a, after, charged, invoked) := AloneEffect(c, calls, budget, ref, lookupAt, outcome, at);
      && charged == calls && !invoked && a.Said?
      && (if ref in c.entries && lookupAt - c.entries[ref].checkedAt < 24 * 60 * 60
          then a.verdict == c.entries[ref].value && after.entries == c.entries
          else a.verdict.live && a.verdict.hash == "" && ref !in after.entries)
  {
  }

  // ----- the object's locked sections, and a call that no other caller interrupts

  class LivenessCache {
    const cache: BoundedCache<Verdict>
    const budget: int
    var calls: nat

    constructor (cache: BoundedCache<Verdict>, budget: int)
      ensures this.cache == cache && this.budget == budget && calls == 0
    {
      this.cache, this.budget := cache, budget;
      calls := 0;
    }

    method TryCharge() returns (ok: bool)
      modifies this`calls
      ensures ok == MayCall(old(calls), budget)
      ensures calls == if ok then old(calls) + 1 else old(calls)
    {
      if budget > 0 && calls >= budget { return false; }
      calls := calls + 1;
      ok := true;
    }

    /** A hit, spent budget, or no runner costs no invocation; an error is not cached. */
    method CheckSourceRefLive(ref: string, lookupAt: int, outcome: RunnerOutcome, stampedAt: int)
      returns (a: Answer, invoked: bool)
      requires cache.Valid() && cache.ttl == TTL && cache.max == MAX_ENTRIES
      modifies this`calls, cache
      ensures cache.Valid()
      ensures ref == "" ==> a == Error && cache.View() == old(cache.View()) && calls == old(calls) && !invoked
      ensures ref != "" ==>
        (a, cache.View(), calls, invoked) ==
          AloneEffect(old(cache.View()), old(calls), budget, ref, lookupAt, outcome, stampedAt)
    {
      invoked := false;
      if ref == "" { return Error, invoked; }
      var hit := cache.Get(ref, lookupAt);
      if hit.Some? { return Said(hit.value), invoked; }
      var allowed := TryCharge();
      if !allowed { return Said(FAIL_OPEN), invoked; }
      if outcome == NoRunner { return Said(FAIL_OPEN), invoked; }
      invoked := true;
      if outcome == TransportError { return Error, invoked; }
      var verdict := if outcome == NotFound then Verdict(false, "") else Verdict(true, outcome.hash);
      cache.Put(ref, verdict, stampedAt);
      a := Said(verdict);
    }
  }

  // ----- invariants of every interleaving

  function InCall(callers: map<nat, Caller>): set<nat> {
    set t | t in callers && callers[t].Calling?
  }

  /** Some runner result, less than a day old, said exactly this. */
  ghost predicate Witnessed(reports: set<Report>, ref: string, v: Verdict, asOf: int) {
    exists r :: r in reports && r.ref == ref && r.verdict == v && 0 <= asOf - r.at < TTL
  }

  ghost predicate Justified(reports: set<Report>, ref: string, a: Answer, asOf: int) {
    a == Error || a.verdict == FAIL_OPEN || Witnessed(reports, ref, a.verdict, asOf)
  }

  ghost predicate Backed(cache: Cache<Verdict>, reports: set<Report>) {
    forall k :: k in cache.entries ==> Report(k, cache.entries[k].value, cache.entries[k].checkedAt) in reports
  }

  ghost predicate CallerOk(s: System, c: Caller) {
    match c
    case Storing(r) => r in s.reports
    case Done(ref, a, asOf) => Justified(s.reports, ref, a, asOf)
    case _ => true
  }

  ghost predicate Inv(s: System, budget: int) {
    && Agree(s.cache, MAX_ENTRIES) && Backed(s.cache, s.reports)
    && s.invocations + |InCall(s.callers)| <= s.calls
    && (budget > 0 ==> s.calls <= budget)
    && (forall r :: r in s.reports ==> r.at <= s.now)
    && (forall t :: t in s.callers ==> CallerOk(s, s.callers[t]))
  }

  lemma JustifiedGrows(reports: set<Report>, more: set<Report>, ref: string, a: Answer, asOf: int)
    requires Justified(reports, ref, a, asOf) && reports <= more
    ensures Justified(more, ref, a, asOf)
  {
    if a != Error && a.verdict != FAIL_OPEN {
      var r :| r in reports && r.ref == ref && r.verdict == a.verdict && 0 <= asOf - r.at < TTL;
      assert r in more;
    }
  }

  lemma InCallUpdate(callers: map<nat, Caller>, t: nat, c: Caller)
    ensures InCall(callers[t := c]) == if c.Calling? then InCall(callers) + {t} else InCall(callers) - {t}
  {
  }

  lemma EvictedBacked(cache: Cache<Verdict>, reports: set<Report>, r: Report)
    requires Agree(cache, MAX_ENTRIES) && Backed(cache, reports) && r in reports
    ensures Backed(Stored(cache, r.ref, r.verdict, r.at, MAX_ENTRIES), reports)
  {
    EvictedAgrees(cache, MAX_ENTRIES);
  }

  lemma OthersStayOk(s: System, s': System, t: nat, budget: int)
    requires Inv(s, budget) && s.reports <= s'.reports
    ensures forall u :: u in s.callers ==> CallerOk(s', s.callers[u])
  {
    forall u | u in s.callers ensures CallerOk(s', s.callers[u]) {
      assert CallerOk(s, s.callers[u]);
      match s.callers[u]
      case Done(ref, a, asOf) => JustifiedGrows(s.reports, s'.reports, ref, a, asOf);
      case _ =>
    }
  }

  lemma LookupKeepsInv(s: System, t: nat, ref: string, budget: int)
    requires Inv(s, budget) && Enabled(s, Lookup(t, ref))
    ensures Inv(Next(s, Lookup(t, ref), budget), budget)
  {
    var s' := Next(s, Lookup(t, ref), budget);
    InCallUpdate(s.callers, t, s'.callers[t]);
    OthersStayOk(s, s', t, budget);
    if ref != "" {
      GotAgrees(s.cache, ref, s.now, TTL, MAX_ENTRIES);
      var hit := Got(s.cache, ref, s.now, TTL).1;
      if hit.Some? {
        var r := Report(ref, hit.value, s.cache.entries[ref].checkedAt);
        assert r in s.reports;
        assert Witnessed(s.reports, ref, hit.value, s.now);
      }
    }
  }

  lemma ChargeKeepsInv(s: System, t: nat, budget: int)
    requires Inv(s, budget) && Enabled(s, Charge(t))
    ensures Inv(Next(s, Charge(t), budget), budget)
  {
    var s' := Next(s, Charge(t), budget);
    InCallUpdate(s.callers, t, s'.callers[t]);
    OthersStayOk(s, s', t, budget);
  }

  lemma ProbeKeepsInv(s: System, t: nat, outcome: RunnerOutcome, budget: int)
    requires Inv(s, budget) && Enabled(s, Probe(t, outcome))
    ensures Inv(Next(s, Probe(t, outcome), budget), budget)
  {
    var s' := Next(s, Probe(t, outcome), budget);
    InCallUpdate(s.callers, t, s'.callers[t]);
    assert t in InCall(s.callers);
    assert |InCall(s'.callers)| == |InCall(s.callers)| - 1;
    OthersStayOk(s, s', t, budget);
  }

  lemma StoreKeepsInv(s: System, t: nat, budget: int)
    requires Inv(s, budget) && Enabled(s, Store(t))
    ensures Inv(Next(s, Store(t), budget), budget)
  {
    var s' := Next(s, Store(t), budget);
    var r := s.callers[t].report;
    assert CallerOk(s, s.callers[t]);
    InCallUpdate(s.callers, t, s'.callers[t]);
    OthersStayOk(s, s', t, budget);
    StoredAgrees(s.cache, r.ref, r.verdict, r.at, MAX_ENTRIES);
    EvictedBacked(s.cache, s.reports, r);
    assert Witnessed(s.reports, r.ref, r.verdict, r.at);
  }

  lemma StepKeepsInv(s: System, step: Step, budget: int)
    requires Inv(s, budget) && Enabled(s, step)
    ensures Inv(Next(s, step, budget), budget)
  {
    match step
    case Tick(to) => OthersStayOk(s, Next(s, step, budget), 0, budget);
    case Lookup(t, ref) => LookupKeepsInv(s, t, ref, budget);
    case Charge(t) => ChargeKeepsInv(s, t, budget);
    case Probe(t, outcome) => ProbeKeepsInv(s, t, outcome, budget);
    case Store(t) => StoreKeepsInv(s, t, budget);
  }

  ghost predicate Interleaving(ss: seq<System>, steps: seq<Step>, budget: int) {
    && |ss| == |steps| + 1
    && ss[0].cache == Cache(map[], []) && ss[0].calls == 0 && ss[0].invocations == 0 && ss[0].callers == map[] &&
      ss[0].reports == {}
    && forall i :: 0 <= i < |steps| ==> Enabled(ss[i], steps[i]) && ss[i + 1] == Next(ss[i], steps[i], budget)
  }

  /**
   Under any interleaving: the runner is never invoked more often than a positive budget, map and
   list stay in bijection and bounded, and every answer a caller gets -- unless it is an error or the
   fail-open answer -- was said by a runner result less than 24 hours old when the answer was formed.
   */
  lemma {:induction false} EveryInterleaving(ss: seq<System>, steps: seq<Step>, budget: int, n: nat)
    requires Interleaving(ss, steps, budget) && n < |ss|
    ensures Inv(ss[n], budget)
    ensures budget > 0 ==> ss[n].invocations <= budget
    ensures Agree(ss[n].cache, MAX_ENTRIES)
    ensures forall t :: t in ss[n].callers && ss[n].callers[t].Done? ==>
      Justified(ss[n].reports, ss[n].callers[t].ref, ss[n].callers[t].answer, ss[n].callers[t].asOf)
  {
    if n == 0 {
      assert InCall(ss[0].callers) == {};
    } else {
      EveryInterleaving(ss, steps, budget, n - 1);
      StepKeepsInv(ss[n - 1], steps[n - 1], budget);
    }
    assert forall t :: t in ss[n].callers ==> CallerOk(ss[n], ss[n].callers[t]);
  }
}
