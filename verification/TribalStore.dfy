/**
 Tribal facts and their evidence (db/tribal_upsert.go, db/tribal.go). A fact's id is its position;
 nothing in this model deletes facts.
 */
module TribalStore {
  import opened Basics

  datatype Status = Active | Stale | Quarantined | Superseded | Removed

  datatype Fact = Fact(subject: int, kind: string, body: string, quote: string, confidence: real, corroboration: int,
                       extractor: string, model: string, stalenessHash: string, status: Status,
                       createdAt: int, lastVerified: int, clusterKey: string)

  datatype Support = Support(sourceType: string, ref: string, contentHash: string)

  datatype Evidence = Evidence(factId: nat, support: Support)

  datatype Store = Store(facts: seq<Fact>, evidence: seq<Evidence>)

  /** One accepted upsert: what the caller passed, its cluster key still empty. */
  datatype Call = Call(fact: Fact, evidence: seq<Support>)

  /** What two facts must share to be one. */
  datatype ClusterId = ClusterId(subject: int, kind: string, key: string)

  function IdOf(f: Fact): ClusterId { ClusterId(f.subject, f.kind, f.clusterKey) }

  function Refs(evs: seq<Support>): set<string> { set e | e in evs :: e.ref }

  function RefsOf(evidence: seq<Evidence>, id: nat): set<string> {
    set e | e in evidence && e.factId == id :: e.support.ref
  }

  // ----- one upsert

  function FirstMatch(facts: seq<Fact>, id: ClusterId): (r: Option<nat>)
    ensures r.Some? ==> r.value < |facts| && IdOf(facts[r.value]) == id
    ensures r.None? ==> forall f :: f in facts ==> IdOf(f) != id
  {
    if facts == [] then None
    else if IdOf(facts[0]) == id then Some(0)
    else
      assert forall f :: f in facts <==> f == facts[0] || f in facts[1..];
      match FirstMatch(facts[1..], id)
      case None => None
      case Some(i) => Some(i + 1)
  }

  function Rows(id: nat, evs: seq<Support>): (rows: seq<Evidence>)
    ensures |rows| == |evs| && forall i :: 0 <= i < |evs| ==> rows[i] == Evidence(id, evs[i])
  {
    seq(|evs|, i requires 0 <= i < |evs| => Evidence(id, evs[i]))
  }

  /** Add the supports whose reference the fact does not have yet, in order. */
  function Merged(evidence: seq<Evidence>, id: nat, evs: seq<Support>): seq<Evidence> {
    if evs == [] then evidence
    else
      var before := Merged(evidence, id, evs[..|evs| - 1]);
      var last := evs[|evs| - 1];
      if last.ref in RefsOf(before, id) then before else before + [Evidence(id, last)]
  }

  function AfterUpsert(s: Store, clusterOf: string -> string, c: Call): Store {
    var fact := c.fact.(clusterKey := clusterOf(c.fact.body));
    match FirstMatch(s.facts, IdOf(fact))
    case None => Store(s.facts + [fact], s.evidence + Rows(|s.facts|, c.evidence))
    case Some(i) =>
      var evidence := Merged(s.evidence, i, c.evidence);
      if |evidence| == |s.evidence| then s
      else Store(s.facts[i := s.facts[i].(corroboration := s.facts[i].corroboration + 1,
                                          lastVerified := c.fact.lastVerified)], evidence)
  }

  class TribalDB {
    var facts: seq<Fact>
    var evidence: seq<Evidence>

    constructor ()
      ensures View() == Store([], [])
    {
      facts, evidence := [], [];
    }

    ghost function View(): Store
      reads this
    {
      Store(facts, evidence)
    }

    /** Insert only supports with a new reference; count them. */
    method MergeEvidence(id: nat, evs: seq<Support>) returns (inserted: nat)
      modifies this`evidence
      ensures evidence == Merged(old(evidence), id, evs)
      ensures inserted == |evidence| - |old(evidence)|
    {
      inserted := 0;
      for i := 0 to |evs|
        invariant evidence == Merged(old(evidence), id, evs[..i])
        invariant inserted == |evidence| - |old(evidence)|
      {
        assert evs[..i + 1][..i] == evs[..i];
        if evs[i].ref !in RefsOf(evidence, id) {
          evidence := evidence + [Evidence(id, evs[i])];
          inserted := inserted + 1;
        }
      }
      assert evs[..|evs|] == evs;
    }

    /** Insert or merge in one transaction; a failing statement rolls everything back. */
    method UpsertTribalFact(clusterOf: string -> string, fact: Fact, evs: seq<Support>, fails: bool)
      returns (r: Result<(nat, bool)>)
      modifies this
      ensures r.Err? <==> evs == [] || fact.clusterKey != "" || fails
      ensures r.Err? ==> View() == old(View())
      ensures r.Ok? ==> View() == AfterUpsert(old(View()), clusterOf, Call(fact, evs))
      ensures r.Ok? ==>
        r.value.0 < |facts| && IdOf(facts[r.value.0]) == ClusterId(fact.subject, fact.kind, clusterOf(fact.body))
      ensures r.Ok? ==> (r.value.1 <==> |facts| == |old(facts)|)
    {
      if evs == [] || fact.clusterKey != "" { return Err; }
      if fails { return Err; }
      var keyed := fact.(clusterKey := clusterOf(fact.body));
      var existing := FirstMatch(facts, IdOf(keyed));
      match existing
      case None =>
        facts, evidence := facts + [keyed], evidence + Rows(|facts|, evs);
        r := Ok((|facts| - 1, false));
      case Some(i) =>
        MergedEffect(evidence, i, evs);
        var inserted := MergeEvidence(i, evs);
        if inserted > 0 {
          facts := facts[i := facts[i].(corroboration := facts[i].corroboration + 1,
            lastVerified := fact.lastVerified)];
        }
        r := Ok((i, true));
    }
  }

  // ----- what the calls alone say the store must hold

  function ClusterOfCall(clusterOf: string -> string, c: Call): ClusterId {
    ClusterId(c.fact.subject, c.fact.kind, clusterOf(c.fact.body))
  }

  /** The calls about one cluster, in order. */
  function About(clusterOf: string -> string, calls: seq<Call>, id: ClusterId): seq<Call> {
    if calls == [] then []
    else About(clusterOf, calls[..|calls| - 1], id)
         + (if ClusterOfCall(clusterOf, calls[|calls| - 1]) == id then [calls[|calls| - 1]] else [])
  }

  function AllRefs(h: seq<Call>): set<string> {
    set c, e | c in h && e in c.evidence :: e.ref
  }

  predicate BringsNew(h: seq<Call>, c: Call) { !(Refs(c.evidence) <= AllRefs(h)) }

  /** Later calls that brought at least one reference not seen before. */
  function NewRefCalls(h: seq<Call>): nat {
    if |h| <= 1 then 0
    else NewRefCalls(h[..|h| - 1]) + if BringsNew(h[..|h| - 1], h[|h| - 1]) then 1 else 0
  }

  function LastVerified(h: seq<Call>): int
    requires h != []
  {
    if |h| == 1 || BringsNew(h[..|h| - 1], h[|h| - 1]) then h[|h| - 1].fact.lastVerified
    else LastVerified(h[..|h| - 1])
  }

  function ExpectedFact(h: seq<Call>, id: ClusterId): Fact
    requires h != []
  {
    h[0].fact.(clusterKey := id.key, corroboration := h[0].fact.corroboration + NewRefCalls(h),
               lastVerified := LastVerified(h))
  }

  ghost predicate OnePerCluster(s: Store) {
    forall i, j :: 0 <= i < j < |s.facts| ==> IdOf(s.facts[i]) != IdOf(s.facts[j])
  }

  ghost predicate HasFact(s: Store, id: ClusterId) {
    exists i :: 0 <= i < |s.facts| && IdOf(s.facts[i]) == id
  }

  ghost predicate Covers(s: Store, clusterOf: string -> string, calls: seq<Call>) {
    forall id :: About(clusterOf, calls, id) != [] ==> HasFact(s, id)
  }

  /** Exactly one fact per cluster called about, with exactly the expected columns and references. */
  ghost predicate Reflects(s: Store, clusterOf: string -> string, calls: seq<Call>) {
    && OnePerCluster(s)
    && (forall i :: 0 <= i < |s.facts| ==> Mirrors(s, i, About(clusterOf, calls, IdOf(s.facts[i]))))
    && Covers(s, clusterOf, calls)
    && (forall e :: e in s.evidence ==> e.factId < |s.facts|)
  }

  ghost predicate Mirrors(s: Store, i: nat, h: seq<Call>)
    requires i < |s.facts|
  {
    h != [] && s.facts[i] == ExpectedFact(h, IdOf(s.facts[i])) && RefsOf(s.evidence, i) == AllRefs(h)
  }

  function AfterCalls(clusterOf: string -> string, calls: seq<Call>): Store {
    if calls == [] then Store([], [])
    else AfterUpsert(AfterCalls(clusterOf, calls[..|calls| - 1]), clusterOf, calls[|calls| - 1])
  }

  lemma {:induction false} MergedEffect(evidence: seq<Evidence>, id: nat, evs: seq<Support>)
    ensures RefsOf(Merged(evidence, id, evs), id) == RefsOf(evidence, id) + Refs(evs)
    ensures forall j :: j != id ==> RefsOf(Merged(evidence, id, evs), j) == RefsOf(evidence, j)
    ensures |Merged(evidence, id, evs)| >= |evidence|
    ensures |Merged(evidence, id, evs)| == |evidence| <==> Refs(evs) <= RefsOf(evidence, id)
    ensures |Merged(evidence, id, evs)| == |evidence| ==> Merged(evidence, id, evs) == evidence
    ensures forall e :: e in Merged(evidence, id, evs) ==> e in evidence || e.factId == id
  {
    if evs == [] {
      assert Refs(evs) == {};
    } else {
      var front, last := evs[..|evs| - 1], evs[|evs| - 1];
      var before := Merged(evidence, id, front);
      MergedEffect(evidence, id, front);
      assert evs == front + [last];
      RefsSnoc(front, last);
      EvidenceSnoc(before, Evidence(id, last));
    }
  }

  /** Rows are only added: those given by the call, under the fact, each with a reference that it did not have. */
  lemma {:induction false} MergedRows(evidence: seq<Evidence>, id: nat, evs: seq<Support>)
    ensures evidence <= Merged(evidence, id, evs)
    ensures forall k :: |evidence| <= k < |Merged(evidence, id, evs)| ==>
      var row := Merged(evidence, id, evs)[k];
      row.factId == id && row.support in evs && row.support.ref !in RefsOf(Merged(evidence, id, evs)[..k], id)
  {
    if evs != [] {
      var front, last := evs[..|evs| - 1], evs[|evs| - 1];
      var before := Merged(evidence, id, front);
      MergedRows(evidence, id, front);
      assert evs == front + [last];
      assert (before + [Evidence(id, last)])[..|before|] == before;
      forall k | 0 <= k < |before| ensures (before + [Evidence(id, last)])[..k] == before[..k] {}
    }
  }

  /** Row `k` was given by the call, and stands under the fact of its cluster. */
  ghost predicate AddedBy(s: Store, clusterOf: string -> string, c: Call, k: nat) {
    k < |s.evidence| ==>
      && s.evidence[k].factId < |s.facts| && s.evidence[k].support in c.evidence
      && IdOf(s.facts[s.evidence[k].factId]) == ClusterOfCall(clusterOf, c)
  }

  /** The rows that a call adds for a fact: all it gives if the fact is new, else those with a new reference. */
  lemma UpsertAppends(s: Store, clusterOf: string -> string, c: Call)
    ensures var after := AfterUpsert(s, clusterOf, c);
      && s.evidence <= after.evidence
      && (forall k: nat :: |s.evidence| <= k ==> AddedBy(after, clusterOf, c, k))
      && (|after.facts| > |s.facts| ==>
            && |after.evidence| == |s.evidence| + |c.evidence|
            && forall k :: 0 <= k < |c.evidence| ==> after.evidence[|s.evidence| + k].support == c.evidence[k])
  {
    var after := AfterUpsert(s, clusterOf, c);
    var fact := c.fact.(clusterKey := clusterOf(c.fact.body));
    match FirstMatch(s.facts, IdOf(fact))
    case None =>
      var rows := Rows(|s.facts|, c.evidence);
      forall k: nat | |s.evidence| <= k < |after.evidence| ensures AddedBy(after, clusterOf, c, k) {
        assert after.evidence[k] == rows[k - |s.evidence|];
      }
    case Some(i) => MergedRows(s.evidence, i, c.evidence);
  }

  lemma RefsSnoc(evs: seq<Support>, last: Support)
    ensures Refs(evs + [last]) == Refs(evs) + {last.ref}
  {
    assert forall e :: e in evs + [last] <==> e in evs || e == last;
  }

  lemma EvidenceSnoc(evidence: seq<Evidence>, e: Evidence)
    ensures RefsOf(evidence + [e], e.factId) == RefsOf(evidence, e.factId) + {e.support.ref}
    ensures forall j :: j != e.factId ==> RefsOf(evidence + [e], j) == RefsOf(evidence, j)
  {
    assert forall x :: x in evidence + [e] <==> x in evidence || x == e;
  }

  lemma RowsEffect(evidence: seq<Evidence>, id: nat, evs: seq<Support>)
    requires forall e :: e in evidence ==> e.factId < id
    ensures RefsOf(evidence + Rows(id, evs), id) == Refs(evs)
    ensures forall j: nat :: j < id ==> RefsOf(evidence + Rows(id, evs), j) == RefsOf(evidence, j)
    ensures forall e :: e in evidence + Rows(id, evs) ==> e.factId <= id
  {
    var rows := Rows(id, evs);
    assert forall e :: e in rows ==> e.factId == id && e.support in evs;
    forall x | x in Refs(evs) ensures x in RefsOf(evidence + rows, id) {
      var e :| e in evs && e.ref == x;
      var i :| 0 <= i < |evs| && evs[i] == e;
      assert rows[i] in evidence + rows;
    }
  }

  lemma AllRefsSnoc(h: seq<Call>, c: Call)
    ensures AllRefs(h + [c]) == AllRefs(h) + Refs(c.evidence)
  {
    assert forall x :: x in h + [c] <==> x in h || x == c;
  }

  lemma AboutSnoc(clusterOf: string -> string, calls: seq<Call>, c: Call, id: ClusterId)
    ensures About(clusterOf, calls + [c], id)
            == if ClusterOfCall(clusterOf, c) == id then About(clusterOf, calls, id) + [c]
               else About(clusterOf, calls, id)
  {
    assert (calls + [c])[..|calls|] == calls;
    assert About(clusterOf, calls, id) + [] == About(clusterOf, calls, id);
  }

  lemma ExpectedSnoc(h: seq<Call>, c: Call, id: ClusterId)
    requires h != []
    ensures ExpectedFact(h + [c], id) ==
            if BringsNew(h, c)
            then ExpectedFact(h, id).(corroboration := ExpectedFact(h, id).corroboration + 1,
                                      lastVerified := c.fact.lastVerified)
            else ExpectedFact(h, id)
  {
    assert (h + [c])[..|h|] == h && (h + [c])[0] == h[0];
  }

  lemma MergeMirrors(s: Store, clusterOf: string -> string, calls: seq<Call>, c: Call, at: nat, i: nat)
    requires at < |s.facts| && i < |s.facts| && OnePerCluster(s)
    requires Mirrors(s, i, About(clusterOf, calls, IdOf(s.facts[i])))
    requires Mirrors(s, at, About(clusterOf, calls, IdOf(s.facts[at])))
    requires IdOf(s.facts[at]) == ClusterOfCall(clusterOf, c)
    requires FirstMatch(s.facts, ClusterOfCall(clusterOf, c)) == Some(at)
    ensures var s' := AfterUpsert(s, clusterOf, c);
      |s'.facts| == |s.facts| && IdOf(s'.facts[i]) == IdOf(s.facts[i])
      && Mirrors(s', i, About(clusterOf, calls + [c], IdOf(s.facts[i])))
  {
    assert ClusterOfCall(clusterOf, c) == IdOf(c.fact.(clusterKey := clusterOf(c.fact.body)));
    MergedEffect(s.evidence, at, c.evidence);
    AboutSnoc(clusterOf, calls, c, IdOf(s.facts[i]));
    if i == at {
      var h := About(clusterOf, calls, IdOf(s.facts[at]));
      AllRefsSnoc(h, c);
      ExpectedSnoc(h, c, IdOf(s.facts[at]));
    } else {
      assert IdOf(s.facts[i]) != IdOf(s.facts[at]);
    }
  }

  lemma UpsertMerges(s: Store, clusterOf: string -> string, calls: seq<Call>, c: Call, at: nat)
    requires Reflects(s, clusterOf, calls)
    requires at < |s.facts| && IdOf(s.facts[at]) == ClusterOfCall(clusterOf, c)
    requires FirstMatch(s.facts, ClusterOfCall(clusterOf, c)) == Some(at)
    ensures Reflects(AfterUpsert(s, clusterOf, c), clusterOf, calls + [c])
  {
    var s' := AfterUpsert(s, clusterOf, c);
    assert ClusterOfCall(clusterOf, c) == IdOf(c.fact.(clusterKey := clusterOf(c.fact.body)));
    MergedEffect(s.evidence, at, c.evidence);
    forall i | 0 <= i < |s.facts|
      ensures IdOf(s'.facts[i]) == IdOf(s.facts[i])
      ensures Mirrors(s', i, About(clusterOf, calls + [c], IdOf(s'.facts[i])))
    {
      MergeMirrors(s, clusterOf, calls, c, at, i);
    }
    forall id | About(clusterOf, calls + [c], id) != [] ensures HasFact(s', id) {
      AboutSnoc(clusterOf, calls, c, id);
      var i :| 0 <= i < |s.facts| && IdOf(s.facts[i]) == id;
      assert IdOf(s'.facts[i]) == id;
    }
  }

  lemma InsertMirrors(s: Store, clusterOf: string -> string, calls: seq<Call>, c: Call)
    requires Reflects(s, clusterOf, calls) && FirstMatch(s.facts, ClusterOfCall(clusterOf, c)).None?
    ensures var s' := AfterUpsert(s, clusterOf, c);
      |s'.facts| == |s.facts| + 1 && IdOf(s'.facts[|s.facts|]) == ClusterOfCall(clusterOf, c)
      && Mirrors(s', |s.facts|, About(clusterOf, calls + [c], ClusterOfCall(clusterOf, c)))
  {
    var id := ClusterOfCall(clusterOf, c);
    assert id == IdOf(c.fact.(clusterKey := clusterOf(c.fact.body)));
    forall i | 0 <= i < |s.facts| ensures IdOf(s.facts[i]) != id { assert s.facts[i] in s.facts; }
    assert About(clusterOf, calls, id) == [];
    AboutSnoc(clusterOf, calls, c, id);
    RowsEffect(s.evidence, |s.facts|, c.evidence);
    AllRefsSnoc([], c);
    assert [] + [c] == [c] && AllRefs([]) == {};
  }

  lemma InsertKeepsMirror(s: Store, clusterOf: string -> string, calls: seq<Call>, c: Call, i: nat)
    requires Reflects(s, clusterOf, calls) && FirstMatch(s.facts, ClusterOfCall(clusterOf, c)).None? && i < |s.facts|
    ensures var s' := AfterUpsert(s, clusterOf, c);
      i < |s'.facts| && s'.facts[i] == s.facts[i] && IdOf(s.facts[i]) != ClusterOfCall(clusterOf, c)
      && Mirrors(s', i, About(clusterOf, calls + [c], IdOf(s.facts[i])))
  {
    assert ClusterOfCall(clusterOf, c) == IdOf(c.fact.(clusterKey := clusterOf(c.fact.body)));
    assert s.facts[i] in s.facts;
    AboutSnoc(clusterOf, calls, c, IdOf(s.facts[i]));
    RowsEffect(s.evidence, |s.facts|, c.evidence);
    assert Mirrors(s, i, About(clusterOf, calls, IdOf(s.facts[i])));
  }

  lemma InsertCovers(s: Store, s': Store, clusterOf: string -> string, calls: seq<Call>, c: Call)
    requires Covers(s, clusterOf, calls) && |s'.facts| == |s.facts| + 1 && s'.facts[..|s.facts|] == s.facts
    requires IdOf(s'.facts[|s.facts|]) == ClusterOfCall(clusterOf, c)
    ensures Covers(s', clusterOf, calls + [c])
  {
    forall id | About(clusterOf, calls + [c], id) != [] ensures HasFact(s', id) {
      AboutSnoc(clusterOf, calls, c, id);
      if id != ClusterOfCall(clusterOf, c) {
        var i :| 0 <= i < |s.facts| && IdOf(s.facts[i]) == id;
        assert IdOf(s'.facts[i]) == id;
      }
    }
  }

  lemma UpsertInserts(s: Store, clusterOf: string -> string, calls: seq<Call>, c: Call)
    requires Reflects(s, clusterOf, calls) && FirstMatch(s.facts, ClusterOfCall(clusterOf, c)).None?
    ensures Reflects(AfterUpsert(s, clusterOf, c), clusterOf, calls + [c])
  {
    var s' := AfterUpsert(s, clusterOf, c);
    var n := |s.facts|;
    InsertMirrors(s, clusterOf, calls, c);
    RowsEffect(s.evidence, n, c.evidence);
    forall i | 0 <= i < n
      ensures IdOf(s.facts[i]) != ClusterOfCall(clusterOf, c) && s'.facts[i] == s.facts[i]
      ensures Mirrors(s', i, About(clusterOf, calls + [c], IdOf(s'.facts[i])))
    {
      InsertKeepsMirror(s, clusterOf, calls, c, i);
    }
    InsertCovers(s, s', clusterOf, calls, c);
  }

  /**
   Over any sequence of accepted calls from an empty store there is exactly one fact per cluster,
   with every column of the first call except the two that merging may touch; its references are
   the union over its calls, and its corroboration the first value plus the number of later calls
   that brought something new.
   */
  lemma {:induction false} UpsertsReflectCalls(clusterOf: string -> string, calls: seq<Call>)
    ensures Reflects(AfterCalls(clusterOf, calls), clusterOf, calls)
  {
    if calls != [] {
      var front, c := calls[..|calls| - 1], calls[|calls| - 1];
      UpsertsReflectCalls(clusterOf, front);
      var s := AfterCalls(clusterOf, front);
      assert calls == front + [c];
      match FirstMatch(s.facts, ClusterOfCall(clusterOf, c))
      case None => UpsertInserts(s, clusterOf, front, c);
      case Some(at) => UpsertMerges(s, clusterOf, front, c, at);
    }
  }

  lemma RefsGrow(front: seq<Call>, c: Call)
    ensures |AllRefs(front + [c])| >= |AllRefs(front)| + if BringsNew(front, c) then 1 else 0
  {
    AllRefsSnoc(front, c);
    if BringsNew(front, c) {
      var x :| x in Refs(c.evidence) && x !in AllRefs(front);
      SubsetSize(AllRefs(front) + {x}, AllRefs(front + [c]));
    } else {
      SubsetSize(AllRefs(front), AllRefs(front + [c]));
    }
  }

  lemma OneCallRefs(c: Call)
    ensures AllRefs([c]) == Refs(c.evidence)
  {
    AllRefsSnoc([], c);
    assert [] + [c] == [c] && AllRefs([]) == {};
  }

  /** Corroboration grows by at most the number of new distinct references. */
  lemma {:induction false} CorroborationBounded(h: seq<Call>)
    requires h != []
    ensures NewRefCalls(h) <= |AllRefs(h)| - |Refs(h[0].evidence)|
  {
    if |h| == 1 {
      OneCallRefs(h[0]);
      assert h == [h[0]];
    } else {
      var front, c := h[..|h| - 1], h[|h| - 1];
      CorroborationBounded(front);
      RefsGrow(front, c);
      assert h == front + [c];
    }
  }

  lemma {:induction false} AboutMember(clusterOf: string -> string, calls: seq<Call>, id: ClusterId, c: Call)
    ensures c in About(clusterOf, calls, id) <==> c in calls && ClusterOfCall(clusterOf, c) == id
  {
    if calls != [] {
      var front, last := calls[..|calls| - 1], calls[|calls| - 1];
      AboutMember(clusterOf, front, id, c);
      assert calls == front + [last];
    }
  }

  lemma AboutOrderFree(clusterOf: string -> string, a: seq<Call>, b: seq<Call>, id: ClusterId)
    requires multiset(a) == multiset(b)
    ensures AllRefs(About(clusterOf, a, id)) == AllRefs(About(clusterOf, b, id))
    ensures About(clusterOf, a, id) == [] <==> About(clusterOf, b, id) == []
  {
    var ha, hb := About(clusterOf, a, id), About(clusterOf, b, id);
    forall c ensures c in ha <==> c in hb {
      assert c in a <==> c in multiset(a);
      assert c in b <==> c in multiset(b);
      AboutMember(clusterOf, a, id, c);
      AboutMember(clusterOf, b, id, c);
    }
    assert ha != [] ==> ha[0] in hb;
    assert hb != [] ==> hb[0] in ha;
  }

  lemma HasFactIff(clusterOf: string -> string, calls: seq<Call>, id: ClusterId)
    ensures HasFact(AfterCalls(clusterOf, calls), id) <==> About(clusterOf, calls, id) != []
  {
    UpsertsReflectCalls(clusterOf, calls);
  }

  /** The stored clusters, and the stored references of each, do not depend on the order of the calls. */
  lemma RefsOrderFree(clusterOf: string -> string, a: seq<Call>, b: seq<Call>, i: nat, j: nat)
    requires multiset(a) == multiset(b)
    ensures forall id :: HasFact(AfterCalls(clusterOf, a), id) <==> HasFact(AfterCalls(clusterOf, b), id)
    ensures var sa, sb := AfterCalls(clusterOf, a), AfterCalls(clusterOf, b);
      i < |sa.facts| && j < |sb.facts| && IdOf(sa.facts[i]) == IdOf(sb.facts[j]) ==>
        RefsOf(sa.evidence, i) == RefsOf(sb.evidence, j)
  {
    var sa, sb := AfterCalls(clusterOf, a), AfterCalls(clusterOf, b);
    forall id ensures HasFact(sa, id) <==> HasFact(sb, id) {
      HasFactIff(clusterOf, a, id);
      HasFactIff(clusterOf, b, id);
      AboutOrderFree(clusterOf, a, b, id);
    }
    if i < |sa.facts| && j < |sb.facts| && IdOf(sa.facts[i]) == IdOf(sb.facts[j]) {
      UpsertsReflectCalls(clusterOf, a);
      UpsertsReflectCalls(clusterOf, b);
      AboutOrderFree(clusterOf, a, b, IdOf(sa.facts[i]));
      assert Mirrors(sa, i, About(clusterOf, a, IdOf(sa.facts[i])));
      assert Mirrors(sb, j, About(clusterOf, b, IdOf(sb.facts[j])));
    }
  }
}
