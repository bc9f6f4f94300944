/** Documents with a bounded revision history (evergreen/sqlite_store.go). */
module EvergreenStore {
  import opened Basics

  const DEFAULT_MAX_REVISIONS := 5

  datatype DocStatus = Fresh | StaleDoc | Orphaned | Refreshing

  /** One citation; hashes and paths are empty when unknown, line 0 when unknown. */
  datatype ManifestEntry = ManifestEntry(symbolId: Option<int>, repo: string, filePath: string, contentHash: string,
                                         signatureHash: string, lineStart: int, lineEnd: int, fuzzy: bool)

  datatype Document = Document(id: string, query: string, answer: string, manifest: seq<ManifestEntry>,
      status: DocStatus, policy: string, maxAgeDays: int, createdAt: int, lastRefreshedAt: int,
      externalId: Option<string>, backend: string)

  /** What a save overwrites. */
  datatype Revision = Revision(answer: string, manifest: seq<ManifestEntry>)

  datatype RevKey = RevKey(id: string, num: nat)

  datatype Tables = Tables(docs: map<string, Document>, revs: map<RevKey, Revision>)

  function RevisionOf(d: Document): Revision { Revision(d.answer, d.manifest) }

  function Nums(revs: map<RevKey, Revision>, id: string): set<nat> {
    set k | k in revs && k.id == id :: k.num
  }

  /** COALESCE(MAX(revision_num), 0). */
  ghost predicate IsMax(nums: set<nat>, max: nat) {
    (max in nums || (max == 0 && nums == {})) && forall n: nat :: n in nums ==> n <= max
  }

  // ----- the full history, kept by no one

  /**
   A document's life since its creation: the current row, every pair ever overwritten, and how many
   of the oldest of them have been pruned.
   */
  datatype Life = Absent | Present(doc: Document, overwritten: seq<Revision>, pruned: nat)

  datatype Op = Save(doc: Document, cap: nat) | Delete(id: string) | UpdateStatus(id: string, status: DocStatus)

  function LifeAfter(l: Life, id: string, op: Op): Life {
    match op
    case Save(doc, cap) =>
      if doc.id != id || id == "" then l
      else (match l
        case Absent => Present(doc, [], 0)
        case Present(previous, h, pruned) =>
          Present(doc, h + [RevisionOf(previous)], Max(pruned, |h| + 1 - cap)))
    case Delete(x) => if x == id then Absent else l
    case UpdateStatus(x, status) => if x == id && l.Present? then l.(doc := l.doc.(status := status)) else l
  }

  function LifeOf(ops: seq<Op>, id: string): Life {
    if ops == [] then Absent else LifeAfter(LifeOf(ops[..|ops| - 1], id), id, ops[|ops| - 1])
  }

  /** The stored revisions are the overwritten pairs that were not pruned, under their own numbers. */
  ghost predicate Mirrors(t: Tables, id: string, l: Life) {
    match l
    case Absent => id !in t.docs && Nums(t.revs, id) == {}
    case Present(doc, h, pruned) =>
      && id in t.docs && t.docs[id] == doc
      && pruned <= |h| && (h != [] ==> pruned < |h|)
      && (forall n: nat :: n in Nums(t.revs, id) <==> pruned < n <= |h|)
      && (forall n: nat :: pruned < n <= |h| ==> RevKey(id, n) in t.revs && t.revs[RevKey(id, n)] == h[n - 1])
  }

  // ----- the statements

  /** The revisions after a capture whose largest number was `max`. */
  ghost predicate CapturedAt(t: Tables, x: string, cap: nat, revs': map<RevKey, Revision>, max: nat) {
    x in t.docs && IsMax(Nums(t.revs, x), max)
    && revs' == Pruned(t.revs[RevKey(x, max + 1) := RevisionOf(t.docs[x])], x, max + 1 - cap)
  }

  /** Copy the current row under the next number, then drop the numbers at or below MAX - cap. */
  ghost predicate Captured(t: Tables, id: string, cap: nat, revs': map<RevKey, Revision>) {
    if id !in t.docs then revs' == t.revs
    else
      exists max: nat :: CapturedAt(t, id, cap, revs', max)
  }

  function Pruned(revs: map<RevKey, Revision>, id: string, cutoff: int): map<RevKey, Revision> {
    map k | k in revs && !(k.id == id && k.num <= cutoff) :: revs[k]
  }

  ghost predicate StepsTo(t: Tables, op: Op, t': Tables) {
    match op
    case Save(doc, cap) =>
      if doc.id == "" then t' == t
      else t'.docs == t.docs[doc.id := doc] && Captured(t, doc.id, cap, t'.revs)
    case Delete(id) => t'.docs == t.docs - {id} &&
      t'.revs == (map k | k in t.revs && (k.id != id || id !in t.docs) :: t.revs[k])
    case UpdateStatus(id, status) =>
      t' == if id in t.docs then t.(docs := t.docs[id := t.docs[id].(status := status)]) else t
  }

  datatype Outcome = Done | NotFound | Invalid | Failed

  class DocumentStore {
    const maxRevisions: nat
    var docs: map<string, Document>
    var revs: map<RevKey, Revision>

    /** Non-positive caps are ignored. */
    constructor (cap: Option<int>)
      ensures docs == map[] && revs == map[] && Valid()
      ensures maxRevisions == if cap.Some? && cap.value > 0 then cap.value else DEFAULT_MAX_REVISIONS
    {
      maxRevisions := if cap.Some? && cap.value > 0 then cap.value else DEFAULT_MAX_REVISIONS;
      docs, revs := map[], map[];
    }

    ghost function View(): Tables
      reads this
    {
      Tables(docs, revs)
    }

    /** Rows are keyed by their own id. */
    ghost predicate Valid()
      reads this
    {
      forall k :: k in docs ==> docs[k].id == k
    }

    method MaxRevision(id: string) returns (max: nat)
      ensures IsMax(Nums(revs, id), max)
    {
      max := 0;
      var todo := Nums(revs, id);
      while todo != {}
        invariant todo <= Nums(revs, id)
        invariant forall n: nat :: n in Nums(revs, id) && n !in todo ==> n <= max
        invariant max in Nums(revs, id) || max == 0
        invariant max == 0 && max !in Nums(revs, id) ==> todo == Nums(revs, id)
        decreases todo
      {
        assert exists n: nat :: n in todo;
        var n: nat :| n in todo;
        if n >= max { max := n; }
        todo := todo - {n};
      }
    }

    method CaptureRevision(id: string)
      modifies this`revs
      ensures Captured(old(View()), id, maxRevisions, revs)
    {
      if id !in docs { return; }
      var max := MaxRevision(id);
      revs := revs[RevKey(id, max + 1) := RevisionOf(docs[id])];
      revs := Pruned(revs, id, max + 1 - maxRevisions);
      assert CapturedAt(old(View()), id, maxRevisions, revs, max);
    }

    /** One transaction: a failure leaves both tables as they were. */
    method Save(doc: Document, fails: bool) returns (r: Outcome)
      requires Valid()
      modifies this
      ensures Valid()
      ensures r == if doc.id == "" then Invalid else if fails then Failed else Done
      ensures r != Done ==> View() == old(View())
      ensures r == Done ==> StepsTo(old(View()), Op.Save(doc, maxRevisions), View())
    {
      if doc.id == "" { return Invalid; }
      if fails { return Failed; }
      CaptureRevision(doc.id);
      docs := docs[doc.id := doc];
      r := Done;
    }

    method Get(id: string, fails: bool) returns (r: Result<Option<Document>>)
      ensures r == if fails then Err else Ok(if id in docs then Some(docs[id]) else None)
    {
      if fails { return Err; }
      r := Ok(if id in docs then Some(docs[id]) else None);
    }

    /** The foreign key takes the revisions along. */
    method Delete(id: string, fails: bool) returns (r: Outcome)
      requires Valid()
      modifies this
      ensures Valid()
      ensures r == if fails then Failed else if id in old(docs) then Done else NotFound
      ensures fails ==> View() == old(View())
      ensures !fails ==> StepsTo(old(View()), Op.Delete(id), View())
    {
      if fails { return Failed; }
      if id !in docs {
        assert revs == map k | k in revs :: revs[k];
        assert docs == docs - {id};
        return NotFound;
      }
      docs := docs - {id};
      revs := map k | k in revs && k.id != id :: revs[k];
      r := Done;
    }

    method UpdateStatus(id: string, status: DocStatus, fails: bool) returns (r: Outcome)
      requires Valid()
      modifies this`docs
      ensures Valid()
      ensures r == if fails then Failed else if id in old(docs) then Done else NotFound
      ensures fails ==> View() == old(View())
      ensures !fails ==> StepsTo(old(View()), Op.UpdateStatus(id, status), View())
    {
      if fails { return Failed; }
      if id !in docs { return NotFound; }
      docs := docs[id := docs[id].(status := status)];
      r := Done;
    }
  }

  // ----- bounded history refines full history

  lemma MaxOfMirror(t: Tables, id: string, l: Life, max: nat)
    requires Mirrors(t, id, l) && l.Present? && IsMax(Nums(t.revs, id), max)
    ensures max == |l.overwritten|
  {
    var n: nat := |l.overwritten|;
    if n > 0 { assert n in Nums(t.revs, id); }
    if max > 0 { assert max in Nums(t.revs, id); }
  }

  lemma NumsAfterCapture(revs: map<RevKey, Revision>, id: string, max: nat, rev: Revision, cutoff: int, x: string)
    ensures forall n: nat :: n in Nums(Pruned(revs[RevKey(id, max + 1) := rev], id, cutoff), x) <==>
      if x == id then (n in Nums(revs, id) || n == max + 1) && n > cutoff else n in Nums(revs, x)
  {
    var revs1 := revs[RevKey(id, max + 1) := rev];
    forall n: nat
      ensures n in Nums(Pruned(revs1, id, cutoff), x) <==> RevKey(x, n) in Pruned(revs1, id, cutoff)
      ensures n in Nums(revs, x) <==> RevKey(x, n) in revs
    {
    }
  }

  lemma OverwriteMirrors(t: Tables, t': Tables, doc: Document, cap: nat, l: Life, max: nat)
    requires Mirrors(t, doc.id, l) && l.Present? && cap > 0 && doc.id != ""
    requires t'.docs == t.docs[doc.id := doc] && CapturedAt(t, doc.id, cap, t'.revs, max)
    ensures Mirrors(t', doc.id, LifeAfter(l, doc.id, Save(doc, cap)))
  {
    var l' := LifeAfter(l, doc.id, Save(doc, cap));
    MaxOfMirror(t, doc.id, l, max);
    NumsAfterCapture(t.revs, doc.id, max, RevisionOf(t.docs[doc.id]), max + 1 - cap, doc.id);
    forall n: nat ensures n in Nums(t'.revs, doc.id) <==> l'.pruned < n <= |l'.overwritten| {
      assert n in Nums(t.revs, doc.id) <==> l.pruned < n <= |l.overwritten|;
    }
  }

  lemma OtherMirrors(t: Tables, t': Tables, doc: Document, cap: nat, id: string, l: Life, max: nat)
    requires Mirrors(t, id, l) && doc.id != id
    requires t'.docs == t.docs[doc.id := doc] && CapturedAt(t, doc.id, cap, t'.revs, max)
    ensures Mirrors(t', id, l)
  {
    NumsAfterCapture(t.revs, doc.id, max, RevisionOf(t.docs[doc.id]), max + 1 - cap, id);
    assert Nums(t'.revs, id) == Nums(t.revs, id);
  }

  lemma SaveMirrors(t: Tables, t': Tables, doc: Document, cap: nat, id: string, l: Life)
    requires Mirrors(t, id, l) && cap > 0 && StepsTo(t, Save(doc, cap), t')
    ensures Mirrors(t', id, LifeAfter(l, id, Save(doc, cap)))
  {
    if doc.id != "" && doc.id in t.docs {
      var max: nat :| CapturedAt(t, doc.id, cap, t'.revs, max);
      if doc.id == id {
        OverwriteMirrors(t, t', doc, cap, l, max);
      } else {
        OtherMirrors(t, t', doc, cap, id, l, max);
      }
    }
  }

  lemma DeleteMirrors(t: Tables, t': Tables, x: string, id: string, l: Life)
    requires Mirrors(t, id, l) && StepsTo(t, Delete(x), t')
    ensures Mirrors(t', id, LifeAfter(l, id, Delete(x)))
  {
    forall n: nat
      ensures n in Nums(t'.revs, id) <==> RevKey(id, n) in t'.revs
      ensures n in Nums(t.revs, id) <==> RevKey(id, n) in t.revs
    {
    }
    if x == id {
      if id !in t.docs { assert Nums(t'.revs, id) == Nums(t.revs, id); }
      assert Nums(t'.revs, id) == {};
    } else if l.Absent? {
      assert Nums(t'.revs, id) == {};
    }
  }

  ghost predicate Session(ts: seq<Tables>, ops: seq<Op>) {
    && |ts| == |ops| + 1 && ts[0] == Tables(map[], map[])
    && (forall i :: 0 <= i < |ops| ==> StepsTo(ts[i], ops[i], ts[i + 1]))
    && (forall i :: 0 <= i < |ops| && ops[i].Save? ==> ops[i].cap > 0)
  }

  /**
   After any mix of saves, status updates and deletes, under caps that may change between sessions,
   each document's stored revisions are a contiguous run of the pairs overwritten since it was created
   or last deleted, under consecutive numbers that end at the last of them.
   */
  lemma {:induction false} BoundedHistoryRefines(ts: seq<Tables>, ops: seq<Op>, id: string)
    requires Session(ts, ops)
    ensures Mirrors(ts[|ops|], id, LifeOf(ops, id))
    decreases |ops|
  {
    if ops == [] {
      assert Nums(ts[0].revs, id) == {};
    } else {
      var n := |ops| - 1;
      BoundedHistoryRefines(ts[..n + 1], ops[..n], id);
      var l := LifeOf(ops[..n], id);
      match ops[n]
      case Save(doc, cap) => SaveMirrors(ts[n], ts[n + 1], doc, cap, id, l);
      case Delete(x) => DeleteMirrors(ts[n], ts[n + 1], x, id, l);
      case UpdateStatus(_, _) =>
    }
  }

  /** With one cap throughout, exactly the last min(n - 1, cap) overwritten pairs are kept. */
  lemma {:induction false} OneCapKeepsLast(ops: seq<Op>, id: string, cap: nat)
    requires cap > 0 && forall i :: 0 <= i < |ops| && ops[i].Save? ==> ops[i].cap == cap
    ensures LifeOf(ops, id).Present? ==>
      LifeOf(ops, id).pruned == Max(0, |LifeOf(ops, id).overwritten| - cap)
    decreases |ops|
  {
    if ops != [] { OneCapKeepsLast(ops[..|ops| - 1], id, cap); }
  }

  /** Saves of the document since it was created or last deleted. */
  function SavesOf(ops: seq<Op>, id: string): nat {
    if ops == [] then 0
    else
      var n := SavesOf(ops[..|ops| - 1], id);
      match ops[|ops| - 1]
      case Save(doc, _) => if doc.id == id && id != "" then n + 1 else n
      case Delete(x) => if x == id then 0 else n
      case UpdateStatus(_, _) => n
  }

  lemma {:induction false} OverwrittenCountsSaves(ops: seq<Op>, id: string)
    ensures match LifeOf(ops, id)
            case Absent => SavesOf(ops, id) == 0
            case Present(_, h, _) => |h| == SavesOf(ops, id) - 1
    decreases |ops|
  {
    if ops != [] { OverwrittenCountsSaves(ops[..|ops| - 1], id); }
  }

  // ----- the history in terms of what was saved

  /** The documents saved under the id since it was created or last deleted, in order. */
  function SavedDocs(ops: seq<Op>, id: string): seq<Document> {
    if ops == [] then []
    else
      var saved := SavedDocs(ops[..|ops| - 1], id);
      match ops[|ops| - 1]
      case Save(doc, _) => if doc.id == id && id != "" then saved + [doc] else saved
      case Delete(x) => if x == id then [] else saved
      case UpdateStatus(_, _) => saved
  }

  /** The status last given to the id, by a save or by an update of a document that was there. */
  function StatusOf(ops: seq<Op>, id: string): DocStatus {
    if ops == [] then Fresh
    else
      match ops[|ops| - 1]
      case Save(doc, _) => if doc.id == id && id != "" then doc.status else StatusOf(ops[..|ops| - 1], id)
      case UpdateStatus(x, status) =>
        if x == id && SavedDocs(ops[..|ops| - 1], id) != [] then status else StatusOf(ops[..|ops| - 1], id)
      case Delete(_) => StatusOf(ops[..|ops| - 1], id)
  }

  /** A life is what was saved: the last save with the status it has now, and all saves before it. */
  lemma {:induction false} LifeIsSaved(ops: seq<Op>, id: string)
    ensures var saved := SavedDocs(ops, id);
      match LifeOf(ops, id)
      case Absent => saved == []
      case Present(doc, h, _) =>
        && |saved| == |h| + 1 && doc == saved[|h|].(status := StatusOf(ops, id))
        && forall i :: 0 <= i < |h| ==> h[i].answer == saved[i].answer && h[i].manifest == saved[i].manifest
    decreases |ops|
  {
    if ops != [] { LifeIsSaved(ops[..|ops| - 1], id); }
  }

  /**
   The store after any session: the last saved document with its last status, and under number `n` the answer
   and manifest of the n-th save, never that of the current one.
   */
  lemma RevisionsAreSaves(ts: seq<Tables>, ops: seq<Op>, id: string)
    requires Session(ts, ops)
    ensures var saved, t := SavedDocs(ops, id), ts[|ops|];
      && (id in t.docs <==> saved != [])
      && (saved != [] ==> t.docs[id] == saved[|saved| - 1].(status := StatusOf(ops, id)))
      && forall n: nat :: RevKey(id, n) in t.revs ==>
           1 <= n < |saved| && t.revs[RevKey(id, n)] == Revision(saved[n - 1].answer, saved[n - 1].manifest)
  {
    BoundedHistoryRefines(ts, ops, id);
    LifeIsSaved(ops, id);
    var t := ts[|ops|];
    forall n: nat ensures RevKey(id, n) in t.revs <==> n in Nums(t.revs, id) {}
  }
}
