/** Claims anchored to line ranges, and their invalidation by diffs (anchor/anchor.go). */
module AnchorIndex {
  import opened Basics
  import opened GitDiff
  import IntSort

  datatype AnchorStatus = Verified | Stale | Invalid

  /** Lines (0, 0) stand for the whole file. */
  datatype Anchor = Anchor(claimId: int, file: string, startLine: int, endLine: int, status: AnchorStatus)

  datatype ClaimAt = ClaimAt(id: int, file: string, line: int)

  datatype Summary = Summary(total: nat, verified: nat, stale: nat, invalid: nat)

  type ByFile = map<string, seq<Anchor>>

  predicate IsWholeFile(a: Anchor) { a.startLine == 0 && a.endLine == 0 }

  predicate Overlaps(a: Anchor, start: int, end: int) {
    IsWholeFile(a) || (a.startLine <= end && a.endLine >= start)
  }

  function AnchorFor(c: ClaimAt, radius: int): Anchor {
    if c.line > 0 then Anchor(c.id, c.file, Max(1, c.line - radius), c.line + radius, Verified)
    else Anchor(c.id, c.file, 0, 0, Verified)
  }

  // ----- what one change does to one anchor

  /** The lines a hunk is about: the old ones, or the new ones of a pure insertion. */
  function FirstLine(h: Hunk): int { if h.oldCount == 0 then h.newStart else h.oldStart }

  function LastLine(h: Hunk): int {
    if h.oldCount == 0 then h.newStart + h.newCount - 1 else h.oldStart + h.oldCount - 1
  }

  /** Set the anchors of a file -- all of them, or those that some hunk touches -- to a status. */
  datatype Mark = Mark(file: string, hunks: Option<seq<Hunk>>, status: AnchorStatus)

  predicate Touches(m: Mark, a: Anchor) {
    a.file == m.file
    && (m.hunks.Some? ==>
      exists i :: 0 <= i < |m.hunks.value| && Overlaps(a, FirstLine(m.hunks.value[i]), LastLine(m.hunks.value[i])))
  }

  function Marked(m: Mark, a: Anchor): Anchor {
    if Touches(m, a) then a.(status := m.status) else a
  }

  function PathMark(c: FileChange): Mark {
    Mark(c.path, if |c.hunks| > 0 then Some(c.hunks) else None, Stale)
  }

  /** The marks of a change, in order; a rename also marks the old path, whole. */
  function MarksOf(c: FileChange): seq<Mark> {
    match c.status
    case Deleted => [Mark(c.path, None, Invalid)]
    case Renamed => [Mark(c.oldPath, None, Stale), PathMark(c)]
    case _ => [PathMark(c)]
  }

  function AllMarks(changes: seq<FileChange>): seq<Mark> {
    if changes == [] then [] else AllMarks(changes[..|changes| - 1]) + MarksOf(changes[|changes| - 1])
  }

  /** The per-anchor fold. */
  function Final(a: Anchor, marks: seq<Mark>): Anchor {
    if marks == [] then a else Marked(marks[|marks| - 1], Final(a, marks[..|marks| - 1]))
  }

  // ----- the index

  /** Every anchor is filed under its own file. */
  ghost predicate Filed(m: ByFile) {
    forall f, i :: f in m && 0 <= i < |m[f]| ==> m[f][i].file == f
  }

  function MarkedAll(m: Mark, anchors: seq<Anchor>): (r: seq<Anchor>)
    ensures |r| == |anchors| && forall i :: 0 <= i < |anchors| ==> r[i] == Marked(m, anchors[i])
  {
    seq(|anchors|, i requires 0 <= i < |anchors| => Marked(m, anchors[i]))
  }

  /** The anchors whose status a mark changes, as they are afterwards. */
  function Moved(m: Mark, anchors: seq<Anchor>): seq<Anchor> {
    if anchors == [] then []
    else
      var last := anchors[|anchors| - 1];
      Moved(m, anchors[..|anchors| - 1]) + if Marked(m, last).status != last.status then [Marked(m, last)] else []
  }

  function ApplyMark(b: ByFile, m: Mark): ByFile {
    if m.file in b then b[m.file := MarkedAll(m, b[m.file])] else b
  }

  function ApplyMarks(b: ByFile, marks: seq<Mark>): ByFile {
    if marks == [] then b else ApplyMark(ApplyMarks(b, marks[..|marks| - 1]), marks[|marks| - 1])
  }

  function MovedBy(b: ByFile, marks: seq<Mark>): seq<Anchor> {
    if marks == [] then []
    else
      var n := |marks| - 1;
      var before := ApplyMarks(b, marks[..n]);
      MovedBy(b, marks[..n]) + if marks[n].file in before then Moved(marks[n], before[marks[n].file]) else []
  }

  lemma {:induction false} ApplyMarksAppend(b: ByFile, ms: seq<Mark>, more: seq<Mark>)
    ensures ApplyMarks(b, ms + more) == ApplyMarks(ApplyMarks(b, ms), more)
    ensures MovedBy(b, ms + more) == MovedBy(b, ms) + MovedBy(ApplyMarks(b, ms), more)
  {
    if more == [] {
      assert ms + more == ms;
    } else {
      var n := |more| - 1;
      assert (ms + more)[..|ms + more| - 1] == ms + more[..n];
      ApplyMarksAppend(b, ms, more[..n]);
    }
  }

  /** The fold over the index is, at every place, the fold of that anchor. */
  lemma {:induction false} ApplyMarksIsFold(b: ByFile, marks: seq<Mark>)
    requires Filed(b)
    ensures var r := ApplyMarks(b, marks);
      && r.Keys == b.Keys && Filed(r)
      && forall f :: f in b ==> |r[f]| == |b[f]| && forall i :: 0 <= i < |b[f]| ==> r[f][i] == Final(b[f][i], marks)
  {
    if marks != [] {
      var front, m := marks[..|marks| - 1], marks[|marks| - 1];
      ApplyMarksIsFold(b, front);
      var mid, r := ApplyMarks(b, front), ApplyMarks(b, marks);
      forall f, i | f in b && 0 <= i < |b[f]|
        ensures |r[f]| == |b[f]| && r[f][i] == Final(b[f][i], marks) && r[f][i].file == f
      {
        assert mid[f][i] == Final(b[f][i], front) && mid[f][i].file == f;
      }
    }
  }

  class Index {
    var byFile: ByFile

    constructor ()
      ensures byFile == map[]
    {
      byFile := map[];
    }

    method Add(a: Anchor)
      modifies this
      ensures byFile == WithAnchor(old(byFile), a)
    {
      byFile := byFile[a.file := (if a.file in byFile then byFile[a.file] else []) + [a]];
    }

    method BuildFromClaims(claims: seq<ClaimAt>, radius: int)
      requires byFile == map[]
      modifies this
      ensures byFile == Built(claims, radius) && Filed(byFile)
    {
      for i := 0 to |claims|
        invariant byFile == Built(claims[..i], radius) && Filed(byFile)
      {
        var c := claims[i];
        var startLine, endLine := 0, 0;
        if c.line > 0 {
          startLine := c.line - radius;
          if startLine < 1 { startLine := 1; }
          endLine := c.line + radius;
        }
        assert claims[..i + 1][..i] == claims[..i];
        Add(Anchor(c.id, c.file, startLine, endLine, Verified));
      }
      assert claims[..|claims|] == claims;
    }

    method MarkFile(file: string, status: AnchorStatus) returns (changed: seq<Anchor>)
      requires Filed(byFile)
      modifies this
      ensures byFile == ApplyMark(old(byFile), Mark(file, None, status))
      ensures changed == if file in old(byFile) then Moved(Mark(file, None, status), old(byFile)[file]) else []
    {
      changed := [];
      if file !in byFile { return; }
      ghost var m := Mark(file, None, status);
      var anchors := byFile[file];
      ghost var before := anchors;
      for i := 0 to |anchors|
        invariant |anchors| == |before|
        invariant forall k :: 0 <= k < |before| ==> anchors[k] == if k < i then Marked(m, before[k]) else before[k]
        invariant changed == Moved(m, before[..i])
      {
        assert before[..i + 1][..i] == before[..i];
        if anchors[i].status != status {
          anchors := anchors[i := anchors[i].(status := status)];
          changed := changed + [anchors[i]];
        }
      }
      assert before[..|before|] == before && anchors == MarkedAll(m, before);
      byFile := byFile[file := anchors];
    }

    method MarkHunks(file: string, hunks: seq<Hunk>, status: AnchorStatus) returns (changed: seq<Anchor>)
      requires Filed(byFile)
      modifies this
      ensures byFile == ApplyMark(old(byFile), Mark(file, Some(hunks), status))
      ensures changed == if file in old(byFile) then Moved(Mark(file, Some(hunks), status), old(byFile)[file]) else []
    {
      changed := [];
      if file !in byFile { return; }
      ghost var m := Mark(file, Some(hunks), status);
      var anchors := byFile[file];
      ghost var before := anchors;
      for i := 0 to |anchors|
        invariant byFile == old(byFile) && |anchors| == |before|
        invariant forall k :: 0 <= k < |before| ==> anchors[k] == if k < i then Marked(m, before[k]) else before[k]
        invariant changed == Moved(m, before[..i])
      {
        assert before[..i + 1][..i] == before[..i];
        if anchors[i].status != status {
          var hit := TouchesAny(anchors[i], hunks);
          if hit {
            anchors := anchors[i := anchors[i].(status := status)];
            changed := changed + [anchors[i]];
          }
        }
      }
      assert before[..|before|] == before && anchors == MarkedAll(m, before);
      byFile := byFile[file := anchors];
    }

    /** Stop at the first hunk that overlaps. */
    method TouchesAny(a: Anchor, hunks: seq<Hunk>) returns (hit: bool)
      ensures hit == Touches(Mark(a.file, Some(hunks), Stale), a)
    {
      for j := 0 to |hunks|
        invariant forall k :: 0 <= k < j ==> !Overlaps(a, FirstLine(hunks[k]), LastLine(hunks[k]))
      {
        var h := hunks[j];
        var hunkEnd := h.oldStart + h.oldCount - 1;
        if h.oldCount == 0 {
          hunkEnd := h.newStart + h.newCount - 1;
          if Overlaps(a, h.newStart, hunkEnd) { return true; }
        } else if Overlaps(a, h.oldStart, hunkEnd) {
          return true;
        }
      }
      hit := false;
    }

    method MarkPath(c: FileChange) returns (changed: seq<Anchor>)
      requires Filed(byFile)
      modifies this
      ensures byFile == ApplyMarks(old(byFile), [PathMark(c)]) && Filed(byFile)
      ensures changed == MovedBy(old(byFile), [PathMark(c)])
    {
      OneMark(byFile, PathMark(c));
      if |c.hunks| > 0 {
        changed := MarkHunks(c.path, c.hunks, Stale);
      } else {
        changed := MarkFile(c.path, Stale);
      }
    }

    /** The index after the changes is the fold of their marks; what moved is reported in order. */
    method Invalidate(changes: seq<FileChange>) returns (affected: seq<Anchor>)
      requires Filed(byFile)
      modifies this
      ensures Filed(byFile)
      ensures byFile == ApplyMarks(old(byFile), AllMarks(changes))
      ensures affected == MovedBy(old(byFile), AllMarks(changes))
    {
      affected := [];
      ghost var start := byFile;
      for i := 0 to |changes|
        invariant Filed(byFile)
        invariant byFile == ApplyMarks(start, AllMarks(changes[..i]))
        invariant affected == MovedBy(start, AllMarks(changes[..i]))
      {
        var c := changes[i];
        assert changes[..i + 1][..i] == changes[..i];
        ApplyMarksAppend(start, AllMarks(changes[..i]), MarksOf(c));
        var moved := ApplyChange(c);
        affected := affected + moved;
      }
      assert changes[..|changes|] == changes;
    }

    method ApplyChange(c: FileChange) returns (moved: seq<Anchor>)
      requires Filed(byFile)
      modifies this
      ensures Filed(byFile) && byFile == ApplyMarks(old(byFile), MarksOf(c)) &&
        moved == MovedBy(old(byFile), MarksOf(c))
    {
      match c.status
      case Deleted =>
        OneMark(byFile, Mark(c.path, None, Invalid));
        moved := MarkFile(c.path, Invalid);
      case Renamed =>
        var first := Mark(c.oldPath, None, Stale);
        OneMark(byFile, first);
        ApplyMarksAppend(byFile, [first], [PathMark(c)]);
        assert [first] + [PathMark(c)] == MarksOf(c);
        var a := MarkFile(c.oldPath, Stale);
        var b := MarkPath(c);
        moved := a + b;
      case _ =>
        moved := MarkPath(c);
    }

    /** Add the anchors of one file to the counts. */
    method Tallied(before: Summary, anchors: seq<Anchor>) returns (s: Summary)
      ensures s == Plus(before, SummaryOf(anchors))
    {
      s := before;
      for i := 0 to |anchors|
        invariant s == Plus(before, SummaryOf(anchors[..i]))
      {
        assert anchors[..i + 1][..i] == anchors[..i];
        s := match anchors[i].status
          case Verified => s.(total := s.total + 1, verified := s.verified + 1)
          case Stale => s.(total := s.total + 1, stale := s.stale + 1)
          case Invalid => s.(total := s.total + 1, invalid := s.invalid + 1);
      }
      assert anchors[..|anchors|] == anchors;
    }

    /** Counts over the anchors of all files, in whatever order the map yields them. */
    method GetSummary() returns (s: Summary)
      requires Filed(byFile)
      ensures exists all :: Lists(all, byFile, byFile.Keys)
      ensures forall all :: Lists(all, byFile, byFile.Keys) ==> s == SummaryOf(all)
    {
      s := Summary(0, 0, 0, 0);
      ghost var all: seq<Anchor> := [];
      var todo := byFile.Keys;
      while todo != {}
        invariant todo <= byFile.Keys && Lists(all, byFile, byFile.Keys - todo)
        invariant s == SummaryOf(all)
      {
        var f :| f in todo;
        s := Tallied(s, byFile[f]);
        CountsAppend(all, byFile[f]);
        TakeFile(all, byFile, todo, f);
        all := all + byFile[f];
        todo := todo - {f};
      }
      assert byFile.Keys - todo == byFile.Keys;
      AnyListing(all, byFile);
    }

    /** The ids of all anchors that are not verified, sorted. */
    method StaleClaimIDs() returns (ids: seq<int>)
      requires Filed(byFile)
      ensures NonDecreasing(ids)
      ensures forall all :: Lists(all, byFile, byFile.Keys) ==> multiset(ids) == multiset(StaleIds(all))
    {
      ids := [];
      ghost var all: seq<Anchor> := [];
      var todo := byFile.Keys;
      while todo != {}
        invariant todo <= byFile.Keys && Lists(all, byFile, byFile.Keys - todo)
        invariant ids == StaleIds(all)
      {
        var f :| f in todo;
        ids := ids + StaleIds(byFile[f]);
        StaleIdsAppend(all, byFile[f]);
        TakeFile(all, byFile, todo, f);
        all := all + byFile[f];
        todo := todo - {f};
      }
      assert byFile.Keys - todo == byFile.Keys;
      AnyListing(all, byFile);
      ids := IntSort.Sort(ids);
    }
  }

  lemma OneMark(b: ByFile, m: Mark)
    requires Filed(b)
    ensures ApplyMarks(b, [m]) == ApplyMark(b, m) && Filed(ApplyMark(b, m))
    ensures MovedBy(b, [m]) == if m.file in b then Moved(m, b[m.file]) else []
  {
    assert [m][..0] == [];
    ApplyMarksIsFold(b, [m]);
  }

  function WithAnchor(b: ByFile, a: Anchor): ByFile {
    b[a.file := (if a.file in b then b[a.file] else []) + [a]]
  }

  function Built(claims: seq<ClaimAt>, radius: int): ByFile {
    if claims == [] then map[]
    else WithAnchor(Built(claims[..|claims| - 1], radius), AnchorFor(claims[|claims| - 1], radius))
  }

  function Count(all: seq<Anchor>, s: AnchorStatus): nat {
    if all == [] then 0 else Count(all[..|all| - 1], s) + if all[|all| - 1].status == s then 1 else 0
  }

  function IdIfStale(a: Anchor): seq<int> { if a.status != Verified then [a.claimId] else [] }

  function StaleIds(all: seq<Anchor>): seq<int> {
    if all == [] then [] else StaleIds(all[..|all| - 1]) + IdIfStale(all[|all| - 1])
  }

  lemma {:induction false} StaleIdsAppend(a: seq<Anchor>, b: seq<Anchor>)
    ensures StaleIds(a + b) == StaleIds(a) + StaleIds(b)
  {
    if b == [] {
      assert a + b == a;
    } else {
      assert (a + b)[..|a + b| - 1] == a + b[..|b| - 1];
      StaleIdsAppend(a, b[..|b| - 1]);
    }
  }

  lemma {:induction false} CountAppend(a: seq<Anchor>, b: seq<Anchor>, s: AnchorStatus)
    ensures Count(a + b, s) == Count(a, s) + Count(b, s)
  {
    if b == [] {
      assert a + b == a;
    } else {
      assert (a + b)[..|a + b| - 1] == a + b[..|b| - 1];
      CountAppend(a, b[..|b| - 1], s);
    }
  }

  function SummaryOf(all: seq<Anchor>): Summary {
    Summary(|all|, Count(all, Verified), Count(all, Stale), Count(all, Invalid))
  }

  function Plus(a: Summary, b: Summary): Summary {
    Summary(a.total + b.total, a.verified + b.verified, a.stale + b.stale, a.invalid + b.invalid)
  }

  lemma CountsAppend(a: seq<Anchor>, b: seq<Anchor>)
    ensures SummaryOf(a + b) == Plus(SummaryOf(a), SummaryOf(b))
  {
    var whole := a + b;
    assert Count(whole, Verified) == Count(a, Verified) + Count(b, Verified) by { CountAppend(a, b, Verified); }
    assert Count(whole, Stale) == Count(a, Stale) + Count(b, Stale) by { CountAppend(a, b, Stale); }
    assert Count(whole, Invalid) == Count(a, Invalid) + Count(b, Invalid) by { CountAppend(a, b, Invalid); }
    assert |whole| == |a| + |b|;
  }

  // ----- what the index holds, files aside

  /** `all` lists the anchors of these files of the index, each as often as the index holds it. */
  ghost predicate Lists(all: seq<Anchor>, b: ByFile, files: set<string>) {
    forall a: Anchor :: multiset(all)[a] == if a.file in files && a.file in b then multiset(b[a.file])[a] else 0
  }

  lemma ListsMore(all: seq<Anchor>, b: ByFile, files: set<string>, f: string)
    requires Filed(b) && f in b && f !in files && Lists(all, b, files)
    ensures Lists(all + b[f], b, files + {f})
  {
    forall a: Anchor | a.file != f ensures multiset(b[f])[a] == 0 {
      assert a !in b[f];
    }
  }

  lemma TakeFile(all: seq<Anchor>, b: ByFile, todo: set<string>, f: string)
    requires Filed(b) && todo <= b.Keys && f in todo && Lists(all, b, b.Keys - todo)
    ensures Lists(all + b[f], b, b.Keys - (todo - {f}))
  {
    ListsMore(all, b, b.Keys - todo, f);
    assert b.Keys - todo + {f} == b.Keys - (todo - {f});
  }

  /** What a summary says does not depend on the order in which the anchors are listed. */
  lemma AnyListing(all: seq<Anchor>, b: ByFile)
    requires Lists(all, b, b.Keys)
    ensures forall other :: Lists(other, b, b.Keys) ==>
      SummaryOf(other) == SummaryOf(all) && multiset(StaleIds(other)) == multiset(StaleIds(all))
  {
    forall other | Lists(other, b, b.Keys)
      ensures SummaryOf(other) == SummaryOf(all) && multiset(StaleIds(other)) == multiset(StaleIds(all))
    {
      assert multiset(other) == multiset(all);
      SameCounts(other, all);
    }
  }

  /** Marking an index with one anchor more is marking the index, and that anchor by itself. */
  lemma {:induction false} AddThenMark(b: ByFile, a: Anchor, marks: seq<Mark>)
    ensures Final(a, marks).file == a.file
    ensures ApplyMarks(WithAnchor(b, a), marks) == WithAnchor(ApplyMarks(b, marks), Final(a, marks))
  {
    if marks != [] {
      var front, m := marks[..|marks| - 1], marks[|marks| - 1];
      AddThenMark(b, a, front);
      AddThenMarkOnce(ApplyMarks(b, front), Final(a, front), m);
    }
  }

  lemma AddThenMarkOnce(b: ByFile, a: Anchor, m: Mark)
    ensures ApplyMark(WithAnchor(b, a), m) == WithAnchor(ApplyMark(b, m), Marked(m, a))
  {
    var bucket := if a.file in b then b[a.file] else [];
    assert MarkedAll(m, bucket + [a]) == MarkedAll(m, bucket) + [Marked(m, a)];
    if m.file == a.file {
      assert ApplyMark(WithAnchor(b, a), m)[a.file] == MarkedAll(m, bucket + [a]);
    }
  }

  // ----- what a list of changes means for one claim

  /** An old line that the hunk removes or shows, or a new line if it removes and shows none; lines begin at one. */
  predicate About(h: Hunk, l: int) {
    1 <= l && if h.oldCount == 0 then h.newStart <= l < h.newStart + h.newCount
              else h.oldStart <= l < h.oldStart + h.oldCount
  }

  /** Some line that the hunk is about lies within the radius of the line of the claim, if the claim has a line. */
  ghost predicate Near(h: Hunk, claim: ClaimAt, radius: int) {
    claim.line <= 0 || exists l :: About(h, l) && claim.line - radius <= l <= claim.line + radius
  }

  /** The hunk neither ends before the lines around the claim nor begins after them; it ends at a line of the file. */
  predicate Reaches(h: Hunk, claim: ClaimAt, radius: int) {
    claim.line <= 0 || !(LastLine(h) < 1 || LastLine(h) < claim.line - radius || claim.line + radius < FirstLine(h))
  }

  /** A hunk reaches a claim by being near it, and otherwise only with an empty range or a negative radius. */
  lemma NearIffReaches(h: Hunk, claim: ClaimAt, radius: int)
    ensures Near(h, claim, radius) <==>
      claim.line <= 0 || (Reaches(h, claim, radius) && FirstLine(h) <= LastLine(h) && radius >= 0)
  {
    if claim.line > 0 && Reaches(h, claim, radius) && FirstLine(h) <= LastLine(h) && radius >= 0 {
      var l := Max(FirstLine(h), Max(1, claim.line - radius));
      assert About(h, l) && claim.line - radius <= l <= claim.line + radius;
    }
  }

  predicate Hit(c: FileChange, claim: ClaimAt, radius: int) {
    || (c.status.Renamed? && c.oldPath == claim.file)
    || (c.path == claim.file && (c.status.Deleted? || c.hunks == [] || HunkHit(c.hunks, claim, radius)))
  }

  predicate HunkHit(hunks: seq<Hunk>, claim: ClaimAt, radius: int) {
    exists i :: 0 <= i < |hunks| && Reaches(hunks[i], claim, radius)
  }

  /** The last change that hits the claim decides. */
  function Verdict(claim: ClaimAt, radius: int, changes: seq<FileChange>): AnchorStatus {
    if changes == [] then Verified
    else
      var last := changes[|changes| - 1];
      if !Hit(last, claim, radius) then Verdict(claim, radius, changes[..|changes| - 1])
      else if last.status.Deleted? then Invalid
      else Stale
  }

  /**
   For hunks that remove or add a line and a radius that is not negative, the overlap test of the clipped
   range is the distance test; for others it can only find more.
   */
  lemma OverlapIsDistance(c: ClaimAt, radius: int, h: Hunk)
    ensures Overlaps(AnchorFor(c, radius), FirstLine(h), LastLine(h)) <==> Reaches(h, c, radius)
    ensures Near(h, c, radius) <==>
      || c.line <= 0
      || (Overlaps(AnchorFor(c, radius), FirstLine(h), LastLine(h)) && FirstLine(h) <= LastLine(h) && radius >= 0)
  {
    NearIffReaches(h, c, radius);
  }

  lemma PathTouchIsHit(c: FileChange, claim: ClaimAt, radius: int, a: Anchor)
    requires a.(status := Verified) == AnchorFor(claim, radius)
    ensures Touches(PathMark(c), a) <==> c.path == claim.file && (c.hunks == [] || HunkHit(c.hunks, claim, radius))
  {
    forall j | 0 <= j < |c.hunks|
      ensures Overlaps(a, FirstLine(c.hunks[j]), LastLine(c.hunks[j])) <==> Reaches(c.hunks[j], claim, radius)
    {
      OverlapIsDistance(claim, radius, c.hunks[j]);
    }
  }

  lemma {:induction false} FinalAppend(a: Anchor, ms: seq<Mark>, more: seq<Mark>)
    ensures Final(a, ms + more) == Final(Final(a, ms), more)
  {
    if more == [] {
      assert ms + more == ms;
    } else {
      assert (ms + more)[..|ms + more| - 1] == ms + more[..|more| - 1];
      FinalAppend(a, ms, more[..|more| - 1]);
    }
  }

  /** One change, all its marks. */
  lemma ChangeIsHit(c: FileChange, claim: ClaimAt, radius: int, a: Anchor)
    requires a.(status := Verified) == AnchorFor(claim, radius)
    ensures Final(a, MarksOf(c)) ==
      if Hit(c, claim, radius) then a.(status := if c.status.Deleted? then Invalid else Stale) else a
  {
    var ms := MarksOf(c);
    assert ms[..0] == [] && Final(a, ms[..0]) == a;
    if c.status.Renamed? {
      assert ms[..2 - 1] == [ms[0]] && [ms[0]][..0] == [];
      PathTouchIsHit(c, claim, radius, Marked(ms[0], a));
      assert Final(a, ms[..1]) == Marked(ms[0], a);
    } else {
      PathTouchIsHit(c, claim, radius, a);
    }
  }

  /** Invalidation is exact: the final status of a fresh anchor is the verdict on its claim. */
  lemma {:induction false} FinalIsVerdict(claim: ClaimAt, radius: int, changes: seq<FileChange>)
    ensures Final(AnchorFor(claim, radius), AllMarks(changes)) ==
      AnchorFor(claim, radius).(status := Verdict(claim, radius, changes))
  {
    if changes != [] {
      var front, c := changes[..|changes| - 1], changes[|changes| - 1];
      FinalIsVerdict(claim, radius, front);
      FinalAppend(AnchorFor(claim, radius), AllMarks(front), MarksOf(c));
      ChangeIsHit(c, claim, radius, Final(AnchorFor(claim, radius), AllMarks(front)));
    }
  }

  /** One anchor per claim, with the verdict on it. */
  function Outcome(claims: seq<ClaimAt>, radius: int, changes: seq<FileChange>): (r: seq<Anchor>)
    ensures |r| == |claims|
  {
    if claims == [] then []
    else
      var c := claims[|claims| - 1];
      Outcome(claims[..|claims| - 1], radius, changes) + [AnchorFor(c, radius).(status := Verdict(c, radius, changes))]
  }

  /** An index built from claims and then invalidated holds exactly their outcome. */
  lemma {:induction false} IndexHoldsOutcome(claims: seq<ClaimAt>, radius: int, changes: seq<FileChange>)
    ensures var b := ApplyMarks(Built(claims, radius), AllMarks(changes));
      Lists(Outcome(claims, radius, changes), b, b.Keys)
  {
    var b := ApplyMarks(Built(claims, radius), AllMarks(changes));
    if claims == [] {
      EmptyStaysEmpty(AllMarks(changes));
    } else {
      var front, c := claims[..|claims| - 1], claims[|claims| - 1];
      IndexHoldsOutcome(front, radius, changes);
      var a := AnchorFor(c, radius);
      AddThenMark(Built(front, radius), a, AllMarks(changes));
      FinalIsVerdict(c, radius, changes);
      ListsWithAnchor(Outcome(front, radius, changes), ApplyMarks(Built(front, radius), AllMarks(changes)),
        Final(a, AllMarks(changes)));
    }
  }

  lemma {:induction false} EmptyStaysEmpty(marks: seq<Mark>)
    ensures ApplyMarks(map[], marks) == map[]
  {
    if marks != [] { EmptyStaysEmpty(marks[..|marks| - 1]); }
  }

  lemma ListsWithAnchor(all: seq<Anchor>, b: ByFile, a: Anchor)
    requires Lists(all, b, b.Keys)
    ensures Lists(all + [a], WithAnchor(b, a), WithAnchor(b, a).Keys)
  {
    var r := WithAnchor(b, a);
    forall x: Anchor ensures multiset(all + [a])[x] == if x.file in r then multiset(r[x.file])[x] else 0 {
      assert multiset(all)[x] == if x.file in b then multiset(b[x.file])[x] else 0;
    }
  }

  /** The summary and the stale ids account for every claim. */
  lemma SummaryAccountsForAll(claims: seq<ClaimAt>, radius: int, changes: seq<FileChange>, all: seq<Anchor>)
    requires var b := ApplyMarks(Built(claims, radius), AllMarks(changes)); Lists(all, b, b.Keys)
    ensures |all| == |claims|
    ensures forall s :: Count(all, s) == Count(Outcome(claims, radius, changes), s)
    ensures Count(all, Verified) + Count(all, Stale) + Count(all, Invalid) == |claims|
    ensures multiset(StaleIds(all)) == multiset(StaleIds(Outcome(claims, radius, changes)))
  {
    var out := Outcome(claims, radius, changes);
    IndexHoldsOutcome(claims, radius, changes);
    assert multiset(all) == multiset(out);
    SameCounts(all, out);
    CountsAddUp(out);
  }

  lemma {:induction false} CountsAddUp(all: seq<Anchor>)
    ensures Count(all, Verified) + Count(all, Stale) + Count(all, Invalid) == |all|
  {
    if all != [] { CountsAddUp(all[..|all| - 1]); }
  }

  /** The counts and the stale ids of two lists agree. */
  ghost predicate CountAlike(a: seq<Anchor>, b: seq<Anchor>) {
    |a| == |b| && (forall s :: Count(a, s) == Count(b, s)) && multiset(StaleIds(a)) == multiset(StaleIds(b))
  }

  lemma {:induction false} SameCounts(a: seq<Anchor>, b: seq<Anchor>)
    requires multiset(a) == multiset(b)
    ensures CountAlike(a, b)
    decreases |a|
  {
    assert |a| == |multiset(a)| == |multiset(b)| == |b|;
    if a != [] {
      var front, x := a[..|a| - 1], a[|a| - 1];
      var left, right := SplitAtMember(b, x, a);
      assert a == front + [x];
      SameCounts(front, left + right);
      OneMore(front, x, left, right);
    }
  }

  lemma OneMore(front: seq<Anchor>, x: Anchor, left: seq<Anchor>, right: seq<Anchor>)
    requires CountAlike(front, left + right)
    ensures CountAlike(front + [x], left + [x] + right)
  {
    forall s ensures Count(front + [x], s) == Count(left + [x] + right, s) {
      CountAround(front, x, [], s);
      CountAround(left, x, right, s);
      assert front + [x] + [] == front + [x] && front + [] == front;
    }
    StaleIdsAround(front, x, []);
    StaleIdsAround(left, x, right);
    assert front + [x] + [] == front + [x] && front + [] == front;
  }

  lemma SplitAtMember(b: seq<Anchor>, x: Anchor, a: seq<Anchor>) returns (left: seq<Anchor>, right: seq<Anchor>)
    requires x in a && multiset(a) == multiset(b)
    ensures b == left + [x] + right && multiset(left + right) == multiset(b) - multiset{x}
    ensures a[|a| - 1] == x ==> multiset(a[..|a| - 1]) == multiset(left + right)
  {
    assert a == a[..|a| - 1] + [a[|a| - 1]];
    assert x in multiset(a) && x in multiset(b);
    var i: nat :| i < |b| && b[i] == x;
    left, right := b[..i], b[i + 1..];
  }

  lemma CountAround(left: seq<Anchor>, x: Anchor, right: seq<Anchor>, s: AnchorStatus)
    ensures Count(left + [x] + right, s) == Count(left + right, s) + if x.status == s then 1 else 0
  {
    CountAppend(left + [x], right, s);
    CountAppend(left, right, s);
    assert (left + [x])[..|left + [x]| - 1] == left;
  }

  lemma StaleIdsAround(left: seq<Anchor>, x: Anchor, right: seq<Anchor>)
    ensures multiset(StaleIds(left + [x] + right)) == multiset(StaleIds(left + right)) + multiset(IdIfStale(x))
  {
    StaleIdsAppend(left + [x], right);
    StaleIdsAppend(left, right);
    assert (left + [x])[..|left + [x]| - 1] == left;
    MultisetMiddle(StaleIds(left), IdIfStale(x), StaleIds(right));
  }

  lemma MultisetMiddle(a: seq<int>, one: seq<int>, b: seq<int>)
    ensures multiset((a + one) + b) == multiset(a + b) + multiset(one)
  {}

  // ----- more radius, or less detail, never hides a change

  /** The claims that are no longer verified grow with the radius. */
  lemma {:induction false} WiderRadiusHitsMore(claim: ClaimAt, r: int, wider: int, changes: seq<FileChange>)
    requires r <= wider
    requires Verdict(claim, r, changes) != Verified
    ensures Verdict(claim, wider, changes) != Verified
  {
    var c := changes[|changes| - 1];
    if Hit(c, claim, r) {
      if HunkHit(c.hunks, claim, r) {
        var i :| 0 <= i < |c.hunks| && Reaches(c.hunks[i], claim, r);
        assert Reaches(c.hunks[i], claim, wider);
      }
      assert Hit(c, claim, wider);
    } else {
      WiderRadiusHitsMore(claim, r, wider, changes[..|changes| - 1]);
    }
  }

  /** The same changes, as a diff without hunks reports them. */
  function FileLevel(changes: seq<FileChange>): (r: seq<FileChange>)
    ensures |r| == |changes| && forall i :: 0 <= i < |changes| ==> r[i] == changes[i].(hunks := [])
  {
    seq(|changes|, i requires 0 <= i < |changes| => changes[i].(hunks := []))
  }

  /** What hunks mark, marking whole files marks too. */
  lemma {:induction false} HunksMarkNoMore(claim: ClaimAt, radius: int, changes: seq<FileChange>)
    requires Verdict(claim, radius, changes) != Verified
    ensures Verdict(claim, radius, FileLevel(changes)) != Verified
  {
    var front := changes[..|changes| - 1];
    assert FileLevel(changes)[..|changes| - 1] == FileLevel(front);
    if !Hit(changes[|changes| - 1], claim, radius) {
      HunksMarkNoMore(claim, radius, front);
    }
  }

  // ----- the meaning of one change, in lines of the old file

  /** The range of a hunk is not empty: it has an old line, or else a new one. */
  predicate HasLine(h: Hunk) { h.oldCount > 0 || (h.oldCount == 0 && h.newCount > 0) }

  /**
   A modified file with hunks: the anchor of a claim goes stale if and only if some old line of some hunk --
   or some new line, of a hunk without old ones -- is within the radius of the line of the claim.
   */
  lemma EditStalesIff(claim: ClaimAt, radius: int, c: FileChange)
    requires c.status.Modified? && c.hunks != [] && c.path == claim.file && radius >= 0 && claim.line > 0
    requires forall i :: 0 <= i < |c.hunks| ==> HasLine(c.hunks[i])
    ensures Final(AnchorFor(claim, radius), AllMarks([c])).status == Stale <==>
      exists i, l :: 0 <= i < |c.hunks| && About(c.hunks[i], l) && claim.line - radius <= l <= claim.line + radius
    ensures Final(AnchorFor(claim, radius), AllMarks([c])).status in {Verified, Stale}
  {
    FinalIsVerdict(claim, radius, [c]);
    assert [c][..0] == [];
    forall i | 0 <= i < |c.hunks| ensures Reaches(c.hunks[i], claim, radius) <==> Near(c.hunks[i], claim, radius) {
      NearIffReaches(c.hunks[i], claim, radius);
    }
    if HunkHit(c.hunks, claim, radius) {
      var i :| 0 <= i < |c.hunks| && Reaches(c.hunks[i], claim, radius);
      var l :| About(c.hunks[i], l) && claim.line - radius <= l <= claim.line + radius;
    }
  }

  predicate InBoth(a: Anchor, start: int, end: int, l: int) { a.startLine <= l <= a.endLine && start <= l <= end }

  /** An anchor overlaps a range of lines when it is (0, 0) or when they have a line in common. */
  lemma OverlapsIff(a: Anchor, start: int, end: int)
    requires a.startLine <= a.endLine && start <= end
    ensures Overlaps(a, start, end) <==>
      || (a.startLine, a.endLine) == (0, 0)
      || exists l :: InBoth(a, start, end, l)
  {
    if a.startLine <= end && a.endLine >= start {
      assert InBoth(a, start, end, Max(a.startLine, start));
    }
  }

  /** Whatever happens to it, an anchor stays the anchor of its claim, in its file, at its lines. */
  lemma AnchorStays(claim: ClaimAt, radius: int, changes: seq<FileChange>)
    ensures var a := Final(AnchorFor(claim, radius), AllMarks(changes));
      && a.claimId == claim.id && a.file == claim.file
      && (claim.line <= 0 ==> (a.startLine, a.endLine) == (0, 0))
      && (claim.line > 0 ==>
            (a.startLine, a.endLine) == (if claim.line <= radius then 1 else claim.line - radius, claim.line + radius))
  {
    FinalIsVerdict(claim, radius, changes);
  }

  /** Without hunks, or for a claim without a line, any change of its file stales it; a deletion invalidates it. */
  lemma WholeFileVerdict(claim: ClaimAt, radius: int, c: FileChange)
    requires c.path == claim.file && (c.hunks == [] || claim.line <= 0 || c.status.Deleted?)
    ensures Final(AnchorFor(claim, radius), AllMarks([c])).status == if c.status.Deleted? then Invalid else Stale
  {
    FinalIsVerdict(claim, radius, [c]);
    assert [c][..0] == [];
    if !c.status.Deleted? && c.hunks != [] { assert Reaches(c.hunks[0], claim, radius); }
  }

  /** A rename stales the claims under the old path; a change of other files leaves a claim alone. */
  lemma OtherFileVerdict(claim: ClaimAt, radius: int, c: FileChange)
    requires c.path != claim.file
    ensures Final(AnchorFor(claim, radius), AllMarks([c])).status
            == if c.status.Renamed? && c.oldPath == claim.file then Stale else Verified
  {
    FinalIsVerdict(claim, radius, [c]);
    assert [c][..0] == [];
  }

  // ----- what is reported, in terms of the claims

  /** The mark touches an anchor of another status. */
  function Moves(m: Mark): Anchor -> bool { (a: Anchor) => Touches(m, a) && a.status != m.status }

  /** A mark reports each anchor that it touches and that had another status, once, with its new status. */
  lemma {:induction false} MovedCount(m: Mark, anchors: seq<Anchor>)
    ensures |Moved(m, anchors)| == |Places(anchors, Moves(m))|
  {
    PlacesSnoc(anchors, Moves(m));
    if anchors != [] { MovedCount(m, anchors[..|anchors| - 1]); }
  }

  lemma {:induction false} MovedIff(m: Mark, anchors: seq<Anchor>, x: Anchor)
    ensures x in Moved(m, anchors) <==>
      exists a :: a in anchors && Touches(m, a) && a.status != m.status && x == a.(status := m.status)
  {
    if anchors != [] {
      var front, last := anchors[..|anchors| - 1], anchors[|anchors| - 1];
      MovedIff(m, front, x);
      assert forall a :: a in anchors <==> a in front || a == last;
    }
  }

  function HasVerdict(radius: int, changes: seq<FileChange>, s: AnchorStatus): ClaimAt -> bool {
    (c: ClaimAt) => Verdict(c, radius, changes) == s
  }

  /** The claims with a verdict, by their place. */
  function WithVerdict(claims: seq<ClaimAt>, radius: int, changes: seq<FileChange>, s: AnchorStatus): set<nat> {
    Places(claims, HasVerdict(radius, changes, s))
  }

  /** A built and invalidated index counts its claims by their verdicts. */
  lemma {:induction false} OutcomeCounts(claims: seq<ClaimAt>, radius: int, changes: seq<FileChange>, s: AnchorStatus)
    ensures Count(Outcome(claims, radius, changes), s) == |WithVerdict(claims, radius, changes, s)|
  {
    PlacesSnoc(claims, HasVerdict(radius, changes, s));
    if claims != [] {
      var front, c := claims[..|claims| - 1], claims[|claims| - 1];
      OutcomeCounts(front, radius, changes, s);
      CountAround(Outcome(front, radius, changes), OutcomeOf(c, radius, changes), [], s);
      assert Outcome(claims, radius, changes) == Outcome(front, radius, changes) + [OutcomeOf(c, radius, changes)] + [];
      assert Outcome(front, radius, changes) + [] == Outcome(front, radius, changes);
    }
  }

  function OutcomeOf(c: ClaimAt, radius: int, changes: seq<FileChange>): Anchor {
    AnchorFor(c, radius).(status := Verdict(c, radius, changes))
  }

  function IsStaleId(radius: int, changes: seq<FileChange>, id: int): ClaimAt -> bool {
    (c: ClaimAt) => c.id == id && Verdict(c, radius, changes) in {Stale, Invalid}
  }

  /** The claims of an id whose verdict is stale or invalid, by their place. */
  function StalePlaces(claims: seq<ClaimAt>, radius: int, changes: seq<FileChange>, id: int): set<nat> {
    Places(claims, IsStaleId(radius, changes, id))
  }

  /** Each claim whose verdict is stale or invalid is listed by its id, once. */
  lemma {:induction false} OutcomeStaleIds(claims: seq<ClaimAt>, radius: int, changes: seq<FileChange>, id: int)
    ensures multiset(StaleIds(Outcome(claims, radius, changes)))[id] == |StalePlaces(claims, radius, changes, id)|
  {
    PlacesSnoc(claims, IsStaleId(radius, changes, id));
    if claims != [] {
      var front, c := claims[..|claims| - 1], claims[|claims| - 1];
      OutcomeStaleIds(front, radius, changes, id);
      OneMoreStale(Outcome(front, radius, changes), OutcomeOf(c, radius, changes), id);
    }
  }

  lemma OneMoreStale(before: seq<Anchor>, one: Anchor, id: int)
    ensures multiset(StaleIds(before + [one]))[id]
            == multiset(StaleIds(before))[id] + if one.claimId == id && one.status in {Stale, Invalid} then 1 else 0
  {
    StaleIdsAround(before, one, []);
    assert before + [one] + [] == before + [one] && before + [] == before;
  }

  /** What the summary and the stale ids of any listing of the index say about the claims. */
  lemma ReportByVerdict(claims: seq<ClaimAt>, radius: int, changes: seq<FileChange>, all: seq<Anchor>, id: int)
    requires var b := ApplyMarks(Built(claims, radius), AllMarks(changes)); Lists(all, b, b.Keys)
    ensures SummaryOf(all) == Summary(|claims|, |WithVerdict(claims, radius, changes, Verified)|,
      |WithVerdict(claims, radius, changes, Stale)|, |WithVerdict(claims, radius, changes, Invalid)|)
    ensures multiset(StaleIds(all))[id] == |StalePlaces(claims, radius, changes, id)|
  {
    SummaryAccountsForAll(claims, radius, changes, all);
    OutcomeCounts(claims, radius, changes, Verified);
    OutcomeCounts(claims, radius, changes, Stale);
    OutcomeCounts(claims, radius, changes, Invalid);
    OutcomeStaleIds(claims, radius, changes, id);
  }

}
