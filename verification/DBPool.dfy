/**
 The pool of lazily opened claims databases (mcpserver/dbpool.go): a map and a recency list that
 agree, LRU eviction, and reopening when the file on disk is newer. Every method runs under one
 mutex, so each is one step.
 */
module DBPool {
  import opened Basics
  import opened Recency

  const DEFAULT_MAX_OPEN_DBS := 20

  /** The zero time: any real modification time is after it. */
  const ZERO_TIME := 0

  datatype Entry = Entry(repo: string, handle: nat, modTime: int)

  /** The recency list, most recent first, and the account of handles. */
  datatype PoolState = PoolState(lru: seq<Entry>, live: set<nat>, next: nat, openCount: nat, closeCount: nat)

  /** What the file system answers during one Open. */
  datatype Answers = Answers(stat: Option<int>, canOpen: bool, statAfter: Option<int>)

  predicate ValidName(name: string) {
    name != "" && '/' !in name && !exists i :: 0 <= i < |name| - 1 && name[i] == '.' && name[i + 1] == '.'
  }

  function IndexOf(lru: seq<Entry>, repo: string): (r: Option<nat>)
    ensures r.Some? ==> r.value < |lru| && lru[r.value].repo == repo
    ensures r.None? ==> forall e :: e in lru ==> e.repo != repo
  {
    if lru == [] then None
    else if lru[0].repo == repo then Some(0)
    else
      assert forall e :: e in lru <==> e == lru[0] || e in lru[1..];
      match IndexOf(lru[1..], repo)
      case None => None
      case Some(i) => Some(i + 1)
  }

  predicate Stale(e: Entry, stat: Option<int>) {
    stat.Some? && stat.value > e.modTime
  }

  /** Close the handle at `i` and unlink its entry. */
  function Dropped(s: PoolState, i: nat): PoolState
    requires i < |s.lru|
  {
    s.(lru := RemoveAt(s.lru, i), live := s.live - {s.lru[i].handle}, closeCount := s.closeCount + 1)
  }

  function Promoted(s: PoolState, i: nat): PoolState
    requires i < |s.lru|
  {
    s.(lru := [s.lru[i]] + RemoveAt(s.lru, i))
  }

  function MakeRoom(s: PoolState, maxOpen: nat): PoolState {
    if |s.lru| >= maxOpen && s.lru != [] then Dropped(s, |s.lru| - 1) else s
  }

  function OpenFresh(s: PoolState, repo: string, a: Answers): (PoolState, Option<nat>) {
    if !a.canOpen then (s, None)
    else
      var e := Entry(repo, s.next, if a.statAfter.Some? then a.statAfter.value else ZERO_TIME);
      (PoolState([e] + s.lru, s.live + {s.next}, s.next + 1, s.openCount + 1, s.closeCount), Some(s.next))
  }

  /** A cached connection is returned and promoted unless the file is newer. */
  function OpenCached(s: PoolState, maxOpen: nat, repo: string, i: nat, a: Answers): (PoolState, Option<nat>)
    requires i < |s.lru|
  {
    if !Stale(s.lru[i], a.stat) then (Promoted(s, i), Some(s.lru[i].handle))
    else OpenFresh(MakeRoom(Dropped(s, i), maxOpen), repo, a)
  }

  function AfterOpen(s: PoolState, maxOpen: nat, repo: string, a: Answers): (PoolState, Option<nat>) {
    if !ValidName(repo) then (s, None)
    else
      match IndexOf(s.lru, repo)
      case Some(i) => OpenCached(s, maxOpen, repo, i, a)
      case None => OpenFresh(MakeRoom(s, maxOpen), repo, a)
  }

  // ----- conservation

  /** No repo and no handle appears twice in the list. */
  ghost predicate Unique(lru: seq<Entry>) {
    && NoDuplicates(lru)
    && forall e, f :: e in lru && f in lru && (e.repo == f.repo || e.handle == f.handle) ==> e == f
  }

  ghost predicate Sound(s: PoolState, maxOpen: nat) {
    && |s.lru| <= maxOpen && Unique(s.lru)
    && s.live == (set e | e in s.lru :: e.handle)
    && (forall e :: e in s.lru ==> e.handle < s.next)
    && s.openCount == s.closeCount + |s.lru|
  }

  lemma Elements(lru: seq<Entry>, i: nat)
    requires i < |lru| && NoDuplicates(lru)
    ensures NoDuplicates(RemoveAt(lru, i)) && |RemoveAt(lru, i)| == |lru| - 1
    ensures forall e :: e in RemoveAt(lru, i) <==> e in lru && e != lru[i]
  {
    RemoveAtMembers(lru, i);
    forall e ensures e in RemoveAt(lru, i) <==> e in lru && e != lru[i] {
      assert e in Members(RemoveAt(lru, i)) <==> e in Members(lru) && e != lru[i];
    }
  }

  lemma DroppedSound(s: PoolState, maxOpen: nat, i: nat)
    requires Sound(s, maxOpen) && i < |s.lru|
    ensures Sound(Dropped(s, i), maxOpen) && s.lru[i].handle in s.live
    ensures forall e :: e in Dropped(s, i).lru ==> e.repo != s.lru[i].repo
  {
    Elements(s.lru, i);
    assert s.lru[i] in s.lru;
    var d := Dropped(s, i);
    assert d.live == (set e | e in d.lru :: e.handle);
  }

  lemma PushSound(s: PoolState, maxOpen: nat, e: Entry)
    requires Sound(s, maxOpen) && |s.lru| < maxOpen && e.handle == s.next
    requires forall f :: f in s.lru ==> f.repo != e.repo
    ensures Sound(PoolState([e] + s.lru, s.live + {s.next}, s.next + 1, s.openCount + 1, s.closeCount), maxOpen)
  {
    var lru := [e] + s.lru;
    assert forall f :: f in lru <==> f == e || f in s.lru;
    assert forall k :: 1 <= k < |lru| ==> lru[k] == s.lru[k - 1];
    assert s.live + {s.next} == (set f | f in lru :: f.handle);
  }

  lemma PromotedSound(s: PoolState, maxOpen: nat, i: nat)
    requires Sound(s, maxOpen) && i < |s.lru|
    ensures Sound(Promoted(s, i), maxOpen)
    ensures forall e :: e in Promoted(s, i).lru <==> e in s.lru
  {
    Elements(s.lru, i);
    var p := Promoted(s, i);
    assert s.lru[i] in s.lru;
    assert forall e :: e in p.lru <==> e == s.lru[i] || e in RemoveAt(s.lru, i);
    assert forall k :: 1 <= k < |p.lru| ==> p.lru[k] == RemoveAt(s.lru, i)[k - 1];
    assert p.live == (set e | e in p.lru :: e.handle);
  }

  lemma OpenFreshSound(s: PoolState, maxOpen: nat, repo: string, a: Answers)
    requires Sound(s, maxOpen) && |s.lru| < maxOpen
    requires forall e :: e in s.lru ==> e.repo != repo
    ensures Sound(OpenFresh(s, repo, a).0, maxOpen)
    ensures OpenFresh(s, repo, a).1.Some? ==> OpenFresh(s, repo, a).1.value in OpenFresh(s, repo, a).0.live
  {
    if a.canOpen {
      PushSound(s, maxOpen, Entry(repo, s.next, if a.statAfter.Some? then a.statAfter.value else ZERO_TIME));
    }
  }

  lemma MakeRoomSound(s: PoolState, maxOpen: nat)
    requires Sound(s, maxOpen) && maxOpen > 0
    ensures Sound(MakeRoom(s, maxOpen), maxOpen) && |MakeRoom(s, maxOpen).lru| < maxOpen
    ensures forall e :: e in MakeRoom(s, maxOpen).lru ==> e in s.lru
  {
    if |s.lru| >= maxOpen {
      DroppedSound(s, maxOpen, |s.lru| - 1);
      Elements(s.lru, |s.lru| - 1);
    }
  }

  /** Handles opened minus handles closed is the length of the list, and what Open returns is open. */
  lemma OpenKeepsSound(s: PoolState, maxOpen: nat, repo: string, a: Answers)
    requires Sound(s, maxOpen) && maxOpen > 0
    ensures Sound(AfterOpen(s, maxOpen, repo, a).0, maxOpen)
    ensures AfterOpen(s, maxOpen, repo, a).1.Some? ==>
      AfterOpen(s, maxOpen, repo, a).1.value in AfterOpen(s, maxOpen, repo, a).0.live
  {
    if ValidName(repo) {
      match IndexOf(s.lru, repo)
      case Some(i) =>
        if Stale(s.lru[i], a.stat) {
          DroppedSound(s, maxOpen, i);
          MakeRoomSound(Dropped(s, i), maxOpen);
          OpenFreshSound(MakeRoom(Dropped(s, i), maxOpen), maxOpen, repo, a);
        } else {
          PromotedSound(s, maxOpen, i);
        }
      case None =>
        MakeRoomSound(s, maxOpen);
        OpenFreshSound(MakeRoom(s, maxOpen), maxOpen, repo, a);
    }
  }

  // ----- what one Open gives

  /** A name is one plain component of a path: not empty, without a separator, without the way up. */
  lemma ValidNameIff(name: string)
    ensures ValidName(name) <==>
      && name != ""
      && (forall front: string, back: string :: name != front + "/" + back)
      && (forall front: string, back: string :: name != front + ".." + back)
  {
    if '/' in name {
      var i :| 0 <= i < |name| && name[i] == '/';
      assert name == name[..i] + "/" + name[i + 1..];
    }
    forall front: string, back: string | name == front + "/" + back ensures '/' in name {
      assert name[|front|] == '/';
    }
    if i :| 0 <= i < |name| - 1 && name[i] == '.' && name[i + 1] == '.' {
      assert name == name[..i] + ".." + name[i + 2..];
    }
    forall front: string, back: string | name == front + ".." + back ensures !ValidName(name) {
      assert name[|front|] == '.' && name[|front| + 1] == '.';
    }
  }

  /** The file of a repo has not changed since its handle was opened, as far as can be seen. */
  predicate Unchanged(stat: Option<int>, openedWith: int) { stat.None? || stat.value <= openedWith }

  /**
   Opening a repo that is in the pool: the same handle, moved to the front and nothing opened or closed, if and
   only if its file is not newer. Otherwise the old handle is closed, and a new one takes its place if the file
   opens, stamped with the time the file then has.
   */
  lemma OpenKnown(s: PoolState, maxOpen: nat, e: Entry, a: Answers)
    requires Sound(s, maxOpen) && e in s.lru && ValidName(e.repo)
    ensures var (after, handle) := AfterOpen(s, maxOpen, e.repo, a);
      && (handle == Some(e.handle) <==> Unchanged(a.stat, e.modTime))
      && (Unchanged(a.stat, e.modTime) ==> after == s.(lru := after.lru) && after.lru != [] && after.lru[0] == e)
      && (!Unchanged(a.stat, e.modTime) ==>
            && e.handle !in after.live && after.closeCount == s.closeCount + 1
            && (if a.canOpen then handle == Some(s.next) && Opened(s, after, e.repo, a)
                else handle == None && after.openCount == s.openCount))
  {
    assert IndexOf(s.lru, e.repo).Some?;
    var i := IndexOf(s.lru, e.repo).value;
    assert s.lru[i] in s.lru && s.lru[i] == e;
    if !Unchanged(a.stat, e.modTime) { Elements(s.lru, i); }
  }

  /** A handle that was never used is open, its entry is in front, and it carries the time of the file. */
  ghost predicate Opened(s: PoolState, after: PoolState, repo: string, a: Answers) {
    && s.next !in s.live && s.next in after.live && after.next == s.next + 1 && after.openCount == s.openCount + 1
    && after.lru != [] && after.lru[0].repo == repo && after.lru[0].handle == s.next
    && after.lru[0].modTime == if a.statAfter.Some? then a.statAfter.value else ZERO_TIME
  }

  /**
   Opening a repo that is not in the pool: a full pool first closes the handle at the back of the list, also
   when the file then does not open.
   */
  lemma OpenUnknown(s: PoolState, maxOpen: nat, repo: string, a: Answers)
    requires Sound(s, maxOpen) && maxOpen > 0 && ValidName(repo) && forall e :: e in s.lru ==> e.repo != repo
    ensures var (after, handle) := AfterOpen(s, maxOpen, repo, a);
      && after.closeCount == s.closeCount + (if |s.lru| == maxOpen then 1 else 0)
      && (|s.lru| == maxOpen ==> s.lru[maxOpen - 1].handle !in after.live)
      && (forall e :: e in s.lru && (|s.lru| == maxOpen ==> e != s.lru[maxOpen - 1]) ==> e.handle in after.live)
      && (if a.canOpen then handle == Some(s.next) && Opened(s, after, repo, a)
          else handle == None && after.openCount == s.openCount)
  {
    assert IndexOf(s.lru, repo).None?;
    if |s.lru| == maxOpen {
      assert s.lru[maxOpen - 1] in s.lru;
      Elements(s.lru, maxOpen - 1);
    }
  }

  /** A name that is not valid reaches neither the pool nor the file system. */
  lemma OpenInvalid(s: PoolState, maxOpen: nat, repo: string, a: Answers)
    ensures !ValidName(repo) ==> AfterOpen(s, maxOpen, repo, a) == (s, None)
  {
  }

  // ----- survival

  /** `e` is in the list, and everything more recent is among `others`. */
  ghost predicate KeptBehind(s: PoolState, e: Entry, others: set<string>) {
    e in s.lru && forall f :: f in Ahead(s.lru, e) ==> f.repo in others
  }

  datatype OpenCall = OpenCall(repo: string, answers: Answers)

  ghost function OtherRepos(calls: seq<OpenCall>, repo: string): set<string> {
    set c | c in calls && ValidName(c.repo) && c.repo != repo :: c.repo
  }

  function AfterCalls(s: PoolState, maxOpen: nat, calls: seq<OpenCall>): PoolState
    decreases |calls|
  {
    if calls == [] then s
    else AfterCalls(AfterOpen(s, maxOpen, calls[0].repo, calls[0].answers).0, maxOpen, calls[1..])
  }

  lemma PromotionKeeps(s: PoolState, maxOpen: nat, e: Entry, others: set<string>, i: nat)
    requires Sound(s, maxOpen) && KeptBehind(s, e, others) && i < |s.lru|
    requires s.lru[i] == e || s.lru[i].repo in others
    ensures KeptBehind(Promoted(s, i), e, others)
  {
    PromotedSound(s, maxOpen, i);
    var p := Promoted(s, i);
    assert p.lru[1..] == RemoveAt(s.lru, i);
    if s.lru[i] != e { AheadRemove(s.lru, e, i); }
  }

  lemma DropKeeps(s: PoolState, maxOpen: nat, e: Entry, others: set<string>, i: nat)
    requires Sound(s, maxOpen) && KeptBehind(s, e, others) && i < |s.lru| && s.lru[i] != e
    ensures KeptBehind(Dropped(s, i), e, others)
  {
    Elements(s.lru, i);
    AheadRemove(s.lru, e, i);
  }

  lemma FreshKeeps(s: PoolState, e: Entry, others: set<string>, repo: string, a: Answers)
    requires KeptBehind(s, e, others) && repo in others
    ensures KeptBehind(OpenFresh(s, repo, a).0, e, others)
  {
    if a.canOpen {
      var f := OpenFresh(s, repo, a).0;
      assert f.lru[1..] == s.lru;
      assert forall x :: x in f.lru <==> x == f.lru[0] || x in s.lru;
    }
  }

  /** An entry at the back of a full list has too many in front of it. */
  lemma BackIsNotKept(s: PoolState, maxOpen: nat, e: Entry, others: set<string>, repo: string)
    requires Sound(s, maxOpen) && KeptBehind(s, e, others) && |s.lru| >= maxOpen > 0
    requires repo in others && |others| < maxOpen && forall f :: f in s.lru ==> f.repo != repo
    ensures s.lru[|s.lru| - 1] != e
  {
    if s.lru[|s.lru| - 1] == e {
      var repos := seq(|s.lru| - 1, i requires 0 <= i < |s.lru| - 1 => s.lru[i].repo);
      AheadOfLast(s.lru, e);
      forall i | 0 <= i < |repos| ensures repos[i] in others && repos[i] != repo {
        assert s.lru[i] == s.lru[..|s.lru| - 1][i];
        assert s.lru[i] in Members(s.lru[..|s.lru| - 1]) && s.lru[i] in s.lru;
      }
      forall i, j | 0 <= i < j < |repos| ensures repos[i] != repos[j] {
        assert s.lru[i] in s.lru && s.lru[j] in s.lru;
      }
      LengthOfMembers(repos);
      SubsetSize(Members(repos) + {repo}, others);
    }
  }

  lemma RoomSparesKept(s: PoolState, maxOpen: nat, e: Entry, others: set<string>, repo: string)
    requires Sound(s, maxOpen) && maxOpen > 0 && KeptBehind(s, e, others)
    requires repo in others && |others| < maxOpen && forall f :: f in s.lru ==> f.repo != repo
    ensures KeptBehind(MakeRoom(s, maxOpen), e, others)
  {
    if |s.lru| >= maxOpen {
      BackIsNotKept(s, maxOpen, e, others, repo);
      DropKeeps(s, maxOpen, e, others, |s.lru| - 1);
    }
  }

  lemma OpenSpares(s: PoolState, maxOpen: nat, e: Entry, others: set<string>, repo: string, a: Answers)
    requires Sound(s, maxOpen) && maxOpen > 0 && KeptBehind(s, e, others) && |others| < maxOpen
    requires ValidName(repo) ==> repo == e.repo || repo in others
    requires repo == e.repo ==> !Stale(e, a.stat)
    requires e.repo !in others
    ensures KeptBehind(AfterOpen(s, maxOpen, repo, a).0, e, others)
    ensures repo == e.repo && ValidName(repo) ==> AfterOpen(s, maxOpen, repo, a).1 == Some(e.handle)
  {
    if ValidName(repo) {
      match IndexOf(s.lru, repo)
      case Some(i) =>
        assert s.lru[i] in s.lru;
        if Stale(s.lru[i], a.stat) {
          DropKeeps(s, maxOpen, e, others, i);
          FreshKeeps(Dropped(s, i), e, others, repo, a);
        } else {
          PromotionKeeps(s, maxOpen, e, others, i);
        }
      case None =>
        RoomSparesKept(s, maxOpen, e, others, repo);
        FreshKeeps(MakeRoom(s, maxOpen), e, others, repo, a);
    }
  }

  /**
   A repo whose file is not newer keeps the same handle, and reopening it returns that handle, while
   fewer than `maxOpen` distinct other repos are asked for -- even when opening some of them fails.
   */
  lemma {:induction false} Survival(s: PoolState, maxOpen: nat, e: Entry, others: set<string>, calls: seq<OpenCall>)
    requires Sound(s, maxOpen) && maxOpen > 0 && KeptBehind(s, e, others)
    requires OtherRepos(calls, e.repo) <= others && |others| < maxOpen && e.repo !in others
    requires forall c :: c in calls && c.repo == e.repo ==> !Stale(e, c.answers.stat)
    ensures KeptBehind(AfterCalls(s, maxOpen, calls), e, others)
    decreases |calls|
  {
    if calls != [] {
      var c := calls[0];
      assert ValidName(c.repo) && c.repo != e.repo ==> c.repo in OtherRepos(calls, e.repo);
      OpenSpares(s, maxOpen, e, others, c.repo, c.answers);
      OpenKeepsSound(s, maxOpen, c.repo, c.answers);
      assert forall d :: d in calls[1..] ==> d in calls;
      Survival(AfterOpen(s, maxOpen, c.repo, c.answers).0, maxOpen, e, others, calls[1..]);
    }
  }

  /** The statement for a repo that was just opened: it is at the front, so no one is ahead of it. */
  lemma OpenedRepoSurvives(s: PoolState, maxOpen: nat, repo: string, a: Answers, calls: seq<OpenCall>, again: Answers)
    requires Sound(s, maxOpen) && maxOpen > 0 && ValidName(repo) && AfterOpen(s, maxOpen, repo, a).1.Some?
    requires |OtherRepos(calls, repo)| < maxOpen
    requires var e := AfterOpen(s, maxOpen, repo, a).0.lru[0];
      (forall c :: c in calls && c.repo == repo ==> !Stale(e, c.answers.stat)) && !Stale(e, again.stat)
    ensures AfterOpen(AfterCalls(AfterOpen(s, maxOpen, repo, a).0, maxOpen, calls), maxOpen, repo, again).1
            == AfterOpen(s, maxOpen, repo, a).1
  {
    var s1 := AfterOpen(s, maxOpen, repo, a).0;
    var e := s1.lru[0];
    var others := OtherRepos(calls, repo);
    OpenKeepsSound(s, maxOpen, repo, a);
    assert KeptBehind(s1, e, others) && e.repo == repo;
    Survival(s1, maxOpen, e, others, calls);
    CallsKeepSound(s1, maxOpen, calls);
    OpenSpares(AfterCalls(s1, maxOpen, calls), maxOpen, e, others, repo, again);
  }

  lemma {:induction false} CallsKeepSound(s: PoolState, maxOpen: nat, calls: seq<OpenCall>)
    requires Sound(s, maxOpen) && maxOpen > 0
    ensures Sound(AfterCalls(s, maxOpen, calls), maxOpen)
    decreases |calls|
  {
    if calls != [] {
      OpenKeepsSound(s, maxOpen, calls[0].repo, calls[0].answers);
      CallsKeepSound(AfterOpen(s, maxOpen, calls[0].repo, calls[0].answers).0, maxOpen, calls[1..]);
    }
  }

  // ----- the object

  class DBPool {
    const maxOpen: nat
    var conns: map<string, Entry>
    var lru: seq<Entry>
    var lastAccess: map<string, int>
    ghost var live: set<nat>     // open handles
    var next: nat
    ghost var openCount: nat
    ghost var closeCount: nat

    ghost function View(): PoolState
      reads this
    {
      PoolState(lru, live, next, openCount, closeCount)
    }

    /** The map and the list hold the same entries. */
    ghost predicate Valid()
      reads this
    {
      && maxOpen > 0 && Sound(View(), maxOpen)
      && (forall r :: r in conns ==> conns[r] in lru && conns[r].repo == r)
      && (forall e :: e in lru ==> e.repo in conns && conns[e.repo] == e)
    }

    constructor (maxOpen: int)
      ensures Valid() && View() == PoolState([], {}, 0, 0, 0)
      ensures this.maxOpen == if maxOpen <= 0 then DEFAULT_MAX_OPEN_DBS else maxOpen
    {
      this.maxOpen := if maxOpen <= 0 then DEFAULT_MAX_OPEN_DBS else maxOpen;
      conns, lru, lastAccess, live, next, openCount, closeCount := map[], [], map[], {}, 0, 0, 0;
    }

    /** Close a handle; only an open handle may be closed. */
    method CloseHandle(handle: nat)
      requires handle in live
      modifies this`live, this`closeCount
      ensures live == old(live) - {handle} && closeCount == old(closeCount) + 1
    {
      live, closeCount := live - {handle}, closeCount + 1;
    }

    method DropAt(i: nat)
      requires Valid() && i < |lru|
      modifies this`conns, this`lru, this`live, this`closeCount
      ensures Valid() && View() == Dropped(old(View()), i)
    {
      var e := lru[i];
      DroppedSound(View(), maxOpen, i);
      Elements(lru, i);
      CloseHandle(e.handle);
      lru := RemoveAt(lru, i);
      conns := conns - {e.repo};
    }

    method Open(repo: string, a: Answers, now: int) returns (handle: Option<nat>)
      requires Valid()
      modifies this
      ensures Valid()
      ensures (View(), handle) == AfterOpen(old(View()), maxOpen, repo, a)
      ensures handle.Some? ==> handle.value in live
      ensures lastAccess == if ValidName(repo) then old(lastAccess)[repo := now] else old(lastAccess)
    {
      if !ValidName(repo) { return None; }
      lastAccess := lastAccess[repo := now];
      var at := IndexOf(lru, repo);
      assert at.Some? ==> lru[at.value] in lru;
      if repo in conns {
        handle := OpenExisting(repo, at.value, a);
      } else {
        handle := OpenNew(repo, a);
      }
    }

    method OpenExisting(repo: string, i: nat, a: Answers) returns (handle: Option<nat>)
      requires Valid() && i < |lru| && lru[i].repo == repo
      modifies this`conns, this`lru, this`live, this`next, this`openCount, this`closeCount
      ensures Valid() && (View(), handle) == OpenCached(old(View()), maxOpen, repo, i, a)
      ensures handle.Some? ==> handle.value in live
    {
      assert lru[i] in lru;
      var entry := conns[repo];
      if !Stale(entry, a.stat) {
        Promote(i);
        return Some(entry.handle);
      }
      DroppedSound(View(), maxOpen, i);
      DropAt(i);
      handle := OpenNew(repo, a);
    }

    /** Close the least recently used handle of a full pool. */
    method EvictLRU()
      requires Valid()
      modifies this`conns, this`lru, this`live, this`closeCount
      ensures Valid() && View() == MakeRoom(old(View()), maxOpen) && |lru| < maxOpen
      ensures conns.Keys <= old(conns).Keys
    {
      MakeRoomSound(View(), maxOpen);
      if |lru| >= maxOpen { DropAt(|lru| - 1); }
    }

    method OpenNew(repo: string, a: Answers) returns (handle: Option<nat>)
      requires Valid() && repo !in conns
      modifies this`conns, this`lru, this`live, this`next, this`openCount, this`closeCount
      ensures Valid() && (View(), handle) == OpenFresh(MakeRoom(old(View()), maxOpen), repo, a)
      ensures handle.Some? ==> handle.value in live
    {
      EvictLRU();
      if !a.canOpen { return None; }
      handle := Push(repo, a);
    }

    method Promote(i: nat)
      requires Valid() && i < |lru|
      modifies this`lru
      ensures Valid() && View() == Promoted(old(View()), i)
    {
      PromotedSound(View(), maxOpen, i);
      lru := [lru[i]] + RemoveAt(lru, i);
    }

    method Push(repo: string, a: Answers) returns (handle: Option<nat>)
      requires Valid() && |lru| < maxOpen && a.canOpen && repo !in conns
      modifies this`conns, this`lru, this`live, this`next, this`openCount
      ensures Valid() && (View(), handle) == OpenFresh(old(View()), repo, a)
    {
      OpenFreshSound(View(), maxOpen, repo, a);
      var e := Entry(repo, next, if a.statAfter.Some? then a.statAfter.value else ZERO_TIME);
      assert forall f :: f in [e] + lru <==> f == e || f in lru;
      lru := [e] + lru;
      conns := conns[repo := e];
      live, openCount, next := live + {next}, openCount + 1, next + 1;
      handle := Some(e.handle);
    }

    /** Close every connection, back to front. */
    method Close()
      requires Valid()
      modifies this
      ensures Valid() && lru == [] && conns == map[] && live == {}
      ensures openCount == old(openCount) && closeCount == openCount
    {
      while |lru| > 0
        invariant Valid() && openCount == old(openCount)
        decreases |lru|
      {
        DropAt(|lru| - 1);
      }
    }

    method Len() returns (n: nat)
      requires Valid()
      ensures n == |lru| == |conns| && openCount - closeCount == n && n <= maxOpen
    {
      n := |lru|;
      MapSize(conns, lru);
    }
  }

  lemma {:induction false} MapSize(conns: map<string, Entry>, lru: seq<Entry>)
    requires Unique(lru)
    requires forall r :: r in conns ==> conns[r] in lru && conns[r].repo == r
    requires forall e :: e in lru ==> e.repo in conns && conns[e.repo] == e
    ensures |conns| == |lru|
  {
    if lru == [] {
      assert conns == map[];
    } else {
      Elements(lru, 0);
      assert lru[0] in lru;
      MapSize(conns - {lru[0].repo}, RemoveAt(lru, 0));
      assert |conns.Keys| == |conns| && (conns - {lru[0].repo}).Keys == conns.Keys - {lru[0].repo};
      assert |(conns - {lru[0].repo}).Keys| == |conns - {lru[0].repo}|;
    }
  }
}
