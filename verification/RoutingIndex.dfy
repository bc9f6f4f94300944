/**
 The routing index in front of cross-repo symbol search (mcpserver/routing.go, mcpserver/tools_search.go).
 Names and queries are byte strings; LIKE compares ASCII letters without case and everything else as it is.
 */
module RoutingIndex {
  import opened Basics
  import opened StringOrder

  const MIN_PREFIX_LEN := 3
  const MAX_SEARCH_RESULTS := 50

  datatype Match = Match(repo: string, importPath: string, symbolName: string, kind: string, visibility: string)

  /** The symbols of each repository database. */
  type Pool = map<string, seq<Match>>

  function Fold(c: char): char {
    if 'A' <= c <= 'Z' then (c as int - 'A' as int + 'a' as int) as char else c
  }

  function Lower(s: string): (r: string)
    ensures |r| == |s| && forall i :: 0 <= i < |s| ==> r[i] == Fold(s[i])
  {
    seq(|s|, i requires 0 <= i < |s| => Fold(s[i]))
  }

  /** SQL LIKE: '%' is any run of characters, '_' any one. */
  predicate Like(pattern: string, s: string)
    decreases |pattern| + |s|
  {
    if pattern == "" then s == ""
    else if pattern[0] == '%' then Like(pattern[1..], s) || (s != "" && Like(pattern, s[1..]))
    else s != "" && (pattern[0] == '_' || Fold(pattern[0]) == Fold(s[0])) && Like(pattern[1..], s[1..])
  }

  predicate Ascii(s: string) { forall i :: 0 <= i < |s| ==> s[i] < 128 as char }

  ghost predicate AsciiPool(pool: Pool) {
    forall r, i :: r in pool && 0 <= i < |pool[r]| ==> Ascii(pool[r][i].symbolName)
  }

  // ----- one repository

  /** SELECT DISTINCT LOWER(SUBSTR(symbol_name, 1, 3)) ... WHERE LENGTH(symbol_name) >= 3. */
  function Prefixes(rows: seq<Match>): set<string> {
    set m | m in rows && |m.symbolName| >= MIN_PREFIX_LEN :: Lower(m.symbolName[..MIN_PREFIX_LEN])
  }

  function Found(rows: seq<Match>, query: string): seq<Match> {
    if rows == [] then [] else (if Like(query, rows[0].symbolName) then [rows[0]] else []) + Found(rows[1..], query)
  }

  lemma {:induction false} FoundEmptyIff(rows: seq<Match>, query: string)
    ensures Found(rows, query) == [] <==> forall m :: m in rows ==> !Like(query, m.symbolName)
  {
    if rows != [] {
      FoundEmptyIff(rows[1..], query);
      assert forall m :: m in rows <==> m == rows[0] || m in rows[1..];
    }
  }

  // ----- the index

  /** Exactly the prefixes of the repositories that could be read. */
  ghost predicate Indexes(prefixes: map<string, set<string>>, pool: Pool, repos: seq<string>,
      readable: string -> bool) {
    forall p, r :: Has(prefixes, p, r) <==> r in repos && r in pool && readable(r) && p in Prefixes(pool[r])
  }

  predicate Has(prefixes: map<string, set<string>>, p: string, r: string) {
    p in prefixes && r in prefixes[p]
  }

  predicate FallsBack(query: string) { |query| < MIN_PREFIX_LEN || '%' in query }

  class RoutingIndex {
    var prefixes: map<string, set<string>>
    var allRepos: seq<string>

    constructor ()
      ensures prefixes == map[] && allRepos == []
    {
      prefixes, allRepos := map[], [];
    }

    /** Scan every database; one that cannot be opened or queried is left out. */
    method Build(manifest: seq<string>, pool: Pool, readable: string -> bool)
      requires NoDuplicates(manifest)
      modifies this
      ensures Indexes(prefixes, pool, manifest, readable)
      ensures NoDuplicates(allRepos) && Members(allRepos) == Members(manifest) && SortedNames(allRepos)
    {
      var newPrefixes: map<string, set<string>> := map[];
      for i := 0 to |manifest|
        invariant Indexes(newPrefixes, pool, manifest[..i], readable)
      {
        var r := manifest[i];
        assert manifest[..i + 1] == manifest[..i] + [r];
        if r in pool && readable(r) {
          ghost var before := newPrefixes;
          newPrefixes := AddRepo(newPrefixes, r, Prefixes(pool[r]));
          assert forall p, x :: Has(before, p, x) <==>
            x in manifest[..i] && x in pool && readable(x) && p in Prefixes(pool[x]);
        }
      }
      assert manifest[..|manifest|] == manifest;
      prefixes := newPrefixes;
      allRepos := SortNames(Members(manifest));
    }

    /** Every repository for short queries and wildcards, otherwise those that have the prefix. */
    method Lookup(query: string) returns (repos: seq<string>)
      requires NoDuplicates(allRepos)
      ensures NoDuplicates(repos)
      ensures Members(repos) == Candidates(prefixes, Members(allRepos), query)
      ensures !FallsBack(query) ==> SortedNames(repos)
    {
      if |query| < MIN_PREFIX_LEN || '%' in query { return allRepos; }
      var prefix := Lower(query[..MIN_PREFIX_LEN]);
      if prefix !in prefixes {
        MembersEmpty<string>([]);
        return [];
      }
      repos := SortNames(prefixes[prefix]);
    }
  }

  function Candidates(prefixes: map<string, set<string>>, all: set<string>, query: string): set<string> {
    if FallsBack(query) then all
    else
      var prefix := Lower(query[..MIN_PREFIX_LEN]);
      if prefix in prefixes then prefixes[prefix] else {}
  }

  method AddRepo(prefixes: map<string, set<string>>, r: string, ps: set<string>) returns (m: map<string, set<string>>)
    ensures forall p, x :: Has(m, p, x) <==> Has(prefixes, p, x) || (x == r && p in ps)
  {
    m := prefixes;
    var todo := ps;
    while todo != {}
      invariant todo <= ps
      invariant forall p, x :: Has(m, p, x) <==> Has(prefixes, p, x) || (x == r && p in ps && p !in todo)
      decreases todo
    {
      assert exists p :: p in todo;
      var p :| p in todo;
      ghost var before, left := m, todo;
      m := m[p := (if p in m then m[p] else {}) + {r}];
      todo := todo - {p};
      forall q, x ensures Has(m, q, x) <==> Has(prefixes, q, x) || (x == r && q in ps && q !in todo) {
        assert Has(before, q, x) <==> Has(prefixes, q, x) || (x == r && q in ps && q !in left);
      }
    }
  }

  ghost predicate SortedNames(ns: seq<string>) {
    forall i, j :: 0 <= i < j < |ns| ==> Leq(ns[i], ns[j])
  }

  /** Collect the members of a set and sort them. */
  method SortNames(s: set<string>) returns (ns: seq<string>)
    ensures NoDuplicates(ns) && Members(ns) == s && SortedNames(ns)
  {
    ns := [];
    var todo := s;
    while todo != {}
      invariant todo <= s && NoDuplicates(ns) && SortedNames(ns)
      invariant forall n :: n in ns <==> n in s && n !in todo
      decreases todo
    {
      assert exists n :: n in todo;
      var n :| n in todo;
      var i := 0;
      while i < |ns| && Leq(ns[i], n)
        invariant i <= |ns| && forall k :: 0 <= k < i ==> Leq(ns[k], n)
      {
        i := i + 1;
      }
      InsertName(ns, n, i);
      ns := ns[..i] + [n] + ns[i..];
      todo := todo - {n};
    }
    assert Members(ns) == s;
  }

  lemma InsertName(ns: seq<string>, n: string, i: nat)
    requires i <= |ns| && SortedNames(ns) && NoDuplicates(ns) && n !in ns
    requires forall k :: 0 <= k < i ==> Leq(ns[k], n)
    requires i < |ns| ==> !Leq(ns[i], n)
    ensures SortedNames(ns[..i] + [n] + ns[i..]) && NoDuplicates(ns[..i] + [n] + ns[i..])
    ensures forall x :: x in ns[..i] + [n] + ns[i..] <==> x == n || x in ns
  {
    forall k | i <= k < |ns| ensures Leq(n, ns[k]) {
      Total(ns[i], n);
      if k > i { Transitive(n, ns[i], ns[k]); }
    }
    InsertSorted(ns, n, i);
    InsertDistinct(ns, n, i);
  }

  lemma InsertSorted(ns: seq<string>, n: string, i: nat)
    requires i <= |ns| && SortedNames(ns)
    requires (forall k :: 0 <= k < i ==> Leq(ns[k], n)) && forall k :: i <= k < |ns| ==> Leq(n, ns[k])
    ensures SortedNames(ns[..i] + [n] + ns[i..])
  {
    var r := ns[..i] + [n] + ns[i..];
    forall k | 0 <= k < |r| ensures r[k] == if k < i then ns[k] else if k == i then n else ns[k - 1] {}
  }

  lemma InsertDistinct(ns: seq<string>, n: string, i: nat)
    requires i <= |ns| && NoDuplicates(ns) && n !in ns
    ensures NoDuplicates(ns[..i] + [n] + ns[i..])
    ensures forall x :: x in ns[..i] + [n] + ns[i..] <==> x == n || x in ns
  {
    var r := ns[..i] + [n] + ns[i..];
    assert ns == ns[..i] + ns[i..];
    forall k | 0 <= k < |r| ensures r[k] == if k < i then ns[k] else if k == i then n else ns[k - 1] {}
  }

  // ----- the fan-out

  function FoundIn(pool: Pool, r: string, query: string): multiset<Match> {
    if r in pool then multiset(Found(pool[r], query)) else multiset{}
  }

  /** All matches over a list of repositories that can be searched. */
  function AllFound(pool: Pool, repos: seq<string>, query: string): multiset<Match> {
    if repos == [] then multiset{} else FoundIn(pool, repos[0], query) + AllFound(pool, repos[1..], query)
  }

  function KeyOf(m: Match): Key { Key(m.repo, m.symbolName) }

  function Keys(ms: seq<Match>): (ks: seq<Key>)
    ensures |ks| == |ms| && forall i :: 0 <= i < |ms| ==> ks[i] == KeyOf(ms[i])
  {
    seq(|ms|, i requires 0 <= i < |ms| => KeyOf(ms[i]))
  }

  ghost predicate SortedMatches(ms: seq<Match>) { SortedKeys(Keys(ms)) }

  lemma {:induction false} AllFoundRemove(pool: Pool, repos: seq<string>, query: string, i: nat)
    requires i < |repos|
    ensures AllFound(pool, repos, query) == FoundIn(pool, repos[i], query) + AllFound(pool, RemoveAt(repos, i), query)
  {
    if i == 0 {
      assert RemoveAt(repos, 0) == repos[1..];
    } else {
      AllFoundRemove(pool, repos[1..], query, i - 1);
      RemoveAtTail(repos, i);
      SwapFirst(FoundIn(pool, repos[0], query), FoundIn(pool, repos[i], query),
        AllFound(pool, RemoveAt(repos[1..], i - 1), query));
    }
  }

  lemma RemoveAtTail(repos: seq<string>, i: nat)
    requires 0 < i < |repos|
    ensures RemoveAt(repos, i) != [] && RemoveAt(repos, i)[0] == repos[0] && repos[1..][i - 1] == repos[i]
    ensures RemoveAt(repos, i)[1..] == RemoveAt(repos[1..], i - 1)
  {}

  lemma SwapFirst(a: multiset<Match>, x: multiset<Match>, b: multiset<Match>)
    ensures a + (x + b) == x + (a + b)
  {}

  /** The order in which repositories answer does not matter. */
  lemma {:induction false} AllFoundOrderFree(pool: Pool, a: seq<string>, b: seq<string>, query: string)
    requires NoDuplicates(a) && NoDuplicates(b) && Members(a) == Members(b)
    ensures AllFound(pool, a, query) == AllFound(pool, b, query)
    decreases |a|
  {
    if a == [] {
      MembersEmpty(b);
    } else {
      assert a[0] in Members(b);
      var i: nat :| i < |b| && b[i] == a[0];
      AllFoundRemove(pool, a, query, 0);
      AllFoundRemove(pool, b, query, i);
      RemoveAtMembers(a, 0);
      RemoveAtMembers(b, i);
      AllFoundOrderFree(pool, RemoveAt(a, 0), RemoveAt(b, i), query);
    }
  }

  /** The first results of a search, in the order of repository and name, and how many there are in all. */
  ghost predicate IsPage(page: seq<Match>, total: nat, found: multiset<Match>) {
    && total == |found| && |page| == (if total > MAX_SEARCH_RESULTS then MAX_SEARCH_RESULTS else total)
    && SortedMatches(page) && multiset(page) <= found
    && forall p, m :: p in page && m in found - multiset(page) ==> KeyLeq(KeyOf(p), KeyOf(m))
  }

  lemma FirstOfSorted(matches: seq<Match>, n: nat)
    requires SortedMatches(matches) && n <= |matches|
    ensures SortedMatches(matches[..n])
    ensures multiset(matches) - multiset(matches[..n]) == multiset(matches[n..])
    ensures forall p, m :: p in matches[..n] && m in matches[n..] ==> KeyLeq(KeyOf(p), KeyOf(m))
  {
    assert matches == matches[..n] + matches[n..];
    forall p, m | p in matches[..n] && m in matches[n..] ensures KeyLeq(KeyOf(p), KeyOf(m)) {
      var i :| 0 <= i < n && matches[i] == p;
      var j :| n <= j < |matches| && matches[j] == m;
      assert KeyLeq(Keys(matches)[i], Keys(matches)[j]);
    }
    assert Keys(matches[..n]) == Keys(matches)[..n];
  }

  lemma PageOfSorted(matches: seq<Match>, n: nat)
    requires SortedMatches(matches) && n == if |matches| > MAX_SEARCH_RESULTS then MAX_SEARCH_RESULTS else |matches|
    ensures IsPage(matches[..n], |matches|, multiset(matches))
  {
    FirstOfSorted(matches, n);
    assert matches == matches[..n] + matches[n..];
  }

  /** The databases that open and answer when they are searched. */
  function Reachable(pool: Pool, answers: string -> bool): (up: Pool)
    ensures forall r :: r in up <==> r in pool && answers(r)
    ensures forall r :: r in up ==> up[r] == pool[r]
  {
    map r | r in pool && answers(r) :: pool[r]
  }

  /** Search the repositories in whatever order they finish; those that fail are skipped. */
  method Collect(pool: Pool, answers: string -> bool, repos: seq<string>, query: string) returns (matches: seq<Match>)
    requires NoDuplicates(repos)
    ensures multiset(matches) == AllFound(Reachable(pool, answers), repos, query)
  {
    matches := [];
    var todo := Members(repos);
    ghost var up, finished: seq<string> := Reachable(pool, answers), [];
    while todo != {}
      invariant todo <= Members(repos) && NoDuplicates(finished)
      invariant forall r :: r in finished <==> r in Members(repos) && r !in todo
      invariant multiset(matches) == AllFound(up, finished, query)
      decreases todo
    {
      assert exists r :: r in todo;
      var r :| r in todo;
      ghost var more := [r] + finished;
      assert more[1..] == finished;
      if r in pool && answers(r) { matches := matches + Found(pool[r], query); }
      finished := more;
      todo := todo - {r};
    }
    assert Members(finished) == Members(repos);
    AllFoundOrderFree(up, finished, repos, query);
  }

  /** Collect, sort, truncate. */
  method SearchMultiRepo(pool: Pool, answers: string -> bool, repos: seq<string>, query: string)
    returns (page: seq<Match>, total: nat)
    requires NoDuplicates(repos)
    ensures IsPage(page, total, AllFound(Reachable(pool, answers), repos, query))
  {
    var matches := Collect(pool, answers, repos, query);
    matches := SortMatches(matches);
    total := |matches|;
    page := if total > MAX_SEARCH_RESULTS then matches[..MAX_SEARCH_RESULTS] else matches;
    PageOfSorted(matches, |page|);
    assert page == matches[..|page|];
  }

  method SortMatches(ms: seq<Match>) returns (r: seq<Match>)
    ensures multiset(r) == multiset(ms) && SortedMatches(r)
  {
    r := [];
    for n := 0 to |ms|
      invariant multiset(r) == multiset(ms[..n]) && SortedMatches(r)
    {
      var m, i := ms[n], 0;
      while i < |r| && KeyLeq(KeyOf(r[i]), KeyOf(m))
        invariant i <= |r| && forall k :: 0 <= k < i ==> KeyLeq(KeyOf(r[k]), KeyOf(m))
      {
        i := i + 1;
      }
      InsertMatch(r, m, i);
      r := r[..i] + [m] + r[i..];
      assert ms[..n + 1] == ms[..n] + [m];
    }
    assert ms[..|ms|] == ms;
  }

  lemma InsertMatch(r: seq<Match>, m: Match, i: nat)
    requires i <= |r| && SortedMatches(r)
    requires forall k :: 0 <= k < i ==> KeyLeq(KeyOf(r[k]), KeyOf(m))
    requires i < |r| ==> !KeyLeq(KeyOf(r[i]), KeyOf(m))
    ensures SortedMatches(r[..i] + [m] + r[i..])
    ensures multiset(r[..i] + [m] + r[i..]) == multiset(r) + multiset{m}
  {
    assert r == r[..i] + r[i..];
    InsertKey(Keys(r), KeyOf(m), i);
    assert Keys(r[..i] + [m] + r[i..]) == Keys(r)[..i] + [KeyOf(m)] + Keys(r)[i..];
  }

  // ----- what is found: every row that LIKE selects, as often as it is stored

  lemma {:induction false} FoundCount(rows: seq<Match>, query: string, m: Match)
    ensures multiset(Found(rows, query))[m] == if Like(query, m.symbolName) then multiset(rows)[m] else 0
  {
    if rows != [] {
      FoundCount(rows[1..], query, m);
      assert rows == [rows[0]] + rows[1..];
    }
  }

  /** The rows of all listed repositories. */
  function AllRows(pool: Pool, repos: seq<string>): multiset<Match> {
    if repos == [] then multiset{}
    else (if repos[0] in pool then multiset(pool[repos[0]]) else multiset{}) + AllRows(pool, repos[1..])
  }

  /** A search finds each row of each repository that answers, as often as it is stored, if LIKE selects it. */
  lemma {:induction false} AllFoundCount(pool: Pool, repos: seq<string>, query: string, m: Match)
    ensures AllFound(pool, repos, query)[m] == if Like(query, m.symbolName) then AllRows(pool, repos)[m] else 0
  {
    if repos != [] {
      AllFoundCount(pool, repos[1..], query, m);
      if repos[0] in pool { FoundCount(pool[repos[0]], query, m); }
    }
  }

  /** The pattern without a run of characters: letter by letter, letter case aside. */
  lemma {:induction false} LikeLetters(pattern: string, s: string)
    requires '%' !in pattern
    ensures Like(pattern, s) <==>
      |s| == |pattern| && forall i :: 0 <= i < |s| ==> pattern[i] == '_' || SameLetter(pattern[i], s[i])
  {
    if pattern != "" && s != "" {
      LikeLetters(pattern[1..], s[1..]);
      assert forall i :: 1 <= i < |pattern| ==> pattern[i] == pattern[1..][i - 1];
      assert forall i :: 1 <= i < |s| ==> s[i] == s[1..][i - 1];
    }
  }

  /** Equal, or the same ASCII letter in the other case. */
  predicate SameLetter(a: char, b: char) {
    a == b || ('A' <= a <= 'Z' && b as int == a as int + 32) || ('A' <= b <= 'Z' && a as int == b as int + 32)
  }

  ghost predicate SomeRestMatches(pattern: string, s: string) {
    exists j :: 0 <= j <= |s| && Like(pattern, s[j..])
  }

  /** A run of characters stands for any of them: what follows it matches some rest of the text. */
  lemma {:induction false} LikeRun(pattern: string, s: string)
    ensures Like("%" + pattern, s) <==> SomeRestMatches(pattern, s)
  {
    var run := "%" + pattern;
    assert run[1..] == pattern && s[0..] == s;
    if SomeRestMatches(pattern, s) { RestIsLater(pattern, s); }
    if Like(pattern, s) { assert Like(pattern, s[0..]); }
    if s != "" {
      LikeRun(pattern, s[1..]);
      if SomeRestMatches(pattern, s[1..]) { LaterIsRest(pattern, s); }
    }
  }

  /** A rest of a text is the text itself, or a rest of what follows its first character. */
  lemma RestIsLater(pattern: string, s: string)
    requires SomeRestMatches(pattern, s)
    ensures Like(pattern, s) || (s != "" && SomeRestMatches(pattern, s[1..]))
  {
    var j :| 0 <= j <= |s| && Like(pattern, s[j..]);
    if j == 0 { assert s[0..] == s; } else { assert s[1..][j - 1..] == s[j..]; }
  }

  lemma LaterIsRest(pattern: string, s: string)
    requires s != "" && SomeRestMatches(pattern, s[1..])
    ensures SomeRestMatches(pattern, s)
  {
    var j :| 0 <= j <= |s[1..]| && Like(pattern, s[1..][j..]);
    assert s[1..][j..] == s[j + 1..];
  }

  /** The letters in front of a run match the front of the text, and what follows them the rest. */
  lemma {:induction false} LikeFront(front: string, pattern: string, s: string)
    requires '%' !in front
    ensures Like(front + pattern, s) <==> |front| <= |s| && Like(front, s[..|front|]) && Like(pattern, s[|front|..])
  {
    if front == "" {
      assert front + pattern == pattern && s[..0] == "" && s[0..] == s;
    } else if s != "" {
      assert (front + pattern)[1..] == front[1..] + pattern;
      LikeFront(front[1..], pattern, s[1..]);
      if |front| <= |s| {
        assert s[1..][..|front| - 1] == s[..|front|][1..] && s[1..][|front| - 1..] == s[|front|..];
      }
    }
  }

  // ----- nothing is lost

  /** Queries that the index answers completely; the last case cannot match an ASCII name at all. */
  predicate Complete(query: string) {
    |query| < MIN_PREFIX_LEN || '%' in query || '_' !in query[..MIN_PREFIX_LEN] || !Ascii(query)
  }

  lemma {:induction false} LikeWithoutPercent(query: string, s: string)
    requires '%' !in query && Like(query, s)
    ensures |s| == |query| && forall i :: 0 <= i < |query| && query[i] != '_' ==> Fold(query[i]) == Fold(s[i])
  {
    if query != "" {
      LikeWithoutPercent(query[1..], s[1..]);
      forall i | 0 <= i < |query| && query[i] != '_' ensures Fold(query[i]) == Fold(s[i]) {
        if i > 0 { assert query[1..][i - 1] == query[i] && s[1..][i - 1] == s[i]; }
      }
    }
  }

  /** A match has the query's prefix, letter case aside. */
  lemma MatchHasPrefix(query: string, s: string)
    requires !FallsBack(query) && Complete(query) && Ascii(s) && Like(query, s)
    ensures |s| >= MIN_PREFIX_LEN && Lower(s[..MIN_PREFIX_LEN]) == Lower(query[..MIN_PREFIX_LEN])
  {
    LikeWithoutPercent(query, s);
    assert Ascii(query) by {
      forall i | 0 <= i < |query| ensures query[i] < 128 as char {
        if query[i] != '_' { assert Fold(query[i]) == Fold(s[i]); }
      }
    }
    forall i | 0 <= i < MIN_PREFIX_LEN ensures Fold(s[i]) == Fold(query[i]) {
      assert query[..MIN_PREFIX_LEN][i] == query[i];
    }
  }

  lemma {:induction false} NothingElsewhere(pool: Pool, repos: seq<string>, query: string)
    requires forall r :: r in repos && r in pool ==> Found(pool[r], query) == []
    ensures AllFound(pool, repos, query) == multiset{}
  {
    if repos != [] {
      assert repos[0] in repos && forall r :: r in repos[1..] ==> r in repos;
      NothingElsewhere(pool, repos[1..], query);
    }
  }

  lemma {:induction false} AllFoundAppend(pool: Pool, a: seq<string>, b: seq<string>, query: string)
    ensures AllFound(pool, a + b, query) == AllFound(pool, a, query) + AllFound(pool, b, query)
  {
    if a == [] {
      assert a + b == b;
    } else {
      assert (a + b)[1..] == a[1..] + b;
      AllFoundAppend(pool, a[1..], b, query);
    }
  }

  lemma {:induction false} ListOf(s: set<string>) returns (l: seq<string>)
    ensures NoDuplicates(l) && Members(l) == s
  {
    l := [];
    if x :| x in s {
      var rest := ListOf(s - {x});
      l := [x] + rest;
      assert forall y :: y in rest <==> y in Members(rest);
      assert forall y :: y in l <==> y == x || y in rest;
      assert Members(l) == s;
    } else {
      assert s == {};
      MembersEmpty(l);
    }
  }

  /** The index was built from all repositories, their names are ASCII, and the candidates are its own. */
  ghost predicate Routed(pool: Pool, all: seq<string>, prefixes: map<string, set<string>>, cand: seq<string>,
      query: string) {
    && AsciiPool(pool) && NoDuplicates(all) && NoDuplicates(cand) && Indexes(prefixes, pool, all, r => true)
    && Members(cand) == Candidates(prefixes, Members(all), query)
  }

  /**
   Searching only the candidates finds the same matches as searching everything, for every query that
   is complete and whichever repositories answer.
   */
  lemma RoutingLosesNothing(pool: Pool, all: seq<string>, prefixes: map<string, set<string>>, cand: seq<string>,
      query: string, answers: string -> bool)
    requires Routed(pool, all, prefixes, cand, query) && Complete(query)
    ensures AllFound(Reachable(pool, answers), cand, query) == AllFound(Reachable(pool, answers), all, query)
  {
    var up := Reachable(pool, answers);
    CandidatesAreKnown(pool, all, prefixes, query);
    var rest := ListOf(Members(all) - Members(cand));
    forall r | r in rest && r in up ensures Found(up[r], query) == [] {
      assert r in Members(rest);
      NoMatchOutside(pool, all, prefixes, query, r);
    }
    NothingElsewhere(up, rest, query);
    SplitRepos(up, all, cand, rest, query);
  }

  lemma CandidatesAreKnown(pool: Pool, all: seq<string>, prefixes: map<string, set<string>>, query: string)
    requires Indexes(prefixes, pool, all, r => true)
    ensures Candidates(prefixes, Members(all), query) <= Members(all)
  {
    if !FallsBack(query) {
      var prefix := Lower(query[..MIN_PREFIX_LEN]);
      forall r | r in Candidates(prefixes, Members(all), query) ensures r in Members(all) {
        assert Has(prefixes, prefix, r);
      }
    }
  }

  /** Searching two disjoint parts is searching the whole. */
  lemma SplitRepos(pool: Pool, all: seq<string>, a: seq<string>, b: seq<string>, query: string)
    requires NoDuplicates(all) && NoDuplicates(a) && NoDuplicates(b)
    requires Members(a) <= Members(all) && Members(b) == Members(all) - Members(a)
    ensures AllFound(pool, all, query) == AllFound(pool, a, query) + AllFound(pool, b, query)
  {
    assert forall x :: x in a <==> x in Members(a);
    assert forall x :: x in b <==> x in Members(b);
    assert Members(a + b) == Members(all);
    assert NoDuplicates(a + b) by {
      forall i, j | 0 <= i < |a| && 0 <= j < |b| ensures a[i] != b[j] {
        assert a[i] in Members(a) && b[j] in Members(b);
      }
    }
    AllFoundAppend(pool, a, b, query);
    AllFoundOrderFree(pool, a + b, all, query);
  }

  lemma NoMatchOutside(pool: Pool, all: seq<string>, prefixes: map<string, set<string>>, query: string, r: string)
    requires AsciiPool(pool) && Indexes(prefixes, pool, all, r => true) && Complete(query)
    requires r in Members(all) && r in pool && r !in Candidates(prefixes, Members(all), query)
    ensures Found(pool[r], query) == []
  {
    var prefix := Lower(query[..MIN_PREFIX_LEN]);
    assert !Has(prefixes, prefix, r);
    assert prefix !in Prefixes(pool[r]);
    forall m | m in pool[r] ensures !Like(query, m.symbolName) {
      var i :| 0 <= i < |pool[r]| && pool[r][i] == m;
      assert Ascii(pool[r][i].symbolName);
      NoPrefixNoMatch(query, m.symbolName);
    }
    FoundEmptyIff(pool[r], query);
  }

  lemma NoPrefixNoMatch(query: string, s: string)
    requires !FallsBack(query) && Complete(query) && Ascii(s)
    requires |s| >= MIN_PREFIX_LEN ==> Lower(s[..MIN_PREFIX_LEN]) != Lower(query[..MIN_PREFIX_LEN])
    ensures !Like(query, s)
  {
    if Like(query, s) { MatchHasPrefix(query, s); }
  }

  // ----- and exactly those queries

  /** Every '_' filled with a letter: a name the query matches. */
  function Filled(query: string): (s: string)
    ensures |s| == |query| && forall i :: 0 <= i < |query| ==> s[i] == if query[i] == '_' then 'x' else query[i]
  {
    seq(|query|, i requires 0 <= i < |query| => if query[i] == '_' then 'x' else query[i])
  }

  lemma {:induction false} FilledMatches(query: string)
    requires '%' !in query
    ensures Like(query, Filled(query))
  {
    if query != "" {
      FilledMatches(query[1..]);
      assert Filled(query)[1..] == Filled(query[1..]);
    }
  }

  /**
   Searching the candidates is as good as searching everything, whatever the repositories hold and whichever
   answer.
   */
  ghost predicate NeverLoses(query: string) {
    forall pool: Pool, all: seq<string>, prefixes: map<string, set<string>>, cand: seq<string>,
      answers: string -> bool ::
      Routed(pool, all, prefixes, cand, query) ==>
        AllFound(Reachable(pool, answers), cand, query) == AllFound(Reachable(pool, answers), all, query)
  }

  /** The index never loses an answer exactly for the complete queries. */
  lemma NeverLosesIff(query: string)
    ensures NeverLoses(query) <==> Complete(query)
  {
    if Complete(query) {
      forall pool: Pool, all: seq<string>, prefixes: map<string, set<string>>, cand: seq<string>,
        answers: string -> bool |
        Routed(pool, all, prefixes, cand, query)
        ensures AllFound(Reachable(pool, answers), cand, query) == AllFound(Reachable(pool, answers), all, query)
      {
        RoutingLosesNothing(pool, all, prefixes, cand, query, answers);
      }
    } else {
      LosesOne(query);
    }
  }

  /** A repository whose one symbol the query matches, but under a prefix the index does not try. */
  lemma LosesOne(query: string)
    requires !Complete(query)
    ensures !NeverLoses(query)
  {
    var name := Filled(query);
    var rows := [Match("r", "", name, "", "")];
    var pool: Pool := map["r" := rows];
    var all: seq<string> := ["r"];
    var prefix := Lower(name[..MIN_PREFIX_LEN]);
    var prefixes := map[prefix := {"r"}];
    var cand: seq<string> := [];
    FilledMatches(query);
    assert rows[0] in rows;
    assert Prefixes(rows) == {prefix};
    assert Indexes(prefixes, pool, all, r => true);
    var k :| 0 <= k < MIN_PREFIX_LEN && query[..MIN_PREFIX_LEN][k] == '_';
    assert Lower(query[..MIN_PREFIX_LEN])[k] == '_' && prefix[k] == 'x';
    MembersEmpty(cand);
    assert Members(cand) == Candidates(prefixes, Members(all), query);
    assert rows[1..] == [] && all[1..] == [];
    assert Found(rows, query) == rows;
    assert AllFound(pool, all, query) == multiset(rows);
    assert rows[0] in AllFound(pool, all, query);
    var answers := (r: string) => true;
    assert Reachable(pool, answers) == pool;
    assert Routed(pool, all, prefixes, cand, query);
    assert AllFound(Reachable(pool, answers), cand, query) != AllFound(Reachable(pool, answers), all, query);
  }

  /**
   The search tool in multi-repo mode: candidates first, an empty response when there are none.
   For a complete query over a complete index it finds what searching every repository finds.
   */
  method SearchSymbols(index: RoutingIndex, pool: Pool, answers: string -> bool, query: string)
    returns (page: seq<Match>, total: nat)
    requires NoDuplicates(index.allRepos)
    ensures AsciiPool(pool) && Indexes(index.prefixes, pool, index.allRepos, r => true) && Complete(query) ==>
      IsPage(page, total, AllFound(Reachable(pool, answers), index.allRepos, query))
    ensures exists repos ::
      && NoDuplicates(repos) && Members(repos) == Candidates(index.prefixes, Members(index.allRepos), query)
      && IsPage(page, total, AllFound(Reachable(pool, answers), repos, query))
  {
    var candidates := index.Lookup(query);
    if candidates == [] {
      page, total := [], 0;
    } else {
      page, total := SearchMultiRepo(pool, answers, candidates, query);
    }
    if AsciiPool(pool) && Indexes(index.prefixes, pool, index.allRepos, r => true) && Complete(query) {
      RoutingLosesNothing(pool, index.allRepos, index.prefixes, candidates, query, answers);
    }
  }

  /** A search has one page, up to the order of matches with the same repository and name. */
  lemma PageUnique(a: seq<Match>, b: seq<Match>, total: nat, found: multiset<Match>)
    requires IsPage(a, total, found) && IsPage(b, total, found)
    ensures Keys(a) == Keys(b)
  {
    var fullA := Completed(a, total, found);
    var fullB := Completed(b, total, found);
    SamePage(fullA, fullB);
    KeysOfFront(a, fullA);
    KeysOfFront(b, fullB);
  }

  lemma KeysOfFront(front: seq<Match>, full: seq<Match>)
    requires front <= full
    ensures |front| <= |Keys(full)| && Keys(front) == Keys(full)[..|front|]
  {}

  /** A page is the front of a sorted list of everything that was found. */
  lemma Completed(page: seq<Match>, total: nat, found: multiset<Match>) returns (full: seq<Match>)
    requires IsPage(page, total, found)
    ensures SortedMatches(full) && multiset(full) == found && page <= full
  {
    var rest := SortedListOf(found - multiset(page));
    full := page + rest;
    forall p, m | p in page && m in rest ensures KeyLeq(KeyOf(p), KeyOf(m)) { assert m in multiset(rest); }
    SortedConcat(page, rest);
  }

  lemma SortedConcat(a: seq<Match>, b: seq<Match>)
    requires SortedMatches(a) && SortedMatches(b) && forall p, m :: p in a && m in b ==> KeyLeq(KeyOf(p), KeyOf(m))
    ensures SortedMatches(a + b)
  {
    var full := Keys(a + b);
    forall i, j | 0 <= i < j < |full| ensures KeyLeq(full[i], full[j]) {
      if j < |a| {
        assert KeyLeq(Keys(a)[i], Keys(a)[j]);
      } else if i >= |a| {
        assert KeyLeq(Keys(b)[i - |a|], Keys(b)[j - |a|]);
      } else {
        assert a[i] in a && b[j - |a|] in b;
      }
    }
  }

  lemma InsertSomewhere(r: seq<Match>, m: Match) returns (l: seq<Match>)
    requires SortedMatches(r)
    ensures SortedMatches(l) && multiset(l) == multiset(r) + multiset{m}
  {
    var i := 0;
    while i < |r| && KeyLeq(KeyOf(r[i]), KeyOf(m))
      invariant i <= |r| && forall k :: 0 <= k < i ==> KeyLeq(KeyOf(r[k]), KeyOf(m))
    {
      i := i + 1;
    }
    InsertMatch(r, m, i);
    l := r[..i] + [m] + r[i..];
  }

  lemma {:induction false} SortedListOf(f: multiset<Match>) returns (l: seq<Match>)
    ensures SortedMatches(l) && multiset(l) == f
    decreases |f|
  {
    if m :| m in f {
      var r := SortedListOf(f - multiset{m});
      l := InsertSomewhere(r, m);
    } else {
      assert f == multiset{};
      l := [];
    }
  }

  /** With the same matches, the totals agree and so do the keys of the page that is returned. */
  lemma SamePage(a: seq<Match>, b: seq<Match>)
    requires multiset(a) == multiset(b) && SortedMatches(a) && SortedMatches(b)
    ensures |a| == |b| && Keys(a) == Keys(b)
  {
    KeysOfSame(a, b);
    SortedUnique(Keys(a), Keys(b));
  }

  lemma MultisetRemove(b: seq<Match>, i: nat)
    requires i < |b|
    ensures multiset(b) == multiset{b[i]} + multiset(RemoveAt(b, i))
  {
    assert b == b[..i] + [b[i]] + b[i + 1..];
  }

  lemma KeysRemove(b: seq<Match>, i: nat)
    requires i < |b|
    ensures multiset(Keys(b)) == multiset{KeyOf(b[i])} + multiset(Keys(RemoveAt(b, i)))
  {
    var front, back := Keys(b)[..i], Keys(b)[i + 1..];
    assert Keys(b) == front + [KeyOf(b[i])] + back;
    assert Keys(RemoveAt(b, i)) == front + back;
  }

  lemma {:induction false} KeysOfSame(a: seq<Match>, b: seq<Match>)
    requires multiset(a) == multiset(b)
    ensures multiset(Keys(a)) == multiset(Keys(b))
    decreases |a|
  {
    assert |a| == |multiset(a)| == |multiset(b)| == |b|;
    if a != [] {
      assert a[0] in multiset(a);
      var i: nat :| i < |b| && b[i] == a[0];
      MultisetRemove(a, 0);
      MultisetRemove(b, i);
      KeysRemove(a, 0);
      KeysRemove(b, i);
      assert multiset(RemoveAt(a, 0)) == multiset(a) - multiset{a[0]};
      assert multiset(RemoveAt(b, i)) == multiset(b) - multiset{a[0]};
      KeysOfSame(RemoveAt(a, 0), RemoveAt(b, i));
    }
  }
}
