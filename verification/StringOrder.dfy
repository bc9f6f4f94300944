/** Lexicographic order on strings and on (repo, symbol) keys, and sorting by it. */
module StringOrder {
  import opened Basics

  predicate Leq(a: string, b: string) {
    a == "" || (b != "" && (a[0] < b[0] || (a[0] == b[0] && Leq(a[1..], b[1..]))))
  }

  /** One string comes before another if it is a beginning of it, or is smaller at the first place they differ. */
  lemma {:induction false} LeqIff(a: string, b: string)
    ensures Leq(a, b) <==>
      a <= b || exists i :: 0 <= i < |a| && i < |b| && a[..i] == b[..i] && a[i] < b[i]
  {
    if a != "" && b != "" {
      LeqIff(a[1..], b[1..]);
      assert a == [a[0]] + a[1..] && b == [b[0]] + b[1..];
      if a[0] < b[0] { assert a[..0] == b[..0]; }
      if i :| 0 <= i < |a| && i < |b| && a[..i] == b[..i] && a[i] < b[i] {
        if i > 0 {
          assert a[..i][0] == b[..i][0];
          assert a[1..][..i - 1] == a[..i][1..] && b[1..][..i - 1] == b[..i][1..];
        }
      }
      if i :| 0 <= i < |a[1..]| && i < |b[1..]| && a[1..][..i] == b[1..][..i] && a[1..][i] < b[1..][i] && a[0] == b[0] {
        assert a[..i + 1] == [a[0]] + a[1..][..i] && b[..i + 1] == [b[0]] + b[1..][..i];
      }
    }
  }

  lemma {:induction false} Total(a: string, b: string)
    ensures Leq(a, b) || Leq(b, a)
  {
    if a != "" && b != "" && a[0] == b[0] { Total(a[1..], b[1..]); }
  }

  lemma {:induction false} Antisymmetric(a: string, b: string)
    requires Leq(a, b) && Leq(b, a)
    ensures a == b
  {
    if a != "" && b != "" {
      Antisymmetric(a[1..], b[1..]);
      assert a == [a[0]] + a[1..] && b == [b[0]] + b[1..];
    }
  }

  lemma {:induction false} Transitive(a: string, b: string, c: string)
    requires Leq(a, b) && Leq(b, c)
    ensures Leq(a, c)
  {
    if a != "" && b != "" && c != "" && a[0] == b[0] == c[0] { Transitive(a[1..], b[1..], c[1..]); }
  }

  /** By repo, then by symbol name. */
  datatype Key = Key(repo: string, name: string)

  predicate KeyLeq(a: Key, b: Key) {
    if a.repo != b.repo then Leq(a.repo, b.repo) else Leq(a.name, b.name)
  }

  lemma KeyTotal(a: Key, b: Key)
    ensures KeyLeq(a, b) || KeyLeq(b, a)
  {
    Total(a.repo, b.repo);
    Total(a.name, b.name);
  }

  lemma KeyAntisymmetric(a: Key, b: Key)
    requires KeyLeq(a, b) && KeyLeq(b, a)
    ensures a == b
  {
    if a.repo != b.repo { Antisymmetric(a.repo, b.repo); } else { Antisymmetric(a.name, b.name); }
  }

  lemma KeyTransitive(a: Key, b: Key, c: Key)
    requires KeyLeq(a, b) && KeyLeq(b, c)
    ensures KeyLeq(a, c)
  {
    if a.repo == b.repo == c.repo {
      Transitive(a.name, b.name, c.name);
    } else if a.repo != b.repo && b.repo != c.repo {
      Transitive(a.repo, b.repo, c.repo);
      if a.repo == c.repo { Antisymmetric(a.repo, b.repo); }
    }
  }

  ghost predicate SortedKeys(ks: seq<Key>) {
    forall i, j :: 0 <= i < j < |ks| ==> KeyLeq(ks[i], ks[j])
  }

  lemma FirstIsLeast(a: seq<Key>, b: seq<Key>)
    requires SortedKeys(a) && a != [] && b != [] && b[0] in multiset(a)
    ensures KeyLeq(a[0], b[0])
  {
    var i :| 0 <= i < |a| && a[i] == b[0];
    KeyTotal(a[0], a[0]);
  }

  lemma TailMultiset(a: seq<Key>)
    requires a != []
    ensures multiset(a[1..]) == multiset(a) - multiset{a[0]} && a[0] in multiset(a)
  {
    assert a == [a[0]] + a[1..];
  }

  /** A multiset of keys has only one sorted list. */
  lemma {:induction false} SortedUnique(a: seq<Key>, b: seq<Key>)
    requires SortedKeys(a) && SortedKeys(b) && multiset(a) == multiset(b)
    ensures a == b
  {
    assert |a| == |multiset(a)| == |multiset(b)| == |b|;
    if a != [] {
      TailMultiset(a);
      TailMultiset(b);
      FirstIsLeast(a, b);
      FirstIsLeast(b, a);
      KeyAntisymmetric(a[0], b[0]);
      SortedUnique(a[1..], b[1..]);
      assert a == [a[0]] + a[1..] && b == [b[0]] + b[1..];
    }
  }

  /** Inserting behind everything that is not greater keeps a list of keys sorted. */
  lemma InsertKey(ks: seq<Key>, k: Key, i: nat)
    requires i <= |ks| && SortedKeys(ks)
    requires forall j :: 0 <= j < i ==> KeyLeq(ks[j], k)
    requires i < |ks| ==> !KeyLeq(ks[i], k)
    ensures SortedKeys(ks[..i] + [k] + ks[i..])
  {
    var r := ks[..i] + [k] + ks[i..];
    forall j | i <= j < |ks| ensures KeyLeq(k, ks[j]) {
      KeyTotal(ks[i], k);
      if j > i { KeyTransitive(k, ks[i], ks[j]); }
    }
    forall j | 0 <= j < |r| ensures r[j] == if j < i then ks[j] else if j == i then k else ks[j - 1] {}
  }
}
