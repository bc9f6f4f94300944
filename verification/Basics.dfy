/** Small value types shared by the modules of the model. */
module Basics {

  /** A value that may be absent (a nil pointer, a missing row). */
  datatype Option<+T> = None | Some(value: T)

  /** The (value, error) pair of a call that can fail. */
  datatype Result<+T> = Ok(value: T) | Err

  function Max(a: int, b: int): int { if a >= b then a else b }

  /** Strictly increasing lists: sorted, without repetition. */
  ghost predicate StrictlyIncreasing(s: seq<int>) {
    forall i, j :: 0 <= i < j < |s| ==> s[i] < s[j]
  }

  ghost predicate NonDecreasing(s: seq<int>) {
    forall i, j :: 0 <= i < j < |s| ==> s[i] <= s[j]
  }

  ghost predicate NoDuplicates<T>(s: seq<T>) {
    forall i, j :: 0 <= i < j < |s| ==> s[i] != s[j]
  }

  /** The set of members of a list. */
  function Members<T>(s: seq<T>): set<T> {
    set x | x in s
  }

  function RemoveAt<T>(s: seq<T>, i: nat): seq<T>
    requires i < |s|
  {
    s[..i] + s[i + 1..]
  }

  lemma RemoveAtMembers<T>(s: seq<T>, i: nat)
    requires i < |s| && NoDuplicates(s)
    ensures NoDuplicates(RemoveAt(s, i))
    ensures Members(RemoveAt(s, i)) == Members(s) - {s[i]}
  {
    var r := RemoveAt(s, i);
    forall x | x in s && x != s[i] ensures x in r {
      var j :| 0 <= j < |s| && s[j] == x;
      assert x == r[if j < i then j else j - 1];
    }
  }

  lemma MembersEmpty<T>(s: seq<T>)
    ensures Members(s) == {} <==> s == []
  {
    if s != [] { assert s[0] in Members(s); }
  }

  lemma {:induction false} LengthOfMembers<T>(s: seq<T>)
    requires NoDuplicates(s)
    ensures |Members(s)| == |s|
  {
    if s == [] {
      MembersEmpty(s);
    } else {
      RemoveAtMembers(s, 0);
      assert RemoveAt(s, 0) == s[1..];
      assert s[0] in Members(s);
      LengthOfMembers(s[1..]);
    }
  }

  lemma {:induction false} SubsetSize<T>(a: set<T>, b: set<T>)
    requires a <= b
    ensures |a| <= |b|
  {
    if x :| x in a {
      SubsetSize(a - {x}, b - {x});
    } else {
      assert a == {};
    }
  }

  /** The places of a list whose element passes the test. */
  function Places<T>(s: seq<T>, test: T -> bool): set<nat> {
    set i: nat | i < |s| && test(s[i])
  }

  lemma PlacesSnoc<T>(s: seq<T>, test: T -> bool)
    ensures s == [] ==> Places(s, test) == {}
    ensures s != [] ==>
      |Places(s, test)| == |Places(s[..|s| - 1], test)| + if test(s[|s| - 1]) then 1 else 0
  {
    if s != [] {
      var n: nat := |s| - 1;
      var before := Places(s[..n], test);
      assert n !in before;
      assert Places(s, test) == if test(s[n]) then before + {n} else before;
    }
  }

  lemma {:induction false} PlacesCons<T>(s: seq<T>, test: T -> bool)
    ensures s == [] ==> Places(s, test) == {}
    ensures s != [] ==> |Places(s, test)| == (if test(s[0]) then 1 else 0) + |Places(s[1..], test)|
  {
    PlacesSnoc(s, test);
    if |s| == 1 {
      assert s[..0] == [] == s[1..] && Places<T>([], test) == {};
    } else if |s| > 1 {
      var n := |s| - 1;
      PlacesCons(s[..n], test);
      PlacesSnoc(s[1..], test);
      assert s[..n][1..] == s[1..][..n - 1];
    }
  }

  /** Elements in front that fail the test do not count. */
  lemma {:induction false} PlacesBehind<T>(s: seq<T>, test: T -> bool, n: nat)
    requires n <= |s| && forall i :: 0 <= i < n ==> !test(s[i])
    ensures |Places(s[n..], test)| == |Places(s, test)|
  {
    if n == 0 {
      assert s[0..] == s;
    } else {
      PlacesCons(s, test);
      PlacesBehind(s[1..], test, n - 1);
      assert s[1..][n - 1..] == s[n..];
    }
  }
}
