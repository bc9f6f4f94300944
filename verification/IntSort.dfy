/** Sorting integers: the contract of the library sort, by insertion. */
module IntSort {
  import opened Basics

  lemma InsertInt(s: seq<int>, x: int, i: nat)
    requires i <= |s| && NonDecreasing(s)
    requires i > 0 ==> s[i - 1] <= x
    requires i < |s| ==> x <= s[i]
    ensures NonDecreasing(s[..i] + [x] + s[i..])
  {
    var r := s[..i] + [x] + s[i..];
    forall j, k | 0 <= j < k < |r| ensures r[j] <= r[k] {
      assert j < i ==> r[j] == s[j] && s[j] <= x;
      assert k > i ==> r[k] == s[k - 1] && x <= s[k - 1];
    }
  }

  lemma InsertKeeps(s: seq<int>, x: int, i: nat)
    requires i <= |s|
    ensures multiset(s[..i] + [x] + s[i..]) == multiset(s) + multiset{x}
  {
    assert s == s[..i] + s[i..];
  }

  method Sort(s: seq<int>) returns (r: seq<int>)
    ensures NonDecreasing(r) && multiset(r) == multiset(s)
  {
    r := [];
    for n := 0 to |s|
      invariant NonDecreasing(r) && multiset(r) == multiset(s[..n])
    {
      var i := |r|;
      while i > 0 && r[i - 1] > s[n]
        invariant 0 <= i <= |r| && (i < |r| ==> r[i] > s[n])
      {
        i := i - 1;
      }
      InsertInt(r, s[n], i);
      InsertKeeps(r, s[n], i);
      r := r[..i] + [s[n]] + r[i..];
      assert s[..n + 1] == s[..n] + [s[n]];
    }
    assert s[..|s|] == s;
  }
}
