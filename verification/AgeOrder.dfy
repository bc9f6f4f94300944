/** Lists in ascending order of an age: the contract of an ORDER BY, whose ties come in any order. */
module AgeOrder {
  import opened Basics

  ghost predicate Ascending<T(!new)>(ks: seq<T>, age: T -> int) {
    forall i, j :: 0 <= i < j < |ks| ==> age(ks[i]) <= age(ks[j])
  }

  /** Insert before the first element that is not older. */
  function InsertByAge<T(!new,==)>(ks: seq<T>, k: T, age: T -> int): (r: seq<T>)
    requires k !in ks && NoDuplicates(ks) && Ascending(ks, age)
    ensures NoDuplicates(r) && Ascending(r, age) && forall x :: x in r <==> x == k || x in ks
  {
    if ks == [] || age(k) <= age(ks[0]) then [k] + ks
    else
      assert forall x :: x in ks <==> x == ks[0] || x in ks[1..];
      var rest := InsertByAge(ks[1..], k, age);
      Push(ks, k, age, rest);
      [ks[0]] + rest
  }

  lemma Push<T(!new)>(ks: seq<T>, k: T, age: T -> int, rest: seq<T>)
    requires ks != [] && k !in ks && NoDuplicates(ks) && Ascending(ks, age) && age(ks[0]) < age(k)
    requires NoDuplicates(rest) && Ascending(rest, age) && forall x :: x in rest <==> x == k || x in ks[1..]
    ensures NoDuplicates([ks[0]] + rest) && Ascending([ks[0]] + rest, age)
  {
    forall i | 0 <= i < |rest| ensures rest[i] != ks[0] && age(ks[0]) <= age(rest[i]) {
      assert rest[i] == k || rest[i] in ks[1..];
    }
  }
}
