/** The set of pull-request numbers of a file as a blob of little-endian words (db/pr_id_set.go). */
module PRIdSet {
  import opened Basics
  import IntSort

  type Byte = b: int | 0 <= b < 256

  const TWO_32 := 0x1_0000_0000

  /** Four bytes, the low one first: the conversion to 32 bits truncates. */
  function Word(v: nat): (w: seq<Byte>)
    ensures |w| == 4
  {
    [v % 256, v / 256 % 256, v / 65536 % 256, v / 16777216 % 256]
  }

  function Joined(b0: int, b1: int, b2: int, b3: int): int {
    b0 + 256 * b1 + 65536 * b2 + 16777216 * b3
  }

  function ValueAt(blob: seq<Byte>, i: nat): (v: nat)
    requires i + 4 <= |blob|
    ensures v < TWO_32
  {
    Joined(blob[i], blob[i + 1], blob[i + 2], blob[i + 3])
  }

  function Encoded(s: seq<nat>): (blob: seq<Byte>)
    ensures |blob| == 4 * |s|
  {
    if s == [] then [] else Encoded(s[..|s| - 1]) + Word(s[|s| - 1])
  }

  function Decoded(blob: seq<Byte>): (s: seq<nat>)
    ensures |s| == |blob| / 4 && forall i :: 0 <= i < |s| ==> s[i] == ValueAt(blob, 4 * i)
  {
    seq(|blob| / 4, i requires 0 <= i < |blob| / 4 => ValueAt(blob, 4 * i))
  }

  // ----- the canonical list of a set of ids

  function InsertUnique(s: seq<nat>, x: nat): (r: seq<nat>)
    requires StrictlyIncreasing(s)
    ensures StrictlyIncreasing(r)
    ensures forall y :: y in r <==> y in s || y == x
  {
    if s == [] then [x]
    else
      var front, last := s[..|s| - 1], s[|s| - 1];
      assert s == front + [last];
      if last < x then s + [x]
      else if last == x then s
      else
        var r := InsertUnique(front, x);
        assert forall i :: 0 <= i < |r| ==> r[i] in r;
        r + [last]
  }

  /** The distinct non-negative ids, in increasing order. */
  function Canonical(ids: seq<int>): (r: seq<nat>)
    ensures StrictlyIncreasing(r)
    ensures forall y: int :: y in r <==> y in ids && y >= 0
  {
    if ids == [] then []
    else
      var front, last := ids[..|ids| - 1], ids[|ids| - 1];
      assert ids == front + [last];
      if last < 0 then Canonical(front) else InsertUnique(Canonical(front), last)
  }

  lemma FrontOfIncreasing(s: seq<int>)
    requires StrictlyIncreasing(s) && s != []
    ensures forall x :: x in s ==> x <= s[|s| - 1]
    ensures s[|s| - 1] in s && Members(s[..|s| - 1]) == Members(s) - {s[|s| - 1]}
  {
    assert s == s[..|s| - 1] + [s[|s| - 1]];
  }

  /** A set has one strictly increasing list. */
  lemma {:induction false} IncreasingUnique(a: seq<int>, b: seq<int>)
    requires StrictlyIncreasing(a) && StrictlyIncreasing(b)
    requires Members(a) == Members(b)
    ensures a == b
  {
    MembersEmpty(a);
    MembersEmpty(b);
    if a != [] {
      var front, last := a[..|a| - 1], a[|a| - 1];
      SameLast(a, b);
      FrontOfIncreasing(a);
      FrontOfIncreasing(b);
      IncreasingUnique(front, b[..|b| - 1]);
      assert a == front + [last] && b == b[..|b| - 1] + [last];
    }
  }

  lemma SameLast(a: seq<int>, b: seq<int>)
    requires StrictlyIncreasing(a) && StrictlyIncreasing(b) && Members(a) == Members(b) && a != [] && b != []
    ensures a[|a| - 1] == b[|b| - 1]
  {
    FrontOfIncreasing(a);
    FrontOfIncreasing(b);
    assert a[|a| - 1] in Members(b) && b[|b| - 1] in Members(a);
  }

  // ----- the program

  /** Keep the first of equal neighbours of a sorted list, in place. */
  method Dedupe(a: array<int>) returns (n: nat)
    requires NonDecreasing(a[..]) && forall i :: 0 <= i < a.Length ==> a[i] >= 0
    modifies a
    ensures n <= a.Length && StrictlyIncreasing(a[..n])
    ensures forall x :: x in a[..n] <==> x in old(a[..])
  {
    n := 0;
    var last := -1;
    ghost var s := a[..];
    for i := 0 to a.Length
      invariant n <= i && (forall k :: i <= k < a.Length ==> a[k] == s[k])
      invariant StrictlyIncreasing(a[..n])
      invariant forall x :: x in a[..n] <==> x in s[..i]
      invariant last == if n == 0 then -1 else a[n - 1]
      invariant n == 0 ==> i == 0
      invariant i > 0 ==> last == s[i - 1]
    {
      var v := a[i];
      assert s[..i + 1] == s[..i] + [v];
      if v != last {
        ghost var kept := a[..n];
        a[n] := v;
        assert a[..n + 1] == kept + [v];
        n := n + 1;
        last := v;
      } else {
        assert v in a[..n];
      }
    }
    assert s[..a.Length] == s;
  }

  method EncodePRIDSet(ids: seq<int>) returns (blob: seq<Byte>)
    ensures blob == Encoded(Canonical(ids))
  {
    if ids == [] { return []; }
    var cp := [];
    for i := 0 to |ids|
      invariant forall x :: x in cp <==> x in ids[..i] && x >= 0
    {
      if ids[i] >= 0 { cp := cp + [ids[i]]; }
    }
    assert ids[..|ids|] == ids;
    var sorted := IntSort.Sort(cp);
    SameMembers(cp, sorted);
    var a := new int[|sorted|](i requires 0 <= i < |sorted| => sorted[i]);
    assert a[..] == sorted;
    forall i | 0 <= i < a.Length ensures a[i] >= 0 { assert sorted[i] in sorted; }
    var n := Dedupe(a);
    assert Members(a[..n]) == Members(Canonical(ids));
    IncreasingUnique(a[..n], Canonical(ids));
    blob := PutWords(a, n);
  }

  lemma SameMembers(a: seq<int>, b: seq<int>)
    requires multiset(a) == multiset(b)
    ensures forall x :: x in a <==> x in b
  {
    forall x ensures x in a <==> x in b {
      assert x in a <==> x in multiset(a);
      assert x in b <==> x in multiset(b);
    }
  }

  /** Fill a buffer word by word. */
  method PutWords(a: array<int>, n: nat) returns (blob: seq<Byte>)
    requires n <= a.Length && forall i :: 0 <= i < n ==> a[i] >= 0
    ensures blob == Encoded(a[..n])
  {
    var buf := new Byte[4 * n];
    for i := 0 to n
      invariant buf[..4 * i] == Encoded(a[..i])
    {
      var v := a[i];
      ghost var done := buf[..4 * i];
      buf[4 * i] := v % 256;
      buf[4 * i + 1] := v / 256 % 256;
      buf[4 * i + 2] := v / 65536 % 256;
      buf[4 * i + 3] := v / 16777216 % 256;
      assert buf[..4 * (i + 1)] == done + Word(v);
      assert a[..i + 1][..i] == a[..i];
    }
    blob := buf[..];
    assert buf[..4 * n] == blob;
  }

  method DecodePRIDSet(blob: seq<Byte>) returns (r: Result<seq<int>>)
    ensures r == if |blob| % 4 == 0 then Ok(Decoded(blob)) else Err
  {
    if blob == [] { return Ok([]); }
    if |blob| % 4 != 0 { return Err; }
    var n := |blob| / 4;
    var out := new int[n];
    for i := 0 to n
      invariant forall k :: 0 <= k < i ==> out[k] == ValueAt(blob, 4 * k)
    {
      out[i] := ValueAt(blob, 4 * i);
    }
    assert out[..] == Decoded(blob);
    r := Ok(out[..]);
  }

  // ----- properties

  function Low32(v: nat): (r: nat)
    ensures r < TWO_32 && (v < TWO_32 ==> r == v)
  {
    v % TWO_32
  }

  function Truncated(s: seq<nat>): (r: seq<nat>)
    ensures |r| == |s| && forall i :: 0 <= i < |s| ==> r[i] == Low32(s[i])
  {
    seq(|s|, i requires 0 <= i < |s| => Low32(s[i]))
  }

  lemma Over65536(v: nat, q: nat, r: nat)
    requires v == 65536 * q + r && r < 65536
    ensures v / 65536 == q
  {}

  lemma Over16777216(v: nat, q: nat, r: nat)
    requires v == 16777216 * q + r && r < 16777216
    ensures v / 16777216 == q
  {}

  lemma WordValue(v: nat)
    ensures ValueAt(Word(v), 0) == Low32(v)
  {
    var q1, r0 := v / 256, v % 256;
    var q2, r1 := q1 / 256, q1 % 256;
    var q3, r2 := q2 / 256, q2 % 256;
    Over65536(v, q2, 256 * r1 + r0);
    Over16777216(v, q3, 65536 * r2 + 256 * r1 + r0);
    RemainderUnique(v, q3 / 256, Joined(r0, r1, r2, q3 % 256));
  }

  lemma RemainderUnique(v: nat, q: nat, r: nat)
    requires v == TWO_32 * q + r && r < TWO_32
    ensures Low32(v) == r
  {}

  /** Decoding reads back every id, truncated to 32 bits. */
  lemma {:induction false} DecodeEncoded(s: seq<nat>)
    ensures Decoded(Encoded(s)) == Truncated(s)
  {
    if s != [] {
      var n := |s| - 1;
      var front, w := Encoded(s[..n]), Word(s[n]);
      DecodeEncoded(s[..n]);
      WordValue(s[n]);
      forall i | 0 <= i < |s| ensures Decoded(Encoded(s))[i] == Low32(s[i]) {
        if i < n {
          assert Decoded(front)[i] == Truncated(s[..n])[i] == Low32(s[i]);
          assert ValueAt(front + w, 4 * i) == ValueAt(front, 4 * i) == Decoded(front)[i];
        } else {
          assert ValueAt(front + w, 4 * n) == ValueAt(w, 0);
        }
      }
    }
  }

  ghost predicate Fit(ids: seq<int>) {
    forall x :: x in ids ==> x < TWO_32
  }

  lemma FitIffUnchanged(s: seq<nat>)
    ensures Fit(s) <==> Truncated(s) == s
  {
    if Fit(s) {
      forall i | 0 <= i < |s| ensures Truncated(s)[i] == s[i] { assert s[i] in s; }
    } else {
      var x :| x in s && x >= TWO_32;
      var i :| 0 <= i < |s| && s[i] == x;
      assert Truncated(s)[i] < TWO_32;
    }
  }

  /** Decoding an encoding gives the canonical list exactly when every id fits in 32 bits. */
  lemma RoundTripIff(ids: seq<int>)
    ensures Decoded(Encoded(Canonical(ids))) == Canonical(ids) <==> Fit(ids)
  {
    DecodeEncoded(Canonical(ids));
    FitIffUnchanged(Canonical(ids));
    assert Fit(Canonical(ids)) <==> Fit(ids);
  }

  /** The same non-negative members. */
  ghost predicate SameSet(a: seq<int>, b: seq<int>) {
    forall x: int :: x >= 0 ==> (x in a <==> x in b)
  }

  lemma SameCanonicalIff(a: seq<int>, b: seq<int>)
    ensures SameSet(a, b) <==> Canonical(a) == Canonical(b)
  {
    if SameSet(a, b) {
      assert Members(Canonical(a)) == Members(Canonical(b));
      IncreasingUnique(Canonical(a), Canonical(b));
    }
    if Canonical(a) == Canonical(b) {
      forall x: int | x >= 0 ensures x in a <==> x in b {
        assert x in a <==> x in Canonical(a);
        assert x in b <==> x in Canonical(b);
      }
    }
  }

  /** The bytes depend only on the non-negative members, and determine them while they fit in 32 bits. */
  lemma SameMembersSameBytes(a: seq<int>, b: seq<int>)
    ensures SameSet(a, b) ==> Encoded(Canonical(a)) == Encoded(Canonical(b))
    ensures Fit(a) && Fit(b) && Encoded(Canonical(a)) == Encoded(Canonical(b)) ==> SameSet(a, b)
  {
    SameCanonicalIff(a, b);
    RoundTripIff(a);
    RoundTripIff(b);
  }

  /** Four bytes for each distinct non-negative id. */
  lemma LengthIsFourPerMember(ids: seq<int>)
    ensures |Encoded(Canonical(ids))| == 4 * |set x | x in ids && x >= 0|
  {
    var s := Canonical(ids);
    LengthOfMembers(s);
    assert Members(s) == set x | x in ids && x >= 0;
  }

  lemma ValueWord(blob: seq<Byte>, i: nat)
    requires i + 4 <= |blob|
    ensures Word(ValueAt(blob, i)) == blob[i..i + 4]
  {
    var b0: int, b1: int, b2: int, b3: int := blob[i], blob[i + 1], blob[i + 2], blob[i + 3];
    var v := ValueAt(blob, i);
    var q1 := b1 + 256 * b2 + 65536 * b3;
    var q2 := b2 + 256 * b3;
    assert v == 256 * q1 + b0 && v / 256 == q1 && v % 256 == b0;
    assert q1 == 256 * q2 + b1 && q1 / 256 == q2 && q1 % 256 == b1;
    assert v / 65536 == q2 && v / 16777216 == b3;
  }

  lemma {:induction false} EncodeDecoded(blob: seq<Byte>)
    requires |blob| % 4 == 0
    ensures Encoded(Decoded(blob)) == blob
  {
    if blob != [] {
      var n := |blob| - 4;
      EncodeDecoded(blob[..n]);
      ValueWord(blob, n);
      var s := Decoded(blob);
      forall i | 0 <= i < |s| - 1 ensures s[i] == Decoded(blob[..n])[i] {
        assert ValueAt(blob, 4 * i) == ValueAt(blob[..n], 4 * i);
      }
      assert s[..|s| - 1] == Decoded(blob[..n]);
      assert blob == blob[..n] + blob[n..n + 4];
    }
  }

  /** A blob re-encodes to itself exactly when its words strictly increase. */
  lemma ReencodesIff(blob: seq<Byte>)
    requires |blob| % 4 == 0
    ensures Encoded(Canonical(Decoded(blob))) == blob <==> StrictlyIncreasing(Decoded(blob))
  {
    var s := Decoded(blob);
    EncodeDecoded(blob);
    if StrictlyIncreasing(s) {
      assert Members(Canonical(s)) == Members(s);
      IncreasingUnique(Canonical(s), s);
    }
    if Encoded(Canonical(s)) == blob {
      RoundTripIff(s);
    }
  }

  lemma SingleId(x: nat)
    ensures Decoded(Encoded(Canonical([x]))) == [Low32(x)]
  {
    assert [x][..0] == [] && Canonical([x]) == [x];
    DecodeEncoded([x]);
  }

  const MAX_INT32 := 0x7FFF_FFFF

  /**
   Large ids are not clamped to MAX_INT32, as the comment says: an id is stored as the word it wraps around
   to, and so collides with that one. The comment holds for an id if and only if it is no larger than
   MAX_INT32 or happens to wrap around to it.
   */
  lemma LargeIdsWrap(x: nat)
    ensures Decoded(Encoded(Canonical([x]))) == [x % TWO_32] == Decoded(Encoded(Canonical([x % TWO_32])))
    ensures Decoded(Encoded(Canonical([x]))) == [if x > MAX_INT32 then MAX_INT32 else x] <==>
      x <= MAX_INT32 || x % TWO_32 == MAX_INT32
  {
    SingleId(x);
    SingleId(x % TWO_32);
  }
}
