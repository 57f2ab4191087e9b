/** Sorting by an integer key, the `.sort({ rollNo: 1 })` and
    `$sort: { rollNo: 1 }` stages. The order is stated once as a
    specification (sorted, and a permutation of the input); the insertion
    sort below is one function meeting it, and `SortedUnique` shows that,
    when keys are distinct, every function meeting it returns the same
    sequence. */
module Sorting {
  import opened Seqs

  predicate SortedBy<T>(s: seq<T>, key: T -> int) {
    forall i, j :: 0 <= i < j < |s| ==> key(s[i]) <= key(s[j])
  }

  /** Elements of `s` with equal keys are equal: the key identifies them. */
  predicate KeyIdentifies<T(==)>(s: seq<T>, key: T -> int) {
    forall x, y :: x in s && y in s && key(x) == key(y) ==> x == y
  }

  function Insert<T(==)>(x: T, s: seq<T>, key: T -> int): (r: seq<T>)
    requires SortedBy(s, key)
    ensures SortedBy(r, key)
    ensures multiset(r) == multiset(s) + multiset{x}
  {
    if s == [] then [x]
    else if key(x) <= key(s[0]) then
      SortedCons(x, s, key);
      [x] + s
    else
      var rest := Insert(x, s[1..], key);
      assert s == [s[0]] + s[1..];
      BoundedByHead(s, x, rest, key);
      SortedCons(s[0], rest, key);
      [s[0]] + rest
  }

  /** A sorted sequence stays sorted behind an element no larger than any
      of its own. */
  lemma SortedCons<T>(h: T, rest: seq<T>, key: T -> int)
    requires SortedBy(rest, key)
    requires rest != [] ==> key(h) <= key(rest[0])
    ensures SortedBy([h] + rest, key)
  {
    var r := [h] + rest;
    forall i, j | 0 <= i < j < |r| ensures key(r[i]) <= key(r[j]) {
      if i > 0 {
        assert r[i] == rest[i - 1] && r[j] == rest[j - 1];
      } else {
        assert r[j] == rest[j - 1];
      }
    }
  }

  /** What is inserted behind the head of a sorted sequence, together with
      its tail, starts no lower than the head. */
  lemma BoundedByHead<T>(s: seq<T>, x: T, rest: seq<T>, key: T -> int)
    requires s != [] && SortedBy(s, key) && key(s[0]) < key(x)
    requires multiset(rest) == multiset(s[1..]) + multiset{x}
    ensures rest != [] ==> key(s[0]) <= key(rest[0])
  {
    if rest != [] {
      var y := rest[0];
      assert y in multiset(rest);
      if y != x {
        assert y in multiset(s[1..]);
        var k :| 0 <= k < |s[1..]| && s[1..][k] == y;
        assert s[k + 1] == y;
      }
    }
  }

  /** `s` rearranged into ascending key order. */
  function SortBy<T(==)>(s: seq<T>, key: T -> int): (r: seq<T>)
    ensures SortedBy(r, key)
    ensures multiset(r) == multiset(s)
  {
    if s == [] then []
    else
      assert s == s[..|s| - 1] + [s[|s| - 1]];
      Insert(s[|s| - 1], SortBy(s[..|s| - 1], key), key)
  }

  /** Sorting keeps exactly the elements it was given. */
  lemma SortByMembers<T>(s: seq<T>, key: T -> int)
    ensures forall x :: x in SortBy(s, key) <==> x in s
  {
    var r := SortBy(s, key);
    assert forall x :: x in r <==> x in multiset(r);
    assert forall x :: x in s <==> x in multiset(s);
  }

  /** Two sorted permutations of one another with distinct keys are equal:
      the sorted order is uniquely determined. */
  lemma {:induction false} SortedUnique<T>(a: seq<T>, b: seq<T>, key: T -> int)
    requires SortedBy(a, key) && SortedBy(b, key)
    requires multiset(a) == multiset(b)
    requires KeyIdentifies(a, key)
    ensures a == b
    decreases |a|
  {
    assert |a| == |multiset(a)| == |multiset(b)| == |b|;
    if a != [] {
      SortedHeads(a, b, key);
      TailsPermutation(a, b);
      assert KeyIdentifies(a[1..], key) by {
        assert forall x :: x in a[1..] ==> x in a;
      }
      SortedUnique(a[1..], b[1..], key);
      assert a == [a[0]] + a[1..];
      assert b == [b[0]] + b[1..];
    }
  }

  /** Sorted permutations whose key identifies elements start alike. */
  lemma SortedHeads<T>(a: seq<T>, b: seq<T>, key: T -> int)
    requires a != [] && b != []
    requires SortedBy(a, key) && SortedBy(b, key)
    requires multiset(a) == multiset(b)
    requires KeyIdentifies(a, key)
    ensures a[0] == b[0]
  {
    assert a[0] in multiset(b);
    var j :| 0 <= j < |b| && b[j] == a[0];
    assert b[0] in multiset(a);
    var i :| 0 <= i < |a| && a[i] == b[0];
    assert key(a[0]) <= key(a[i]);
    assert key(b[0]) <= key(b[j]);
    assert a[i] in a;
  }

  /** Removing a common head keeps two permutations permutations. */
  lemma TailsPermutation<T>(a: seq<T>, b: seq<T>)
    requires a != [] && b != [] && a[0] == b[0]
    requires multiset(a) == multiset(b)
    ensures multiset(a[1..]) == multiset(b[1..])
  {
    assert a == [a[0]] + a[1..];
    assert b == [b[0]] + b[1..];
    assert multiset(a) == multiset{a[0]} + multiset(a[1..]);
    assert multiset(b) == multiset{a[0]} + multiset(b[1..]);
    assert multiset(a[1..]) == multiset(a) - multiset{a[0]};
    assert multiset(b[1..]) == multiset(b) - multiset{a[0]};
  }

  /** Distinct keys identify their elements. */
  lemma DistinctKeysIdentify<T>(s: seq<T>, key: T -> int)
    requires forall i, j :: 0 <= i < j < |s| ==> key(s[i]) != key(s[j])
    ensures KeyIdentifies(s, key)
  {
    forall x, y | x in s && y in s && key(x) == key(y) ensures x == y {
      var i :| 0 <= i < |s| && s[i] == x;
      var j :| 0 <= j < |s| && s[j] == y;
      assert !(i < j) && !(j < i);
    }
  }

  /** A permutation has the same elements, so the key identifies them in it
      as well. */
  lemma KeyIdentifiesPermutation<T>(a: seq<T>, b: seq<T>, key: T -> int)
    requires multiset(a) == multiset(b)
    requires KeyIdentifies(a, key)
    ensures KeyIdentifies(b, key)
  {
    assert forall x :: x in a <==> x in multiset(a);
    assert forall x :: x in b <==> x in multiset(b);
  }

  /** A sorted sequence without repetitions whose key identifies its
      elements is strictly ascending. */
  lemma SortedStrict<T>(s: seq<T>, key: T -> int)
    requires SortedBy(s, key) && NoDup(s) && KeyIdentifies(s, key)
    ensures forall i, j :: 0 <= i < j < |s| ==> key(s[i]) < key(s[j])
  {
    forall i, j | 0 <= i < j < |s| ensures key(s[i]) < key(s[j]) {
      assert s[i] in s && s[j] in s && s[i] != s[j];
    }
  }
}
