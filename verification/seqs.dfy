/** Small facts about sequences used by the grouping stages of the
    aggregation pipelines. */
module Seqs {

  predicate NoDup<T(==)>(s: seq<T>) {
    forall i, j :: 0 <= i < j < |s| ==> s[i] != s[j]
  }

  function Elements<T>(s: seq<T>): set<T> {
    set x | x in s
  }

  /** The distinct values of `s`, each at the place of its first occurrence:
      the group keys of a `$group` stage. */
  function Dedup<T(==,!new)>(s: seq<T>): (r: seq<T>)
    ensures NoDup(r)
    ensures forall x :: x in r <==> x in s
    ensures |r| <= |s|
  {
    if s == [] then []
    else
      var p := Dedup(s[..|s| - 1]);
      var x := s[|s| - 1];
      assert forall y :: y in s <==> y in s[..|s| - 1] || y == x;
      if x in p then p else p + [x]
  }

  /** The sum of a sequence of counts. */
  function Sum(s: seq<nat>): nat {
    if s == [] then 0 else s[0] + Sum(s[1..])
  }

  /** A sequence without repetitions has as many distinct elements as entries. */
  lemma {:induction false} NoDupCard<T>(s: seq<T>)
    requires NoDup(s)
    ensures |Elements(s)| == |s|
  {
    if s != [] {
      var t := s[1..];
      assert NoDup(t);
      NoDupCard(t);
      assert s[0] !in t;
      assert Elements(s) == Elements(t) + {s[0]};
    }
  }

  /** No sequence has more distinct elements than entries. */
  lemma {:induction false} CardAtMost<T>(s: seq<T>)
    ensures |Elements(s)| <= |s|
  {
    if s != [] {
      var t := s[1..];
      CardAtMost(t);
      assert Elements(s) == Elements(t) + {s[0]};
    }
  }

  /** A repetition-free sequence drawn from the values of `pool` is no longer
      than `pool`. */
  lemma NoDupWithin<T>(s: seq<T>, pool: seq<T>)
    requires NoDup(s)
    requires forall x :: x in s ==> x in pool
    ensures |s| <= |pool|
  {
    NoDupCard(s);
    CardAtMost(pool);
    assert Elements(s) <= Elements(pool);
    SubsetCard(Elements(s), Elements(pool));
  }

  lemma {:induction false} SubsetCard<T>(a: set<T>, b: set<T>)
    requires a <= b
    ensures |a| <= |b|
    decreases |a|
  {
    if a != {} {
      var x :| x in a;
      SubsetCard(a - {x}, b - {x});
    }
  }

  /** A sequence with a repetition has fewer distinct elements than entries. */
  lemma {:induction false} CardWithDup<T>(s: seq<T>)
    requires !NoDup(s)
    ensures |Elements(s)| < |s|
  {
    var t := s[1..];
    assert Elements(s) == Elements(t) + {s[0]};
    if s[0] in t {
      assert Elements(s) == Elements(t);
      CardAtMost(t);
    } else {
      assert !NoDup(t) by {
        var i, j :| 0 <= i < j < |s| && s[i] == s[j];
        assert i != 0;
        assert t[i - 1] == s[i] && t[j - 1] == s[j];
      }
      CardWithDup(t);
    }
  }

  /** Being free of repetitions depends only on the multiset of entries. */
  lemma NoDupPermutation<T>(a: seq<T>, b: seq<T>)
    requires multiset(a) == multiset(b)
    requires NoDup(a)
    ensures NoDup(b)
  {
    assert |a| == |multiset(a)| == |multiset(b)| == |b|;
    assert Elements(a) == Elements(b) by {
      assert forall x :: x in a <==> x in multiset(a);
      assert forall x :: x in b <==> x in multiset(b);
    }
    NoDupCard(a);
    if !NoDup(b) {
      CardWithDup(b);
    }
  }
}
