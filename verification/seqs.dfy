/** Sequence helpers: duplicate-freedom and the first-occurrence removal of
    a .NET `List<T>.Remove`. */
module Seqs {

  ghost predicate NoDup<T>(s: seq<T>)
  {
    forall i, j :: 0 <= i < j < |s| ==> s[i] != s[j]
  }

  /** The index of the first occurrence of `x` in `s`. */
  function FirstIndex<T(==)>(s: seq<T>, x: T): (k: nat)
    requires x in s
    ensures k < |s| && s[k] == x && x !in s[..k]
  {
    if s[0] == x then 0 else 1 + FirstIndex(s[1..], x)
  }

  /** Removes the first occurrence of `x`, keeping the order of the rest. */
  function RemoveFirst<T(==,!new)>(s: seq<T>, x: T): (r: seq<T>)
    ensures x !in s ==> r == s
    ensures x in s ==> r == s[..FirstIndex(s, x)] + s[FirstIndex(s, x) + 1..]
    ensures forall y :: y != x ==> (y in r <==> y in s)
  {
    if s == [] then []
    else if s[0] == x then s[1..]
    else
      var tail := RemoveFirst(s[1..], x);
      RemoveFirstStep(s, x, tail);
      [s[0]] + tail
  }

  /** The step of `RemoveFirst` past a head that is not `x`. */
  lemma RemoveFirstStep<T>(s: seq<T>, x: T, tail: seq<T>)
    requires s != [] && s[0] != x
    requires x !in s[1..] ==> tail == s[1..]
    requires x in s[1..] ==>
      tail == s[1..][..FirstIndex(s[1..], x)] + s[1..][FirstIndex(s[1..], x) + 1..]
    requires forall y :: y != x ==> (y in tail <==> y in s[1..])
    ensures x !in s ==> [s[0]] + tail == s
    ensures x in s ==>
      [s[0]] + tail == s[..FirstIndex(s, x)] + s[FirstIndex(s, x) + 1..]
    ensures forall y :: y != x ==> (y in [s[0]] + tail <==> y in s)
  {
    assert s == [s[0]] + s[1..];
    assert forall y :: y in [s[0]] + tail <==> y == s[0] || y in tail;
    if x in s {
      var k := FirstIndex(s[1..], x);
      assert FirstIndex(s, x) == k + 1;
      assert s[..k + 1] == [s[0]] + s[1..][..k];
      assert s[k + 2..] == s[1..][k + 1..];
    }
  }

  lemma NoDupSuffix<T>(s: seq<T>)
    requires |s| > 0 && NoDup(s)
    ensures NoDup(s[1..]) && s[0] !in s[1..]
  {
  }

  /** On a duplicate-free list, removal drops every occurrence and keeps the
      list duplicate-free. */
  lemma {:induction false} RemoveFirstNoDup<T(!new)>(s: seq<T>, x: T)
    requires NoDup(s)
    ensures NoDup(RemoveFirst(s, x)) && x !in RemoveFirst(s, x)
  {
    if s != [] {
      NoDupSuffix(s);
      if s[0] != x {
        RemoveFirstNoDup(s[1..], x);
        var t := RemoveFirst(s[1..], x);
        assert RemoveFirst(s, x) == [s[0]] + t;
        assert s[0] !in t;
        PrependNoDup(s[0], t);
      }
    }
  }

  lemma PrependNoDup<T>(x: T, s: seq<T>)
    requires NoDup(s) && x !in s
    ensures NoDup([x] + s)
  {
    var r := [x] + s;
    forall i, j | 0 <= i < j < |r|
      ensures r[i] != r[j]
    {
      assert r[j] == s[j - 1];
      if i > 0 { assert r[i] == s[i - 1]; }
    }
  }

  lemma AppendNoDup<T>(s: seq<T>, x: T)
    requires NoDup(s) && x !in s
    ensures NoDup(s + [x])
  {
  }

  /** Membership in a concatenation. */
  lemma InConcat<T>(a: seq<T>, b: seq<T>, x: T)
    ensures x in a + b <==> x in a || x in b
  {
    if x in a + b {
      var i :| 0 <= i < |a + b| && (a + b)[i] == x;
      if i >= |a| { assert b[i - |a|] == x; }
    }
    if x in b {
      var i :| 0 <= i < |b| && b[i] == x;
      assert (a + b)[|a| + i] == x;
    }
  }

  /** A duplicate-free concatenation has duplicate-free, disjoint parts. */
  lemma NoDupConcat<T>(a: seq<T>, b: seq<T>)
    requires NoDup(a + b)
    ensures NoDup(a) && NoDup(b)
    ensures forall x :: x in a ==> x !in b
  {
    assert forall i :: 0 <= i < |a| ==> (a + b)[i] == a[i];
    assert forall i :: 0 <= i < |b| ==> (a + b)[|a| + i] == b[i];
    forall x | x in a
      ensures x !in b
    {
      var i :| 0 <= i < |a| && a[i] == x;
      forall j | 0 <= j < |b|
        ensures b[j] != x
      {
        assert (a + b)[i] != (a + b)[|a| + j];
      }
    }
  }

  /** A duplicate-free list `[x] + a + b` splits into duplicate-free,
      pairwise disjoint parts. */
  lemma NoDupParts<T>(x: T, a: seq<T>, b: seq<T>)
    requires NoDup([x] + a + b)
    ensures NoDup(a) && NoDup(b) && x !in a && x !in b
    ensures forall y :: y in a ==> y !in b
  {
    NoDupConcat([x] + a, b);
    NoDupConcat([x], a);
    assert x in [x] + a;
    forall y | y in a
      ensures y in [x] + a
    {
      InConcat([x], a, y);
    }
  }

  /** Removing an element just appended to a sequence that did not hold it
      gives the sequence back. */
  lemma RemoveAppended<T(!new)>(s: seq<T>, x: T)
    requires x !in s
    ensures RemoveFirst(s + [x], x) == s
  {
    assert (s + [x])[..|s|] == s;
  }
}
