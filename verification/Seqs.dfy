/** Sequences without repetition, and concatenation. */
module Seqs {

  predicate Distinct<T(==)>(s: seq<T>) {
    forall i, j :: 0 <= i < j < |s| ==> s[i] != s[j]
  }

  lemma DistinctSnoc<T>(s: seq<T>, x: T)
    requires Distinct(s) && x !in s
    ensures Distinct(s + [x])
  {
    assert forall i :: 0 <= i < |s| ==> s[i] in s;
  }

  lemma LastNotInFront<T>(s: seq<T>)
    requires Distinct(s) && s != []
    ensures s[|s| - 1] !in s[..|s| - 1] && Distinct(s[..|s| - 1])
  {
  }

  /** A repetition-free sequence of numbers below n has at most n elements. */
  lemma {:induction false} Pigeonhole(s: seq<nat>, n: nat)
    requires Distinct(s)
    requires forall x :: x in s ==> x < n
    ensures |s| <= n
    decreases n
  {
    if n == 0 {
      assert forall k :: 0 <= k < |s| ==> s[k] in s;
    } else if n - 1 in s {
      var k :| 0 <= k < |s| && s[k] == n - 1;
      var t := s[..k] + s[k + 1..];
      assert forall x :: x in t ==> x in s;
      assert forall x :: x in t ==> x != n - 1;
      Pigeonhole(t, n - 1);
    } else {
      Pigeonhole(s, n - 1);
    }
  }

  /** A set of numbers below n has at most n elements. */
  lemma {:induction false} SetBelow(s: set<nat>, n: nat)
    requires forall x :: x in s ==> x < n
    ensures |s| <= n
    decreases n
  {
    if n == 0 {
      assert s == {};
    } else {
      SetBelow(s - {n - 1}, n - 1);
      if n - 1 in s {
        assert |s - {n - 1}| == |s| - 1;
      } else {
        assert s - {n - 1} == s;
      }
    }
  }

  lemma Assoc<T>(a: seq<T>, b: seq<T>, c: seq<T>)
    ensures a + (b + c) == (a + b) + c
  {
  }

  /** A sequence that holds all numbers below n has at least n elements. */
  lemma {:induction false} HoldsAll(s: seq<nat>, n: nat)
    requires forall x: nat :: x < n ==> x in s
    ensures n <= |s|
    decreases n
  {
    if n > 0 {
      assert n - 1 in s;
      var k :| 0 <= k < |s| && s[k] == n - 1;
      var t := s[..k] + s[k + 1..];
      forall x: nat | x < n - 1
        ensures x in t
      {
        assert x in s;
        var i :| 0 <= i < |s| && s[i] == x;
        assert t[if i < k then i else i - 1] == x;
      }
      HoldsAll(t, n - 1);
    }
  }

  function Elements(t: seq<nat>): set<nat> {
    set x | x in t
  }

  lemma {:induction false} DistinctSize(t: seq<nat>)
    requires Distinct(t)
    ensures |Elements(t)| == |t|
    decreases |t|
  {
    if t == [] {
      assert Elements(t) == {};
    } else {
      var front, last := t[..|t| - 1], t[|t| - 1];
      LastNotInFront(t);
      DistinctSize(front);
      assert t == front + [last];
      assert Elements(t) == Elements(front) + {last};
    }
  }
}
