/** Facts about sequences shared by the rest of the model: duplicate freedom,
    first-occurrence order and de-duplication that keeps that order. */
module Sequences {

  predicate NoDuplicates<T(==)>(s: seq<T>) {
    forall i, j :: 0 <= i < j < |s| ==> s[i] != s[j]
  }

  /** The position of the first occurrence of `x` in `s`. */
  function FirstIndex<T(==)>(s: seq<T>, x: T): (i: nat)
    requires x in s
    ensures i < |s| && s[i] == x
    ensures forall j :: 0 <= j < i ==> s[j] != x
  {
    if s[0] == x then 0 else 1 + FirstIndex(s[1..], x)
  }

  /** Every element of `r` occurs in `s`, and `r` lists them in the order of
      their first occurrence in `s`. */
  predicate FirstOccurrenceOrder<T(==)>(r: seq<T>, s: seq<T>) {
    && (forall i :: 0 <= i < |r| ==> r[i] in s)
    && (forall i, j :: 0 <= i < j < |r| ==>
          r[i] in s && r[j] in s && FirstIndex(s, r[i]) < FirstIndex(s, r[j]))
  }

  /** Appending an element that first occurs after every element of `r` keeps
      `r` in first-occurrence order. */
  lemma AppendKeepsFirstOccurrenceOrder<T>(r: seq<T>, x: T, s: seq<T>)
    requires FirstOccurrenceOrder(r, s) && x in s
    requires forall i :: 0 <= i < |r| ==> r[i] in s && FirstIndex(s, r[i]) < FirstIndex(s, x)
    ensures FirstOccurrenceOrder(r + [x], s)
  {
    var t := r + [x];
    forall i, j | 0 <= i < j < |t|
      ensures t[i] in s && t[j] in s && FirstIndex(s, t[i]) < FirstIndex(s, t[j])
    {
      assert t[i] == r[i];
      if j < |r| {
        assert t[j] == r[j];
      }
    }
  }

  /** Dropping the last element keeps both properties. */
  lemma DropLastKeepsFirstOccurrenceOrder<T>(r: seq<T>, s: seq<T>)
    requires r != [] && NoDuplicates(r) && FirstOccurrenceOrder(r, s)
    ensures NoDuplicates(r[..|r| - 1]) && FirstOccurrenceOrder(r[..|r| - 1], s)
  {
    var front := r[..|r| - 1];
    forall i | 0 <= i < |front| ensures front[i] == r[i] && front[i] in s { }
    forall i, j | 0 <= i < j < |front|
      ensures front[i] != front[j]
      ensures front[i] in s && front[j] in s && FirstIndex(s, front[i]) < FirstIndex(s, front[j])
    {
      assert front[i] == r[i] && front[j] == r[j];
    }
  }

  /** The distinct elements of `s`, each kept at its first occurrence: the key
      order of a Python dict (or `Counter`) built from `s` one element at a time. */
  function Distinct<T(==)>(s: seq<T>): (r: seq<T>)
    ensures NoDuplicates(r)
    ensures forall i :: 0 <= i < |r| ==> r[i] in s
    ensures forall i :: 0 <= i < |s| ==> s[i] in r
  {
    if s == [] then []
    else
      var front, last := s[..|s| - 1], s[|s| - 1];
      assert s == front + [last];
      if last in front then Distinct(front) else Distinct(front) + [last]
  }

  lemma FirstIndexOfPrefix<T>(a: seq<T>, b: seq<T>, x: T)
    requires x in a
    ensures x in a + b && FirstIndex(a + b, x) == FirstIndex(a, x)
  {
    assert (a + b)[FirstIndex(a, x)] == x;
  }

  lemma FirstIndexAfterPrefix<T>(a: seq<T>, x: T)
    requires x !in a
    ensures x in a + [x] && FirstIndex(a + [x], x) == |a|
  {
    assert (a + [x])[|a|] == x;
  }

  /** `Distinct(s)` keeps the first-occurrence order of `s`. */
  lemma {:induction false} DistinctKeepsFirstOccurrenceOrder<T>(s: seq<T>)
    ensures FirstOccurrenceOrder(Distinct(s), s)
  {
    if s != [] {
      var front, last := s[..|s| - 1], s[|s| - 1];
      assert s == front + [last];
      DistinctKeepsFirstOccurrenceOrder(front);
      var d := Distinct(front);
      forall x | x in front
        ensures x in s && FirstIndex(s, x) == FirstIndex(front, x) && FirstIndex(front, x) < |front|
      {
        FirstIndexOfPrefix(front, [last], x);
      }
      if last !in front {
        FirstIndexAfterPrefix(front, last);
        var r := d + [last];
        forall i, j | 0 <= i < j < |r|
          ensures r[i] in s && r[j] in s && FirstIndex(s, r[i]) < FirstIndex(s, r[j])
        {
          if j < |d| {
            assert r[i] == d[i] && r[j] == d[j];
          } else {
            assert r[i] == d[i] && r[i] in front;
          }
        }
      }
    }
  }

  /** A duplicate-free sequence has as many distinct elements as it is long. */
  lemma {:induction false} ElementsOfDistinct<T>(s: seq<T>)
    requires NoDuplicates(s)
    ensures |set x | x in s| == |s|
  {
    if s != [] {
      var front := s[..|s| - 1];
      assert s == front + [s[|s| - 1]];
      ElementsOfDistinct(front);
      assert (set x | x in s) == (set x | x in front) + {s[|s| - 1]};
    }
  }

  /** `n` copies of `x`. */
  function Repeat<T>(x: T, n: nat): (r: seq<T>)
    ensures |r| == n
  {
    if n == 0 then [] else Repeat(x, n - 1) + [x]
  }

  lemma {:induction false} RepeatCount<T>(x: T, n: nat, y: T)
    ensures multiset(Repeat(x, n))[y] == if y == x then n else 0
  {
    if n > 0 {
      RepeatCount(x, n - 1, y);
    }
  }
}
