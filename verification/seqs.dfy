/** Order-preserving filtering and de-duplication of sequences: the list
    comprehensions `[x for x in s if p(x)]` and the set-building loops of the model. */
module Seqs {

  /** No element occurs twice. */
  predicate NoDup<T(==)>(s: seq<T>) {
    forall i, j :: 0 <= i < j < |s| ==> s[i] != s[j]
  }

  /** `a` can be obtained from `b` by deleting elements, keeping the order of the rest. */
  predicate Subseq<T(==)>(a: seq<T>, b: seq<T>)
    decreases |b|
  {
    if |a| == 0 then true
    else if |b| == 0 then false
    else (a[0] == b[0] && Subseq(a[1..], b[1..])) || Subseq(a, b[1..])
  }

  /** `[x for x in s if p(x)]`: exactly the elements that pass, in their original order. */
  function Filter<T(==,!new)>(p: T -> bool, s: seq<T>): (r: seq<T>)
    ensures forall x :: x in r <==> x in s && p(x)
    ensures forall x :: multiset(r)[x] == if p(x) then multiset(s)[x] else 0
    ensures Subseq(r, s)
    ensures |r| <= |s|
    ensures NoDup(s) ==> NoDup(r)
    decreases |s|
  {
    if |s| == 0 then []
    else
      assert s == [s[0]] + s[1..];
      if p(s[0]) then [s[0]] + Filter(p, s[1..])
      else Filter(p, s[1..])
  }

  /** A filter that keeps every element is the identity, and one that keeps none is empty. */
  lemma {:induction false} FilterAllOrNothing<T(!new)>(p: T -> bool, s: seq<T>)
    ensures (forall x :: x in s ==> p(x)) ==> Filter(p, s) == s
    ensures (forall x :: x in s ==> !p(x)) ==> Filter(p, s) == []
    decreases |s|
  {
    if |s| > 0 {
      assert forall x :: x in s[1..] ==> x in s;
      FilterAllOrNothing(p, s[1..]);
      assert s == [s[0]] + s[1..];
    }
  }

  /** A duplicate-free sequence whose only element value is `x`, and that holds `x`, is `[x]`. */
  lemma SingletonOfNoDup<T>(s: seq<T>, x: T)
    requires NoDup(s)
    requires x in s
    requires forall y :: y in s ==> y == x
    ensures s == [x]
  {
    assert s[0] in s && s[|s| - 1] in s;
  }

  /** Keeps one occurrence (the last) of each element that passes `p`, in order: a model of
      collecting into a Python set and listing it, with the set's arbitrary order fixed. */
  function DedupFilter<T(==,!new)>(p: T -> bool, s: seq<T>): (r: seq<T>)
    ensures forall x :: x in r <==> x in s && p(x)
    ensures NoDup(r)
    ensures Subseq(r, s)
    decreases |s|
  {
    if |s| == 0 then []
    else
      var rest := DedupFilter(p, s[1..]);
      if p(s[0]) && s[0] !in rest then [s[0]] + rest
      else rest
  }

  /** A subsequence of `b` is a subsequence of `a + b`. */
  lemma {:induction false} SubseqAppendLeft<T>(s: seq<T>, a: seq<T>, b: seq<T>)
    requires Subseq(s, b)
    ensures Subseq(s, a + b)
    decreases |a|
  {
    if |a| > 0 {
      SubseqAppendLeft(s, a[1..], b);
      assert (a + b)[1..] == a[1..] + b;
    } else {
      assert a + b == b;
    }
  }
}
