/**
  Order-preserving filtering of sequences, the Dafny counterpart of
  `Array.prototype.filter`, with an independent characterisation of its
  result (a subsequence that keeps exactly the matching elements with their
  multiplicity) and the facts the calendar model needs about it.
 */
module Seqs {

  /** `r` is obtained from `s` by deleting elements, keeping the order of the rest. */
  predicate IsSubsequence<T(==)>(r: seq<T>, s: seq<T>)
    decreases |s|
  {
    if |r| == 0 then true
    else if |s| == 0 then false
    else if r[0] == s[0] then IsSubsequence(r[1..], s[1..])
    else IsSubsequence(r, s[1..])
  }

  /** Every sequence is a subsequence of itself. */
  lemma {:induction false} SubsequenceReflexive<T>(s: seq<T>)
    ensures IsSubsequence(s, s)
    decreases |s|
  {
    if |s| > 0 {
      SubsequenceReflexive(s[1..]);
    }
  }

  /** The elements of `s` that satisfy `p`, in their original order. */
  function Filter<T(==,!new)>(s: seq<T>, p: T -> bool): (r: seq<T>)
    ensures |r| <= |s|
    ensures IsSubsequence(r, s)
    ensures forall x {:trigger x in r} :: x in r <==> x in s && p(x)
    ensures forall x {:trigger multiset(r)[x]} :: multiset(r)[x] == if p(x) then multiset(s)[x] else 0
  {
    if |s| == 0 then []
    else
      var rest := Filter(s[1..], p);
      assert s == [s[0]] + s[1..];
      if p(s[0]) then [s[0]] + rest
      else
        assert |rest| > 0 ==> rest[0] in rest;
        rest
  }

  /** A subsequence never holds an element more often than the sequence it came from. */
  lemma {:induction false} SubsequenceCounts<T>(r: seq<T>, s: seq<T>)
    requires IsSubsequence(r, s)
    ensures multiset(r) <= multiset(s)
    decreases |s|
  {
    if |r| == 0 {
    } else {
      assert s == [s[0]] + s[1..];
      if r[0] == s[0] {
        assert r == [r[0]] + r[1..];
        SubsequenceCounts(r[1..], s[1..]);
      } else {
        SubsequenceCounts(r, s[1..]);
      }
    }
  }

  /**
    The characterisation in `Filter`'s contract pins the result down: any
    subsequence of `s` that holds only `p`-elements, each as often as `s` does,
    is `Filter(s, p)`.
   */
  lemma {:induction false} FilterUnique<T(!new)>(s: seq<T>, p: T -> bool, r: seq<T>)
    requires IsSubsequence(r, s)
    requires forall x :: x in r ==> p(x)
    requires forall x :: p(x) ==> multiset(r)[x] == multiset(s)[x]
    ensures r == Filter(s, p)
    decreases |s|
  {
    if |s| == 0 {
    } else {
      var a := s[0];
      assert s == [a] + s[1..];
      if p(a) {
        assert multiset(r)[a] > 0;
        assert |r| > 0;
        if r[0] == a {
          assert r == [a] + r[1..];
          FilterUnique(s[1..], p, r[1..]);
        } else {
          SubsequenceCounts(r, s[1..]);
          assert false;
        }
      } else {
        if |r| > 0 {
          assert r[0] in r;
        }
        assert IsSubsequence(r, s[1..]);
        FilterUnique(s[1..], p, r);
      }
    }
  }

  /** The first kept element is the element at the least index where `p` holds. */
  lemma {:induction false} FilterHeadIsFirst<T(!new)>(s: seq<T>, p: T -> bool)
    requires |Filter(s, p)| > 0
    ensures exists i :: 0 <= i < |s| && Filter(s, p)[0] == s[i] && p(s[i])
                        && forall j :: 0 <= j < i ==> !p(s[j])
    decreases |s|
  {
    if p(s[0]) {
      assert Filter(s, p)[0] == s[0];
    } else {
      assert Filter(s, p) == Filter(s[1..], p);
      FilterHeadIsFirst(s[1..], p);
      var i :| 0 <= i < |s[1..]| && Filter(s[1..], p)[0] == s[1..][i] && p(s[1..][i])
               && forall j :: 0 <= j < i ==> !p(s[1..][j]);
      assert Filter(s, p)[0] == s[i + 1] && p(s[i + 1]);
      forall j | 0 <= j < i + 1
        ensures !p(s[j])
      {
        if j > 0 {
          assert s[j] == s[1..][j - 1];
        }
      }
    }
  }

  /** Filtering twice is filtering once by the conjunction. */
  lemma {:induction false} FilterFilter<T(!new)>(s: seq<T>, p: T -> bool, q: T -> bool, pq: T -> bool)
    requires forall x :: pq(x) == (p(x) && q(x))
    ensures Filter(Filter(s, p), q) == Filter(s, pq)
    decreases |s|
  {
    if |s| > 0 {
      FilterFilter(s[1..], p, q, pq);
    }
  }

  /** Predicates that agree on the elements of `s` filter `s` alike. */
  lemma {:induction false} FilterCongruent<T(!new)>(s: seq<T>, p: T -> bool, q: T -> bool)
    requires forall x :: x in s ==> p(x) == q(x)
    ensures Filter(s, p) == Filter(s, q)
    decreases |s|
  {
    if |s| > 0 {
      assert forall x :: x in s[1..] ==> x in s;
      FilterCongruent(s[1..], p, q);
    }
  }

  /** Filtering distributes over concatenation. */
  lemma {:induction false} FilterAppend<T(!new)>(a: seq<T>, b: seq<T>, p: T -> bool)
    ensures Filter(a + b, p) == Filter(a, p) + Filter(b, p)
    decreases |a|
  {
    if |a| == 0 {
      assert a + b == b;
    } else {
      assert (a + b)[1..] == a[1..] + b;
      FilterAppend(a[1..], b, p);
    }
  }

  /** A filter every element passes changes nothing. */
  lemma {:induction false} FilterKeepsAll<T(!new)>(s: seq<T>, p: T -> bool)
    requires forall x :: x in s ==> p(x)
    ensures Filter(s, p) == s
    decreases |s|
  {
    if |s| > 0 {
      assert s[0] in s;
      forall x | x in s[1..]
        ensures p(x)
      {
        assert x in s;
      }
      FilterKeepsAll(s[1..], p);
      assert s == [s[0]] + s[1..];
    }
  }
}
