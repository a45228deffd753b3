/** Order-preserving selection over sequences: the model of JavaScript's
    `Array.prototype.filter`. */
module Sequences {

  /** The elements of `s` that satisfy `p`, in their order in `s`. */
  function Filter<T>(s: seq<T>, p: T -> bool): seq<T>
    decreases |s|
  {
    if s == [] then [] else (if p(s[0]) then [s[0]] else []) + Filter(s[1..], p)
  }

  /** Filtering a sequence that starts with `x` first decides `x`, then the rest. */
  lemma FilterCons<T>(x: T, s: seq<T>, p: T -> bool)
    ensures Filter([x] + s, p) == (if p(x) then [x] else []) + Filter(s, p)
  {
    assert ([x] + s)[0] == x;
    assert ([x] + s)[1..] == s;
  }

  /** Each value is kept as often as it occurs in `s` when it satisfies `p`,
      and not at all otherwise. */
  lemma {:induction false} FilterCount<T>(s: seq<T>, p: T -> bool, x: T)
    ensures multiset(Filter(s, p))[x] == if p(x) then multiset(s)[x] else 0
    decreases |s|
  {
    if s != [] {
      FilterCount(s[1..], p, x);
      assert s == [s[0]] + s[1..];
    }
  }

  lemma FilterMembership<T>(s: seq<T>, p: T -> bool, x: T)
    ensures x in Filter(s, p) <==> x in s && p(x)
  {
    FilterCount(s, p, x);
  }

  /** What Filter keeps is a sub-multiset of `s`, hence no longer than `s`. */
  lemma FilterSubMultiset<T>(s: seq<T>, p: T -> bool)
    ensures multiset(Filter(s, p)) <= multiset(s)
    ensures |Filter(s, p)| <= |s|
  {
    forall x {
      FilterCount(s, p, x);
    }
    assert |multiset(Filter(s, p))| <= |multiset(s)|;
  }

  /** `idx` lists strictly increasing positions of `s` that hold `r`. */
  ghost predicate Embedding<T>(r: seq<T>, s: seq<T>, idx: seq<nat>) {
    && |idx| == |r|
    && (forall i :: 0 <= i < |idx| ==> idx[i] < |s| && s[idx[i]] == r[i])
    && (forall i, j :: 0 <= i < j < |idx| ==> idx[i] < idx[j])
  }

  /** `r` is obtained from `s` by deleting elements, keeping the order. */
  ghost predicate IsSubsequence<T>(r: seq<T>, s: seq<T>) {
    exists idx: seq<nat> :: Embedding(r, s, idx)
  }

  /** The positions Filter keeps, in increasing order. */
  lemma {:induction false} FilterEmbedding<T>(s: seq<T>, p: T -> bool) returns (idx: seq<nat>)
    ensures Embedding(Filter(s, p), s, idx)
    decreases |s|
  {
    if s == [] {
      idx := [];
    } else {
      var tail := s[1..];
      var rest := FilterEmbedding(tail, p);
      var shifted := seq(|rest|, k requires 0 <= k < |rest| => rest[k] + 1);
      assert Embedding(Filter(tail, p), s, shifted) by {
        forall i | 0 <= i < |shifted|
          ensures shifted[i] < |s| && s[shifted[i]] == Filter(tail, p)[i]
        {
          assert s[rest[i] + 1] == tail[rest[i]];
        }
      }
      if p(s[0]) {
        idx := [0] + shifted;
        var r := Filter(s, p);
        assert r == [s[0]] + Filter(tail, p);
        forall i | 0 < i < |idx|
          ensures idx[i] < |s| && s[idx[i]] == r[i]
        {
          assert idx[i] == shifted[i - 1] && r[i] == Filter(tail, p)[i - 1];
        }
      } else {
        idx := shifted;
        assert Filter(s, p) == Filter(tail, p);
      }
    }
  }

  /** Filter keeps the relative order of what it keeps. */
  lemma FilterIsSubsequence<T>(s: seq<T>, p: T -> bool)
    ensures IsSubsequence(Filter(s, p), s)
  {
    var idx := FilterEmbedding(s, p);
  }

  /** Predicates that agree on every element of `s` select the same elements. */
  lemma {:induction false} FilterCongruent<T>(s: seq<T>, p: T -> bool, q: T -> bool)
    requires forall x :: x in s ==> p(x) == q(x)
    ensures Filter(s, p) == Filter(s, q)
    decreases |s|
  {
    if s != [] {
      FilterCongruent(s[1..], p, q);
    }
  }

  /** A predicate that holds of every element keeps the whole sequence. */
  lemma {:induction false} FilterAll<T>(s: seq<T>, p: T -> bool)
    requires forall x :: x in s ==> p(x)
    ensures Filter(s, p) == s
    decreases |s|
  {
    if s != [] {
      FilterAll(s[1..], p);
      assert s == [s[0]] + s[1..];
    }
  }

  /** Two filters in turn select what their conjunction selects. */
  lemma {:induction false} FilterCompose<T>(s: seq<T>, p: T -> bool, q: T -> bool, both: T -> bool)
    requires forall x :: x in s ==> both(x) == (p(x) && q(x))
    ensures Filter(Filter(s, p), q) == Filter(s, both)
    decreases |s|
  {
    if s != [] {
      FilterCompose(s[1..], p, q, both);
      if p(s[0]) {
        FilterCons(s[0], Filter(s[1..], p), q);
      } else {
        assert Filter(s, p) == Filter(s[1..], p);
      }
    }
  }
}
