/** Sequence combinators standing for JavaScript's `Array.prototype.filter`, `map` and `slice`. */
module Seqs {

  /** `a` is obtained from `b` by deleting some elements, keeping the order of the rest. */
  ghost predicate IsSubsequence<T>(a: seq<T>, b: seq<T>)
    decreases |b|
  {
    if a == [] then true
    else if b == [] then false
    else (a[0] == b[0] && IsSubsequence(a[1..], b[1..])) || IsSubsequence(a, b[1..])
  }

  /** `s.filter(p)`: the elements of `s` that satisfy `p`, in their original order. */
  function Filter<T>(p: T -> bool, s: seq<T>): (r: seq<T>)
    ensures |r| <= |s|
    ensures forall x :: x in r ==> x in s && p(x)
    ensures forall x :: x in s && p(x) ==> x in r
    ensures IsSubsequence(r, s)
  {
    if s == [] then []
    else if p(s[0]) then [s[0]] + Filter(p, s[1..])
    else Filter(p, s[1..])
  }

  /** The conjunction of two predicates, as one predicate. */
  function Both<T>(p: T -> bool, q: T -> bool): T -> bool
  {
    x => p(x) && q(x)
  }

  /** `s.map(f)`. */
  function Map<A, B>(f: A -> B, s: seq<A>): (r: seq<B>)
    ensures |r| == |s|
    ensures forall i :: 0 <= i < |s| ==> r[i] == f(s[i])
  {
    seq(|s|, i requires 0 <= i < |s| => f(s[i]))
  }

  /** Mapping distributes over concatenation. */
  lemma MapAppend<A, B>(f: A -> B, a: seq<A>, b: seq<A>)
    ensures Map(f, a + b) == Map(f, a) + Map(f, b)
  {
    assert forall i :: 0 <= i < |a + b| ==> Map(f, a + b)[i] == (Map(f, a) + Map(f, b))[i];
  }

  /** A prefix of a suffix is a slice. */
  lemma SliceOfSuffix<T>(s: seq<T>, lo: nat, hi: nat)
    requires lo <= hi <= |s|
    ensures s[lo..][..hi - lo] == s[lo..hi]
  {
  }

  /** The first `n` elements of `s`, or all of `s` when it is shorter. */
  function Take<T>(s: seq<T>, n: nat): (r: seq<T>)
    ensures |r| == if |s| <= n then |s| else n
    ensures r == s[..|r|]
  {
    if |s| <= n then s else s[..n]
  }

  /** Filtering distributes over concatenation. */
  lemma {:induction false} FilterAppend<T>(p: T -> bool, a: seq<T>, b: seq<T>)
    ensures Filter(p, a + b) == Filter(p, a) + Filter(p, b)
    decreases |a|
  {
    if a == [] {
      assert a + b == b;
    } else {
      assert (a + b)[1..] == a[1..] + b;
      FilterAppend(p, a[1..], b);
    }
  }

  /** Filtering twice is filtering once with both predicates. */
  lemma {:induction false} FilterFilter<T>(p: T -> bool, q: T -> bool, s: seq<T>)
    ensures Filter(q, Filter(p, s)) == Filter(Both(p, q), s)
    decreases |s|
  {
    if s != [] {
      FilterFilter(p, q, s[1..]);
    }
  }

  /** Two predicates that agree on every element of `s` filter `s` alike. */
  lemma {:induction false} FilterAgree<T>(p: T -> bool, q: T -> bool, s: seq<T>)
    requires forall x :: x in s ==> (p(x) <==> q(x))
    ensures Filter(p, s) == Filter(q, s)
    decreases |s|
  {
    if s != [] {
      FilterAgree(p, q, s[1..]);
    }
  }

  /** Mapping keeps the subsequence relation. */
  lemma {:induction false} MapSubsequence<A, B>(f: A -> B, a: seq<A>, b: seq<A>)
    requires IsSubsequence(a, b)
    ensures IsSubsequence(Map(f, a), Map(f, b))
    decreases |b|
  {
    if a != [] && b != [] {
      assert Map(f, a)[1..] == Map(f, a[1..]);
      assert Map(f, b)[1..] == Map(f, b[1..]);
      if a[0] == b[0] && IsSubsequence(a[1..], b[1..]) {
        MapSubsequence(f, a[1..], b[1..]);
      } else {
        MapSubsequence(f, a, b[1..]);
      }
    }
  }

  /** The concatenation of a sequence of sequences, in order. */
  function Concat<T>(ss: seq<seq<T>>): seq<T>
  {
    if ss == [] then [] else Concat(ss[..|ss| - 1]) + ss[|ss| - 1]
  }

  /** Concatenating two parts appends them. */
  lemma ConcatTwo<T>(a: seq<T>, b: seq<T>)
    ensures Concat([a, b]) == a + b
  {
    assert [a, b][..1] == [a];
    assert [a][..0] == [];
    assert Concat([a]) == Concat([]) + a;
    assert Concat([a, b]) == Concat([a]) + b;
  }

  /** An element of the concatenation comes from one of the parts, and every element of every
      part is in it. */
  lemma {:induction false} ConcatMember<T>(ss: seq<seq<T>>, x: T)
    ensures x in Concat(ss) <==> exists k :: 0 <= k < |ss| && x in ss[k]
    decreases |ss|
  {
    if ss != [] {
      var init := ss[..|ss| - 1];
      ConcatMember(init, x);
      assert forall k :: 0 <= k < |init| ==> init[k] == ss[k];
    }
  }

  /** Concatenation distributes over appending sequences of parts. */
  lemma {:induction false} ConcatAppend<T>(a: seq<seq<T>>, b: seq<seq<T>>)
    ensures Concat(a + b) == Concat(a) + Concat(b)
    decreases |b|
  {
    if b == [] {
      assert a + b == a;
    } else {
      var init, last := b[..|b| - 1], b[|b| - 1];
      assert (a + b)[..|a + b| - 1] == a + init;
      assert (a + b)[|a + b| - 1] == last;
      ConcatAppend(a, init);
      assert Concat(b) == Concat(init) + last;
    }
  }

  /** The concatenation of non-empty parts is empty only when there are none. */
  lemma {:induction false} ConcatNonEmpty<T>(parts: seq<seq<T>>)
    requires forall k :: 0 <= k < |parts| ==> parts[k] != []
    ensures Concat(parts) == [] <==> parts == []
  {
    if parts != [] {
      assert |Concat(parts)| >= |parts[|parts| - 1]| > 0;
    }
  }

  /** An empty part contributes nothing to the concatenation. */
  lemma ConcatSkipsEmpty<T>(left: seq<seq<T>>, right: seq<seq<T>>)
    ensures Concat(left + [[]] + right) == Concat(left) + Concat(right)
  {
    var withEmpty := left + [[]];
    ConcatAppend(withEmpty, right);
    assert withEmpty[..|withEmpty| - 1] == left;
    assert Concat(withEmpty) == Concat(left) + [];
  }
}
