/** Order-preserving filtering over sequences. Every derived view of the task
    list (the three buckets, deletion, the counters) is an instance of it. */
module Seqs {

  /** The elements of `s` that satisfy `p`, in their original order, built the
      way `Array.prototype.filter` builds it: one pass, appending matches. */
  function Filter<T(==)>(s: seq<T>, p: T -> bool): (r: seq<T>)
    ensures |r| <= |s|
  {
    if |s| == 0 then []
    else
      var last := s[|s| - 1];
      Filter(s[..|s| - 1], p) + (if p(last) then [last] else [])
  }

  /** The positions of `s` that `Filter(s, p)` keeps, in increasing order: the
      k-th kept element is `s[idx[k]]`, and no satisfying position is skipped.
      This is what makes the filter stable. */
  function FilterIndices<T(==)>(s: seq<T>, p: T -> bool): (idx: seq<nat>)
    ensures |idx| == |Filter(s, p)|
    ensures forall k :: 0 <= k < |idx| ==> idx[k] < |s| && Filter(s, p)[k] == s[idx[k]]
    ensures forall k, l :: 0 <= k < l < |idx| ==> idx[k] < idx[l]
    ensures forall i :: 0 <= i < |s| && p(s[i]) ==> i in idx
  {
    if |s| == 0 then []
    else
      var n := |s| - 1;
      var prev := FilterIndices(s[..n], p);
      var tail: seq<nat> := if p(s[n]) then [n] else [];
      var f := Filter(s[..n], p);
      assert Filter(s, p) == f + (if p(s[n]) then [s[n]] else []);
      assert forall k :: 0 <= k < |prev| ==> prev[k] < n && Filter(s, p)[k] == s[prev[k]] by {
        forall k | 0 <= k < |prev|
          ensures prev[k] < n && Filter(s, p)[k] == s[prev[k]]
        {
          assert f[k] == s[..n][prev[k]];
        }
      }
      assert forall i :: 0 <= i < n && p(s[i]) ==> i in prev by {
        forall i | 0 <= i < n && p(s[i])
          ensures i in prev
        {
          assert s[..n][i] == s[i];
        }
      }
      prev + tail
  }

  /** Two elements kept by the filter appear in it in the same relative order
      as in the input. */
  lemma FilterKeepsOrder<T>(s: seq<T>, p: T -> bool, i: int, j: int)
    requires 0 <= i < j < |s| && p(s[i]) && p(s[j])
    ensures exists k, l :: 0 <= k < l < |Filter(s, p)| && Filter(s, p)[k] == s[i] && Filter(s, p)[l] == s[j]
  {
    var idx := FilterIndices(s, p);
    assert i in idx && j in idx;
    var k :| 0 <= k < |idx| && idx[k] == i;
    var l :| 0 <= l < |idx| && idx[l] == j;
    assert Filter(s, p)[k] == s[i] && Filter(s, p)[l] == s[j];
  }

  /** An element is kept exactly when it occurs in the input and satisfies
      the predicate. */
  lemma {:induction false} FilterMember<T>(s: seq<T>, p: T -> bool, x: T)
    ensures x in Filter(s, p) <==> x in s && p(x)
  {
    if |s| > 0 {
      var n := |s| - 1;
      assert s == s[..n] + [s[n]];
      FilterMember(s[..n], p, x);
    }
  }

  /** Filtering distributes over concatenation. */
  lemma {:induction false} FilterConcat<T>(a: seq<T>, b: seq<T>, p: T -> bool)
    ensures Filter(a + b, p) == Filter(a, p) + Filter(b, p)
    decreases |b|
  {
    if |b| == 0 {
      assert a + b == a;
    } else {
      var b' := b[..|b| - 1];
      assert (a + b)[..|a + b| - 1] == a + b';
      FilterConcat(a, b', p);
    }
  }

  /** Inserting `x` into a sequence adds it to the filter right after the
      kept elements before it, when none after it is kept. */
  lemma FilterInsert<T>(front: seq<T>, back: seq<T>, x: T, p: T -> bool)
    requires p(x) ==> Filter(back, p) == []
    ensures Filter(front + [x] + back, p) == Filter(front + back, p) + (if p(x) then [x] else [])
  {
    assert front + [x] + back == front + ([x] + back);
    FilterConcat(front, [x] + back, p);
    FilterConcat([x], back, p);
    FilterConcat(front, back, p);
  }

  /** Filtering keeps every copy of an element it accepts and no copy of one it
      rejects. */
  lemma {:induction false} FilterCount<T>(s: seq<T>, p: T -> bool, x: T)
    ensures multiset(Filter(s, p))[x] == if p(x) then multiset(s)[x] else 0
  {
    if |s| > 0 {
      var n := |s| - 1;
      assert s == s[..n] + [s[n]];
      FilterCount(s[..n], p, x);
    }
  }

  /** Filtering permutations gives permutations. */
  lemma FilterPermutation<T(!new)>(s: seq<T>, t: seq<T>, p: T -> bool)
    requires multiset(s) == multiset(t)
    ensures multiset(Filter(s, p)) == multiset(Filter(t, p))
  {
    forall x
      ensures multiset(Filter(s, p))[x] == multiset(Filter(t, p))[x]
    {
      FilterCount(s, p, x);
      FilterCount(t, p, x);
    }
  }

  /** A filter that accepts every element is the identity. */
  lemma {:induction false} FilterAll<T>(s: seq<T>, p: T -> bool)
    requires forall i :: 0 <= i < |s| ==> p(s[i])
    ensures Filter(s, p) == s
  {
    if |s| > 0 {
      var n := |s| - 1;
      assert s == s[..n] + [s[n]];
      FilterAll(s[..n], p);
    }
  }

  /** A filter that rejects every element is empty. */
  lemma {:induction false} FilterNone<T>(s: seq<T>, p: T -> bool)
    requires forall i :: 0 <= i < |s| ==> !p(s[i])
    ensures Filter(s, p) == []
  {
    if |s| > 0 {
      FilterNone(s[..|s| - 1], p);
    }
  }

  /** A filter that rejects exactly the element at position `k` removes just
      that position. */
  lemma {:induction false} FilterDropsOne<T>(s: seq<T>, p: T -> bool, k: int)
    requires 0 <= k < |s| && !p(s[k])
    requires forall i :: 0 <= i < |s| && i != k ==> p(s[i])
    ensures Filter(s, p) == s[..k] + s[k + 1..]
  {
    var n := |s| - 1;
    if k == n {
      FilterAll(s[..n], p);
    } else {
      FilterDropsOne(s[..n], p, k);
      assert s[..n][..k] + s[..n][k + 1..] + [s[n]] == s[..k] + s[k + 1..];
    }
  }

  /** Filters whose predicates agree on the elements of `s` agree on `s`. */
  lemma {:induction false} FilterAgree<T>(s: seq<T>, p: T -> bool, q: T -> bool)
    requires forall i :: 0 <= i < |s| ==> p(s[i]) == q(s[i])
    ensures Filter(s, p) == Filter(s, q)
  {
    if |s| > 0 {
      FilterAgree(s[..|s| - 1], p, q);
    }
  }

  /** Two filters commute. */
  lemma {:induction false} FilterCommute<T>(s: seq<T>, p: T -> bool, q: T -> bool)
    ensures Filter(Filter(s, p), q) == Filter(Filter(s, q), p)
  {
    if |s| > 0 {
      var n := |s| - 1;
      var last := s[n];
      FilterCommute(s[..n], p, q);
      FilterConcat(Filter(s[..n], p), if p(last) then [last] else [], q);
      FilterConcat(Filter(s[..n], q), if q(last) then [last] else [], p);
    }
  }

  /** When every element satisfies exactly one of `q` and `r` exactly when it
      satisfies `p`, the `p`-filter is as long as the other two together. */
  lemma {:induction false} FilterSplitLength<T>(s: seq<T>, p: T -> bool, q: T -> bool, r: T -> bool)
    requires forall i :: 0 <= i < |s| ==> (p(s[i]) <==> q(s[i]) || r(s[i]))
    requires forall i :: 0 <= i < |s| ==> !(q(s[i]) && r(s[i]))
    ensures |Filter(s, p)| == |Filter(s, q)| + |Filter(s, r)|
  {
    if |s| > 0 {
      FilterSplitLength(s[..|s| - 1], p, q, r);
    }
  }
}
