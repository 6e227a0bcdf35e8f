/** Facts about sequences used by the grouping and selection steps: sums of a
    per-element count, labels that occur at most once, subsequences, and what
    survives a permutation. */
module Seqs {

  /** The sum of `f` over the elements of `s`. */
  function SumBy<T>(s: seq<T>, f: T -> nat): nat
    decreases |s|
  {
    if |s| == 0 then 0 else f(s[0]) + SumBy(s[1..], f)
  }

  lemma {:induction false} SumByAppend<T>(a: seq<T>, b: seq<T>, f: T -> nat)
    ensures SumBy(a + b, f) == SumBy(a, f) + SumBy(b, f)
    decreases |a|
  {
    if |a| == 0 {
      assert a + b == b;
    } else {
      assert (a + b)[1..] == a[1..] + b;
      SumByAppend(a[1..], b, f);
    }
  }

  /** `s` without its element at index `k`. */
  function RemoveAt<T>(s: seq<T>, k: nat): (r: seq<T>)
    requires k < |s|
    ensures |r| == |s| - 1
    ensures forall i :: 0 <= i < k ==> r[i] == s[i]
    ensures forall i :: k <= i < |r| ==> r[i] == s[i + 1]
    ensures multiset(r) == multiset(s) - multiset{s[k]}
  {
    assert s == s[..k] + [s[k]] + s[k + 1..];
    s[..k] + s[k + 1..]
  }

  /** Reordering does not change a sum. */
  lemma {:induction false} SumByPermutation<T>(a: seq<T>, b: seq<T>, f: T -> nat)
    requires multiset(a) == multiset(b)
    ensures SumBy(a, f) == SumBy(b, f)
    decreases |a|
  {
    if |a| == 0 {
      assert |b| == |multiset(b)| == 0;
    } else {
      assert a[0] in multiset(b);
      var k :| 0 <= k < |b| && b[k] == a[0];
      var b' := RemoveAt(b, k);
      assert a == [a[0]] + a[1..];
      assert multiset(a[1..]) == multiset(b');
      SumByPermutation(a[1..], b', f);
      SumByRemoveAt(b, k, f);
    }
  }

  /** Taking one element out of `s` takes its count out of the sum. */
  lemma {:induction false} SumByRemoveAt<T>(s: seq<T>, k: nat, f: T -> nat)
    requires k < |s|
    ensures SumBy(s, f) == f(s[k]) + SumBy(RemoveAt(s, k), f)
  {
    var front, back := s[..k], s[k + 1..];
    assert s == (front + [s[k]]) + back;
    assert RemoveAt(s, k) == front + back;
    SumByAppend(front + [s[k]], back, f);
    SumByAppend(front, [s[k]], f);
    SumByAppend(front, back, f);
    assert SumBy([s[k]], f) == f(s[k]);
  }

  /** No two elements of `s` carry the same tag. */
  ghost predicate DistinctBy<T, L>(s: seq<T>, tag: T -> L) {
    forall i, j :: 0 <= i < j < |s| ==> tag(s[i]) != tag(s[j])
  }

  /** Reordering keeps labels distinct. */
  lemma {:induction false} DistinctByPermutation<T, L>(a: seq<T>, b: seq<T>, tag: T -> L)
    requires multiset(a) == multiset(b) && DistinctBy(a, tag)
    ensures DistinctBy(b, tag)
    decreases |b|
  {
    if |b| > 0 {
      assert b[0] in multiset(a);
      var k :| 0 <= k < |a| && a[k] == b[0];
      var a' := RemoveAt(a, k);
      assert b == [b[0]] + b[1..];
      assert multiset(a') == multiset(b[1..]);
      DistinctRemoveAt(a, k, tag);
      DistinctByPermutation(a', b[1..], tag);
      DistinctFromRest(a, k, b, tag);
      DistinctCons(b, tag);
    }
  }

  /** Distinct labels in the tail and a head label found nowhere in it. */
  lemma DistinctCons<T, L>(b: seq<T>, tag: T -> L)
    requires |b| > 0 && DistinctBy(b[1..], tag)
    requires forall j :: 1 <= j < |b| ==> tag(b[0]) != tag(b[j])
    ensures DistinctBy(b, tag)
  {
    forall i, j | 0 <= i < j < |b|
      ensures tag(b[i]) != tag(b[j])
    {
      if i > 0 {
        assert b[i] == b[1..][i - 1] && b[j] == b[1..][j - 1];
      }
    }
  }

  /** Removing an element keeps labels distinct. */
  lemma DistinctRemoveAt<T, L>(a: seq<T>, k: nat, tag: T -> L)
    requires k < |a| && DistinctBy(a, tag)
    ensures DistinctBy(RemoveAt(a, k), tag)
  {
    var a' := RemoveAt(a, k);
    forall i, j | 0 <= i < j < |a'|
      ensures tag(a'[i]) != tag(a'[j])
    {
      var i' := if i < k then i else i + 1;
      var j' := if j < k then j else j + 1;
      assert a'[i] == a[i'] && a'[j] == a[j'];
    }
  }

  /** The label of `a[k]` is not carried by any element of a rearrangement
      of the rest of `a`. */
  lemma DistinctFromRest<T, L>(a: seq<T>, k: nat, b: seq<T>, tag: T -> L)
    requires k < |a| && DistinctBy(a, tag) && |b| > 0 && b[0] == a[k]
    requires multiset(RemoveAt(a, k)) == multiset(b[1..])
    ensures forall j :: 1 <= j < |b| ==> tag(b[0]) != tag(b[j])
  {
    var a' := RemoveAt(a, k);
    forall j | 1 <= j < |b|
      ensures tag(b[0]) != tag(b[j])
    {
      assert b[j] == b[1..][j - 1];
      assert b[j] in multiset(a');
      var m :| 0 <= m < |a'| && a'[m] == b[j];
      var m' := if m < k then m else m + 1;
      assert a'[m] == a[m'] && m' != k;
    }
  }

  /** `a` can be obtained from `b` by deleting elements. */
  predicate IsSubsequence<T(==)>(a: seq<T>, b: seq<T>)
    decreases |b|
  {
    if |a| == 0 then true
    else if |b| == 0 then false
    else (a[0] == b[0] && IsSubsequence(a[1..], b[1..])) || IsSubsequence(a, b[1..])
  }

  /** The elements of `s` that satisfy `p`, in order. */
  function Filter<T(==)>(s: seq<T>, p: T -> bool): (r: seq<T>)
    ensures |r| <= |s|
    ensures forall i :: 0 <= i < |r| ==> r[i] in s && p(r[i])
    ensures forall i :: 0 <= i < |s| && p(s[i]) ==> s[i] in r
    decreases |s|
  {
    if |s| == 0 then []
    else if p(s[0]) then [s[0]] + Filter(s[1..], p)
    else Filter(s[1..], p)
  }

  /** Filtering keeps the order of what it keeps. */
  lemma {:induction false} FilterIsSubsequence<T>(s: seq<T>, p: T -> bool)
    ensures IsSubsequence(Filter(s, p), s)
    decreases |s|
  {
    if |s| > 0 {
      FilterIsSubsequence(s[1..], p);
      var r := Filter(s, p);
      if p(s[0]) {
        assert r[0] == s[0] && r[1..] == Filter(s[1..], p);
      } else {
        assert r == Filter(s[1..], p);
        if |r| > 0 {
          assert IsSubsequence(r, s[1..]);
        }
      }
    }
  }

  /** Filtering keeps every copy of an element that passes and no copy of
      one that does not. */
  lemma {:induction false} FilterMultiplicity<T>(s: seq<T>, p: T -> bool, x: T)
    ensures multiset(Filter(s, p))[x] == if p(x) then multiset(s)[x] else 0
    decreases |s|
  {
    if |s| > 0 {
      assert s == [s[0]] + s[1..];
      FilterMultiplicity(s[1..], p, x);
    }
  }

  /** `FilterMultiplicity` for every element at once. */
  lemma FilterCounts<T>(s: seq<T>, p: T -> bool)
    ensures forall x :: multiset(Filter(s, p))[x] == if p(x) then multiset(s)[x] else 0
  {
    forall x
      ensures multiset(Filter(s, p))[x] == if p(x) then multiset(s)[x] else 0
    {
      FilterMultiplicity(s, p, x);
    }
  }

  /** Only the values of the predicates on the elements of `s` matter. */
  lemma {:induction false} FilterAgree<T>(s: seq<T>, p: T -> bool, q: T -> bool)
    requires forall i :: 0 <= i < |s| ==> p(s[i]) == q(s[i])
    ensures Filter(s, p) == Filter(s, q)
    decreases |s|
  {
    if |s| > 0 {
      assert forall i :: 0 <= i < |s[1..]| ==> s[1..][i] == s[i + 1];
      FilterAgree(s[1..], p, q);
    }
  }

  /** Filtering by `p` and then by `q` is filtering once by their conjunction `pq`. */
  lemma {:induction false} FilterFilter<T>(s: seq<T>, p: T -> bool, q: T -> bool, pq: T -> bool)
    requires forall i :: 0 <= i < |s| ==> pq(s[i]) == (p(s[i]) && q(s[i]))
    ensures Filter(Filter(s, p), q) == Filter(s, pq)
    decreases |s|
  {
    if |s| > 0 {
      assert forall i :: 0 <= i < |s[1..]| ==> s[1..][i] == s[i + 1];
      FilterFilter(s[1..], p, q, pq);
      if p(s[0]) {
        assert Filter(s, p) == [s[0]] + Filter(s[1..], p);
        assert ([s[0]] + Filter(s[1..], p))[1..] == Filter(s[1..], p);
      }
    }
  }

  /** A filter every element passes keeps the whole sequence. */
  lemma {:induction false} FilterAll<T>(s: seq<T>, p: T -> bool)
    requires forall i :: 0 <= i < |s| ==> p(s[i])
    ensures Filter(s, p) == s
    decreases |s|
  {
    if |s| > 0 {
      assert forall i :: 0 <= i < |s[1..]| ==> s[1..][i] == s[i + 1];
      FilterAll(s[1..], p);
      assert s == [s[0]] + s[1..];
    }
  }
}
