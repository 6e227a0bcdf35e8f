/** Ordering by a natural-number key, largest first: the sort behind
    `sort_values(..., ascending=False)` and the selection behind `nlargest`. */
module Ordering {
  import opened Seqs

  /** `s` is in non-increasing order of `key`. */
  ghost predicate SortedDesc<T>(s: seq<T>, key: T -> nat) {
    forall i, j :: 0 <= i < j < |s| ==> key(s[i]) >= key(s[j])
  }

  /** Inserts `x` before the first element with a smaller key. */
  function Insert<T>(x: T, s: seq<T>, key: T -> nat): (r: seq<T>)
    requires SortedDesc(s, key)
    ensures SortedDesc(r, key)
    ensures multiset(r) == multiset(s) + multiset{x}
    decreases |s|
  {
    if |s| == 0 || key(x) >= key(s[0]) then
      [x] + s
    else
      var t := Insert(x, s[1..], key);
      HeadDominates(x, s, t, key);
      assert s == [s[0]] + s[1..];
      [s[0]] + t
  }

  /** The head of a sorted `s` dominates any arrangement of its tail with a
      smaller `x` added. */
  lemma HeadDominates<T>(x: T, s: seq<T>, t: seq<T>, key: T -> nat)
    requires |s| > 0 && SortedDesc(s, key) && key(x) < key(s[0])
    requires multiset(t) == multiset(s[1..]) + multiset{x}
    ensures forall j :: 0 <= j < |t| ==> key(s[0]) >= key(t[j])
  {
    forall j | 0 <= j < |t|
      ensures key(s[0]) >= key(t[j])
    {
      assert t[j] in multiset(t);
      if t[j] != x {
        assert t[j] in multiset(s[1..]);
        var m :| 0 <= m < |s[1..]| && s[1..][m] == t[j];
        assert s[m + 1] == t[j];
      }
    }
  }

  /** Insertion sort, largest key first. */
  function SortDesc<T>(s: seq<T>, key: T -> nat): (r: seq<T>)
    ensures SortedDesc(r, key)
    ensures multiset(r) == multiset(s)
    decreases |s|
  {
    if |s| == 0 then []
    else
      assert s == [s[0]] + s[1..];
      Insert(s[0], SortDesc(s[1..], key), key)
  }

  /** In a sorted sequence, every element of a prefix has a key no smaller
      than any element of the rest. */
  lemma PrefixDominates<T>(t: seq<T>, k: nat, key: T -> nat)
    requires SortedDesc(t, key) && k <= |t|
    ensures forall x, y :: x in multiset(t[k..]) && y in t[..k] ==> key(y) >= key(x)
  {
    forall x, y | x in multiset(t[k..]) && y in t[..k]
      ensures key(y) >= key(x)
    {
      var i :| 0 <= i < k && t[..k][i] == y;
      var j :| 0 <= j < |t| - k && t[k..][j] == x;
      assert t[i] == y && t[k + j] == x;
    }
  }

  /** The facts `TopN` promises, for a prefix of a sorted permutation of `s`. */
  lemma SortedPrefix<T>(s: seq<T>, t: seq<T>, k: nat, key: T -> nat)
    requires SortedDesc(t, key) && multiset(t) == multiset(s) && k <= |t| == |s|
    ensures |t[..k]| == k
    ensures SortedDesc(t[..k], key)
    ensures multiset(t[..k]) <= multiset(s)
    ensures forall x, y :: x in multiset(s) - multiset(t[..k]) && y in t[..k] ==> key(y) >= key(x)
  {
    assert multiset(t) == multiset(t[..k]) + multiset(t[k..]) by {
      assert t == t[..k] + t[k..];
    }
    PrefixDominates(t, k, key);
  }

  /** `nlargest(n)`: `min(n, |s|)` elements of `s`, largest key first, each
      with a key no smaller than that of any element left out. */
  function TopN<T>(s: seq<T>, n: nat, key: T -> nat): (r: seq<T>)
    ensures |r| == if n < |s| then n else |s|
    ensures SortedDesc(r, key)
    ensures multiset(r) <= multiset(s)
    ensures forall x, y :: x in multiset(s) - multiset(r) && y in r ==> key(y) >= key(x)
  {
    var t := SortDesc(s, key);
    var k := if n < |s| then n else |s|;
    assert |t| == |multiset(t)| == |multiset(s)| == |s|;
    SortedPrefix(s, t, k, key);
    t[..k]
  }
}
