/** String operations with the meaning Python gives them, on `seq<char>`:
    substring containment (`p in s`), `str.replace` and ASCII `str.lower`,
    with the lemmas that say when a replacement can be done piece by piece. */
module Text {

  /** `p` is a prefix of `s`. */
  predicate IsPrefix(p: string, s: string) {
    |p| <= |s| && s[..|p|] == p
  }

  /** `p` occurs in `s` starting at index `i`. */
  predicate OccursAt(s: string, p: string, i: nat) {
    i + |p| <= |s| && s[i..i + |p|] == p
  }

  /** Python's `p in s` on strings. */
  predicate Contains(s: string, p: string)
    decreases |s|
  {
    IsPrefix(p, s) || (|s| > 0 && Contains(s[1..], p))
  }

  lemma OccursShift(s: string, k: nat, p: string, i: nat)
    requires k <= |s|
    ensures OccursAt(s[k..], p, i) <==> OccursAt(s, p, i + k)
  {
    if i + |p| <= |s| - k {
      assert s[k..][i..i + |p|] == s[i + k..i + k + |p|];
    }
  }

  /** `Contains` holds exactly when there is an index where `p` occurs. */
  lemma {:induction false} ContainsIffOccurs(s: string, p: string)
    ensures Contains(s, p) <==> exists i: nat :: OccursAt(s, p, i)
    decreases |s|
  {
    if IsPrefix(p, s) {
      assert OccursAt(s, p, 0);
    } else if |s| == 0 {
    } else {
      ContainsIffOccurs(s[1..], p);
      if Contains(s[1..], p) {
        var i: nat :| OccursAt(s[1..], p, i);
        OccursShift(s, 1, p, i);
      }
      if exists i: nat :: OccursAt(s, p, i) {
        var i: nat :| OccursAt(s, p, i);
        if i != 0 {
          OccursShift(s, 1, p, i - 1);
        }
      }
    }
  }

  /** Containment is transitive: a string containing `q` contains everything `q` contains. */
  lemma ContainsTransitive(s: string, q: string, p: string)
    requires Contains(s, q) && Contains(q, p)
    ensures Contains(s, p)
  {
    ContainsIffOccurs(s, q);
    ContainsIffOccurs(q, p);
    var i: nat :| OccursAt(s, q, i);
    var j: nat :| OccursAt(q, p, j);
    forall k | 0 <= k < |p|
      ensures s[i + j + k] == p[k]
    {
      assert q[j + k] == p[k];
      assert s[i + (j + k)] == q[j + k];
    }
    assert OccursAt(s, p, i + j);
    ContainsIffOccurs(s, p);
  }

  /** A string shorter than `p` does not contain it. */
  lemma {:induction false} ShortDoesNotContain(s: string, p: string)
    requires |s| < |p|
    ensures !Contains(s, p)
    decreases |s|
  {
    if |s| > 0 {
      ShortDoesNotContain(s[1..], p);
    }
  }

  /** A string that lacks the first character of `p` does not contain `p`. */
  lemma {:induction false} FirstCharAbsent(s: string, p: string)
    requires |p| > 0 && p[0] !in s
    ensures !Contains(s, p)
    decreases |s|
  {
    if |s| > 0 {
      assert s[0] != p[0];
      FirstCharAbsent(s[1..], p);
    }
  }

  /** A string contains each of its pieces. */
  lemma ContainsMiddle(a: string, t: string, b: string)
    ensures Contains(a + t + b, t)
  {
    ContainsIffOccurs(a + t + b, t);
    assert (a + t + b)[|a|..|a| + |t|] == t;
    assert OccursAt(a + t + b, t, |a|);
  }

  /** For strings of equal length, containment is equality. */
  lemma SameLengthContains(s: string, p: string)
    requires |s| == |p|
    ensures Contains(s, p) <==> s == p
  {
    if |s| > 0 {
      ShortDoesNotContain(s[1..], p);
    }
  }

  /** Python's `s.replace(p, r)` for a non-empty `p`: scanning from the left,
      every occurrence of `p` that does not overlap an earlier replaced one
      is replaced by `r`. */
  function ReplaceAll(s: string, p: string, r: string): string
    requires |p| > 0
    decreases |s|
  {
    if |s| < |p| then s
    else if IsPrefix(p, s) then r + ReplaceAll(s[|p|..], p, r)
    else [s[0]] + ReplaceAll(s[1..], p, r)
  }

  /** A text without `p` is left as it is. */
  lemma {:induction false} ReplaceAbsent(s: string, p: string, r: string)
    requires |p| > 0 && !Contains(s, p)
    ensures ReplaceAll(s, p, r) == s
    decreases |s|
  {
    if |s| >= |p| {
      ReplaceAbsent(s[1..], p, r);
    }
  }

  /** One step of the scan: when `s` is at least as long as `p`, the result
      starts with `r` and skips `p` if `s` starts with `p`, and otherwise
      keeps the first character and moves on by one. */
  lemma ReplaceStep(s: string, p: string, r: string)
    requires |p| > 0 && |s| >= |p|
    ensures IsPrefix(p, s) ==> ReplaceAll(s, p, r) == r + ReplaceAll(s[|p|..], p, r)
    ensures !IsPrefix(p, s) ==> ReplaceAll(s, p, r) == [s[0]] + ReplaceAll(s[1..], p, r)
  {
  }

  /** The seam condition of `ReplaceSplit` carries over to a suffix of `x`. */
  lemma NoStraddleSuffix(x: string, y: string, p: string, k: nat)
    requires k <= |x|
    requires forall i: nat :: i < |x| < i + |p| ==> !OccursAt(x + y, p, i)
    ensures forall i: nat :: i < |x[k..]| < i + |p| ==> !OccursAt(x[k..] + y, p, i)
  {
    var s := x + y;
    assert s[k..] == x[k..] + y;
    forall i: nat | i < |x[k..]| < i + |p|
      ensures !OccursAt(x[k..] + y, p, i)
    {
      OccursShift(s, k, p, i);
    }
  }

  /** Replacing in `x + y` can be done on `x` and `y` separately when no
      occurrence of `p` begins in `x` and ends in `y`. */
  lemma {:induction false} ReplaceSplit(x: string, y: string, p: string, r: string)
    requires |p| > 0
    requires forall i: nat :: i < |x| < i + |p| ==> !OccursAt(x + y, p, i)
    ensures ReplaceAll(x + y, p, r) == ReplaceAll(x, p, r) + ReplaceAll(y, p, r)
    decreases |x|, 2
  {
    if |x| == 0 {
      assert x + y == y;
    } else if |x| < |p| {
      ReplaceSplitShort(x, y, p, r);
    } else {
      ReplaceSplitLong(x, y, p, r);
    }
  }

  /** `ReplaceSplit` when `x` is non-empty but shorter than `p`. */
  lemma {:induction false} ReplaceSplitShort(x: string, y: string, p: string, r: string)
    requires 0 < |x| < |p|
    requires forall i: nat :: i < |x| < i + |p| ==> !OccursAt(x + y, p, i)
    ensures ReplaceAll(x + y, p, r) == ReplaceAll(x, p, r) + ReplaceAll(y, p, r)
    decreases |x|, 1
  {
    var s := x + y;
    ShortDoesNotContain(x, p);
    if |s| < |p| {
      ShortDoesNotContain(y, p);
    } else {
      SkipFirst(x, y, p, r);
      ReplaceSplitRest(x, y, p, r, 1);
      ShortDoesNotContain(x[1..], p);
      assert x == [x[0]] + x[1..];
      Regroup([x[0]], ReplaceAll(x[1..], p, r), ReplaceAll(y, p, r));
    }
  }

  /** When `x` is shorter than `p` and no occurrence straddles the seam, the
      scan over `x + y` passes over the first character. */
  lemma SkipFirst(x: string, y: string, p: string, r: string)
    requires 0 < |x| < |p| <= |x + y|
    requires forall i: nat :: i < |x| < i + |p| ==> !OccursAt(x + y, p, i)
    ensures ReplaceAll(x + y, p, r) == [x[0]] + ReplaceAll((x + y)[1..], p, r)
  {
    var s := x + y;
    assert !OccursAt(s, p, 0);
    assert !IsPrefix(p, s) by {
      assert s[0..|p|] == s[..|p|];
    }
    ReplaceStep(s, p, r);
  }

  /** `ReplaceSplit` when `x` is at least as long as `p`: the first scan
      step is the same over `x + y` as over `x`, and the rest follows by
      induction from the next position on. */
  lemma {:induction false} ReplaceSplitLong(x: string, y: string, p: string, r: string)
    requires 0 < |p| <= |x|
    requires forall i: nat :: i < |x| < i + |p| ==> !OccursAt(x + y, p, i)
    ensures ReplaceAll(x + y, p, r) == ReplaceAll(x, p, r) + ReplaceAll(y, p, r)
    decreases |x|, 1
  {
    var k: nat := if IsPrefix(p, x) then |p| else 1;
    var head := if IsPrefix(p, x) then r else [x[0]];
    SameHead(x, y, p, r, k, head);
    ReplaceSplitRest(x, y, p, r, k);
    Regroup(head, ReplaceAll(x[k..], p, r), ReplaceAll(y, p, r));
  }

  lemma Regroup(a: string, b: string, c: string)
    ensures a + (b + c) == (a + b) + c
  {
  }

  /** The induction step of `ReplaceSplitLong`, from position `k` on. */
  lemma {:induction false} ReplaceSplitRest(x: string, y: string, p: string, r: string, k: nat)
    requires 0 < k <= |x| && |p| > 0
    requires forall i: nat :: i < |x| < i + |p| ==> !OccursAt(x + y, p, i)
    ensures ReplaceAll((x + y)[k..], p, r) == ReplaceAll(x[k..], p, r) + ReplaceAll(y, p, r)
    decreases |x|, 0
  {
    NoStraddleSuffix(x, y, p, k);
    assert (x + y)[k..] == x[k..] + y;
    ReplaceSplit(x[k..], y, p, r);
  }

  /** The first scan step over `x + y` is the first step over `x`, when `x`
      is at least as long as `p`. */
  lemma SameHead(x: string, y: string, p: string, r: string, k: nat, head: string)
    requires 0 < |p| <= |x|
    requires k == (if IsPrefix(p, x) then |p| else 1)
    requires head == (if IsPrefix(p, x) then r else [x[0]])
    ensures ReplaceAll(x + y, p, r) == head + ReplaceAll((x + y)[k..], p, r)
    ensures ReplaceAll(x, p, r) == head + ReplaceAll(x[k..], p, r)
  {
    var s := x + y;
    assert s[..|p|] == x[..|p|];
    ReplaceStep(s, p, r);
    ReplaceStep(x, p, r);
  }

  /** For a three-character pattern: replacing in `a + m + b` works on the
      three pieces separately when the first two characters of `m` cannot end
      an occurrence begun in `a`, and its last two cannot begin one running into `b`. */
  lemma ReplaceAround(a: string, m: string, b: string, p: string, r: string)
    requires |p| == 3 && |m| >= 2
    requires m[0] != p[2] && (m[0] != p[1] || m[1] != p[2])
    requires m[|m| - 1] != p[0] && m[|m| - 2] != p[0]
    ensures ReplaceAll(a + m + b, p, r) == ReplaceAll(a, p, r) + ReplaceAll(m, p, r) + ReplaceAll(b, p, r)
  {
    var ra, rm, rb := ReplaceAll(a, p, r), ReplaceAll(m, p, r), ReplaceAll(b, p, r);
    assert ReplaceAll(m + b, p, r) == rm + rb by {
      NoOccurrenceLeavingM(m, b, p);
      ReplaceSplit(m, b, p, r);
    }
    assert ReplaceAll(a + (m + b), p, r) == ra + ReplaceAll(m + b, p, r) by {
      NoOccurrenceEnteringM(a, m + b, p);
      ReplaceSplit(a, m + b, p, r);
    }
    assert a + m + b == a + (m + b);
    Regroup(ra, rm, rb);
  }

  /** No occurrence of a three-character `p` begins in `a` and runs into a
      text whose first two characters cannot end it. */
  lemma NoOccurrenceEnteringM(a: string, t: string, p: string)
    requires |p| == 3 && |t| >= 2
    requires t[0] != p[2] && (t[0] != p[1] || t[1] != p[2])
    ensures forall i: nat :: i < |a| < i + |p| ==> !OccursAt(a + t, p, i)
  {
    var s := a + t;
    forall i: nat | i < |a| < i + |p|
      ensures !OccursAt(s, p, i)
    {
      if i + 3 <= |s| {
        if i + 1 == |a| {
          assert s[i..i + 3][1] == t[0] && s[i..i + 3][2] == t[1];
        } else {
          assert s[i..i + 3][2] == t[0];
        }
      }
    }
  }

  /** No occurrence of a three-character `p` begins in `m` and runs past it
      when the last two characters of `m` cannot begin it. */
  lemma NoOccurrenceLeavingM(m: string, b: string, p: string)
    requires |p| == 3 && |m| >= 2
    requires m[|m| - 1] != p[0] && m[|m| - 2] != p[0]
    ensures forall i: nat :: i < |m| < i + |p| ==> !OccursAt(m + b, p, i)
  {
    forall i: nat | i < |m| < i + |p|
      ensures !OccursAt(m + b, p, i)
    {
      if i + 3 <= |m + b| {
        assert (m + b)[i..i + 3][0] == m[i];
      }
    }
  }

  function LowerChar(c: char): char {
    if 'A' <= c <= 'Z' then (c as int + 32) as char else c
  }

  /** Python's `str.lower()` restricted to ASCII letters. */
  function ToLower(s: string): (t: string)
    ensures |t| == |s|
    ensures forall i :: 0 <= i < |s| ==> t[i] == LowerChar(s[i])
  {
    seq(|s|, i requires 0 <= i < |s| => LowerChar(s[i]))
  }
}
