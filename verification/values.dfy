/** The values of a jagged branch and the statistics taken over them:
    `ak.flatten` of one nesting level, then the minimum, the maximum and
    their difference over the flat values. Values are exact reals. */
module Values {
  import opened Seqs

  function Length(xs: seq<real>): nat { |xs| }

  /** The inner sequences one after another, in order. */
  function Flatten(xss: seq<seq<real>>): (xs: seq<real>)
    ensures |xs| == SumBy(xss, Length)
    decreases |xss|
  {
    if |xss| == 0 then [] else xss[0] + Flatten(xss[1..])
  }

  /** Flattening commutes with concatenation of the outer sequence. */
  lemma {:induction false} FlattenAppend(a: seq<seq<real>>, b: seq<seq<real>>)
    ensures Flatten(a + b) == Flatten(a) + Flatten(b)
    decreases |a|
  {
    if |a| == 0 {
      assert a + b == b;
    } else {
      assert (a + b)[1..] == a[1..] + b;
      FlattenAppend(a[1..], b);
    }
  }

  /** A value is flat exactly when it is in one of the inner sequences. */
  lemma {:induction false} FlattenMembers(xss: seq<seq<real>>, x: real)
    ensures x in Flatten(xss) <==> exists i :: 0 <= i < |xss| && x in xss[i]
    decreases |xss|
  {
    if |xss| > 0 {
      FlattenMembers(xss[1..], x);
      if x in Flatten(xss[1..]) {
        var i :| 0 <= i < |xss[1..]| && x in xss[1..][i];
        assert x in xss[i + 1];
      }
      if exists i :: 0 <= i < |xss| && x in xss[i] {
        var i :| 0 <= i < |xss| && x in xss[i];
        if i > 0 {
          assert x in xss[1..][i - 1];
        }
      }
    }
  }

  /** The flat values are empty exactly when every inner sequence is. */
  lemma {:induction false} FlattenEmpty(xss: seq<seq<real>>)
    ensures |Flatten(xss)| == 0 <==> forall i :: 0 <= i < |xss| ==> |xss[i]| == 0
    decreases |xss|
  {
    if |xss| > 0 {
      FlattenEmpty(xss[1..]);
      assert forall i :: 1 <= i < |xss| ==> xss[i] == xss[1..][i - 1];
    }
  }

  /** The least value. */
  function Min(xs: seq<real>): (m: real)
    requires |xs| > 0
    ensures m in xs
    ensures forall i :: 0 <= i < |xs| ==> m <= xs[i]
    decreases |xs|
  {
    if |xs| == 1 then xs[0]
    else
      var rest := Min(xs[1..]);
      assert forall i :: 1 <= i < |xs| ==> xs[i] == xs[1..][i - 1];
      if xs[0] <= rest then xs[0] else rest
  }

  /** The greatest value. */
  function Max(xs: seq<real>): (m: real)
    requires |xs| > 0
    ensures m in xs
    ensures forall i :: 0 <= i < |xs| ==> xs[i] <= m
    decreases |xs|
  {
    if |xs| == 1 then xs[0]
    else
      var rest := Max(xs[1..]);
      assert forall i :: 1 <= i < |xs| ==> xs[i] == xs[1..][i - 1];
      if xs[0] >= rest then xs[0] else rest
  }
}
