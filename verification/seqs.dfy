/** Small facts about sequences, stated once so that the proofs that need
    them do not have to rediscover them in a crowded context. */
module Seqs {

  lemma SplitLast<T>(s: seq<T>)
    requires |s| > 0
    ensures s[..|s| - 1] + [s[|s| - 1]] == s
  {
  }

  lemma SplitAt<T>(s: seq<T>, k: nat)
    requires k <= |s|
    ensures s[..k] + s[k..] == s
  {
  }

  lemma TakeOfAppend<T>(a: seq<T>, b: seq<T>, k: nat)
    requires k <= |a|
    ensures (a + b)[..k] == a[..k]
  {
  }

  lemma DropOfAppend<T>(a: seq<T>, b: seq<T>, k: nat)
    requires k <= |a|
    ensures (a + b)[k..] == a[k..] + b
  {
  }

  lemma TakeCons<T>(s: seq<T>, n: nat)
    requires 0 < n <= |s|
    ensures s[..n] == [s[0]] + s[1..][..n - 1]
  {
  }

  lemma AppendAssoc<T>(a: seq<T>, b: seq<T>, c: seq<T>)
    ensures (a + b) + c == a + (b + c)
  {
  }

  /** The sequences one after the other. */
  function Flatten<T>(xss: seq<seq<T>>): (r: seq<T>)
    ensures |xss| == 0 ==> r == []
  {
    if |xss| == 0 then [] else Flatten(xss[..|xss| - 1]) + xss[|xss| - 1]
  }

  lemma FlattenSnoc<T>(xss: seq<seq<T>>, xs: seq<T>)
    ensures Flatten(xss + [xs]) == Flatten(xss) + xs
  {
    assert (xss + [xs])[..|xss|] == xss;
  }

  lemma {:induction false} FlattenCons<T>(xss: seq<seq<T>>)
    requires |xss| > 0
    ensures Flatten(xss) == xss[0] + Flatten(xss[1..])
  {
    var n := |xss|;
    if n == 1 {
      assert xss[..0] == [] && xss[1..] == [];
    } else {
      var front := xss[..n - 1];
      FlattenCons(front);
      assert front[1..] == xss[1..][..n - 2];
      assert xss[1..][n - 2] == xss[n - 1];
      AppendAssoc(xss[0], Flatten(front[1..]), xss[n - 1]);
    }
  }

  /** A relation that holds of the heads and pointwise of the tails holds
      pointwise. */
  lemma ConsPointwise<A, B>(p: (A, B) -> bool, xs: seq<A>, y: B, ys: seq<B>)
    requires |xs| > 0 && |ys| == |xs| - 1 && p(xs[0], y)
    requires forall k | 0 <= k < |ys| :: p(xs[1..][k], ys[k])
    ensures forall k | 0 <= k < |xs| :: p(xs[k], ([y] + ys)[k])
  {
    forall k | 0 <= k < |xs|
      ensures p(xs[k], ([y] + ys)[k])
    {
      if k > 0 {
        assert xs[k] == xs[1..][k - 1];
      }
    }
  }
}
