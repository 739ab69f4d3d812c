/** Subsequences: what `Array.prototype.filter` returns relative to its input. */
module Sequences {

  /** `idx` lists, in strictly increasing order, positions of `b` that spell out `a`. */
  ghost predicate Embeds<T>(a: seq<T>, b: seq<T>, idx: seq<int>) {
    && |idx| == |a|
    && (forall k :: 0 <= k < |idx| ==> 0 <= idx[k] < |b| && a[k] == b[idx[k]])
    && (forall k, l :: 0 <= k < l < |idx| ==> idx[k] < idx[l])
  }

  /** `a` is obtained from `b` by deleting elements, keeping the order of the rest. */
  ghost predicate IsSubsequence<T>(a: seq<T>, b: seq<T>) {
    exists idx :: Embeds(a, b, idx)
  }

  /** Every position moved one to the right. */
  function Shift(idx: seq<int>): (r: seq<int>)
    ensures |r| == |idx|
    ensures forall k :: 0 <= k < |r| ==> r[k] == idx[k] + 1
  {
    seq(|idx|, k requires 0 <= k < |idx| => idx[k] + 1)
  }

  /** A position is in the shifted list exactly when the one before it was in the list. */
  lemma ShiftMembers(idx: seq<int>, i: int)
    ensures i in Shift(idx) <==> i - 1 in idx
  {
    if i in Shift(idx) {
      var k :| 0 <= k < |idx| && Shift(idx)[k] == i;
      assert idx[k] == i - 1;
    }
    if i - 1 in idx {
      var k :| 0 <= k < |idx| && idx[k] == i - 1;
      assert Shift(idx)[k] == i;
    }
  }

  /** An element put in front of `b` and not selected. */
  lemma EmbedsSkip<T>(x: T, a: seq<T>, b: seq<T>, idx: seq<int>)
    requires Embeds(a, b, idx)
    ensures Embeds(a, [x] + b, Shift(idx))
  {
  }

  /** An element put in front of both sides and selected. */
  lemma EmbedsKeep<T>(x: T, a: seq<T>, b: seq<T>, idx: seq<int>)
    requires Embeds(a, b, idx)
    ensures Embeds([x] + a, [x] + b, [0] + Shift(idx))
  {
    var idx' := [0] + Shift(idx);
    forall k | 0 <= k < |idx'|
      ensures 0 <= idx'[k] < |[x] + b| && ([x] + a)[k] == ([x] + b)[idx'[k]]
    {
      if k > 0 {
        assert idx'[k] == idx[k - 1] + 1;
      }
    }
  }

  /** A strictly increasing list of positions grows at least as fast as its indices. */
  lemma {:induction false} PositionsAtLeastIndex(idx: seq<int>, k: nat)
    requires forall i :: 0 <= i < |idx| ==> 0 <= idx[i]
    requires forall i, j :: 0 <= i < j < |idx| ==> idx[i] < idx[j]
    requires k < |idx|
    ensures idx[k] >= k
  {
    if k > 0 {
      PositionsAtLeastIndex(idx, k - 1);
    }
  }

  /** A subsequence is never longer than the sequence it comes from. */
  lemma SubsequenceLength<T>(a: seq<T>, b: seq<T>)
    requires IsSubsequence(a, b)
    ensures |a| <= |b|
  {
    var idx :| Embeds(a, b, idx);
    if |a| > 0 {
      PositionsAtLeastIndex(idx, |a| - 1);
    }
  }

  /** Every sequence is a subsequence of itself. */
  lemma SubsequenceReflexive<T>(a: seq<T>)
    ensures IsSubsequence(a, a)
  {
    var idx := seq(|a|, k requires 0 <= k < |a| => k);
    assert Embeds(a, a, idx);
  }

  /** Deleting from a subsequence again gives a subsequence of the original. */
  lemma SubsequenceTransitive<T>(a: seq<T>, b: seq<T>, c: seq<T>)
    requires IsSubsequence(a, b) && IsSubsequence(b, c)
    ensures IsSubsequence(a, c)
  {
    var ab :| Embeds(a, b, ab);
    var bc :| Embeds(b, c, bc);
    var ac := seq(|ab|, k requires 0 <= k < |ab| => bc[ab[k]]);
    assert Embeds(a, c, ac);
  }
}
