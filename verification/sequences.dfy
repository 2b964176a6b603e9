/**
 * Order-related notions on sequences shared by the filter, the sort and the
 * image pipeline.
 */
module Sequences {

  /** `a` is `b` with some elements removed: `idx` says where each element of
      `a` sits in `b`, in increasing order. */
  ghost predicate SubsequenceVia<T>(a: seq<T>, b: seq<T>, idx: seq<int>) {
    && |idx| == |a|
    && (forall k :: 0 <= k < |a| ==> 0 <= idx[k] < |b| && a[k] == b[idx[k]])
    && (forall k, l :: 0 <= k < l < |a| ==> idx[k] < idx[l])
  }

  ghost predicate IsSubsequence<T>(a: seq<T>, b: seq<T>) {
    exists idx :: SubsequenceVia(a, b, idx)
  }

  /** Keeping or dropping the head of `b` extends a witness for its tail. */
  lemma SubsequenceCons<T>(a: seq<T>, b: seq<T>, keep: bool)
    requires b != [] && IsSubsequence(a, b[1..])
    ensures IsSubsequence(if keep then [b[0]] + a else a, b)
  {
    var idx' :| SubsequenceVia(a, b[1..], idx');
    var shifted := seq(|idx'|, k requires 0 <= k < |idx'| => idx'[k] + 1);
    assert SubsequenceVia(a, b, shifted) by {
      forall k | 0 <= k < |a| ensures 0 <= shifted[k] < |b| && a[k] == b[shifted[k]] {
        assert b[1..][idx'[k]] == b[idx'[k] + 1];
      }
    }
    if keep {
      var c, idx := [b[0]] + a, [0] + shifted;
      forall k | 0 <= k < |c| ensures 0 <= idx[k] < |b| && c[k] == b[idx[k]] {
        if k > 0 { assert c[k] == a[k - 1] && idx[k] == shifted[k - 1]; }
      }
      forall k, l | 0 <= k < l < |c| ensures idx[k] < idx[l] {
        if k > 0 { assert idx[k] == shifted[k - 1]; }
        assert idx[l] == shifted[l - 1];
      }
      assert SubsequenceVia(c, b, idx);
    }
  }

  function Reverse<T>(s: seq<T>): (r: seq<T>)
    ensures |r| == |s|
    ensures forall i :: 0 <= i < |s| ==> r[i] == s[|s| - 1 - i]
  {
    seq(|s|, i requires 0 <= i < |s| => s[|s| - 1 - i])
  }

  lemma {:induction false} ReversePermutes<T>(s: seq<T>)
    ensures multiset(Reverse(s)) == multiset(s)
    decreases |s|
  {
    if s != [] {
      ReversePermutes(s[1..]);
      assert Reverse(s) == Reverse(s[1..]) + [s[0]];
      assert s == [s[0]] + s[1..];
    }
  }

  lemma TailMultiset<T>(s: seq<T>)
    requires s != []
    ensures multiset(s[1..]) == multiset(s) - multiset{s[0]}
  {
    assert s == [s[0]] + s[1..];
  }
}
