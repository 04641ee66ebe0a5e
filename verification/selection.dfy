/**
 * Order-preserving row selection by a boolean mask: the `df[mask]` and
 * `dropna` idiom of the cleaner, stated once for any element type.
 */
module Selection {

  /** Every index is smaller than the next one. */
  predicate StrictlyIncreasing(idx: seq<nat>) {
    forall a, b :: 0 <= a < b < |idx| ==> idx[a] < idx[b]
  }

  /** The number of `true` entries of a mask. */
  function TrueCount(keep: seq<bool>): (n: nat)
    ensures n <= |keep|
  {
    if |keep| == 0 then 0 else (if keep[0] then 1 else 0) + TrueCount(keep[1..])
  }

  /** The indices `i >= from` at which the mask holds, in increasing order. */
  function KeptFrom(keep: seq<bool>, from: nat): (idx: seq<nat>)
    requires from <= |keep|
    ensures |idx| <= |keep| - from
    ensures StrictlyIncreasing(idx)
    ensures forall m :: 0 <= m < |idx| ==> from <= idx[m] < |keep| && keep[idx[m]]
    ensures forall i :: from <= i < |keep| && keep[i] ==> i in idx
    decreases |keep| - from
  {
    if from == |keep| then []
    else if keep[from] then [from] + KeptFrom(keep, from + 1)
    else KeptFrom(keep, from + 1)
  }

  /** `KeptFrom` looks at one mask position at a time. */
  lemma KeptFromStep(keep: seq<bool>, from: nat)
    requires from < |keep|
    ensures KeptFrom(keep, from) == (if keep[from] then [from] else []) + KeptFrom(keep, from + 1)
  {
  }

  /** The indices at which the mask holds, in increasing order. */
  function Kept(keep: seq<bool>): (idx: seq<nat>)
    ensures |idx| <= |keep|
    ensures StrictlyIncreasing(idx)
    ensures forall m :: 0 <= m < |idx| ==> idx[m] < |keep| && keep[idx[m]]
    ensures forall i :: 0 <= i < |keep| ==> (keep[i] <==> i in idx)
  {
    KeptFrom(keep, 0)
  }

  /** The elements of `xs` at which the mask holds, in their original order. */
  function Select<T>(xs: seq<T>, keep: seq<bool>): (r: seq<T>)
    requires |keep| == |xs|
    ensures |r| == |Kept(keep)| <= |xs|
    ensures forall m :: 0 <= m < |r| ==> r[m] == xs[Kept(keep)[m]]
  {
    var idx := Kept(keep);
    seq(|idx|, m requires 0 <= m < |idx| => xs[idx[m]])
  }

  /**
   * `r` is the order-preserving subsequence of `xs` picked by `idx`: the
   * indices increase, lie inside `xs`, and the picked elements are copied.
   */
  ghost predicate SubsequenceAt<T>(r: seq<T>, xs: seq<T>, idx: seq<nat>) {
    && |idx| == |r|
    && StrictlyIncreasing(idx)
    && (forall m :: 0 <= m < |idx| ==> idx[m] < |xs| && r[m] == xs[idx[m]])
  }

  /** Selection keeps exactly the masked elements, in order. */
  lemma SelectIsMaskedSubsequence<T>(xs: seq<T>, keep: seq<bool>)
    requires |keep| == |xs|
    ensures SubsequenceAt(Select(xs, keep), xs, Kept(keep))
    ensures forall i :: 0 <= i < |xs| ==> (keep[i] <==> i in Kept(keep))
    ensures |Select(xs, keep)| == TrueCount(keep)
  {
    KeptCount(keep, 0);
  }

  lemma {:induction false} KeptCount(keep: seq<bool>, from: nat)
    requires from <= |keep|
    ensures |KeptFrom(keep, from)| == TrueCount(keep[from..])
    decreases |keep| - from
  {
    if from < |keep| {
      KeptCount(keep, from + 1);
      assert keep[from..][1..] == keep[from + 1..];
    }
  }

  /** The indices `lo, lo + 1, ..., hi - 1`. */
  function Range(lo: nat, hi: nat): (r: seq<nat>)
    ensures |r| == if lo <= hi then hi - lo else 0
    ensures forall m :: 0 <= m < |r| ==> r[m] == lo + m
    decreases hi - lo
  {
    if lo < hi then [lo] + Range(lo + 1, hi) else []
  }

  /** A mask that holds exactly before position `n` keeps the indices from `from` up to `n`. */
  lemma {:induction false} KeptFromPrefix(keep: seq<bool>, n: nat, from: nat)
    requires n <= |keep| && from <= |keep|
    requires forall i :: 0 <= i < |keep| ==> (keep[i] <==> i < n)
    ensures KeptFrom(keep, from) == Range(from, n)
    decreases |keep| - from
  {
    if from < |keep| {
      KeptFromPrefix(keep, n, from + 1);
      KeptFromStep(keep, from);
      if from < n {
        assert keep[from];
        assert Range(from, n) == [from] + Range(from + 1, n);
      } else {
        assert !keep[from];
      }
    }
  }

  /** A mask that holds exactly on the first `n` positions selects the first `n` elements. */
  lemma SelectPrefix<T>(xs: seq<T>, keep: seq<bool>, n: nat)
    requires |keep| == |xs| && n <= |xs|
    requires forall i :: 0 <= i < |keep| ==> (keep[i] <==> i < n)
    ensures Select(xs, keep) == xs[..n]
  {
    KeptFromPrefix(keep, n, 0);
  }

  /** A mask that holds everywhere selects everything. */
  lemma SelectAll<T>(xs: seq<T>, keep: seq<bool>)
    requires |keep| == |xs|
    requires forall i :: 0 <= i < |keep| ==> keep[i]
    ensures Select(xs, keep) == xs
  {
    SelectPrefix(xs, keep, |xs|);
  }

  /** A mask that holds nowhere selects nothing. */
  lemma SelectNone<T>(xs: seq<T>, keep: seq<bool>)
    requires |keep| == |xs|
    requires forall i :: 0 <= i < |keep| ==> !keep[i]
    ensures Select(xs, keep) == []
  {
    if |Kept(keep)| > 0 {
      assert keep[Kept(keep)[0]];
    }
  }

  /** Selecting from a strictly increasing index sequence yields one. */
  lemma SelectIncreasing(idx: seq<nat>, keep: seq<bool>)
    requires |keep| == |idx|
    requires StrictlyIncreasing(idx)
    ensures StrictlyIncreasing(Select(idx, keep))
  {
    var r := Select(idx, keep);
    var k := Kept(keep);
    forall a, b | 0 <= a < b < |r|
      ensures r[a] < r[b]
    {
      assert k[a] < k[b];
    }
  }

  /** An element is selected exactly when some masked position holds it. */
  lemma SelectMembership<T>(xs: seq<T>, keep: seq<bool>, x: T)
    requires |keep| == |xs|
    ensures x in Select(xs, keep) <==> exists m :: 0 <= m < |xs| && keep[m] && xs[m] == x
  {
    var r := Select(xs, keep);
    var k := Kept(keep);
    if x in r {
      var n :| 0 <= n < |r| && r[n] == x;
      assert keep[k[n]] && xs[k[n]] == x;
    }
    if exists m :: 0 <= m < |xs| && keep[m] && xs[m] == x {
      var m :| 0 <= m < |xs| && keep[m] && xs[m] == x;
      assert m in k;
      var n :| 0 <= n < |k| && k[n] == m;
      assert r[n] == x;
    }
  }
}
