/**
 * Column statistics used by the cleaner, over exact reals: sum, mean,
 * population variance, median and mode. Floating-point rounding is not
 * modelled.
 */
module Stats {

  function Sum(xs: seq<real>): real {
    if |xs| == 0 then 0.0 else xs[0] + Sum(xs[1..])
  }

  /** A sum of values inside [lo, hi] lies inside [n * lo, n * hi]. */
  lemma {:induction false} SumBounds(xs: seq<real>, lo: real, hi: real)
    requires forall i :: 0 <= i < |xs| ==> lo <= xs[i] <= hi
    ensures |xs| as real * lo <= Sum(xs) <= |xs| as real * hi
  {
    if |xs| > 0 {
      SumBounds(xs[1..], lo, hi);
    }
  }

  /** The smallest of the values. */
  function Min(xs: seq<real>): (m: real)
    requires |xs| > 0
    ensures exists i :: 0 <= i < |xs| && xs[i] == m
    ensures forall i :: 0 <= i < |xs| ==> m <= xs[i]
  {
    if |xs| == 1 then xs[0]
    else
      var r := Min(xs[1..]);
      assert forall i :: 1 <= i < |xs| ==> xs[i] == xs[1..][i - 1];
      if xs[0] <= r then xs[0] else r
  }

  /** The largest of the values. */
  function Max(xs: seq<real>): (m: real)
    requires |xs| > 0
    ensures exists i :: 0 <= i < |xs| && xs[i] == m
    ensures forall i :: 0 <= i < |xs| ==> xs[i] <= m
  {
    if |xs| == 1 then xs[0]
    else
      var r := Max(xs[1..]);
      assert forall i :: 1 <= i < |xs| ==> xs[i] == xs[1..][i - 1];
      if xs[0] >= r then xs[0] else r
  }

  /** The arithmetic mean (`Series.mean()`, nulls skipped by the caller). */
  function Mean(xs: seq<real>): (m: real)
    requires |xs| > 0
    ensures exists i :: 0 <= i < |xs| && xs[i] <= m
    ensures exists j :: 0 <= j < |xs| && m <= xs[j]
  {
    var lo, hi, n := Min(xs), Max(xs), |xs| as real;
    SumBounds(xs, lo, hi);
    QuotientBounds(Sum(xs), n, lo, hi);
    Sum(xs) / n
  }

  /** Dividing by a positive `n` keeps bounds of the form `n * lo`, `n * hi`. */
  lemma QuotientBounds(total: real, n: real, lo: real, hi: real)
    requires n > 0.0 && n * lo <= total <= n * hi
    ensures lo <= total / n <= hi
  {
    assert total / n * n == total;
  }

  function Square(d: real): real {
    d * d
  }

  lemma PositiveProduct(a: real, b: real)
    requires a > 0.0 && b > 0.0
    ensures a * b > 0.0
  {
  }

  /** A square is never negative, and is zero only for zero. */
  lemma SquarePositive(d: real)
    ensures Square(d) >= 0.0
    ensures Square(d) == 0.0 <==> d == 0.0
  {
    if d > 0.0 {
      PositiveProduct(d, d);
      calc { Square(d); == d * d; > 0.0; }
    } else if d < 0.0 {
      PositiveProduct(-d, -d);
      calc { Square(d); == d * d; == (-d) * (-d); > 0.0; }
    } else {
      calc { Square(d); == d * d; == 0.0 * 0.0; == 0.0; }
    }
  }

  /** Sum of squared deviations from `m`. */
  function SquaredDeviations(xs: seq<real>, m: real): (r: real)
    ensures r >= 0.0
  {
    if |xs| == 0 then 0.0
    else
      SquarePositive(xs[0] - m);
      Square(xs[0] - m) + SquaredDeviations(xs[1..], m)
  }

  /** The squared deviations vanish exactly when every value equals `m`. */
  lemma {:induction false} SquaredDeviationsZero(xs: seq<real>, m: real)
    ensures SquaredDeviations(xs, m) == 0.0 <==> forall i :: 0 <= i < |xs| ==> xs[i] == m
  {
    if |xs| > 0 {
      SquaredDeviationsZero(xs[1..], m);
      SquarePositive(xs[0] - m);
      if forall i :: 0 <= i < |xs| ==> xs[i] == m {
        assert forall i :: 0 <= i < |xs[1..]| ==> xs[1..][i] == m by {
          forall i | 0 <= i < |xs[1..]| ensures xs[1..][i] == m {
            assert xs[1..][i] == xs[i + 1];
          }
        }
      }
    }
  }

  /** Population variance (ddof = 0, as `scipy.stats.zscore` uses). */
  function Variance(xs: seq<real>): (v: real)
    requires |xs| > 0
    ensures v >= 0.0
    ensures v == 0.0 <==> forall i :: 0 <= i < |xs| ==> xs[i] == xs[0]
  {
    var m := Mean(xs);
    SquaredDeviationsZero(xs, m);
    SquaredDeviations(xs, m) / |xs| as real
  }

  predicate Sorted(s: seq<real>) {
    forall a, b :: 0 <= a < b < |s| ==> s[a] <= s[b]
  }

  function Insert(x: real, s: seq<real>): (r: seq<real>)
    ensures |r| == |s| + 1
  {
    if |s| == 0 then [x]
    else if x <= s[0] then [x] + s
    else [s[0]] + Insert(x, s[1..])
  }

  lemma {:induction false} InsertMultiset(x: real, s: seq<real>)
    ensures multiset(Insert(x, s)) == multiset(s) + multiset{x}
  {
    if |s| > 0 && x > s[0] {
      InsertMultiset(x, s[1..]);
      assert s == [s[0]] + s[1..];
    }
  }

  lemma {:induction false} InsertSorted(x: real, s: seq<real>)
    requires Sorted(s)
    ensures Sorted(Insert(x, s))
  {
    if |s| > 0 && x > s[0] {
      InsertSorted(x, s[1..]);
      InsertMultiset(x, s[1..]);
      var rest := Insert(x, s[1..]);
      forall v | v in rest ensures s[0] <= v {
        assert v in multiset(rest);
        assert v == x || v in multiset(s[1..]);
      }
      var r := [s[0]] + rest;
      forall a, b | 0 <= a < b < |r| ensures r[a] <= r[b] {
        if a > 0 {
          assert r[a] == rest[a - 1] && r[b] == rest[b - 1];
        } else {
          assert r[b] in rest;
        }
      }
    }
  }

  /** Ascending order of the values (insertion sort). */
  function Sort(xs: seq<real>): (r: seq<real>)
    ensures Sorted(r)
    ensures multiset(r) == multiset(xs)
    ensures |r| == |xs|
  {
    if |xs| == 0 then []
    else
      var rest := Sort(xs[1..]);
      InsertSorted(xs[0], rest);
      InsertMultiset(xs[0], rest);
      assert xs == [xs[0]] + xs[1..];
      Insert(xs[0], rest)
  }

  /** The number of values at most `m`. */
  function CountAtMost(xs: seq<real>, m: real): nat {
    if |xs| == 0 then 0 else (if xs[0] <= m then 1 else 0) + CountAtMost(xs[1..], m)
  }

  /** The number of values at least `m`. */
  function CountAtLeast(xs: seq<real>, m: real): nat {
    if |xs| == 0 then 0 else (if xs[0] >= m then 1 else 0) + CountAtLeast(xs[1..], m)
  }

  lemma {:induction false} InsertCounts(x: real, s: seq<real>, m: real)
    ensures CountAtMost(Insert(x, s), m) == (if x <= m then 1 else 0) + CountAtMost(s, m)
    ensures CountAtLeast(Insert(x, s), m) == (if x >= m then 1 else 0) + CountAtLeast(s, m)
  {
    if |s| == 0 {
      assert [x][1..] == [];
    } else if x <= s[0] {
      assert ([x] + s)[1..] == s;
    } else {
      InsertCounts(x, s[1..], m);
      assert ([s[0]] + Insert(x, s[1..]))[1..] == Insert(x, s[1..]);
    }
  }

  /** Sorting does not change how many values lie on either side of `m`. */
  lemma {:induction false} SortCounts(xs: seq<real>, m: real)
    ensures CountAtMost(Sort(xs), m) == CountAtMost(xs, m)
    ensures CountAtLeast(Sort(xs), m) == CountAtLeast(xs, m)
  {
    if |xs| > 0 {
      SortCounts(xs[1..], m);
      InsertCounts(xs[0], Sort(xs[1..]), m);
    }
  }

  lemma {:induction false} PrefixAtMost(s: seq<real>, p: nat, m: real)
    requires p <= |s|
    requires forall i :: 0 <= i < p ==> s[i] <= m
    ensures CountAtMost(s, m) >= p
  {
    if p > 0 {
      PrefixAtMost(s[1..], p - 1, m);
    }
  }

  lemma {:induction false} SuffixAtLeast(s: seq<real>, q: nat, m: real)
    requires q <= |s|
    requires forall i :: q <= i < |s| ==> s[i] >= m
    ensures CountAtLeast(s, m) >= |s| - q
  {
    if |s| > 0 {
      if q > 0 {
        SuffixAtLeast(s[1..], q - 1, m);
      } else {
        SuffixAtLeast(s[1..], 0, m);
      }
    }
  }

  /**
   * The median (`Series.median()`): the middle value in sorted order, or
   * the average of the two middle values when their number is even.
   */
  function Median(xs: seq<real>): (r: real)
    requires |xs| > 0
    ensures exists i :: 0 <= i < |xs| && xs[i] <= r
    ensures exists j :: 0 <= j < |xs| && r <= xs[j]
    ensures 2 * CountAtMost(xs, r) >= |xs|
    ensures 2 * CountAtLeast(xs, r) >= |xs|
  {
    var s := Sort(xs);
    var n := |s|;
    var m := if n % 2 == 1 then s[n / 2] else (s[n / 2 - 1] + s[n / 2]) / 2.0;
    SortCounts(xs, m);
    SortedMiddleSplits(s, m);
    MiddleWithin(xs, s, m);
    m
  }

  /** Every sorted value is one of the input values. */
  lemma SortedFromInput(xs: seq<real>, s: seq<real>, k: nat)
    requires multiset(s) == multiset(xs) && k < |s|
    ensures exists i :: 0 <= i < |xs| && xs[i] == s[k]
  {
    assert s[k] in multiset(s);
    assert s[k] in xs;
  }

  /** The middle of the sorted values lies between two of the values. */
  lemma MiddleWithin(xs: seq<real>, s: seq<real>, m: real)
    requires |xs| > 0 && Sorted(s) && multiset(s) == multiset(xs)
    requires m == (if |s| % 2 == 1 then s[|s| / 2] else (s[|s| / 2 - 1] + s[|s| / 2]) / 2.0)
    ensures exists i :: 0 <= i < |xs| && xs[i] <= m
    ensures exists j :: 0 <= j < |xs| && m <= xs[j]
  {
    var n := |s|;
    assert |s| == |multiset(s)| == |xs|;
    if n % 2 == 1 {
      assert s[0] <= s[n / 2] <= s[n - 1];
    } else {
      assert s[0] <= s[n / 2 - 1] && s[n / 2] <= s[n - 1];
    }
    SortedFromInput(xs, s, 0);
    SortedFromInput(xs, s, n - 1);
  }

  lemma SortedMiddleSplits(s: seq<real>, m: real)
    requires |s| > 0 && Sorted(s)
    requires m == (if |s| % 2 == 1 then s[|s| / 2] else (s[|s| / 2 - 1] + s[|s| / 2]) / 2.0)
    ensures 2 * CountAtMost(s, m) >= |s|
    ensures 2 * CountAtLeast(s, m) >= |s|
  {
    var n := |s|;
    var h := n / 2;
    if n % 2 == 1 {
      assert forall i :: 0 <= i < h + 1 ==> s[i] <= s[h];
      PrefixAtMost(s, h + 1, m);
      assert forall i :: h <= i < n ==> s[i] >= s[h];
      SuffixAtLeast(s, h, m);
    } else {
      assert s[h - 1] <= m <= s[h];
      assert forall i :: 0 <= i < h ==> s[i] <= s[h - 1];
      PrefixAtMost(s, h, m);
      assert forall i :: h <= i < n ==> s[i] >= s[h];
      SuffixAtLeast(s, h, m);
    }
  }

  /** The number of occurrences of `v`. */
  function Count(ss: seq<string>, v: string): nat {
    if |ss| == 0 then 0 else (if ss[0] == v then 1 else 0) + Count(ss[1..], v)
  }

  /** `Count` is the multiplicity of `v` in `ss`. */
  lemma {:induction false} CountIsMultiplicity(ss: seq<string>, v: string)
    ensures Count(ss, v) == multiset(ss)[v]
  {
    if |ss| > 0 {
      CountIsMultiplicity(ss[1..], v);
      assert ss == [ss[0]] + ss[1..];
    }
  }

  /** `v` occurs and no value occurs more often. */
  ghost predicate IsMostFrequent(ss: seq<string>, v: string) {
    v in ss && forall w :: w in ss ==> Count(ss, w) <= Count(ss, v)
  }

  /** The candidate occurring most often in `ss`; ties go to the earliest candidate. */
  function MostFrequentOf(ss: seq<string>, candidates: seq<string>): (r: string)
    requires |candidates| > 0
    ensures r in candidates
    ensures forall c :: c in candidates ==> Count(ss, c) <= Count(ss, r)
  {
    if |candidates| == 1 then candidates[0]
    else
      var rest := MostFrequentOf(ss, candidates[1..]);
      assert forall c :: c in candidates ==> c == candidates[0] || c in candidates[1..];
      if Count(ss, candidates[0]) >= Count(ss, rest) then candidates[0] else rest
  }

  /** The mode (`Series.mode()[0]`): a most frequent value of a non-empty column. */
  function Mode(ss: seq<string>): (r: string)
    requires |ss| > 0
    ensures IsMostFrequent(ss, r)
  {
    MostFrequentOf(ss, ss)
  }
}
