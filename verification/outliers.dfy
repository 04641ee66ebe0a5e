/**
 * `remove_outliers`: a row survives only if, in every numeric column, the
 * magnitude of its z-score (population standard deviation, computed over
 * the whole current column) is strictly below the threshold. Z-scores are
 * compared exactly over the reals.
 */
module Outliers {
  import opened Tables
  import opened Stats
  import opened Selection

  /**
   * The z-score test `|d| / sqrt(v) < z` for a deviation `d` from the mean
   * and a variance `v`, written without a square root. A zero variance makes
   * the z-score NaN, and a NaN is never below the threshold.
   */
  predicate ZScoreBelow(d: real, v: real, z: real) {
    v > 0.0 && z > 0.0 && Square(d) < z * z * v
  }

  function Abs(d: real): real {
    if d >= 0.0 then d else -d
  }

  /**
   * Row `i`'s value in numeric column `c` has a z-score of magnitude below
   * `z`. A null anywhere in the column, a constant column and a threshold
   * that is not positive all fail the test.
   */
  predicate WithinThreshold(t: Table, i: nat, c: nat, z: real): (b: bool)
    requires WellFormed(t) && i < |t.rows| && c < |t.columns|
    ensures b ==> NullCount(ColumnCells(t, c)) == 0 && z > 0.0
    ensures b ==> |NumValues(ColumnCells(t, c))| > 0 && Variance(NumValues(ColumnCells(t, c))) > 0.0
  {
    var cells := ColumnCells(t, c);
    var xs := NumValues(cells);
    // one null in the column makes every z-score of that column NaN
    && NullCount(cells) == 0
    && t.rows[i][c].Some? && t.rows[i][c].value.Num?
    && |xs| > 0
    && ZScoreBelow(t.rows[i][c].value.x - Mean(xs), Variance(xs), z)
  }

  /** Row `i` is within the threshold in every numeric column. */
  predicate RowWithin(t: Table, i: nat, z: real)
    requires WellFormed(t) && i < |t.rows|
  {
    forall c :: 0 <= c < |t.columns| && t.columns[c].kind == Numeric ==> WithinThreshold(t, i, c, z)
  }

  /** `(z_scores < z_thresh).all(axis=1)`. */
  function OutlierMask(t: Table, z: real): (keep: seq<bool>)
    requires WellFormed(t)
    ensures |keep| == |t.rows|
    ensures forall i :: 0 <= i < |t.rows| ==> (keep[i] <==> RowWithin(t, i, z))
  {
    seq(|t.rows|, i requires 0 <= i < |t.rows| => RowWithin(t, i, z))
  }

  /** The filtered table and the number of rows removed (`removed_count`). */
  datatype Filtered = Filtered(table: Table, removed: nat)

  /**
   * `remove_outliers(df, z_thresh)`: the rows within the threshold, whole and
   * in their original order, under the same columns.
   */
  function RemoveOutliers(t: Table, z: real): (r: Filtered)
    requires WellFormed(t)
    ensures WellFormed(r.table) && r.table.columns == t.columns
    ensures r.removed + |r.table.rows| == |t.rows|
    ensures exists idx :: SubsequenceAt(r.table.rows, t.rows, idx) &&
              forall i :: 0 <= i < |t.rows| ==> (i in idx <==> RowWithin(t, i, z))
  {
    var keep := OutlierMask(t, z);
    var rows := Select(t.rows, keep);
    SelectIsMaskedSubsequence(t.rows, keep);
    Filtered(Table(t.columns, rows), |t.rows| - |rows|)
  }

  lemma NonNegativeProduct(a: real, b: real)
    requires a >= 0.0 && b >= 0.0
    ensures a * b >= 0.0
  {
  }

  /** Squaring preserves strict order on non-negative reals. */
  lemma SquareStrictlyMonotone(a: real, b: real)
    requires 0.0 <= a && 0.0 <= b
    ensures a < b <==> Square(a) < Square(b)
  {
    calc { Square(b) - Square(a); == b * b - a * a; == (b + a) * (b - a); }
    if a < b {
      PositiveProduct(b + a, b - a);
    } else {
      NonNegativeProduct(a + b, a - b);
      calc { Square(a) - Square(b); == a * a - b * b; == (a + b) * (a - b); }
    }
  }

  /** Comparing a quotient by a positive `s` is comparing the product by `s`. */
  lemma QuotientBelow(a: real, s: real, z: real)
    requires s > 0.0
    ensures a / s < z <==> a < z * s
  {
    assert a / s * s == a;
  }

  /**
   * The square-root-free test agrees with `|d| / s < z` for the standard
   * deviation `s`, the positive square root of the variance.
   */
  lemma ZScoreBelowMatchesDivision(d: real, s: real, z: real)
    requires s > 0.0
    ensures ZScoreBelow(d, s * s, z) <==> Abs(d) / s < z
  {
    var a := Abs(d);
    assert Square(a) == Square(d) by {
      calc { Square(a); == a * a; == d * d; == Square(d); }
    }
    PositiveProduct(s, s);
    if z > 0.0 {
      PositiveProduct(z, s);
      SquareStrictlyMonotone(a, z * s);
      calc { Square(z * s); == (z * s) * (z * s); == z * z * (s * s); }
      QuotientBelow(a, s, z);
    } else {
      NonNegativeProduct(-z, s);
      assert a / s >= 0.0;
    }
  }

  /** Row `i`'s value in column `c` lies less than `z` standard deviations `s` from the column mean. */
  predicate ZScoreOfCellBelow(t: Table, i: nat, c: nat, z: real, s: real)
    requires WellFormed(t) && i < |t.rows| && c < |t.columns|
  {
    var xs := NumValues(ColumnCells(t, c));
    && t.rows[i][c].Some? && t.rows[i][c].value.Num? && |xs| > 0
    && s > 0.0 && Abs(t.rows[i][c].value.x - Mean(xs)) / s < z
  }

  /** Once the column's mean and variance are known, the test is the z-score comparison alone. */
  lemma WithinThresholdOfStats(t: Table, i: nat, c: nat, z: real, m: real, v: real)
    requires WellFormed(t) && i < |t.rows| && c < |t.columns|
    requires NullCount(ColumnCells(t, c)) == 0 && t.rows[i][c].Some? && t.rows[i][c].value.Num?
    requires |NumValues(ColumnCells(t, c))| > 0
    requires Mean(NumValues(ColumnCells(t, c))) == m && Variance(NumValues(ColumnCells(t, c))) == v
    ensures WithinThreshold(t, i, c, z) <==> ZScoreBelow(t.rows[i][c].value.x - m, v, z)
  {
  }

  /**
   * One column's test, case by case: a null in the column fails every row
   * (NaN); without nulls the column holds one number per row, a zero
   * variance fails every row (NaN), and a positive variance `s * s` passes
   * exactly the rows whose `|x - mean| / s` lies below `z`.
   */
  lemma WithinThresholdMatchesZScore(t: Table, i: nat, c: nat, z: real, s: real)
    requires WellFormed(t) && i < |t.rows| && c < |t.columns| && t.columns[c].kind == Numeric
    ensures NullCount(ColumnCells(t, c)) > 0 ==> !WithinThreshold(t, i, c, z)
    ensures NullCount(ColumnCells(t, c)) == 0 ==>
              && |NumValues(ColumnCells(t, c))| == |t.rows|
              && t.rows[i][c].Some? && t.rows[i][c].value.Num?
    ensures NullCount(ColumnCells(t, c)) == 0 && Variance(NumValues(ColumnCells(t, c))) == 0.0 ==>
              !WithinThreshold(t, i, c, z)
    ensures NullCount(ColumnCells(t, c)) == 0 && s > 0.0 && s * s == Variance(NumValues(ColumnCells(t, c))) ==>
              (WithinThreshold(t, i, c, z) <==>
               Abs(t.rows[i][c].value.x - Mean(NumValues(ColumnCells(t, c)))) / s < z)
    ensures NullCount(ColumnCells(t, c)) == 0 && s > 0.0 && s * s == Variance(NumValues(ColumnCells(t, c))) ==>
              (WithinThreshold(t, i, c, z) <==> ZScoreOfCellBelow(t, i, c, z, s))
  {
    var cells := ColumnCells(t, c);
    if NullCount(cells) == 0 {
      assert forall j :: 0 <= j < |cells| ==> Fits(cells[j], Numeric) by {
        forall j | 0 <= j < |cells| ensures Fits(cells[j], Numeric) {
          assert RowFits(t.rows[j], t.columns);
        }
      }
      assert RowFits(t.rows[i], t.columns);
      assert cells[i].Some?;
      var xs := NumValues(cells);
      if s > 0.0 && s * s == Variance(xs) {
        ZScoreBelowMatchesDivision(t.rows[i][c].value.x - Mean(xs), s, z);
      }
    }
  }

  /** Column `c` holds no null and `s`, positive, is its standard deviation. */
  predicate IsStandardDeviation(t: Table, c: nat, s: real)
    requires WellFormed(t) && c < |t.columns|
  {
    && NullCount(ColumnCells(t, c)) == 0
    && |NumValues(ColumnCells(t, c))| > 0
    && s > 0.0 && s * s == Variance(NumValues(ColumnCells(t, c)))
  }

  /** `sds[c]` is the standard deviation of every numeric column `c`. */
  predicate StandardDeviations(t: Table, sds: seq<real>)
    requires WellFormed(t)
  {
    && |sds| == |t.columns|
    && forall c :: 0 <= c < |t.columns| && t.columns[c].kind == Numeric ==> IsStandardDeviation(t, c, sds[c])
  }

  /**
   * With no nulls in any numeric column and a positive standard deviation
   * `sds[c]` for each, a row survives exactly when every numeric cell's
   * `|x - mean| / sds[c]` lies below `z`.
   */
  lemma RowWithinMatchesZScores(t: Table, i: nat, z: real, sds: seq<real>)
    requires WellFormed(t) && i < |t.rows| && StandardDeviations(t, sds)
    ensures RowWithin(t, i, z) <==>
              forall c :: 0 <= c < |t.columns| && t.columns[c].kind == Numeric ==> ZScoreOfCellBelow(t, i, c, z, sds[c])
  {
    forall c | 0 <= c < |t.columns| && t.columns[c].kind == Numeric
      ensures WithinThreshold(t, i, c, z) <==> ZScoreOfCellBelow(t, i, c, z, sds[c])
    {
      ColumnMatchesZScore(t, i, c, z, sds[c]);
    }
  }

  /** One numeric column of `RowWithinMatchesZScores`. */
  lemma ColumnMatchesZScore(t: Table, i: nat, c: nat, z: real, s: real)
    requires WellFormed(t) && i < |t.rows| && c < |t.columns| && t.columns[c].kind == Numeric
    requires IsStandardDeviation(t, c, s)
    ensures WithinThreshold(t, i, c, z) <==> ZScoreOfCellBelow(t, i, c, z, s)
  {
    WithinThresholdMatchesZScore(t, i, c, z, s);
  }

  // ---------------------------------------------------------------------
  // Consequences

  /** A table without numeric columns passes through unchanged. */
  lemma RemoveOutliersNoNumericColumns(t: Table, z: real)
    requires WellFormed(t)
    requires forall c :: 0 <= c < |t.columns| ==> t.columns[c].kind == Textual
    ensures RemoveOutliers(t, z) == Filtered(t, 0)
  {
    SelectAll(t.rows, OutlierMask(t, z));
  }

  /**
   * A numeric column that still holds a null makes every z-score of that
   * column NaN, so every row is removed.
   */
  lemma RemoveOutliersNullColumn(t: Table, z: real, c: nat)
    requires WellFormed(t) && c < |t.columns| && t.columns[c].kind == Numeric
    requires NullCount(ColumnCells(t, c)) > 0
    ensures RemoveOutliers(t, z) == Filtered(Table(t.columns, []), |t.rows|)
  {
    var keep := OutlierMask(t, z);
    assert forall i :: 0 <= i < |t.rows| ==> !WithinThreshold(t, i, c, z);
    SelectNone(t.rows, keep);
  }

  /**
   * A numeric column whose values are all equal has zero variance, hence
   * NaN z-scores, so every row is removed.
   */
  lemma RemoveOutliersConstantColumn(t: Table, z: real, c: nat)
    requires WellFormed(t) && c < |t.columns| && t.columns[c].kind == Numeric
    requires |t.rows| > 0
    requires forall i :: 0 <= i < |t.rows| ==> t.rows[i][c] == t.rows[0][c]
    ensures RemoveOutliers(t, z) == Filtered(Table(t.columns, []), |t.rows|)
  {
    var keep := OutlierMask(t, z);
    var cells := ColumnCells(t, c);
    var xs := NumValues(cells);
    if NullCount(cells) == 0 && |xs| > 0 {
      assert t.rows[0][c].Some?;
      var x0 := t.rows[0][c].value.x;
      forall j | 0 <= j < |xs| ensures xs[j] == xs[0] {
        assert xs[j] in xs && xs[0] in xs;
      }
      assert Variance(xs) == 0.0;
    }
    assert forall i :: 0 <= i < |t.rows| ==> !WithinThreshold(t, i, c, z);
    SelectNone(t.rows, keep);
  }

  /** A threshold that is not positive removes every row once a numeric column exists. */
  lemma RemoveOutliersNonPositiveThreshold(t: Table, z: real, c: nat)
    requires WellFormed(t) && c < |t.columns| && t.columns[c].kind == Numeric
    requires z <= 0.0
    ensures RemoveOutliers(t, z) == Filtered(Table(t.columns, []), |t.rows|)
  {
    var keep := OutlierMask(t, z);
    assert forall i :: 0 <= i < |t.rows| ==> !WithinThreshold(t, i, c, z);
    SelectNone(t.rows, keep);
  }
}
