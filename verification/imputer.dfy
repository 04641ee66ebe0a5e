/**
 * `clean_missing_values`: visits the columns left to right, each on the
 * table as the previous columns left it. A column without nulls is skipped;
 * a textual column has its nulls filled with its mode; a numeric column is
 * filled with its mean or median, or has its null rows dropped, according
 * to the strategy tag; any other tag leaves numeric columns alone.
 */
module Imputer {
  import opened Wrappers
  import opened Tables
  import opened Stats
  import opened Selection

  /** `mode()[0]` on a column whose every cell is null raises. */
  datatype ImputeError = EmptyMode

  lemma {:induction false} MaskCount(keep: seq<bool>, cells: seq<Cell>)
    requires |keep| == |cells|
    requires forall i :: 0 <= i < |cells| ==> (keep[i] <==> cells[i].Some?)
    ensures TrueCount(keep) + NullCount(cells) == |cells|
  {
    if |cells| > 0 {
      MaskCount(keep[1..], cells[1..]);
    }
  }

  /**
   * `df.dropna(subset=[column])`: exactly the rows whose cell in column `k`
   * is non-null survive, whole and in their original order.
   */
  function DropNullRows(t: Table, k: nat): (r: Table)
    requires WellFormed(t) && k < |t.columns|
    ensures WellFormed(r) && r.columns == t.columns
    ensures |r.rows| == |t.rows| - NullCount(ColumnCells(t, k))
    ensures NullCount(ColumnCells(r, k)) == 0
    ensures SubsequenceAt(r.rows, t.rows, Kept(NonNullMask(t, k)))
    ensures forall i :: 0 <= i < |t.rows| ==> (i in Kept(NonNullMask(t, k)) <==> t.rows[i][k].Some?)
  {
    var keep := NonNullMask(t, k);
    var r := Table(t.columns, Select(t.rows, keep));
    SelectIsMaskedSubsequence(t.rows, keep);
    MaskCount(keep, ColumnCells(t, k));
    forall m | 0 <= m < |r.rows|
      ensures RowFits(r.rows[m], r.columns) && r.rows[m][k].Some?
    {
      assert r.rows[m] == t.rows[Kept(keep)[m]];
      assert keep[Kept(keep)[m]];
    }
    r
  }

  /**
   * One pass of the column loop: the effect of visiting column `k`. It
   * raises exactly for a textual column with nulls and no value; a textual
   * column has its nulls replaced by one most frequent value; only `drop`
   * removes rows, and otherwise every non-null cell is kept; a numeric
   * column without values, or under an unknown strategy, is left alone.
   */
  function ImputeColumn(t: Table, k: nat, strategy: string): (r: Result<Table, ImputeError>)
    requires WellFormed(t) && k < |t.columns|
    ensures r.Failure? <==> t.columns[k].kind == Textual && NullCount(ColumnCells(t, k)) > 0 && |TextValues(ColumnCells(t, k))| == 0
    ensures r.Success? ==> WellFormed(r.value) && r.value.columns == t.columns
    ensures r.Success? && (strategy != "drop" || t.columns[k].kind == Textual) ==>
      && |r.value.rows| == |t.rows|
      && forall i, c :: 0 <= i < |t.rows| && 0 <= c < |t.columns| && (c != k || t.rows[i][c].Some?) ==>
           r.value.rows[i][c] == t.rows[i][c]
    ensures r.Success? && t.columns[k].kind == Textual ==>
      && NullCount(ColumnCells(r.value, k)) == 0
      && (NullCount(ColumnCells(t, k)) > 0 ==>
            exists v :: IsMostFrequent(TextValues(ColumnCells(t, k)), v) &&
              forall i :: 0 <= i < |t.rows| && t.rows[i][k].None? ==> r.value.rows[i][k] == Some(Text(v)))
    ensures t.columns[k].kind == Numeric && strategy != "drop" &&
            (|NumValues(ColumnCells(t, k))| == 0 || (strategy != "mean" && strategy != "median")) ==>
      r == Success(t)
  {
    var cells := ColumnCells(t, k);
    if NullCount(cells) == 0 then Success(t)
    else if t.columns[k].kind == Textual then
      var texts := TextValues(cells);
      if |texts| == 0 then Failure(EmptyMode)
      else Success(FillNulls(t, k, Text(Mode(texts))))
    else if strategy == "mean" then
      var xs := NumValues(cells);
      // the mean of no values is NaN, and filling with NaN changes nothing
      if |xs| == 0 then Success(t)
      else Success(FillNulls(t, k, Num(Mean(xs))))
    else if strategy == "median" then
      var xs := NumValues(cells);
      if |xs| == 0 then Success(t)
      else Success(FillNulls(t, k, Num(Median(xs))))
    else if strategy == "drop" then Success(DropNullRows(t, k))
    else Success(t)
  }

  /** The column loop from column `k` onwards. */
  function CleanFrom(t: Table, strategy: string, k: nat): (r: Result<Table, ImputeError>)
    requires WellFormed(t) && k <= |t.columns|
    ensures r.Success? ==> WellFormed(r.value) && r.value.columns == t.columns
    ensures r.Success? ==> |r.value.rows| <= |t.rows|
    ensures r.Success? && strategy != "drop" ==> |r.value.rows| == |t.rows|
    decreases |t.columns| - k
  {
    if k == |t.columns| then Success(t)
    else
      match ImputeColumn(t, k, strategy)
      case Failure(e) => Failure(e)
      case Success(u) =>
        assert |u.rows| <= |t.rows| by {
          if NullCount(ColumnCells(t, k)) > 0 && t.columns[k].kind == Numeric && strategy == "drop" {
            assert u == DropNullRows(t, k);
          }
        }
        CleanFrom(u, strategy, k + 1)
  }

  /** `clean_missing_values(df, strategy)`. */
  function CleanMissingValues(t: Table, strategy: string): (r: Result<Table, ImputeError>)
    requires WellFormed(t)
    ensures r.Success? ==> WellFormed(r.value) && r.value.columns == t.columns
    ensures r.Success? ==> |r.value.rows| <= |t.rows|
    ensures r.Success? && strategy != "drop" ==> |r.value.rows| == |t.rows|
  {
    CleanFrom(t, strategy, 0)
  }

  // ---------------------------------------------------------------------
  // Visiting a single column

  /** With `drop`, a numeric column with nulls loses exactly its null rows. */
  lemma ImputeDropColumn(t: Table, k: nat)
    requires WellFormed(t) && k < |t.columns|
    requires t.columns[k].kind == Numeric
    ensures ImputeColumn(t, k, "drop").Success?
    ensures var r := ImputeColumn(t, k, "drop").value;
      && |r.rows| == |t.rows| - NullCount(ColumnCells(t, k))
      && NullCount(ColumnCells(r, k)) == 0
      && SubsequenceAt(r.rows, t.rows, Kept(NonNullMask(t, k)))
      && (forall i :: 0 <= i < |t.rows| ==> (i in Kept(NonNullMask(t, k)) <==> t.rows[i][k].Some?))
  {
    if NullCount(ColumnCells(t, k)) == 0 {
      var keep := NonNullMask(t, k);
      SelectAll(t.rows, keep);
      SelectIsMaskedSubsequence(t.rows, keep);
    }
  }

  // ---------------------------------------------------------------------
  // Reference: the whole loop when no rows are dropped

  /**
   * The mode counts a string once per cell holding it, so "most frequent"
   * among the values is most frequent among the column's cells.
   */
  lemma {:induction false} TextValuesCount(cells: seq<Cell>, s: string)
    ensures Count(TextValues(cells), s) == CellCount(cells, Some(Text(s)))
  {
    CountIsMultiplicity(TextValues(cells), s);
    TextValuesMultiplicity(cells, s);
  }

  /**
   * The value a null of a column receives when no rows are dropped, or
   * `None` when it stays null.
   */
  function FillValue(cells: seq<Cell>, kind: Kind, strategy: string): Option<Value> {
    if kind == Textual then
      var texts := TextValues(cells);
      if |texts| == 0 then None else Some(Text(Mode(texts)))
    else
      var xs := NumValues(cells);
      if |xs| == 0 then None
      else if strategy == "mean" then Some(Num(Mean(xs)))
      else if strategy == "median" then Some(Num(Median(xs)))
      else None
  }

  /** A column that has nulls but no value to take a mode of. */
  predicate ModeUndefined(t: Table, c: nat)
    requires WellFormed(t) && c < |t.columns|
  {
    var cells := ColumnCells(t, c);
    t.columns[c].kind == Textual && NullCount(cells) > 0 && |TextValues(cells)| == 0
  }

  function ImputedCell(t: Table, strategy: string, i: nat, c: nat): Cell
    requires WellFormed(t) && i < |t.rows| && c < |t.columns|
  {
    if t.rows[i][c].Some? then t.rows[i][c]
    else FillValue(ColumnCells(t, c), t.columns[c].kind, strategy)
  }

  /**
   * Every column imputed independently from the ORIGINAL table: each null
   * takes its column's fill value, and the table raises if some textual
   * column has nulls but no values.
   */
  function ImputeAtOnce(t: Table, strategy: string): Result<Table, ImputeError>
    requires WellFormed(t)
  {
    if exists c :: 0 <= c < |t.columns| && ModeUndefined(t, c) then Failure(EmptyMode)
    else
      Success(Table(t.columns, seq(|t.rows|, i requires 0 <= i < |t.rows| =>
        seq(|t.columns|, c requires 0 <= c < |t.columns| => ImputedCell(t, strategy, i, c)))))
  }

  /** Cell `(i, c)` of the reference result is the imputed cell. */
  lemma ReferenceCell(t: Table, strategy: string, i: nat, c: nat)
    requires WellFormed(t) && ImputeAtOnce(t, strategy).Success? && i < |t.rows| && c < |t.columns|
    ensures var r := ImputeAtOnce(t, strategy).value;
      |r.rows| == |t.rows| && |r.rows[i]| == |t.columns| && r.rows[i][c] == ImputedCell(t, strategy, i, c)
  {
  }

  /** After visiting the columns before `k`, exactly those columns hold their imputed cells. */
  ghost predicate VisitedBefore(t0: Table, u: Table, strategy: string, k: nat)
    requires WellFormed(t0)
  {
    && WellFormed(u)
    && k <= |t0.columns|
    && u.columns == t0.columns
    && |u.rows| == |t0.rows|
    && (forall c :: 0 <= c < k ==> !ModeUndefined(t0, c))
    && (forall i, c :: 0 <= i < |t0.rows| && 0 <= c < |t0.columns| ==>
          u.rows[i][c] == if c < k then ImputedCell(t0, strategy, i, c) else t0.rows[i][c])
  }

  lemma VisitStep(t0: Table, u: Table, strategy: string, k: nat)
    requires WellFormed(t0) && strategy != "drop"
    requires VisitedBefore(t0, u, strategy, k) && k < |t0.columns|
    ensures ImputeColumn(u, k, strategy).Failure? <==> ModeUndefined(t0, k)
    ensures ImputeColumn(u, k, strategy).Success? ==>
              VisitedBefore(t0, ImputeColumn(u, k, strategy).value, strategy, k + 1)
  {
    assert ColumnCells(u, k) == ColumnCells(t0, k);
  }

  lemma {:induction false} CleanFromMatchesReference(t0: Table, u: Table, strategy: string, k: nat)
    requires WellFormed(t0) && strategy != "drop"
    requires VisitedBefore(t0, u, strategy, k)
    ensures CleanFrom(u, strategy, k) == ImputeAtOnce(t0, strategy)
    decreases |t0.columns| - k
  {
    if k == |t0.columns| {
      var expected := seq(|t0.rows|, i requires 0 <= i < |t0.rows| =>
        seq(|t0.columns|, c requires 0 <= c < |t0.columns| => ImputedCell(t0, strategy, i, c)));
      forall i | 0 <= i < |t0.rows|
        ensures u.rows[i] == expected[i]
      {
        assert |u.rows[i]| == |t0.columns|;
      }
      assert u.rows == expected;
    } else {
      VisitStep(t0, u, strategy, k);
      var step := ImputeColumn(u, k, strategy);
      if step.Success? {
        CleanFromMatchesReference(t0, step.value, strategy, k + 1);
      }
    }
  }

  /**
   * Unless the strategy is `drop`, visiting the columns one after another
   * is the same as imputing every column from the original table.
   */
  lemma CleanMatchesReference(t: Table, strategy: string)
    requires WellFormed(t) && strategy != "drop"
    ensures CleanMissingValues(t, strategy) == ImputeAtOnce(t, strategy)
  {
    CleanFromMatchesReference(t, t, strategy, 0);
  }

  // ---------------------------------------------------------------------
  // Consequences when no rows are dropped

  /**
   * Without `drop`, the cleaning raises exactly when some textual column has
   * nulls and no value; otherwise rows, columns and every non-null cell are
   * kept and only nulls may be filled.
   */
  lemma CleanWithoutDropKeepsCells(t: Table, strategy: string)
    requires WellFormed(t) && strategy != "drop"
    ensures var r := CleanMissingValues(t, strategy);
      && (r.Failure? <==> exists c :: 0 <= c < |t.columns| && ModeUndefined(t, c))
      && (r.Success? ==>
            && r.value.columns == t.columns
            && |r.value.rows| == |t.rows|
            && forall i, c :: 0 <= i < |t.rows| && 0 <= c < |t.columns| && t.rows[i][c].Some? ==>
                 r.value.rows[i][c] == t.rows[i][c])
  {
    CleanMatchesReference(t, strategy);
  }

  /** Without `drop`, every null of a textual column becomes a most frequent value of that column. */
  lemma CleanFillsTextualWithMode(t: Table, strategy: string, i: nat, c: nat)
    requires WellFormed(t) && strategy != "drop"
    requires i < |t.rows| && c < |t.columns| && t.columns[c].kind == Textual && t.rows[i][c].None?
    requires CleanMissingValues(t, strategy).Success?
    ensures var cell := CleanMissingValues(t, strategy).value.rows[i][c];
      cell.Some? && cell.value.Text? && IsMostFrequent(TextValues(ColumnCells(t, c)), cell.value.s)
  {
    CleanMatchesReference(t, strategy);
    ReferenceCell(t, strategy, i, c);
    var cells := ColumnCells(t, c);
    assert cells[i].None?;
    assert !ModeUndefined(t, c);
  }

  /** With `mean`, every null of a numeric column that has values becomes the mean of those values. */
  lemma CleanFillsNumericWithMean(t: Table, i: nat, c: nat)
    requires WellFormed(t)
    requires i < |t.rows| && c < |t.columns| && t.columns[c].kind == Numeric && t.rows[i][c].None?
    requires |NumValues(ColumnCells(t, c))| > 0
    requires CleanMissingValues(t, "mean").Success?
    ensures CleanMissingValues(t, "mean").value.rows[i][c] == Some(Num(Mean(NumValues(ColumnCells(t, c)))))
  {
    CleanMatchesReference(t, "mean");
    ReferenceCell(t, "mean", i, c);
    assert ColumnCells(t, c)[i].None?;
  }

  /** With `median`, every null of a numeric column that has values becomes the median of those values. */
  lemma CleanFillsNumericWithMedian(t: Table, i: nat, c: nat)
    requires WellFormed(t)
    requires i < |t.rows| && c < |t.columns| && t.columns[c].kind == Numeric && t.rows[i][c].None?
    requires |NumValues(ColumnCells(t, c))| > 0
    requires CleanMissingValues(t, "median").Success?
    ensures CleanMissingValues(t, "median").value.rows[i][c] == Some(Num(Median(NumValues(ColumnCells(t, c)))))
  {
    CleanMatchesReference(t, "median");
    ReferenceCell(t, "median", i, c);
    assert ColumnCells(t, c)[i].None?;
  }

  /**
   * With `mean` or `median`, a column that has at least one value has no
   * null left afterwards.
   */
  lemma CleanLeavesNoNullsWhereValuesExist(t: Table, strategy: string, c: nat)
    requires WellFormed(t) && (strategy == "mean" || strategy == "median")
    requires c < |t.columns|
    requires exists i :: 0 <= i < |t.rows| && t.rows[i][c].Some?
    requires CleanMissingValues(t, strategy).Success?
    ensures NullCount(ColumnCells(CleanMissingValues(t, strategy).value, c)) == 0
  {
    CleanMatchesReference(t, strategy);
    FillValueOfNonEmptyColumn(t, strategy, c);
    var r := CleanMissingValues(t, strategy).value;
    forall i | 0 <= i < |r.rows|
      ensures ColumnCells(r, c)[i].Some?
    {
      ReferenceCell(t, strategy, i, c);
    }
  }

  /** Under `mean` or `median`, a column with a value has a fill value. */
  lemma FillValueOfNonEmptyColumn(t: Table, strategy: string, c: nat)
    requires WellFormed(t) && (strategy == "mean" || strategy == "median")
    requires c < |t.columns|
    requires exists i :: 0 <= i < |t.rows| && t.rows[i][c].Some?
    ensures FillValue(ColumnCells(t, c), t.columns[c].kind, strategy).Some?
  {
    var cells := ColumnCells(t, c);
    var j :| 0 <= j < |t.rows| && t.rows[j][c].Some?;
    assert cells[j].Some?;
    if t.columns[c].kind == Textual {
      assert cells[j].value.s in TextValues(cells);
    } else {
      assert cells[j].value.x in NumValues(cells);
    }
  }

  /**
   * A strategy other than `mean`, `median` or `drop` leaves every numeric
   * cell, nulls included, as it was.
   */
  lemma CleanOtherStrategyKeepsNumeric(t: Table, strategy: string)
    requires WellFormed(t)
    requires strategy != "mean" && strategy != "median" && strategy != "drop"
    requires CleanMissingValues(t, strategy).Success?
    ensures var r := CleanMissingValues(t, strategy).value;
      && |r.rows| == |t.rows|
      && forall i, c :: 0 <= i < |t.rows| && 0 <= c < |t.columns| && t.columns[c].kind == Numeric ==>
           r.rows[i][c] == t.rows[i][c]
  {
    CleanMatchesReference(t, strategy);
  }

  // ---------------------------------------------------------------------
  // Tables without nulls

  lemma {:induction false} CleanFromNoNulls(t: Table, strategy: string, k: nat)
    requires WellFormed(t) && NoNulls(t) && k <= |t.columns|
    ensures CleanFrom(t, strategy, k) == Success(t)
    decreases |t.columns| - k
  {
    if k < |t.columns| {
      assert NullCount(ColumnCells(t, k)) == 0;
      CleanFromNoNulls(t, strategy, k + 1);
    }
  }

  /** A table without nulls comes back unchanged, whatever the strategy. */
  lemma CleanNoNullsUnchanged(t: Table, strategy: string)
    requires WellFormed(t) && NoNulls(t)
    ensures CleanMissingValues(t, strategy) == Success(t)
  {
    CleanFromNoNulls(t, strategy, 0);
  }

  // ---------------------------------------------------------------------
  // The `drop` strategy

  /** Row `i` has a value in every numeric column before `k`. */
  predicate NumericCompleteBefore(t: Table, i: nat, k: nat)
    requires WellFormed(t) && i < |t.rows| && k <= |t.columns|
  {
    forall c :: 0 <= c < k && t.columns[c].kind == Numeric ==> t.rows[i][c].Some?
  }

  /**
   * Row `m` of `u` is row `idx[m]` of `t0`, rows in their original order,
   * with every non-null cell of `t0` kept.
   */
  ghost predicate RowsDerived(t0: Table, u: Table, idx: seq<nat>)
    requires WellFormed(t0) && WellFormed(u) && u.columns == t0.columns
  {
    && |idx| == |u.rows|
    && StrictlyIncreasing(idx)
    && (forall m :: 0 <= m < |idx| ==> idx[m] < |t0.rows|)
    && (forall m, c :: 0 <= m < |idx| && 0 <= c < |t0.columns| && t0.rows[idx[m]][c].Some? ==>
          u.rows[m][c] == t0.rows[idx[m]][c])
  }

  /**
   * After visiting the columns before `k` with `drop`: the surviving rows are
   * exactly those complete in the numeric columns before `k`, the visited
   * columns have no nulls, and the unvisited columns are untouched.
   */
  ghost predicate DroppedBefore(t0: Table, u: Table, k: nat, idx: seq<nat>)
    requires WellFormed(t0)
  {
    && WellFormed(u)
    && k <= |t0.columns|
    && u.columns == t0.columns
    && RowsDerived(t0, u, idx)
    && (forall m, c :: 0 <= m < |idx| && k <= c < |t0.columns| ==> u.rows[m][c] == t0.rows[idx[m]][c])
    && (forall m, c :: 0 <= m < |idx| && 0 <= c < k ==> u.rows[m][c].Some?)
    && (forall i :: 0 <= i < |t0.rows| ==> (i in idx <==> NumericCompleteBefore(t0, i, k)))
  }

  lemma DropStepSkip(t0: Table, u: Table, k: nat, idx: seq<nat>)
    requires WellFormed(t0) && DroppedBefore(t0, u, k, idx) && k < |t0.columns|
    requires NullCount(ColumnCells(u, k)) == 0
    ensures DroppedBefore(t0, u, k + 1, idx)
  {
    assert forall m :: 0 <= m < |idx| ==> ColumnCells(u, k)[m].Some?;
    forall i | 0 <= i < |t0.rows| && i in idx
      ensures NumericCompleteBefore(t0, i, k + 1)
    {
      var m :| 0 <= m < |idx| && idx[m] == i;
      assert u.rows[m][k] == t0.rows[i][k];
    }
  }

  lemma DropStepFill(t0: Table, u: Table, k: nat, idx: seq<nat>, v: Value)
    requires WellFormed(t0) && DroppedBefore(t0, u, k, idx) && k < |t0.columns|
    requires t0.columns[k].kind == Textual && v.Text?
    ensures DroppedBefore(t0, FillNulls(u, k, v), k + 1, idx)
  {
    var u' := FillNulls(u, k, v);
    forall i | 0 <= i < |t0.rows|
      ensures NumericCompleteBefore(t0, i, k + 1) == NumericCompleteBefore(t0, i, k)
    {
    }
  }

  /** A row that survives the drop of column `k` is complete up to and including `k`. */
  lemma DropStepSurvivor(t0: Table, u: Table, k: nat, idx: seq<nat>, m: nat)
    requires WellFormed(t0) && DroppedBefore(t0, u, k, idx) && k < |t0.columns|
    requires m < |idx| && NonNullMask(u, k)[m]
    ensures NumericCompleteBefore(t0, idx[m], k + 1)
  {
    assert idx[m] in idx;
    assert NumericCompleteBefore(t0, idx[m], k);
    assert u.rows[m][k] == t0.rows[idx[m]][k];
  }

  /** A row complete up to and including `k` survived so far, and survives the drop of column `k`. */
  lemma DropStepComplete(t0: Table, u: Table, k: nat, idx: seq<nat>, i: nat) returns (m: nat)
    requires WellFormed(t0) && DroppedBefore(t0, u, k, idx) && k < |t0.columns|
    requires t0.columns[k].kind == Numeric && i < |t0.rows| && NumericCompleteBefore(t0, i, k + 1)
    ensures m < |idx| && idx[m] == i && NonNullMask(u, k)[m]
  {
    assert NumericCompleteBefore(t0, i, k);
    m :| 0 <= m < |idx| && idx[m] == i;
    assert u.rows[m][k] == t0.rows[i][k];
  }

  lemma DropStepMembership(t0: Table, u: Table, k: nat, idx: seq<nat>, i: nat)
    requires WellFormed(t0) && DroppedBefore(t0, u, k, idx) && k < |t0.columns|
    requires t0.columns[k].kind == Numeric && i < |t0.rows|
    ensures i in Select(idx, NonNullMask(u, k)) <==> NumericCompleteBefore(t0, i, k + 1)
  {
    var keep := NonNullMask(u, k);
    SelectMembership(idx, keep, i);
    if i in Select(idx, keep) {
      var m :| 0 <= m < |idx| && keep[m] && idx[m] == i;
      DropStepSurvivor(t0, u, k, idx, m);
    }
    if NumericCompleteBefore(t0, i, k + 1) {
      var m := DropStepComplete(t0, u, k, idx, i);
    }
  }

  lemma DropStepRows(t0: Table, u: Table, k: nat, idx: seq<nat>)
    requires WellFormed(t0) && DroppedBefore(t0, u, k, idx) && k < |t0.columns|
    ensures var u' := DropNullRows(u, k);
      var idx' := Select(idx, NonNullMask(u, k));
      && RowsDerived(t0, u', idx')
      && (forall n, c :: 0 <= n < |idx'| && k + 1 <= c < |t0.columns| ==> u'.rows[n][c] == t0.rows[idx'[n]][c])
      && (forall n, c :: 0 <= n < |idx'| && 0 <= c < k + 1 ==> u'.rows[n][c].Some?)
  {
    var keep := NonNullMask(u, k);
    var K := Kept(keep);
    var u' := DropNullRows(u, k);
    var idx' := Select(idx, keep);
    SelectIncreasing(idx, keep);
    assert SubsequenceAt(u'.rows, u.rows, K);
    forall n | 0 <= n < |idx'|
      ensures idx'[n] == idx[K[n]] && u'.rows[n] == u.rows[K[n]] && u'.rows[n][k].Some?
    {
      assert keep[K[n]];
    }
  }

  lemma DropStepDrop(t0: Table, u: Table, k: nat, idx: seq<nat>) returns (idx': seq<nat>)
    requires WellFormed(t0) && DroppedBefore(t0, u, k, idx) && k < |t0.columns|
    requires t0.columns[k].kind == Numeric
    ensures DroppedBefore(t0, DropNullRows(u, k), k + 1, idx')
  {
    idx' := Select(idx, NonNullMask(u, k));
    DropStepRows(t0, u, k, idx);
    forall i | 0 <= i < |t0.rows|
      ensures i in idx' <==> NumericCompleteBefore(t0, i, k + 1)
    {
      DropStepMembership(t0, u, k, idx, i);
    }
  }

  /** Visiting column `k` with `drop` advances the invariant by one column. */
  lemma DropStep(t0: Table, u: Table, k: nat, idx: seq<nat>) returns (idx': seq<nat>)
    requires WellFormed(t0) && DroppedBefore(t0, u, k, idx) && k < |t0.columns|
    requires ImputeColumn(u, k, "drop").Success?
    ensures DroppedBefore(t0, ImputeColumn(u, k, "drop").value, k + 1, idx')
  {
    var cells := ColumnCells(u, k);
    if NullCount(cells) == 0 {
      DropStepSkip(t0, u, k, idx);
      idx' := idx;
    } else if t0.columns[k].kind == Textual {
      DropStepFill(t0, u, k, idx, Text(Mode(TextValues(cells))));
      idx' := idx;
    } else {
      idx' := DropStepDrop(t0, u, k, idx);
    }
  }

  lemma {:induction false} CleanFromDrop(t0: Table, u: Table, k: nat, idx: seq<nat>)
    requires WellFormed(t0) && DroppedBefore(t0, u, k, idx)
    requires CleanFrom(u, "drop", k).Success?
    ensures exists idx' :: DroppedBefore(t0, CleanFrom(u, "drop", k).value, |t0.columns|, idx')
    decreases |t0.columns| - k
  {
    if k < |t0.columns| {
      var idx' := DropStep(t0, u, k, idx);
      var u' := ImputeColumn(u, k, "drop").value;
      assert CleanFrom(u, "drop", k) == CleanFrom(u', "drop", k + 1);
      CleanFromDrop(t0, u', k + 1, idx');
    }
  }

  /** Every numeric cell of row `i` holds a value. */
  predicate NumericComplete(t: Table, i: nat)
    requires WellFormed(t) && i < |t.rows|
  {
    NumericCompleteBefore(t, i, |t.columns|)
  }

  /**
   * With `drop`, the result has no nulls, and its rows are exactly the input
   * rows with a value in every numeric column, whole and in their original
   * order, with every non-null input cell kept.
   */
  lemma CleanDropKeepsCompleteRows(t: Table)
    requires WellFormed(t)
    requires CleanMissingValues(t, "drop").Success?
    ensures var r := CleanMissingValues(t, "drop").value;
      && NoNulls(r)
      && exists idx :: RowsDerived(t, r, idx) &&
           forall i :: 0 <= i < |t.rows| ==> (i in idx <==> NumericComplete(t, i))
  {
    var id := seq(|t.rows|, i requires 0 <= i < |t.rows| => i as nat);
    assert DroppedBefore(t, t, 0, id) by {
      forall i | 0 <= i < |t.rows| ensures i in id {
        assert id[i] == i;
      }
    }
    CleanFromDrop(t, t, 0, id);
    var r := CleanMissingValues(t, "drop").value;
    var idx :| DroppedBefore(t, r, |t.columns|, idx);
    assert forall m, c :: 0 <= m < |r.rows| && 0 <= c < |r.rows[m]| ==> r.rows[m][c].Some?;
  }
}
