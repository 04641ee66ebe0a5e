/**
 * Worked cases of the three cleaning steps on small tables, each derived
 * from the general contracts or by evaluation.
 */
module Scenarios {
  import opened Wrappers
  import opened Tables
  import opened Stats
  import opened Text
  import opened Imputer
  import opened Normalizer
  import opened Outliers
  import opened Selection

  lemma LowerApple()
    ensures Lower("Apple") == "apple"
    ensures Lower("APPLE") == "apple"
    ensures Lower("apple") == "apple"
  {
    assert LowerChar('A') == 'a';
    assert LowerChar('P') == 'p';
    assert LowerChar('L') == 'l';
    assert LowerChar('E') == 'e';
  }

  /** "Apple", " apple" and "APPLE " all normalise to "apple". */
  lemma NormalizationCollapseExample()
    ensures Normalize("Apple") == Normalize(" " + "apple") == Normalize("APPLE" + " ") == "apple"
  {
    LowerApple();
    NormalizeOfTrimmed("Apple");
    NormalizeIgnoresOuterSpace("apple", ' ');
    NormalizeIgnoresOuterSpace("APPLE", ' ');
  }

  /** The mean of 1, 2 and 4 is 7/3. */
  lemma MeanExample()
    ensures Mean([1.0, 2.0, 4.0]) == 7.0 / 3.0
  {
  }

  /** One numeric column holding 1, 2, null and 4. */
  function MeanTable(): Table {
    Table([Column("x", Numeric)], [[Some(Num(1.0))], [Some(Num(2.0))], [None], [Some(Num(4.0))]])
  }

  lemma MeanTableColumn()
    ensures WellFormed(MeanTable())
    ensures ColumnCells(MeanTable(), 0) == [Some(Num(1.0)), Some(Num(2.0)), None, Some(Num(4.0))]
  {
  }

  lemma MeanTableValues()
    ensures NumValues([Some(Num(1.0)), Some(Num(2.0)), None, Some(Num(4.0))]) == [1.0, 2.0, 4.0]
    ensures NullCount([Some(Num(1.0)), Some(Num(2.0)), None, Some(Num(4.0))]) == 1
  {
  }

  /** With `mean`, the null in [1, 2, null, 4] becomes 7/3 and the other cells stay. */
  lemma MeanImputationExample()
    ensures WellFormed(MeanTable())
    ensures CleanMissingValues(MeanTable(), "mean").Success?
    ensures var r := CleanMissingValues(MeanTable(), "mean").value;
      |r.rows| == 4 && r.rows[2][0] == Some(Num(7.0 / 3.0)) &&
      r.rows[0][0] == Some(Num(1.0)) && r.rows[1][0] == Some(Num(2.0)) && r.rows[3][0] == Some(Num(4.0))
  {
    MeanTableColumn();
    MeanTableValues();
    MeanExample();
    var t := MeanTable();
    CleanWithoutDropKeepsCells(t, "mean");
    assert !ModeUndefined(t, 0);
    CleanFillsNumericWithMean(t, 2, 0);
  }

  /** One textual column holding "a", "a", "b" and null. */
  function ModeTable(): Table {
    Table([Column("fruit", Textual)], [[Some(Text("a"))], [Some(Text("a"))], [Some(Text("b"))], [None]])
  }

  lemma ModeTableColumn()
    ensures WellFormed(ModeTable())
    ensures ColumnCells(ModeTable(), 0) == [Some(Text("a")), Some(Text("a")), Some(Text("b")), None]
  {
  }

  lemma ModeTableValues()
    ensures WellFormed(ModeTable())
    ensures TextValues(ColumnCells(ModeTable(), 0)) == ["a", "a", "b"]
  {
    ModeTableColumn();
    var texts := [Some(Text("a")), Some(Text("a")), Some(Text("b"))];
    assert [Some(Text("a")), Some(Text("a")), Some(Text("b")), None] == texts + [None];
    TextValuesNullLast(texts);
    TextValuesOfTexts(texts, ["a", "a", "b"]);
  }

  /** "a" is the only most frequent value of ["a", "a", "b"]. */
  lemma MostFrequentAAB(v: string)
    requires IsMostFrequent(["a", "a", "b"], v)
    ensures v == "a"
  {
    assert Count(["a", "a", "b"], "a") == 2;
    assert v == "a" || v == "b";
    assert Count(["a", "a", "b"], "b") == 1;
  }

  /**
   * Whatever the strategy, the textual null becomes "a". The table has no
   * numeric column, so `drop` removes no row and acts like any other strategy.
   */
  lemma ModeImputationExample(strategy: string)
    ensures WellFormed(ModeTable())
    ensures CleanMissingValues(ModeTable(), strategy).Success?
    ensures CleanMissingValues(ModeTable(), strategy).value.rows[3][0] == Some(Text("a"))
  {
    ModeTableValues();
    var t := ModeTable();
    var other := if strategy == "drop" then "mean" else strategy;
    assert CleanMissingValues(t, strategy) == CleanMissingValues(t, other);
    CleanWithoutDropKeepsCells(t, other);
    assert !ModeUndefined(t, 0);
    CleanFillsTextualWithMode(t, other, 3, 0);
    MostFrequentAAB(CleanMissingValues(t, other).value.rows[3][0].value.s);
  }

  /** One numeric column holding 1, 2, 3, 4 and 100. */
  function OutlierTable(): Table {
    Table([Column("x", Numeric)],
      [[Some(Num(1.0))], [Some(Num(2.0))], [Some(Num(3.0))], [Some(Num(4.0))], [Some(Num(100.0))]])
  }

  lemma OutlierValues()
    ensures NumValues([Some(Num(1.0)), Some(Num(2.0)), Some(Num(3.0)), Some(Num(4.0)), Some(Num(100.0))]) == [1.0, 2.0, 3.0, 4.0, 100.0]
  {
    NumValuesOfNumbers([Some(Num(1.0)), Some(Num(2.0)), Some(Num(3.0)), Some(Num(4.0)), Some(Num(100.0))], [1.0, 2.0, 3.0, 4.0, 100.0]);
  }

  lemma OutlierColumn()
    ensures WellFormed(OutlierTable())
    ensures ColumnCells(OutlierTable(), 0) == [Some(Num(1.0)), Some(Num(2.0)), Some(Num(3.0)), Some(Num(4.0)), Some(Num(100.0))]
  {
  }

  /** Mean 22 and population variance 7610 / 5 = 1522. */
  lemma OutlierStats()
    ensures Mean([1.0, 2.0, 3.0, 4.0, 100.0]) == 22.0
    ensures Variance([1.0, 2.0, 3.0, 4.0, 100.0]) == 1522.0
  {
    var xs := [1.0, 2.0, 3.0, 4.0, 100.0];
    assert Sum(xs) == 110.0;
    assert SquaredDeviations(xs, 22.0) == 7610.0;
  }

  /** Squared deviations 441, 400, 361, 324 lie below 1522, and 6084 does not. */
  lemma OutlierZScores(i: nat)
    requires i < 5
    ensures ZScoreBelow([1.0, 2.0, 3.0, 4.0, 100.0][i] - 22.0, 1522.0, 1.0) <==> i < 4
  {
    var d := [1.0, 2.0, 3.0, 4.0, 100.0][i] - 22.0;
    assert d == [-21.0, -20.0, -19.0, -18.0, 78.0][i];
    assert Square(d) == [441.0, 400.0, 361.0, 324.0, 6084.0][i];
  }

  lemma OutlierRow(i: nat)
    requires i < 5
    ensures OutlierTable().rows[i][0] == Some(Num([1.0, 2.0, 3.0, 4.0, 100.0][i]))
  {
  }

  lemma OutlierColumnStats()
    ensures WellFormed(OutlierTable())
    ensures var cells := ColumnCells(OutlierTable(), 0);
      NullCount(cells) == 0 && NumValues(cells) == [1.0, 2.0, 3.0, 4.0, 100.0]
  {
    OutlierColumn();
    OutlierValues();
  }

  lemma OutlierCell(i: nat)
    requires i < 5
    ensures WellFormed(OutlierTable())
    ensures WithinThreshold(OutlierTable(), i, 0, 1.0) <==> i < 4
  {
    var t := OutlierTable();
    OutlierColumnStats();
    OutlierStats();
    OutlierRow(i);
    OutlierZScores(i);
    WithinThresholdOfStats(t, i, 0, 1.0, 22.0, 1522.0);
  }

  lemma OutlierMaskExample()
    ensures WellFormed(OutlierTable())
    ensures OutlierMask(OutlierTable(), 1.0) == [true, true, true, true, false]
  {
    var t := OutlierTable();
    var keep := OutlierMask(t, 1.0);
    forall i | 0 <= i < 5 ensures keep[i] == (i < 4) {
      OutlierCell(i);
    }
  }

  /** With threshold 1, only the row holding 100 is removed. */
  lemma OutlierRemovalExample()
    ensures WellFormed(OutlierTable())
    ensures RemoveOutliers(OutlierTable(), 1.0) == Filtered(Table(OutlierTable().columns, OutlierTable().rows[..4]), 1)
  {
    OutlierMaskExample();
    SelectPrefix(OutlierTable().rows, [true, true, true, true, false], 4);
  }
}
