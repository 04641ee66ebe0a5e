/**
 * `clean_inconsistent_entries`: every textual column has each value
 * replaced by its stripped, lower-cased form; nulls stay null and numeric
 * columns are left alone.
 */
module Normalizer {
  import opened Wrappers
  import opened Tables
  import opened Text

  function NormalizeValue(v: Value): Value {
    match v
    case Text(s) => Text(Normalize(s))
    case Num(_) => v
  }

  function NormalizeCell(c: Cell): Cell {
    match c
    case Some(v) => Some(NormalizeValue(v))
    case None => None
  }

  /** One row with its textual cells normalised. */
  function NormalizeRow(row: seq<Cell>, columns: seq<Column>): (r: seq<Cell>)
    requires |row| == |columns|
    ensures |r| == |row|
  {
    seq(|row|, c requires 0 <= c < |row| =>
      if columns[c].kind == Textual then NormalizeCell(row[c]) else row[c])
  }

  /**
   * `clean_inconsistent_entries(df)`: each non-null textual cell holding
   * `s` comes to hold the stripped, lower-cased `s`; textual nulls stay
   * null; numeric cells, columns and rows are unchanged.
   */
  function CleanInconsistentEntries(t: Table): (r: Table)
    requires WellFormed(t)
    ensures WellFormed(r) && r.columns == t.columns && |r.rows| == |t.rows|
    ensures forall i, c :: 0 <= i < |t.rows| && 0 <= c < |t.columns| && t.columns[c].kind == Numeric ==>
              r.rows[i][c] == t.rows[i][c]
    ensures forall i, c :: 0 <= i < |t.rows| && 0 <= c < |t.columns| && t.columns[c].kind == Textual ==>
              && (t.rows[i][c].None? ==> r.rows[i][c].None?)
              && (t.rows[i][c].Some? ==> r.rows[i][c] == Some(Text(Normalize(t.rows[i][c].value.s))))
  {
    Table(t.columns, seq(|t.rows|, i requires 0 <= i < |t.rows| => NormalizeRow(t.rows[i], t.columns)))
  }

  /** Normalising the entries a second time changes nothing. */
  lemma CleanInconsistentEntriesIdempotent(t: Table)
    requires WellFormed(t)
    ensures CleanInconsistentEntries(CleanInconsistentEntries(t)) == CleanInconsistentEntries(t)
  {
    var once := CleanInconsistentEntries(t);
    var twice := CleanInconsistentEntries(once);
    forall i | 0 <= i < |t.rows|
      ensures twice.rows[i] == once.rows[i]
    {
      forall c | 0 <= c < |t.columns|
        ensures twice.rows[i][c] == once.rows[i][c]
      {
        if t.columns[c].kind == Textual && t.rows[i][c].Some? {
          NormalizeIdempotent(t.rows[i][c].value.s);
        }
      }
    }
  }

  /** The distinct non-null values of a column (what `nunique()` counts). */
  function DistinctValues(cells: seq<Cell>): set<Value> {
    set i | 0 <= i < |cells| && cells[i].Some? :: cells[i].value
  }

  /** Mapping every element of a set through `NormalizeValue` never yields more elements. */
  lemma {:induction false} ImageNoLarger(s: set<Value>)
    ensures |set v | v in s :: NormalizeValue(v)| <= |s|
    decreases |s|
  {
    if s != {} {
      var x :| x in s;
      var rest := s - {x};
      ImageNoLarger(rest);
      var image := set v | v in s :: NormalizeValue(v);
      var restImage := set v | v in rest :: NormalizeValue(v);
      assert image == restImage + {NormalizeValue(x)};
    }
  }

  /** Normalising cell by cell maps the distinct values onto their normalised forms. */
  lemma DistinctValuesImage(before: seq<Cell>, after: seq<Cell>)
    requires |after| == |before|
    requires forall i :: 0 <= i < |before| ==> after[i] == NormalizeCell(before[i])
    ensures DistinctValues(after) == set v | v in DistinctValues(before) :: NormalizeValue(v)
  {
    var image := set v | v in DistinctValues(before) :: NormalizeValue(v);
    forall w | w in DistinctValues(after)
      ensures w in image
    {
      var i :| 0 <= i < |after| && after[i].Some? && after[i].value == w;
      assert before[i].value in DistinctValues(before);
    }
    forall v | v in DistinctValues(before)
      ensures NormalizeValue(v) in DistinctValues(after)
    {
      var i :| 0 <= i < |before| && before[i].Some? && before[i].value == v;
      assert after[i].value == NormalizeValue(v);
    }
  }

  /**
   * The distinct values of a textual column after normalisation are the
   * normalised distinct values before it, so there are never more of them.
   */
  lemma DistinctCountNotIncreased(t: Table, c: nat)
    requires WellFormed(t) && c < |t.columns| && t.columns[c].kind == Textual
    ensures var before := DistinctValues(ColumnCells(t, c));
      var after := DistinctValues(ColumnCells(CleanInconsistentEntries(t), c));
      && after == (set v | v in before :: NormalizeValue(v))
      && |after| <= |before|
  {
    var cellsT := ColumnCells(t, c);
    var cellsR := ColumnCells(CleanInconsistentEntries(t), c);
    forall i | 0 <= i < |t.rows|
      ensures cellsR[i] == NormalizeCell(cellsT[i])
    {
      assert RowFits(t.rows[i], t.columns);
    }
    DistinctValuesImage(cellsT, cellsR);
    ImageNoLarger(DistinctValues(cellsT));
  }
}
