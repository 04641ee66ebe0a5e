/**
 * The in-memory table the cleaner works on: an ordered list of named,
 * typed columns and a sequence of rows holding one cell per column.
 * A column's kind (`object` versus a numeric dtype) is fixed when the
 * table is loaded and never changes.
 */
module Tables {
  import opened Wrappers

  datatype Kind = Numeric | Textual

  datatype Value = Num(x: real) | Text(s: string)

  /** A cell is a value or null (NaN/None). */
  type Cell = Option<Value>

  datatype Column = Column(name: string, kind: Kind)

  datatype Table = Table(columns: seq<Column>, rows: seq<seq<Cell>>)

  /** A non-null cell holds a value of its column's kind. */
  predicate Fits(c: Cell, k: Kind) {
    match c
    case None => true
    case Some(v) => if k == Numeric then v.Num? else v.Text?
  }

  /** A row has one cell per column, each of the column's kind. */
  predicate RowFits(row: seq<Cell>, columns: seq<Column>) {
    && |row| == |columns|
    && forall k :: 0 <= k < |row| ==> Fits(row[k], columns[k].kind)
  }

  /** All rows are aligned with the column list. */
  predicate WellFormed(t: Table) {
    forall i :: 0 <= i < |t.rows| ==> RowFits(t.rows[i], t.columns)
  }

  /** The cells of column `k`, top to bottom (`df[column]`). */
  function ColumnCells(t: Table, k: nat): (cells: seq<Cell>)
    requires WellFormed(t) && k < |t.columns|
    ensures |cells| == |t.rows|
    ensures forall i :: 0 <= i < |t.rows| ==> cells[i] == t.rows[i][k]
  {
    seq(|t.rows|, i requires 0 <= i < |t.rows| => t.rows[i][k])
  }

  /** The number of null cells (`isnull().sum()`). */
  function NullCount(cells: seq<Cell>): (n: nat)
    ensures n <= |cells|
    ensures n == 0 <==> forall i :: 0 <= i < |cells| ==> cells[i].Some?
  {
    if |cells| == 0 then 0
    else (if cells[0].None? then 1 else 0) + NullCount(cells[1..])
  }

  /** The numbers held by the non-null numeric cells, in order. */
  function NumValues(cells: seq<Cell>): (xs: seq<real>)
    ensures |xs| <= |cells|
    ensures forall i :: 0 <= i < |cells| && cells[i].Some? && cells[i].value.Num? ==> cells[i].value.x in xs
    ensures forall x :: x in xs ==> exists i :: 0 <= i < |cells| && cells[i] == Some(Num(x))
    ensures (forall i :: 0 <= i < |cells| ==> Fits(cells[i], Numeric)) ==> |xs| + NullCount(cells) == |cells|
  {
    if |cells| == 0 then []
    else
      var rest := NumValues(cells[1..]);
      assert forall x :: x in rest ==> exists i :: 1 <= i < |cells| && cells[i] == Some(Num(x)) by {
        forall x | x in rest
          ensures exists i :: 1 <= i < |cells| && cells[i] == Some(Num(x))
        {
          var j :| 0 <= j < |cells[1..]| && cells[1..][j] == Some(Num(x));
          assert cells[j + 1] == Some(Num(x));
        }
      }
      match cells[0]
      case Some(Num(x)) => [x] + rest
      case _ => rest
  }

  /** The strings held by the non-null textual cells, in order. */
  function TextValues(cells: seq<Cell>): (ss: seq<string>)
    ensures |ss| <= |cells|
    ensures forall i :: 0 <= i < |cells| && cells[i].Some? && cells[i].value.Text? ==> cells[i].value.s in ss
    ensures forall s :: s in ss ==> exists i :: 0 <= i < |cells| && cells[i] == Some(Text(s))
    ensures (forall i :: 0 <= i < |cells| ==> Fits(cells[i], Textual)) ==> |ss| + NullCount(cells) == |cells|
  {
    if |cells| == 0 then []
    else
      var rest := TextValues(cells[1..]);
      assert forall s :: s in rest ==> exists i :: 1 <= i < |cells| && cells[i] == Some(Text(s)) by {
        forall s | s in rest
          ensures exists i :: 1 <= i < |cells| && cells[i] == Some(Text(s))
        {
          var j :| 0 <= j < |cells[1..]| && cells[1..][j] == Some(Text(s));
          assert cells[j + 1] == Some(Text(s));
        }
      }
      match cells[0]
      case Some(Text(s)) => [s] + rest
      case _ => rest
  }

  /** The number of cells equal to `c`. */
  function CellCount(cells: seq<Cell>, c: Cell): nat {
    if |cells| == 0 then 0 else (if cells[0] == c then 1 else 0) + CellCount(cells[1..], c)
  }

  /** Each number occurs among the values as often as a cell holds it. */
  lemma {:induction false} NumValuesMultiplicity(cells: seq<Cell>, x: real)
    ensures multiset(NumValues(cells))[x] == CellCount(cells, Some(Num(x)))
  {
    if |cells| > 0 {
      var rest := NumValues(cells[1..]);
      NumValuesMultiplicity(cells[1..], x);
      match cells[0]
      case Some(Num(y)) =>
        assert NumValues(cells) == [y] + rest;
        assert multiset([y] + rest)[x] == (if y == x then 1 else 0) + multiset(rest)[x];
      case _ =>
        assert NumValues(cells) == rest;
    }
  }

  /** Each string occurs among the values as often as a cell holds it. */
  lemma {:induction false} TextValuesMultiplicity(cells: seq<Cell>, s: string)
    ensures multiset(TextValues(cells))[s] == CellCount(cells, Some(Text(s)))
  {
    if |cells| > 0 {
      var rest := TextValues(cells[1..]);
      TextValuesMultiplicity(cells[1..], s);
      match cells[0]
      case Some(Text(y)) =>
        assert TextValues(cells) == [y] + rest;
        assert multiset([y] + rest)[s] == (if y == s then 1 else 0) + multiset(rest)[s];
      case _ =>
        assert TextValues(cells) == rest;
    }
  }

  /** A column of numbers only yields exactly those numbers, in order. */
  lemma {:induction false} NumValuesOfNumbers(cells: seq<Cell>, xs: seq<real>)
    requires |cells| == |xs|
    requires forall i :: 0 <= i < |cells| ==> cells[i] == Some(Num(xs[i]))
    ensures NumValues(cells) == xs
  {
    if |cells| > 0 {
      NumValuesOfNumbers(cells[1..], xs[1..]);
      assert xs == [xs[0]] + xs[1..];
    }
  }

  /** A column of strings only yields exactly those strings, in order. */
  lemma {:induction false} TextValuesOfTexts(cells: seq<Cell>, ss: seq<string>)
    requires |cells| == |ss|
    requires forall i :: 0 <= i < |cells| ==> cells[i] == Some(Text(ss[i]))
    ensures TextValues(cells) == ss
  {
    if |cells| > 0 {
      TextValuesOfTexts(cells[1..], ss[1..]);
      assert ss == [ss[0]] + ss[1..];
    }
  }

  /** A trailing null adds nothing to the strings of a column. */
  lemma {:induction false} TextValuesNullLast(cells: seq<Cell>)
    ensures TextValues(cells + [None]) == TextValues(cells)
  {
    if |cells| > 0 {
      TextValuesNullLast(cells[1..]);
      assert (cells + [None])[1..] == cells[1..] + [None];
    } else {
      var one: seq<Cell> := [None];
      assert one[1..] == [];
    }
  }

  /** No cell of the table is null. */
  predicate NoNulls(t: Table) {
    forall i, k :: 0 <= i < |t.rows| && 0 <= k < |t.rows[i]| ==> t.rows[i][k].Some?
  }

  /**
   * `fillna(v)` on column `k`: every null of that column becomes `v`; every
   * other cell of the table, and the row order, stay as they were.
   */
  function FillNulls(t: Table, k: nat, v: Value): (r: Table)
    requires WellFormed(t) && k < |t.columns| && Fits(Some(v), t.columns[k].kind)
    ensures WellFormed(r) && r.columns == t.columns && |r.rows| == |t.rows|
    ensures NullCount(ColumnCells(r, k)) == 0
    ensures forall i, c :: 0 <= i < |t.rows| && 0 <= c < |t.columns| ==>
              r.rows[i][c] == (if c == k && t.rows[i][c].None? then Some(v) else t.rows[i][c])
  {
    var rows := seq(|t.rows|, i requires 0 <= i < |t.rows| =>
      t.rows[i][k := if t.rows[i][k].None? then Some(v) else t.rows[i][k]]);
    var r := Table(t.columns, rows);
    assert forall i :: 0 <= i < |rows| ==> ColumnCells(r, k)[i].Some?;
    r
  }

  /** One mask entry per row: whether its cell in column `k` is non-null. */
  function NonNullMask(t: Table, k: nat): (keep: seq<bool>)
    requires WellFormed(t) && k < |t.columns|
    ensures |keep| == |t.rows|
    ensures forall i :: 0 <= i < |t.rows| ==> (keep[i] <==> t.rows[i][k].Some?)
  {
    seq(|t.rows|, i requires 0 <= i < |t.rows| => t.rows[i][k].Some?)
  }
}
