/** The tabular data both core files work on: a pandas DataFrame seen as a
    header of typed columns, a row index (the labels `iterrows` yields and
    `drop_duplicates` keeps) and a grid of cells, one per column. */
module Frames {

  /** One cell. `Missing` stands for every value `pd.notna` rejects (NaN, None). */
  datatype Cell = Missing | Num(x: real) | Text(s: string)

  /** How `select_dtypes` classifies a column: `np.number`, `'object'`, or neither. */
  datatype Kind = Numeric | Textual | Other

  datatype Column = Column(name: string, kind: Kind)

  type Row = seq<Cell>

  datatype Table = Table(columns: seq<Column>, index: seq<int>, rows: seq<Row>)

  /** The shape every DataFrame has: one index label per row, one cell per column. */
  predicate WellFormed(t: Table) {
    && |t.index| == |t.rows|
    && forall i :: 0 <= i < |t.rows| ==> |t.rows[i]| == |t.columns|
  }

  /** A cell that its column's dtype can hold: no text in a numeric column,
      no number in an object column of strings. */
  predicate Fits(k: Kind, c: Cell) {
    match k
    case Numeric => !c.Text?
    case Textual => !c.Num?
    case Other => true
  }

  predicate WellTyped(t: Table) {
    forall i, j :: 0 <= i < |t.rows| && 0 <= j < |t.columns| ==> Fits(t.columns[j].kind, CellAt(t.rows, i, j))
  }

  /** The cell in column `j` of `row`; `Missing` outside the row. */
  function CellOf(row: Row, j: int): Cell {
    if 0 <= j < |row| then row[j] else Missing
  }

  function CellAt(rows: seq<Row>, i: int, j: int): Cell {
    if 0 <= i < |rows| then CellOf(rows[i], j) else Missing
  }

  /** Column `j` of a grid, top to bottom (`df[col]`). */
  function ColumnOf(rows: seq<Row>, j: int): seq<Cell> {
    seq(|rows|, i requires 0 <= i < |rows| => CellOf(rows[i], j))
  }

  /** The numbers of a column, in order, missing cells skipped. */
  function NumbersIn(col: seq<Cell>): (r: seq<real>)
    ensures |r| <= |col|
    ensures forall x :: x in r <==> Num(x) in col
  {
    if col == [] then []
    else (if col[0].Num? then [col[0].x] else []) + NumbersIn(col[1..])
  }

  /** The strings of a column, in order, missing cells skipped. */
  function TextsIn(col: seq<Cell>): (r: seq<string>)
    ensures |r| <= |col|
    ensures forall s :: s in r <==> Text(s) in col
  {
    if col == [] then []
    else (if col[0].Text? then [col[0].s] else []) + TextsIn(col[1..])
  }

  lemma {:induction false} NoNumbers(col: seq<Cell>)
    ensures NumbersIn(col) == [] <==> forall i :: 0 <= i < |col| ==> !col[i].Num?
  {
    if col != [] {
      NoNumbers(col[1..]);
      assert forall i :: 1 <= i < |col| ==> col[i] == col[1..][i - 1];
    }
  }

  lemma {:induction false} NoTexts(col: seq<Cell>)
    ensures TextsIn(col) == [] <==> forall i :: 0 <= i < |col| ==> !col[i].Text?
  {
    if col != [] {
      NoTexts(col[1..]);
      assert forall i :: 1 <= i < |col| ==> col[i] == col[1..][i - 1];
    }
  }

  /** Whether a column holds a cell depends only on which rows occur, not on
      their order or multiplicity. */
  lemma ColumnOfRows(rows: seq<Row>, j: int, c: Cell)
    ensures c in ColumnOf(rows, j) <==> exists r :: r in rows && CellOf(r, j) == c
  {
    var col := ColumnOf(rows, j);
    if c in col {
      var i :| 0 <= i < |col| && col[i] == c;
      assert rows[i] in rows && CellOf(rows[i], j) == c;
    }
    if r :| r in rows && CellOf(r, j) == c {
      var i :| 0 <= i < |rows| && rows[i] == r;
      assert col[i] == c;
    }
  }
}
