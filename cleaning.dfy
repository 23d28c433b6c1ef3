/** `clean_data`: copy the table, drop duplicate rows, then fill the missing
    cells of every numeric column with that column's median and of every
    object column with that column's first mode, both computed on the
    deduplicated table. */
module Cleaning {
  import opened Results
  import opened Frames
  import opened Dedup
  import Median
  import Mode

  /** `mode()[0]` on an object column without a single string: the mode
      series is empty and the lookup of label 0 raises. */
  datatype CleanError = NoModeValue

  /** `select_dtypes(...).columns`: the positions of the columns of kind `k`, in order. */
  function SelectKind(cols: seq<Column>, k: Kind): (ps: seq<nat>)
    ensures forall q :: 0 <= q < |ps| ==> ps[q] < |cols| && cols[ps[q]].kind == k
    ensures forall j :: 0 <= j < |cols| && cols[j].kind == k ==> j in ps
    ensures forall a, b :: 0 <= a < b < |ps| ==> ps[a] < ps[b]
  {
    Where(|cols|, (j: nat) => j < |cols| && cols[j].kind == k)
  }

  /** `DataFrame.empty`: the frame has no columns or no rows. */
  predicate Empty(t: Table) {
    t.columns == [] || t.rows == []
  }

  /** `drop_duplicates()` on a table. pandas returns an empty frame as it is,
      so a frame without columns keeps all its rows (which would otherwise
      all compare equal); any other frame keeps the rows, and their index
      labels, at the positions of first occurrences. */
  function DedupTable(t: Table): (d: Table)
    requires WellFormed(t)
    ensures WellFormed(d) && d.columns == t.columns
    ensures Empty(t) ==> d == t
    ensures !Empty(t) ==> d.rows == DropDuplicates(t.rows)
  {
    if Empty(t) then t
    else
      var keep := Survivors(t.rows);
      Table(t.columns, Pick(t.index, keep), Pick(t.rows, keep))
  }

  /** The value handed to `fillna` for column `j` of kind `k`: the median of
      a numeric column, the first mode of an object column. `Missing` stands
      for NaN (the median of no numbers) and for columns that are not filled;
      filling with it changes nothing. */
  function FillValue(rows: seq<Row>, k: Kind, j: int): Cell {
    match k
    case Numeric => MedianFill(ColumnOf(rows, j))
    case Textual => ModeFill(ColumnOf(rows, j))
    case Other => Missing
  }

  /** `col.median()`, NaN when the column holds no number. A median splits
      the column's numbers in halves. */
  function MedianFill(col: seq<Cell>): (v: Cell)
    ensures !v.Text?
    ensures v.Missing? <==> forall c :: c in col ==> !c.Num?
    ensures v.Num? ==> var xs := NumbersIn(col);
              2 * Median.CountAtMost(xs, v.x) >= |xs| && 2 * Median.CountAtLeast(xs, v.x) >= |xs|
  {
    var xs := NumbersIn(col);
    NoNumbers(col);
    match Median.Median(xs)
    case Some(m) => Median.MedianSplits(xs); Num(m)
    case None => Missing
  }

  /** `col.mode()[0]`; `Missing` when there is no mode (then `clean_data`
      raises). A mode is a string of the column with maximal count, the least
      in string order among ties. */
  function ModeFill(col: seq<Cell>): (v: Cell)
    ensures !v.Num?
    ensures v.Missing? <==> forall c :: c in col ==> !c.Text?
    ensures v.Text? ==> var xs := TextsIn(col);
              && v in col
              && (forall s :: s in xs ==> Mode.Count(xs, s) <= Mode.Count(xs, v.s))
              && (forall s :: s in xs && Mode.Count(xs, s) == Mode.Count(xs, v.s) ==> Mode.LexLeq(v.s, s))
  {
    NoTexts(col);
    match Mode.Mode(TextsIn(col))
    case Some(s) => Text(s)
    case None => Missing
  }

  /** `fillna(v)` on one cell. */
  function Filled(c: Cell, v: Cell): Cell {
    if c.Missing? then v else c
  }

  /** `df[col] = df[col].fillna(v)` for the column at position `j`. */
  function FillColumn(rows: seq<Row>, j: nat, v: Cell): (r: seq<Row>)
    ensures |r| == |rows|
    ensures forall i :: 0 <= i < |rows| ==> |r[i]| == |rows[i]|
    ensures forall i, c :: 0 <= i < |rows| && 0 <= c < |rows[i]| ==>
              r[i][c] == if c == j then Filled(rows[i][c], v) else rows[i][c]
  {
    seq(|rows|, i requires 0 <= i < |rows| =>
      if j < |rows[i]| then rows[i][j := Filled(rows[i][j], v)] else rows[i])
  }

  /** Every cell of the deduplicated rows `d` after both fill loops. */
  function CleanRows(d: seq<Row>, cols: seq<Column>): seq<Row> {
    seq(|d|, i requires 0 <= i < |d| =>
      seq(|cols|, c requires 0 <= c < |cols| => Filled(CellAt(d, i, c), FillValue(d, cols[c].kind, c))))
  }

  /** Rows without columns have nothing to fill. */
  lemma CleanRowsNoColumns(d: seq<Row>, cols: seq<Column>)
    requires forall i :: 0 <= i < |d| ==> |d[i]| == |cols|
    ensures cols == [] ==> CleanRows(d, cols) == d
  {
    if cols == [] {
      forall i | 0 <= i < |d|
        ensures CleanRows(d, cols)[i] == d[i]
      {
        assert d[i] == [];
      }
    }
  }

  /** Some object column of `rows` before position `n` holds no string at all. */
  predicate ModelessBefore(rows: seq<Row>, cols: seq<Column>, n: int) {
    exists j :: 0 <= j < n && j < |cols| && cols[j].kind == Textual && TextsIn(ColumnOf(rows, j)) == []
  }

  /** Some object column of `rows` holds no string at all. */
  predicate HasModelessText(rows: seq<Row>, cols: seq<Column>) {
    ModelessBefore(rows, cols, |cols|)
  }

  /** What `clean_data` returns, or the error it raises. */
  function Clean(t: Table): (r: Result<Table, CleanError>)
    requires WellFormed(t)
    ensures r.Success? ==> WellFormed(r.value) && r.value.columns == t.columns
    ensures r.Failure? ==> exists j :: 0 <= j < |t.columns| && t.columns[j].kind == Textual
    ensures t.columns == [] ==> r == Success(t)
  {
    var d := DedupTable(t);
    CleanRowsNoColumns(d.rows, t.columns);
    if HasModelessText(d.rows, t.columns) then Failure(NoModeValue)
    else Success(Table(t.columns, d.index, CleanRows(d.rows, t.columns)))
  }

  /** Column `c` has been filled once the numeric loop has passed below
      `numDone` and the object loop below `textDone`. */
  predicate Done(cols: seq<Column>, c: int, numDone: int, textDone: int)
    requires 0 <= c < |cols|
  {
    (cols[c].kind == Numeric && c < numDone) || (cols[c].kind == Textual && c < textDone)
  }

  /** The deduplicated rows `d` with the columns already done filled. */
  function FilledUpTo(d: seq<Row>, cols: seq<Column>, numDone: int, textDone: int): seq<Row> {
    seq(|d|, i requires 0 <= i < |d| =>
      seq(|cols|, c requires 0 <= c < |cols| =>
        if Done(cols, c, numDone, textDone) then Filled(CellAt(d, i, c), FillValue(d, cols[c].kind, c))
        else CellAt(d, i, c)))
  }

  /** Before either loop the working rows are the deduplicated rows. */
  lemma NothingFilled(d: seq<Row>, cols: seq<Column>)
    requires forall i :: 0 <= i < |d| ==> |d[i]| == |cols|
    ensures FilledUpTo(d, cols, 0, 0) == d
  {
    forall i | 0 <= i < |d|
      ensures FilledUpTo(d, cols, 0, 0)[i] == d[i]
    {
    }
  }

  /** A column not filled yet is still the deduplicated column. */
  lemma UnfilledColumn(d: seq<Row>, cols: seq<Column>, nd: int, td: int, j: int)
    requires 0 <= j < |cols| && !Done(cols, j, nd, td)
    ensures ColumnOf(FilledUpTo(d, cols, nd, td), j) == ColumnOf(d, j)
  {
  }

  /** Filling column `j`, the one column that becomes done, with its own fill value. */
  lemma FillStep(d: seq<Row>, cols: seq<Column>, nd: int, td: int, nd': int, td': int, j: int)
    requires 0 <= j < |cols| && !Done(cols, j, nd, td)
    requires forall c :: 0 <= c < |cols| ==> (Done(cols, c, nd', td') <==> Done(cols, c, nd, td) || c == j)
    ensures FillColumn(FilledUpTo(d, cols, nd, td), j, FillValue(d, cols[j].kind, j)) == FilledUpTo(d, cols, nd', td')
  {
    var before, after := FilledUpTo(d, cols, nd, td), FilledUpTo(d, cols, nd', td');
    var filled := FillColumn(before, j, FillValue(d, cols[j].kind, j));
    forall i | 0 <= i < |d|
      ensures filled[i] == after[i]
    {
    }
  }

  /** Passing a column of another kind fills nothing. */
  lemma SkipStep(d: seq<Row>, cols: seq<Column>, nd: int, td: int, nd': int, td': int)
    requires forall c :: 0 <= c < |cols| ==> (Done(cols, c, nd', td') <==> Done(cols, c, nd, td))
    ensures FilledUpTo(d, cols, nd, td) == FilledUpTo(d, cols, nd', td')
  {
    var before, after := FilledUpTo(d, cols, nd, td), FilledUpTo(d, cols, nd', td');
    forall i | 0 <= i < |d|
      ensures before[i] == after[i]
    {
    }
  }

  /** The numeric loop passing a column that is not numeric. */
  lemma NumericSkip(d: seq<Row>, cols: seq<Column>, j: int)
    requires 0 <= j < |cols| && cols[j].kind != Numeric
    ensures FilledUpTo(d, cols, j, 0) == FilledUpTo(d, cols, j + 1, 0)
  {
    SkipStep(d, cols, j, 0, j + 1, 0);
  }

  /** The object loop passing a column that is not of object kind. */
  lemma TextSkip(d: seq<Row>, cols: seq<Column>, j: int)
    requires 0 <= j < |cols| && cols[j].kind != Textual
    ensures FilledUpTo(d, cols, |cols|, j) == FilledUpTo(d, cols, |cols|, j + 1)
    ensures ModelessBefore(d, cols, j + 1) <==> ModelessBefore(d, cols, j)
  {
    SkipStep(d, cols, |cols|, j, |cols|, j + 1);
    ModelessStep(d, cols, j);
  }

  /** One pass of the numeric loop: `fillna(median)` on numeric column `j`. */
  lemma NumericStep(d: seq<Row>, cols: seq<Column>, j: int)
    requires 0 <= j < |cols| && cols[j].kind == Numeric
    ensures var rows := FilledUpTo(d, cols, j, 0);
            FillColumn(rows, j, MedianFill(ColumnOf(rows, j))) == FilledUpTo(d, cols, j + 1, 0)
  {
    UnfilledColumn(d, cols, j, 0, j);
    FillStep(d, cols, j, 0, j + 1, 0, j);
  }

  /** One pass of the object loop: `fillna(mode()[0])` on object column `j`,
      which raises when the column has no string. */
  lemma TextStep(d: seq<Row>, cols: seq<Column>, j: int)
    requires 0 <= j < |cols| && cols[j].kind == Textual
    ensures var rows := FilledUpTo(d, cols, |cols|, j);
            var fill := ModeFill(ColumnOf(rows, j));
            && (fill.Missing? <==> TextsIn(ColumnOf(d, j)) == [])
            && (fill.Missing? ==> HasModelessText(d, cols))
            && (!fill.Missing? ==> FillColumn(rows, j, fill) == FilledUpTo(d, cols, |cols|, j + 1))
            && (!fill.Missing? ==> (ModelessBefore(d, cols, j + 1) <==> ModelessBefore(d, cols, j)))
  {
    UnfilledColumn(d, cols, |cols|, j, j);
    FillStep(d, cols, |cols|, j, |cols|, j + 1, j);
    ModelessStep(d, cols, j);
  }

  lemma ModelessStep(d: seq<Row>, cols: seq<Column>, j: int)
    requires 0 <= j < |cols|
    ensures ModelessBefore(d, cols, j + 1) <==>
              ModelessBefore(d, cols, j) || (cols[j].kind == Textual && TextsIn(ColumnOf(d, j)) == [])
  {
  }

  /** Once both loops are through, the rows are `CleanRows`. */
  lemma FilledAll(d: seq<Row>, cols: seq<Column>)
    ensures FilledUpTo(d, cols, |cols|, |cols|) == CleanRows(d, cols)
  {
    var rows := FilledUpTo(d, cols, |cols|, |cols|);
    forall i | 0 <= i < |rows|
      ensures rows[i] == CleanRows(d, cols)[i]
    {
      forall c | 0 <= c < |cols|
        ensures rows[i][c] == CleanRows(d, cols)[i][c]
      {
        if cols[c].kind == Other {
          assert FillValue(d, cols[c].kind, c) == Missing;
        }
      }
    }
  }

  /** How `Clean` ends, given the deduplicated rows `d`. */
  lemma CleanOutcome(df: Table, d: seq<Row>, rows: seq<Row>)
    requires WellFormed(df) && d == DedupTable(df).rows
    ensures HasModelessText(d, df.columns) ==> Clean(df) == Failure(NoModeValue)
    ensures !HasModelessText(d, df.columns) && rows == CleanRows(d, df.columns) ==>
              Clean(df) == Success(Table(df.columns, DedupTable(df).index, rows))
  {
  }

  /** The loop of data_cleaning.py:23-25: each numeric column, in column
      order, has its missing cells replaced by the median of its numbers. */
  method FillNumericColumns(d: seq<Row>, columns: seq<Column>) returns (rows: seq<Row>)
    requires forall i :: 0 <= i < |d| ==> |d[i]| == |columns|
    ensures rows == FilledUpTo(d, columns, |columns|, 0)
  {
    rows := d;
    NothingFilled(d, columns);
    for j := 0 to |columns|
      invariant rows == FilledUpTo(d, columns, j, 0)
    {
      if columns[j].kind == Numeric {
        var fill := MedianFill(ColumnOf(rows, j));
        NumericStep(d, columns, j);
        rows := FillColumn(rows, j, fill);
      } else {
        NumericSkip(d, columns, j);
      }
    }
  }

  /** The loop of data_cleaning.py:28-30: each object column, in column
      order, has its missing cells replaced by its mode; a column without a
      string stops the loop with the failure of `mode()[0]`. */
  method FillTextColumns(ghost d: seq<Row>, columns: seq<Column>, numeric: seq<Row>) returns (res: Result<seq<Row>, CleanError>)
    requires numeric == FilledUpTo(d, columns, |columns|, 0)
    ensures HasModelessText(d, columns) ==> res == Failure(NoModeValue)
    ensures !HasModelessText(d, columns) ==> res == Success(CleanRows(d, columns))
  {
    var rows := numeric;
    for j := 0 to |columns|
      invariant rows == FilledUpTo(d, columns, |columns|, j)
      invariant !ModelessBefore(d, columns, j)
    {
      var step := FillTextColumn(d, columns, j, rows);
      if step.Failure? {
        return Failure(NoModeValue);
      }
      rows := step.value;
    }
    FilledAll(d, columns);
    return Success(rows);
  }

  /** One pass of the object loop, data_cleaning.py:30: column `j`, when it
      is of object kind, has its missing cells replaced by `mode()[0]`, which
      raises when the column holds no string. */
  method FillTextColumn(ghost d: seq<Row>, columns: seq<Column>, j: int, rows: seq<Row>) returns (res: Result<seq<Row>, CleanError>)
    requires 0 <= j < |columns| && rows == FilledUpTo(d, columns, |columns|, j)
    ensures res.Failure? <==> columns[j].kind == Textual && TextsIn(ColumnOf(d, j)) == []
    ensures res.Failure? ==> HasModelessText(d, columns)
    ensures res.Success? ==> res.value == FilledUpTo(d, columns, |columns|, j + 1)
    ensures res.Success? ==> (ModelessBefore(d, columns, j + 1) <==> ModelessBefore(d, columns, j))
  {
    if columns[j].kind == Textual {
      var fill := ModeFill(ColumnOf(rows, j));
      TextStep(d, columns, j);
      if fill.Missing? {
        return Failure(NoModeValue);
      }
      return Success(FillColumn(rows, j, fill));
    } else {
      TextSkip(d, columns, j);
      return Success(rows);
    }
  }

  /** `clean_data(df)`. The caller's table is a value, so the working copy
      `rows` is the copy `df.copy()` makes; `drop_duplicates` replaces it, and
      the two loops overwrite it one column at a time. Each loop visits every
      column position in order and acts on the columns of its kind, which are
      the columns `select_dtypes` selects, in the same order (`SelectKind`). */
  method CleanData(df: Table) returns (res: Result<Table, CleanError>)
    requires WellFormed(df)
    ensures res == Clean(df)
  {
    var columns := df.columns;
    var index, rows := df.index, df.rows;
    // `drop_duplicates` returns an empty frame unchanged.
    if columns != [] && rows != [] {
      var keep := Survivors(rows);
      index, rows := Pick(index, keep), Pick(rows, keep);
    }
    assert DedupTable(df) == Table(columns, index, rows);
    ghost var d := rows;
    rows := FillNumericColumns(rows, columns);
    var filled := FillTextColumns(d, columns, rows);
    CleanOutcome(df, d, CleanRows(d, columns));
    if filled.Failure? {
      return Failure(filled.error);
    }
    return Success(Table(columns, index, filled.value));
  }

  /* ---------------------------------------------------------------------
     What cleaning promises, stated on `Clean`.
     --------------------------------------------------------------------- */

  /** Dropping duplicates keeps every value of every column. */
  lemma DedupKeepsColumnValues(rows: seq<Row>, j: int, c: Cell)
    ensures c in ColumnOf(DropDuplicates(rows), j) <==> c in ColumnOf(rows, j)
  {
    DropDuplicatesSameValues(rows);
    ColumnOfRows(rows, j, c);
    ColumnOfRows(DropDuplicates(rows), j, c);
  }

  /** In a well-typed table, an object column holds no string exactly when
      every cell of it is missing. */
  lemma NoTextMeansAllMissing(t: Table, j: int)
    requires WellFormed(t) && WellTyped(t) && 0 <= j < |t.columns| && t.columns[j].kind == Textual
    ensures TextsIn(ColumnOf(t.rows, j)) == [] <==> forall i :: 0 <= i < |t.rows| ==> t.rows[i][j] == Missing
  {
    var col := ColumnOf(t.rows, j);
    NoTexts(col);
    forall i | 0 <= i < |t.rows|
      ensures col[i] == t.rows[i][j] && Fits(Textual, t.rows[i][j])
    {
      assert CellAt(t.rows, i, j) == t.rows[i][j];
    }
  }

  /** The table keeps its columns, in order. A table with columns keeps one
      row per distinct input row, with the index label of its first
      occurrence, and filling never changes a cell that was present. */
  lemma CleanShape(t: Table)
    requires WellFormed(t) && Clean(t).Success?
    ensures var r := Clean(t).value; var keep := Survivors(t.rows);
            && WellFormed(r)
            && r.columns == t.columns
            && (t.columns != [] ==>
                  && |r.rows| == |set row | row in t.rows|
                  && r.index == Pick(t.index, keep)
                  && forall k, c :: 0 <= k < |r.rows| && 0 <= c < |t.columns| && t.rows[keep[k]][c] != Missing ==>
                       r.rows[k][c] == t.rows[keep[k]][c])
  {
    if t.columns != [] {
      DropDuplicatesCount(t.rows);
      var r := Clean(t).value;
      var keep := Survivors(t.rows);
      var d := DedupTable(t).rows;
      assert d == Pick(t.rows, keep) && r.index == Pick(t.index, keep);
      forall k, c | 0 <= k < |r.rows| && 0 <= c < |t.columns| && t.rows[keep[k]][c] != Missing
        ensures r.rows[k][c] == t.rows[keep[k]][c]
      {
        assert d[k] == t.rows[keep[k]];
        assert CellAt(d, k, c) == d[k][c];
      }
    }
  }

  /** `clean_data` raises exactly when some object column is entirely
      missing (for a table without rows: when it has an object column). */
  lemma CleanFailsIff(t: Table)
    requires WellFormed(t) && WellTyped(t)
    ensures Clean(t).Failure? <==>
              exists j :: 0 <= j < |t.columns| && t.columns[j].kind == Textual &&
                forall i :: 0 <= i < |t.rows| ==> t.rows[i][j] == Missing
  {
    var d := DedupTable(t).rows;
    forall j | 0 <= j < |t.columns| && t.columns[j].kind == Textual
      ensures TextsIn(ColumnOf(d, j)) == [] <==> forall i :: 0 <= i < |t.rows| ==> t.rows[i][j] == Missing
    {
      NoTextMeansAllMissing(t, j);
      if TextsIn(ColumnOf(d, j)) != [] {
        var s := TextsIn(ColumnOf(d, j))[0];
        DedupKeepsColumnValues(t.rows, j, Text(s));
      }
      if TextsIn(ColumnOf(t.rows, j)) != [] {
        var s := TextsIn(ColumnOf(t.rows, j))[0];
        DedupKeepsColumnValues(t.rows, j, Text(s));
      }
    }
  }

  /** In a numeric column a present cell stays, and a missing cell becomes
      the median of the column's numbers after deduplication: at least half
      of those numbers lie at or below it and at least half at or above it.
      Without numbers the cell stays missing. */
  lemma CleanNumericColumn(t: Table, j: int, k: int)
    requires WellFormed(t) && Clean(t).Success?
    requires 0 <= j < |t.columns| && t.columns[j].kind == Numeric
    requires 0 <= k < |DedupTable(t).rows|
    ensures var d := DedupTable(t).rows; var r := Clean(t).value.rows;
            var numbers := NumbersIn(ColumnOf(d, j));
            && (d[k][j] != Missing ==> r[k][j] == d[k][j])
            && (d[k][j] == Missing && numbers == [] ==> r[k][j] == Missing)
            && (d[k][j] == Missing && numbers != [] ==>
                  && r[k][j] == Num(Median.Median(numbers).value)
                  && 2 * Median.CountAtMost(numbers, r[k][j].x) >= |numbers|
                  && 2 * Median.CountAtLeast(numbers, r[k][j].x) >= |numbers|)
  {
    var d := DedupTable(t).rows;
    var numbers := NumbersIn(ColumnOf(d, j));
    assert CellAt(d, k, j) == d[k][j];
    if numbers != [] {
      Median.MedianSplits(numbers);
    }
  }

  /** In an object column a present cell stays, and a missing cell becomes a
      most frequent string of the column after deduplication, the least such
      string in string order when several tie. */
  lemma CleanTextColumn(t: Table, j: int, k: int)
    requires WellFormed(t) && Clean(t).Success?
    requires 0 <= j < |t.columns| && t.columns[j].kind == Textual
    requires 0 <= k < |DedupTable(t).rows|
    ensures var d := DedupTable(t).rows; var r := Clean(t).value.rows;
            var texts := TextsIn(ColumnOf(d, j));
            && (d[k][j] != Missing ==> r[k][j] == d[k][j])
            && (d[k][j] == Missing ==>
                  && r[k][j].Text?
                  && r[k][j].s in texts
                  && (forall v :: v in texts ==> Mode.Count(texts, v) <= Mode.Count(texts, r[k][j].s))
                  && (forall v :: v in texts && Mode.Count(texts, v) == Mode.Count(texts, r[k][j].s) ==>
                        Mode.LexLeq(r[k][j].s, v)))
  {
  }

  /** A numeric column without a single number stays entirely missing: its
      median is NaN and filling with NaN changes nothing. */
  lemma CleanNumericAllMissing(t: Table, j: int)
    requires WellFormed(t) && Clean(t).Success?
    requires 0 <= j < |t.columns| && t.columns[j].kind == Numeric
    requires forall i :: 0 <= i < |t.rows| ==> t.rows[i][j] == Missing
    ensures forall k :: 0 <= k < |Clean(t).value.rows| ==> Clean(t).value.rows[k][j] == Missing
  {
    var d := DedupTable(t).rows;
    var keep := Survivors(t.rows);
    var col := ColumnOf(d, j);
    forall k | 0 <= k < |col|
      ensures col[k] == Missing
    {
      assert d[k] == t.rows[keep[k]];
    }
    NoNumbers(col);
    forall k | 0 <= k < |Clean(t).value.rows|
      ensures Clean(t).value.rows[k][j] == Missing
    {
      CleanNumericColumn(t, j, k);
    }
  }

  /** A column that is neither numeric nor of strings comes back as it was
      after deduplication, missing cells included. */
  lemma CleanOtherUntouched(t: Table, j: int)
    requires WellFormed(t) && Clean(t).Success?
    requires 0 <= j < |t.columns| && t.columns[j].kind == Other
    ensures ColumnOf(Clean(t).value.rows, j) == ColumnOf(DedupTable(t).rows, j)
  {
  }

  /** A numeric column with at least one number, and every object column,
      has no missing cell left. */
  lemma CleanNoMissing(t: Table, j: int)
    requires WellFormed(t) && Clean(t).Success?
    requires 0 <= j < |t.columns|
    requires t.columns[j].kind == Textual || (t.columns[j].kind == Numeric && NumbersIn(ColumnOf(t.rows, j)) != [])
    ensures forall k :: 0 <= k < |Clean(t).value.rows| ==> Clean(t).value.rows[k][j] != Missing
  {
    var d := DedupTable(t).rows;
    if t.columns[j].kind == Numeric {
      var x := NumbersIn(ColumnOf(t.rows, j))[0];
      DedupKeepsColumnValues(t.rows, j, Num(x));
      assert x in NumbersIn(ColumnOf(d, j));
    }
    forall k | 0 <= k < |Clean(t).value.rows|
      ensures Clean(t).value.rows[k][j] != Missing
    {
      if t.columns[j].kind == Numeric {
        CleanNumericColumn(t, j, k);
      } else {
        CleanTextColumn(t, j, k);
      }
    }
  }
}
