/** Concrete tables that show two behaviours of `clean_data`: the worked
    example of a duplicated row beside a missing price, and a table whose
    cleaned form still holds duplicate rows. */
module CleaningScenarios {
  import opened Results
  import opened Frames
  import opened Dedup
  import opened Cleaning
  import Median

  /** The median of one value is that value. */
  lemma MedianOfOne(x: real)
    ensures Median.Median([x]) == Some(x)
  {
  }

  /** A column holding a string has a mode, so it is filled. */
  lemma TextColumnHasMode(rows: seq<Row>, j: int, i: int)
    requires 0 <= i < |rows| && CellAt(rows, i, j).Text?
    ensures TextsIn(ColumnOf(rows, j)) != []
  {
    assert ColumnOf(rows, j)[i] == CellAt(rows, i, j);
    assert CellAt(rows, i, j).s in TextsIn(ColumnOf(rows, j));
  }

  /** A row with no missing cell comes out of the fill unchanged. */
  lemma RowKept(d: seq<Row>, cols: seq<Column>, i: int)
    requires 0 <= i < |d| && |d[i]| == |cols|
    requires forall c :: 0 <= c < |cols| ==> !d[i][c].Missing?
    ensures CleanRows(d, cols)[i] == d[i]
  {
  }

  /** A row whose one missing cell is at `c` gets that column's fill there. */
  lemma RowFilled(d: seq<Row>, cols: seq<Column>, i: int, c: int, v: Cell)
    requires 0 <= i < |d| && |d[i]| == |cols| && 0 <= c < |cols| && d[i][c].Missing?
    requires forall k :: 0 <= k < |cols| && k != c ==> !d[i][k].Missing?
    requires FillValue(d, cols[c].kind, c) == v
    ensures CleanRows(d, cols)[i] == d[i][c := v]
  {
  }

  const StoreColumns := [Column("Store", Textual), Column("Item", Textual), Column("Price", Numeric)]
  const CodRow := [Text("A"), Text("Cod"), Num(10.0)]
  const TunaRow := [Text("B"), Text("Tuna"), Missing]

  /** Store "A" twice with the same item and price, then store "B" with no price. */
  function StoreTable(): Table {
    Table(StoreColumns, [0, 1, 2], [CodRow, CodRow, TunaRow])
  }

  lemma StoreTableDeduplicated()
    ensures DedupTable(StoreTable()) == Table(StoreColumns, [0, 2], [CodRow, TunaRow])
  {
    var t := StoreTable();
    assert t.rows[..1] == [t.rows[0]];
    assert t.rows[..2] == [t.rows[0], t.rows[1]];
    forall i
      ensures i in [0, 2] <==> IsFirst(t.rows, i)
    {
    }
    SurvivorsUnique(t.rows, [0, 2]);
  }

  lemma StorePriceFill()
    ensures FillValue([CodRow, TunaRow], Numeric, 2) == Num(10.0)
  {
    var col := ColumnOf([CodRow, TunaRow], 2);
    assert col == [Num(10.0), Missing];
    assert NumbersIn(col) == [10.0];
    MedianOfOne(10.0);
  }

  lemma StoreHasModes()
    ensures !HasModelessText([CodRow, TunaRow], StoreColumns)
  {
  }

  lemma StoreRowsFilled()
    ensures CleanRows([CodRow, TunaRow], StoreColumns) == [CodRow, [Text("B"), Text("Tuna"), Num(10.0)]]
  {
    var d := [CodRow, TunaRow];
    StorePriceFill();
    RowKept(d, StoreColumns, 0);
    RowFilled(d, StoreColumns, 1, 2, Num(10.0));
    var cleaned := CleanRows(d, StoreColumns);
    assert cleaned == [cleaned[0], cleaned[1]];
    assert TunaRow[2 := Num(10.0)] == [Text("B"), Text("Tuna"), Num(10.0)];
  }

  /** The duplicate row goes (the labels 0 and 2 remain) and the missing
      price becomes 10, the median of the one remaining price. */
  lemma StoreTableCleaned()
    ensures Clean(StoreTable()) == Success(Table(StoreColumns, [0, 2],
              [CodRow, [Text("B"), Text("Tuna"), Num(10.0)]]))
  {
    StoreTableDeduplicated();
    StoreHasModes();
    StoreRowsFilled();
  }

  const PriceColumns := [Column("Price", Numeric)]

  /** Price 1 twice, price 5, then a missing price. */
  function RepeatedPrice(): Table {
    Table(PriceColumns, [0, 1, 2, 3], [[Num(1.0)], [Num(1.0)], [Num(5.0)], [Missing]])
  }

  lemma RepeatedPriceDeduplicated()
    ensures DedupTable(RepeatedPrice()) == Table(PriceColumns, [0, 2, 3], [[Num(1.0)], [Num(5.0)], [Missing]])
  {
    var t := RepeatedPrice();
    forall i
      ensures i in [0, 2, 3] <==> IsFirst(t.rows, i)
    {
      if i == 1 {
        assert t.rows[0] in t.rows[..1];
      } else if i == 2 {
        assert t.rows[..2] == [[Num(1.0)], [Num(1.0)]];
      } else if i == 3 {
        assert t.rows[..3] == [[Num(1.0)], [Num(1.0)], [Num(5.0)]];
      }
    }
    SurvivorsUnique(t.rows, [0, 2, 3]);
  }

  /** The median of sorted numbers is their middle. */
  lemma SortedMedian(xs: seq<real>)
    requires Median.Sorted(xs) && xs != []
    ensures Median.Median(xs) == Some(Median.Middle(xs))
  {
    Median.SortedUnique(Median.Sort(xs), xs);
  }

  lemma NumbersOfTwo(x: real, y: real)
    ensures NumbersIn([Num(x), Num(y), Missing]) == [x, y]
  {
    assert [Num(x), Num(y), Missing][1..] == [Num(y), Missing];
    assert [Num(y), Missing][1..] == [Missing];
    assert [Missing][1..] == [];
    assert NumbersIn([Missing]) == [];
  }

  lemma NumbersOfThree(x: real, y: real, z: real)
    ensures NumbersIn([Num(x), Num(y), Num(z), Missing]) == [x, y, z]
  {
    NumbersOfTwo(y, z);
    assert [Num(x), Num(y), Num(z), Missing][1..] == [Num(y), Num(z), Missing];
  }

  lemma MedianOfTwo(x: real, y: real)
    requires x <= y
    ensures Median.Median([x, y]) == Some((x + y) / 2.0)
  {
    var xs := [x, y];
    assert xs[1..] == [y] && [y][1..] == [];
    assert Median.Sort([y]) == [y];
    assert Median.Sort(xs) == xs;
    assert Median.Middle(xs) == (x + y) / 2.0 by {
      assert |xs| % 2 == 0 && |xs| / 2 == 1;
    }
  }

  lemma MedianOfThree(x: real, y: real, z: real)
    requires x <= y <= z
    ensures Median.Median([x, y, z]) == Some(y)
  {
    var xs := [x, y, z];
    assert Median.Middle(xs) == y by {
      assert |xs| / 2 == 1;
    }
    SortedMedian(xs);
  }

  /** The median fill of two prices is their mean. */
  lemma PriceFill(x: real, y: real)
    requires x <= y
    ensures FillValue([[Num(x)], [Num(y)], [Missing]], Numeric, 0) == Num((x + y) / 2.0)
  {
    assert ColumnOf([[Num(x)], [Num(y)], [Missing]], 0) == [Num(x), Num(y), Missing];
    MedianFillOfTwo(x, y);
  }

  lemma MedianFillOfTwo(x: real, y: real)
    requires x <= y
    ensures MedianFill([Num(x), Num(y), Missing]) == Num((x + y) / 2.0)
  {
    NumbersOfTwo(x, y);
    MedianOfTwo(x, y);
    var m := Median.Median(NumbersIn([Num(x), Num(y), Missing]));
    assert m == Some((x + y) / 2.0);
    assert m.value == (x + y) / 2.0;
  }

  /** A price column holding two prices and a missing cell: the missing
      cell becomes the mean of the two prices. */
  lemma PriceRowsFilled(x: real, y: real)
    requires x <= y
    ensures CleanRows([[Num(x)], [Num(y)], [Missing]], PriceColumns)
            == [[Num(x)], [Num(y)], [Num((x + y) / 2.0)]]
  {
    var d := [[Num(x)], [Num(y)], [Missing]];
    var m := Num((x + y) / 2.0);
    PriceFill(x, y);
    RowKept(d, PriceColumns, 0);
    RowKept(d, PriceColumns, 1);
    RowFilled(d, PriceColumns, 2, 0, m);
    var cleaned := CleanRows(d, PriceColumns);
    assert cleaned == [cleaned[0], cleaned[1], cleaned[2]];
    assert [Missing][0 := m] == [m];
  }

  /** The median of the input prices 1, 1 and 5, before deduplication, is 1. */
  lemma RepeatedPriceInputMedian()
    ensures Median.Median(NumbersIn(ColumnOf(RepeatedPrice().rows, 0))) == Some(1.0)
  {
    assert ColumnOf(RepeatedPrice().rows, 0) == [Num(1.0), Num(1.0), Num(5.0), Missing];
    NumbersOfThree(1.0, 1.0, 5.0);
    MedianOfThree(1.0, 1.0, 5.0);
  }

  /** A table without object columns always has a mode for them. */
  lemma NoTextColumns(d: seq<Row>, cols: seq<Column>)
    requires forall j :: 0 <= j < |cols| ==> cols[j].kind != Textual
    ensures !HasModelessText(d, cols)
  {
  }

  /** The fill value comes from the deduplicated table: the missing price
      becomes 3, the median of 1 and 5, and not 1, the median of the input's
      1, 1 and 5 (`RepeatedPriceInputMedian`). */
  lemma RepeatedPriceCleaned()
    ensures Clean(RepeatedPrice()) == Success(Table(PriceColumns, [0, 2, 3], [[Num(1.0)], [Num(5.0)], [Num(3.0)]]))
  {
    RepeatedPriceDeduplicated();
    PriceRowsFilled(1.0, 5.0);
    NoTextColumns([[Num(1.0)], [Num(5.0)], [Missing]], PriceColumns);
  }

  /** Two rows and no columns: the frame is empty, so `drop_duplicates`
      keeps both rows although they compare equal, and cleaning returns the
      frame as it is. */
  lemma NoColumnsKeepsRows()
    ensures Clean(Table([], [0, 1], [[], []])) == Success(Table([], [0, 1], [[], []]))
  {
  }

  /** One string column: "A", then a missing cell. */
  function FillMakesDuplicate(): Table {
    Table([Column("Store", Textual)], [0, 1], [[Text("A")], [Missing]])
  }

  function FilledOnce(): Table {
    Table([Column("Store", Textual)], [0, 1], [[Text("A")], [Text("A")]])
  }

  lemma FillMakesDuplicateKeepsBoth()
    ensures DedupTable(FillMakesDuplicate()) == FillMakesDuplicate()
  {
    var t := FillMakesDuplicate();
    assert t.rows[..1] == [[Text("A")]];
    forall i
      ensures i in [0, 1] <==> IsFirst(t.rows, i)
    {
    }
    SurvivorsUnique(t.rows, [0, 1]);
  }

  lemma FillMakesDuplicateFill()
    ensures FillValue([[Text("A")], [Missing]], Textual, 0) == Text("A")
  {
  }

  lemma FillMakesDuplicateRows()
    ensures CleanRows(FillMakesDuplicate().rows, FillMakesDuplicate().columns) == FilledOnce().rows
  {
    var t := FillMakesDuplicate();
    FillMakesDuplicateFill();
    RowKept(t.rows, t.columns, 0);
    RowFilled(t.rows, t.columns, 1, 0, Text("A"));
    var cleaned := CleanRows(t.rows, t.columns);
    assert cleaned == [cleaned[0], cleaned[1]];
    assert [Missing][0 := Text("A")] == [Text("A")];
  }

  lemma FillMakesDuplicateOnce()
    ensures Clean(FillMakesDuplicate()) == Success(FilledOnce())
  {
    FillMakesDuplicateKeepsBoth();
    TextColumnHasMode(FillMakesDuplicate().rows, 0, 0);
    FillMakesDuplicateRows();
  }

  lemma FillMakesDuplicateTwice()
    ensures Clean(FilledOnce()) == Success(Table(FilledOnce().columns, [0], [[Text("A")]]))
  {
    var once := FilledOnce();
    assert once.rows[..1] == [[Text("A")]];
    forall i
      ensures i in [0] <==> IsFirst(once.rows, i)
    {
    }
    SurvivorsUnique(once.rows, [0]);
    var d := DedupTable(once).rows;
    assert d == [[Text("A")]];
    TextColumnHasMode(d, 0, 0);
    RowKept(d, once.columns, 0);
    var cleaned := CleanRows(d, once.columns);
    assert cleaned == [cleaned[0]];
    assert DedupTable(once).index == [0];
    assert !HasModelessText(d, once.columns);
    assert cleaned == [[Text("A")]];
  }

  /** The two input rows differ, so both survive deduplication; the mode
      fill then makes them equal. Cleaning is therefore not idempotent: its
      output can hold duplicate rows, and cleaning it again drops one. */
  lemma CleanNotIdempotent()
    ensures Clean(FillMakesDuplicate()).Success?
    ensures !Distinct(Clean(FillMakesDuplicate()).value.rows)
    ensures Clean(Clean(FillMakesDuplicate()).value).Success?
    ensures |Clean(Clean(FillMakesDuplicate()).value).value.rows| < |Clean(FillMakesDuplicate()).value.rows|
  {
    FillMakesDuplicateOnce();
    FillMakesDuplicateTwice();
    assert FilledOnce().rows[0] == FilledOnce().rows[1];
  }
}
