/** The row-to-document step of `create_embeddings_from_df`: every row of the
    table becomes one document whose text lists the row's present cells as
    `"<column>: <value>"`, in column order, separated by `", "`, and whose
    metadata carries the row's index label. How a value is turned into text
    (Python's `str`) is a parameter, `render`. */
module Documents {
  import opened Frames
  import opened Dedup

  /** A `langchain` document: its text and the `row_index` metadata. */
  datatype Document = Document(pageContent: string, rowIndex: int)

  /** Python's `sep.join(parts)`: the parts in order, with `sep` between
      neighbours and nowhere else. */
  function Join(parts: seq<string>, sep: string): (s: string)
    ensures parts == [] ==> s == ""
    ensures |parts| == 1 ==> s == parts[0]
  {
    if parts == [] then ""
    else if |parts| == 1 then parts[0]
    else Join(parts[..|parts| - 1], sep) + sep + parts[|parts| - 1]
  }

  /** The summed length of the parts. */
  function TotalLength(parts: seq<string>): nat {
    if parts == [] then 0 else TotalLength(parts[..|parts| - 1]) + |parts[|parts| - 1]|
  }

  /** A join is as long as its parts plus one separator between each pair of
      neighbours. */
  lemma {:induction false} JoinLength(parts: seq<string>, sep: string)
    requires parts != []
    ensures |Join(parts, sep)| == TotalLength(parts) + (|parts| - 1) * |sep|
  {
    if |parts| > 1 {
      var init := parts[..|parts| - 1];
      JoinLength(init, sep);
      assert Join(parts, sep) == Join(init, sep) + sep + parts[|parts| - 1];
      assert TotalLength(parts) == TotalLength(init) + |parts[|parts| - 1]|;
      assert (|parts| - 1) * |sep| == (|init| - 1) * |sep| + |sep|;
    } else {
      assert parts[..0] == [];
    }
  }

  /** No separator before the first part or after the last: the join starts
      with the first part and ends with the last one. */
  lemma {:induction false} JoinEnds(parts: seq<string>, sep: string)
    requires parts != []
    ensures |parts[0]| <= |Join(parts, sep)| && Join(parts, sep)[..|parts[0]|] == parts[0]
    ensures |parts[|parts| - 1]| <= |Join(parts, sep)|
    ensures Join(parts, sep)[|Join(parts, sep)| - |parts[|parts| - 1]|..] == parts[|parts| - 1]
  {
    if |parts| > 1 {
      var init := parts[..|parts| - 1];
      JoinEnds(init, sep);
      assert init[0] == parts[0];
      var s := Join(parts, sep);
      var last := parts[|parts| - 1];
      assert s == Join(init, sep) + sep + last;
      assert s[..|parts[0]|] == Join(init, sep)[..|parts[0]|];
      assert s[|s| - |last|..] == last;
    }
  }

  /** A join of non-empty parts is empty exactly when there are no parts. */
  lemma JoinEmpty(parts: seq<string>, sep: string)
    requires forall k :: 0 <= k < |parts| ==> parts[k] != []
    ensures Join(parts, sep) == [] <==> parts == []
  {
  }

  /** The text `f"{col}: {str(val)}"` for one cell: it reads back as the
      column name, then `": "`, then the rendered value. */
  function Pair(name: string, cell: Cell, render: Cell -> string): (s: string)
    ensures |s| == |name| + 2 + |render(cell)|
    ensures s[..|name|] == name && s[|name|..|name| + 2] == ": " && s[|name| + 2..] == render(cell)
  {
    name + ": " + render(cell)
  }

  /** Positions below `n` whose cell is present (`pd.notna`), in order. */
  function PresentUpTo(row: Row, n: nat): (ps: seq<nat>)
    ensures forall k :: 0 <= k < |ps| ==> ps[k] < n && ps[k] < |row| && !row[ps[k]].Missing?
    ensures forall i :: 0 <= i < n && i < |row| && !row[i].Missing? ==> i in ps
    ensures forall a, b :: 0 <= a < b < |ps| ==> ps[a] < ps[b]
  {
    Where(n, (i: nat) => i < |row| && !row[i].Missing?)
  }

  /** One more column adds its position exactly when its cell is present. */
  lemma PresentStep(row: Row, n: nat)
    requires n > 0
    ensures PresentUpTo(row, n)
            == PresentUpTo(row, n - 1) + (if n - 1 < |row| && !row[n - 1].Missing? then [n - 1] else [])
  {
  }

  /** The pairs of the present cells among the first `n` columns, in column
      order: the list comprehension of embeddings_utils.py:29. */
  function PairsUpTo(cols: seq<Column>, row: Row, render: Cell -> string, n: nat): seq<string>
    requires n <= |cols| && n <= |row|
  {
    if n == 0 then []
    else PairsUpTo(cols, row, render, n - 1)
         + (if row[n - 1].Missing? then [] else [Pair(cols[n - 1].name, row[n - 1], render)])
  }

  function Pairs(cols: seq<Column>, row: Row, render: Cell -> string): seq<string>
    requires |row| == |cols|
  {
    PairsUpTo(cols, row, render, |cols|)
  }

  /** The text of one row's document: it starts with the pair of the first
      present cell and ends with the pair of the last one. */
  function RowText(cols: seq<Column>, row: Row, render: Cell -> string): (text: string)
    requires |row| == |cols|
    ensures var ps := PresentUpTo(row, |row|);
            ps != [] ==>
              var first := Pair(cols[ps[0]].name, row[ps[0]], render);
              var last := Pair(cols[ps[|ps| - 1]].name, row[ps[|ps| - 1]], render);
              && |first| <= |text| && text[..|first|] == first
              && |last| <= |text| && text[|text| - |last|..] == last
  {
    var parts := Pairs(cols, row, render);
    PairsArePresent(cols, row, render, |cols|);
    if parts == [] then Join(parts, ", ")
    else
      JoinEnds(parts, ", ");
      Join(parts, ", ")
  }

  /** The name of column `i`; no name past the last column. */
  function NameOf(cols: seq<Column>, i: int): string {
    if 0 <= i < |cols| then cols[i].name else ""
  }

  /** The pairs of the cells at positions `ps`, in the order of `ps`. */
  function PairsAt(cols: seq<Column>, row: Row, render: Cell -> string, ps: seq<nat>): (r: seq<string>)
    ensures |r| == |ps|
  {
    seq(|ps|, k requires 0 <= k < |ps| => Pair(NameOf(cols, ps[k]), CellOf(row, ps[k]), render))
  }

  lemma PairsAtAppend(cols: seq<Column>, row: Row, render: Cell -> string, ps: seq<nat>, i: nat)
    requires i < |cols| && i < |row|
    ensures PairsAt(cols, row, render, ps + [i])
            == PairsAt(cols, row, render, ps) + [Pair(cols[i].name, row[i], render)]
  {
  }

  /** The pairs are exactly those of the present positions, in ascending
      column order: a missing cell contributes no pair and every present one
      contributes its own, once. */
  lemma {:induction false} PairsArePresent(cols: seq<Column>, row: Row, render: Cell -> string, n: nat)
    requires n <= |cols| && n <= |row|
    ensures PairsUpTo(cols, row, render, n) == PairsAt(cols, row, render, PresentUpTo(row, n))
  {
    if n > 0 {
      PairsArePresent(cols, row, render, n - 1);
      PresentStep(row, n);
      var qs := PresentUpTo(row, n - 1);
      var before := PairsUpTo(cols, row, render, n - 1);
      if row[n - 1].Missing? {
        assert PresentUpTo(row, n) == qs;
        assert PairsUpTo(cols, row, render, n) == before;
      } else {
        assert PresentUpTo(row, n) == qs + [n - 1];
        PairsAtAppend(cols, row, render, qs, n - 1);
        assert PairsUpTo(cols, row, render, n) == before + [Pair(cols[n - 1].name, row[n - 1], render)];
      }
    }
  }

  /** No position is present exactly when every cell is missing. */
  lemma NonePresent(row: Row)
    ensures PresentUpTo(row, |row|) == [] <==> forall i :: 0 <= i < |row| ==> row[i].Missing?
  {
    var ps := PresentUpTo(row, |row|);
    if ps != [] {
      assert !row[ps[0]].Missing?;
    }
  }

  /** Every pair is non-empty, and there is one per present position. */
  lemma PairsShape(cols: seq<Column>, row: Row, render: Cell -> string)
    requires |row| == |cols|
    ensures |Pairs(cols, row, render)| == |PresentUpTo(row, |row|)|
    ensures forall k :: 0 <= k < |Pairs(cols, row, render)| ==> Pairs(cols, row, render)[k] != []
  {
    PairsArePresent(cols, row, render, |cols|);
  }

  /** A row's text is empty exactly when every one of its cells is missing. */
  lemma RowTextEmpty(cols: seq<Column>, row: Row, render: Cell -> string)
    requires |row| == |cols|
    ensures RowText(cols, row, render) == "" <==> forall i :: 0 <= i < |row| ==> row[i].Missing?
  {
    PairsShape(cols, row, render);
    JoinEmpty(Pairs(cols, row, render), ", ");
    NonePresent(row);
  }

  /** Inserting a column whose cell is missing, anywhere, leaves the pairs
      unchanged up to the shifted position. */
  lemma {:induction false} PairsInsertMissing(cols: seq<Column>, row: Row, render: Cell -> string,
                                              k: nat, c: Column, n: nat)
    requires |row| == |cols| && k <= |cols| && n <= |cols| + 1
    ensures var cols' := cols[..k] + [c] + cols[k..];
            var row' := row[..k] + [Missing] + row[k..];
            PairsUpTo(cols', row', render, n)
              == PairsUpTo(cols, row, render, if n <= k then n else n - 1)
  {
    var cols' := cols[..k] + [c] + cols[k..];
    var row' := row[..k] + [Missing] + row[k..];
    if n > 0 {
      PairsInsertMissing(cols, row, render, k, c, n - 1);
      if n - 1 < k {
        assert cols'[n - 1] == cols[n - 1] && row'[n - 1] == row[n - 1];
      } else if n - 1 == k {
        assert row'[n - 1] == Missing;
      } else {
        assert cols'[n - 1] == cols[n - 2] && row'[n - 1] == row[n - 2];
      }
    }
  }

  /** Missing cells contribute nothing: adding a column that is missing in
      this row does not change the row's text. */
  lemma MissingColumnIgnored(cols: seq<Column>, row: Row, render: Cell -> string, k: nat, c: Column)
    requires |row| == |cols| && k <= |cols|
    ensures RowText(cols[..k] + [c] + cols[k..], row[..k] + [Missing] + row[k..], render)
            == RowText(cols, row, render)
  {
    PairsInsertMissing(cols, row, render, k, c, |cols| + 1);
  }

  /** The loop of embeddings_utils.py:24-30: one document per row, in row
      order, with no cap on the number of rows. */
  method BuildDocuments(t: Table, render: Cell -> string) returns (documents: seq<Document>)
    requires WellFormed(t)
    ensures |documents| == |t.rows|
    ensures forall i :: 0 <= i < |t.rows| ==>
              documents[i] == Document(RowText(t.columns, t.rows[i], render), t.index[i])
  {
    documents := [];
    for i := 0 to |t.rows|
      invariant |documents| == i
      invariant forall k :: 0 <= k < i ==>
                  documents[k] == Document(RowText(t.columns, t.rows[k], render), t.index[k])
    {
      var text := RowText(t.columns, t.rows[i], render);
      documents := documents + [Document(text, t.index[i])];
    }
  }
}
