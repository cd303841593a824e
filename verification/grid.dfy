/**
 The raw grid read from the tab-separated file: rows of cells, each cell
 either a string or missing (pandas NaN). This is the DataFrame of
 PyLaTeXtables/utils.py before any header or index is set.
 */
module Grid {
  import opened Base

  /** A raw cell; `None` is a missing value. */
  type Cell = Option<string>

  type Row = seq<Cell>

  /** `row.isnull().all()`. */
  predicate IsNullRow(row: Row)
  {
    forall j :: 0 <= j < |row| ==> row[j].None?
  }

  /** Python truthiness of a cell (`value and not pandas.isnull(value)`): present and non-empty. */
  predicate Filled(c: Cell)
  {
    c.Some? && c.value != ""
  }

  /** The rows that are not all-null, in their order. */
  function NonNullRows(rows: seq<Row>): (kept: seq<Row>)
    ensures |kept| <= |rows|
    ensures forall i :: 0 <= i < |kept| ==> !IsNullRow(kept[i])
    ensures forall r :: r in kept <==> r in rows && !IsNullRow(r)
  {
    if |rows| == 0 then []
    else
      var last := rows[|rows| - 1];
      assert rows == rows[..|rows| - 1] + [last];
      NonNullRows(rows[..|rows| - 1]) + (if IsNullRow(last) then [] else [last])
  }

  /** The filter distributes over concatenation, so the kept rows stay in their order. */
  lemma {:induction false} NonNullRowsAppend(a: seq<Row>, b: seq<Row>)
    ensures NonNullRows(a + b) == NonNullRows(a) + NonNullRows(b)
    decreases |b|
  {
    if |b| == 0 {
      assert a + b == a;
    } else {
      var init := b[..|b| - 1];
      assert (a + b)[..|a + b| - 1] == a + init;
      NonNullRowsAppend(a, init);
    }
  }

  /** Rows none of which is all-null are kept as they are. */
  lemma {:induction false} NonNullRowsKeepsAll(rows: seq<Row>)
    requires forall i :: 0 <= i < |rows| ==> !IsNullRow(rows[i])
    ensures NonNullRows(rows) == rows
    decreases |rows|
  {
    if |rows| > 0 {
      NonNullRowsKeepsAll(rows[..|rows| - 1]);
    }
  }

  /** Rows of `width` cells each. */
  predicate Rectangular(rows: seq<Row>, width: nat)
  {
    forall r :: 0 <= r < |rows| ==> |rows[r]| == width
  }

  /** The column `c` of rows that all have more than `c` cells. */
  function Column(rows: seq<Row>, c: nat): (col: seq<Cell>)
    requires forall r :: 0 <= r < |rows| ==> c < |rows[r]|
    ensures |col| == |rows|
    ensures forall r :: 0 <= r < |rows| ==> col[r] == rows[r][c]
  {
    seq(|rows|, r requires 0 <= r < |rows| => rows[r][c])
  }

  /** A DataFrame of raw cells: a column count and rows of exactly that many cells. */
  datatype Frame = Frame(width: nat, rows: seq<Row>)
  {
    predicate Valid()
    {
      Rectangular(rows, width)
    }
  }
}
