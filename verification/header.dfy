/**
 `build_header` of PyLaTeXtables/utils.py: the leading rows without a number
 become the header. Each is forward-filled left to right, the filled rows are
 transposed into one label tuple per column, and they are cut off the body.
 Python's `float(value)` test is the parameter `isNumber`.
 */
module Header {
  import opened Base
  import opened Grid
  import opened Fill

  /** Why a part cannot be turned into a table. */
  datatype IngestError =
    | NoHeaderColumns     // `MultiIndex.from_tuples([])` cannot infer the number of levels
    | NoIndexLevels       // `set_index([])` with zero index columns
    | DuplicateLabels     // two columns share a label tuple: `set_index` or `to_numeric` is handed a DataFrame
    | IndexBeyondColumns  // more index columns than columns: the index fill, or the names, no longer fit

  /** A cell that disqualifies its row from the header: present and parsed by `float`. */
  predicate IsNumberCell(c: Cell, isNumber: string -> bool)
  {
    c.Some? && isNumber(c.value)
  }

  /**
   `is_header_row`: the scan returns False at the first present cell that
   parses as a number, and True once it reaches the end of the row; so a
   header row is one in which no cell is a number.
   */
  function IsHeaderRow(row: Row, isNumber: string -> bool): (b: bool)
    ensures b <==> forall j :: 0 <= j < |row| ==> !IsNumberCell(row[j], isNumber)
  {
    if |row| == 0 then true
    else if IsNumberCell(row[0], isNumber) then false
    else
      assert forall j :: 1 <= j < |row| ==> row[1..][j - 1] == row[j];
      IsHeaderRow(row[1..], isNumber)
  }

  /** How many rows the header loop takes before it breaks: the longest prefix of header rows. */
  function HeaderRowCount(rows: seq<Row>, isNumber: string -> bool): (k: nat)
    ensures k <= |rows|
    ensures forall l :: 0 <= l < k ==> IsHeaderRow(rows[l], isNumber)
    ensures k < |rows| ==> !IsHeaderRow(rows[k], isNumber)
  {
    if |rows| == 0 || !IsHeaderRow(rows[0], isNumber) then 0
    else 1 + HeaderRowCount(rows[1..], isNumber)
  }

  /** Any `k` with the two properties above is the header count: the prefix is unique. */
  lemma HeaderRowCountIs(rows: seq<Row>, isNumber: string -> bool, k: nat)
    requires k <= |rows|
    requires forall l :: 0 <= l < k ==> IsHeaderRow(rows[l], isNumber)
    requires k < |rows| ==> !IsHeaderRow(rows[k], isNumber)
    ensures HeaderRowCount(rows, isNumber) == k
  {
  }

  /** A frame with its header set: one label tuple per column, and the remaining rows. */
  datatype Headed = Headed(columns: seq<seq<string>>, body: seq<Row>)

  /**
   `build_header`. It fails when there are no label tuples to build the
   column index from: no header row, or no column.
   */
  function BuildHeader(frame: Frame, isNumber: string -> bool): (r: Result<Headed, IngestError>)
    requires frame.Valid()
    ensures r.Err? <==> HeaderRowCount(frame.rows, isNumber) == 0 || frame.width == 0
    ensures r.Err? ==> r.error == NoHeaderColumns
    ensures r.Ok? ==>
      var k := HeaderRowCount(frame.rows, isNumber);
      && |r.value.columns| == frame.width
      && (forall i :: 0 <= i < frame.width ==> |r.value.columns[i]| == k)
      && (forall i, l :: 0 <= i < frame.width && 0 <= l < k ==> r.value.columns[i][l] == ForwardFill(frame.rows[l])[i])
      && r.value.body == frame.rows[k..]
  {
    var k := HeaderRowCount(frame.rows, isNumber);
    var filled := seq(k, l requires 0 <= l < k => ForwardFill(frame.rows[l]));
    if k == 0 || frame.width == 0 then Err(NoHeaderColumns)
    else
      assert |filled[0]| == frame.width;
      Ok(Headed(Transpose(filled), frame.rows[k..]))
  }

  /** No two columns share a label tuple, so a label selects a single column. */
  predicate DistinctLabels(columns: seq<seq<string>>)
  {
    forall i, j :: 0 <= i < j < |columns| ==> columns[i] != columns[j]
  }

  /**
   The label tuples of a built header, cell by cell: the label of column `i`
   at level `l` is the last filled cell at or left of `i` in header row `l`,
   else `""`; every header row is a row without numbers, and the body starts
   at the first row with one.
   */
  lemma HeaderLabels(frame: Frame, isNumber: string -> bool)
    requires frame.Valid()
    requires BuildHeader(frame, isNumber).Ok?
    ensures var h := BuildHeader(frame, isNumber).value;
      && |h.columns| == frame.width
      && (forall i :: 0 <= i < |h.columns| ==> 0 < |h.columns[i]| <= |frame.rows|)
      && (forall i, l :: 0 <= i < |h.columns| && 0 <= l < |h.columns[i]| ==>
            IsHeaderRow(frame.rows[l], isNumber) && h.columns[i][l] == FilledValue(frame.rows[l], i))
      && |h.columns[0]| + |h.body| == |frame.rows|
      && (|h.body| > 0 ==> !IsHeaderRow(h.body[0], isNumber))
  {
    var h := BuildHeader(frame, isNumber).value;
    forall l | 0 <= l < HeaderRowCount(frame.rows, isNumber)
      ensures forall i :: 0 <= i < frame.width ==> h.columns[i][l] == FilledValue(frame.rows[l], i)
    {
      ForwardFillCells(frame.rows[l]);
    }
  }

  /**
   A column left blank in every header row, as spanning leaves it, repeats
   the label tuple of the column on its left, so the labels are not distinct.
   */
  lemma BlankColumnRepeatsLeft(frame: Frame, isNumber: string -> bool, i: nat)
    requires frame.Valid() && BuildHeader(frame, isNumber).Ok?
    requires 0 < i < frame.width
    requires forall l :: 0 <= l < HeaderRowCount(frame.rows, isNumber) ==> !Filled(frame.rows[l][i])
    ensures BuildHeader(frame, isNumber).value.columns[i] == BuildHeader(frame, isNumber).value.columns[i - 1]
    ensures !DistinctLabels(BuildHeader(frame, isNumber).value.columns)
  {
    var h := BuildHeader(frame, isNumber).value;
    HeaderLabels(frame, isNumber);
    forall l | 0 <= l < |h.columns[i]|
      ensures h.columns[i][l] == h.columns[i - 1][l]
    {
      assert |frame.rows[l]| == frame.width;
      assert LastFilledBefore(frame.rows[l], i + 1) == LastFilledBefore(frame.rows[l], i);
    }
  }
}
