/**
 Filling in cells left blank by spanning (PyLaTeXtables/utils.py): a blank
 cell takes the last filled value before it, or the empty string when there
 is none. The header rows are filled left to right in `build_header`, the
 index columns top to bottom in `cleanup_dataframe`.
 */
module Fill {
  import opened Base
  import opened Grid

  /** Where the last filled cell before position `i` is, or -1 when there is none. */
  function LastFilledBefore(cells: seq<Cell>, i: nat): (j: int)
    requires i <= |cells|
    ensures -1 <= j < i
    ensures j >= 0 ==> Filled(cells[j])
    ensures forall m :: j < m < i ==> !Filled(cells[m])
  {
    if i == 0 then -1
    else if Filled(cells[i - 1]) then i - 1
    else LastFilledBefore(cells, i - 1)
  }

  /** What a filled sequence should hold at `i`: the last filled value at or before `i`, else `""`. */
  function FilledValue(cells: seq<Cell>, i: nat): string
    requires i < |cells|
  {
    var j := LastFilledBefore(cells, i + 1);
    if j >= 0 then cells[j].value else ""
  }

  /**
   The fill loop of `build_header`: `prev` is the last filled value seen
   (the empty string before the first one, which is what the source's
   falsy `prev` stands for).
   */
  function FillFrom(cells: seq<Cell>, prev: string): (r: seq<string>)
    ensures |r| == |cells|
  {
    if |cells| == 0 then []
    else if Filled(cells[0]) then [cells[0].value] + FillFrom(cells[1..], cells[0].value)
    else if prev != "" then [prev] + FillFrom(cells[1..], prev)
    else [""] + FillFrom(cells[1..], prev)
  }

  /** One header row, filled left to right: each position gets its reference value. */
  function ForwardFill(cells: seq<Cell>): (r: seq<string>)
    ensures |r| == |cells|
    ensures forall i :: 0 <= i < |cells| ==> r[i] == FilledValue(cells, i)
  {
    var r := FillFrom(cells, "");
    assert forall i :: 0 <= i < |cells| ==> r[i] == FilledValue(cells, i) by {
      forall i | 0 <= i < |cells|
        ensures r[i] == FilledValue(cells, i)
      {
        FillFromIsLastFilled(cells, "", i);
      }
    }
    r
  }

  /** Dropping the first cell moves the last filled position before `i + 1` down by one. */
  lemma {:induction false} LastFilledShift(cells: seq<Cell>, i: nat)
    requires 0 < |cells| && i < |cells|
    ensures LastFilledBefore(cells, i + 1) ==
      (var j := LastFilledBefore(cells[1..], i);
       if j >= 0 then j + 1 else if Filled(cells[0]) then 0 else -1)
  {
    if i > 0 {
      if !Filled(cells[i]) {
        assert cells[1..][i - 1] == cells[i];
        LastFilledShift(cells, i - 1);
      }
    }
  }

  /** The fill with a pending value `prev` agrees with the reference, `prev` standing in for "none before". */
  lemma {:induction false} FillFromIsLastFilled(cells: seq<Cell>, prev: string, i: nat)
    requires i < |cells|
    ensures FillFrom(cells, prev)[i] ==
      (var j := LastFilledBefore(cells, i + 1); if j >= 0 then cells[j].value else prev)
    decreases |cells|
  {
    LastFilledShift(cells, i);
    if i > 0 {
      var next := if Filled(cells[0]) then cells[0].value else prev;
      FillFromIsLastFilled(cells[1..], next, i - 1);
      var j := LastFilledBefore(cells[1..], i);
      if j >= 0 {
        assert cells[1..][j] == cells[j + 1];
      }
    }
  }

  /**
   `ForwardFill` keeps every filled cell, gives a blank cell the last filled
   value to its left, and gives `""` to the blanks before the first filled cell.
   */
  lemma ForwardFillCells(cells: seq<Cell>)
    ensures forall i :: 0 <= i < |cells| ==> ForwardFill(cells)[i] == FilledValue(cells, i)
    ensures forall i :: 0 <= i < |cells| && Filled(cells[i]) ==> ForwardFill(cells)[i] == cells[i].value
    ensures forall i :: 0 <= i < |cells| && LastFilledBefore(cells, i + 1) < 0 ==> ForwardFill(cells)[i] == ""
  {
    forall i | 0 <= i < |cells|
      ensures ForwardFill(cells)[i] == FilledValue(cells, i)
    {
      FillFromIsLastFilled(cells, "", i);
    }
  }

  /**
   The state of the index fill once columns `< c`, and rows `< r` of column
   `c`, are done: those cells hold their filled value, the rest are as given.
   */
  ghost predicate FilledUpTo(index: seq<Row>, cur: seq<Row>, ic: nat, c: nat, r: nat)
    requires Rectangular(index, ic) && c <= ic
  {
    && |cur| == |index| && Rectangular(cur, ic)
    && (forall row, col :: 0 <= row < |index| && 0 <= col < ic && (col < c || (col == c && row < r)) ==>
          cur[row][col] == Some(FilledValue(Column(index, col), row)))
    && (forall row, col :: 0 <= row < |index| && 0 <= col < ic && (col > c || (col == c && row >= r)) ==>
          cur[row][col] == index[row][col])
  }

  /** Writing the filled value of one cell moves the fill one row down. */
  lemma FillOneCell(index: seq<Row>, cur: seq<Row>, ic: nat, c: nat, r: nat)
    requires Rectangular(index, ic) && c < ic && r < |index|
    requires FilledUpTo(index, cur, ic, c, r)
    ensures FilledUpTo(index, cur[r := cur[r][c := Some(FilledValue(Column(index, c), r))]], ic, c, r + 1)
  {
  }

  /** A finished column is the start of the next one. */
  lemma NextColumn(index: seq<Row>, cur: seq<Row>, ic: nat, c: nat)
    requires Rectangular(index, ic) && c < ic
    requires FilledUpTo(index, cur, ic, c, |index|)
    ensures FilledUpTo(index, cur, ic, c + 1, 0)
  {
  }

  /** `prev` after the rows `< r` of a column: the last filled value among them, else `""`. */
  lemma PrevStep(col: seq<Cell>, r: nat, prev: string)
    requires r < |col|
    requires prev == (var j := LastFilledBefore(col, r); if j >= 0 then col[j].value else "")
    ensures (if Filled(col[r]) then col[r].value else prev) == FilledValue(col, r)
  {
  }

  /** The inner loop of the index fill: column `c`, top to bottom. */
  method FillIndexColumn(index: seq<Row>, cur: seq<Row>, ic: nat, c: nat) returns (next: seq<Row>)
    requires Rectangular(index, ic) && c < ic
    requires FilledUpTo(index, cur, ic, c, 0)
    ensures FilledUpTo(index, next, ic, c + 1, 0)
  {
    ghost var col := Column(index, c);
    next := cur;
    var prev := "";
    var r := 0;
    while r < |index|
      invariant 0 <= r <= |index|
      invariant FilledUpTo(index, next, ic, c, r)
      invariant prev == (var j := LastFilledBefore(col, r); if j >= 0 then col[j].value else "")
    {
      var value := next[r][c];
      assert value == col[r];
      PrevStep(col, r, prev);
      var text;
      if Filled(value) {
        prev := value.value;
        text := value.value;
      } else if prev != "" {
        text := prev;
      } else {
        text := "";
      }
      FillOneCell(index, next, ic, c, r);
      next := next[r := next[r][c := Some(text)]];
      r := r + 1;
    }
    NextColumn(index, next, ic, c);
  }

  /**
   The index fill of `cleanup_dataframe` (taken only with more than one index
   column): column by column, top to bottom, a blank index cell takes the last
   filled value above it in the same column, or `""`.
   */
  method FillIndex(index: seq<Row>, ic: nat) returns (filled: seq<Row>)
    requires Rectangular(index, ic)
    ensures |filled| == |index| && Rectangular(filled, ic)
    ensures forall r, c :: 0 <= r < |index| && 0 <= c < ic ==> filled[r][c] == Some(FilledValue(Column(index, c), r))
  {
    filled := index;
    var c := 0;
    while c < ic
      invariant 0 <= c <= ic
      invariant FilledUpTo(index, filled, ic, c, 0)
    {
      filled := FillIndexColumn(index, filled, ic, c);
      c := c + 1;
    }
  }
}
