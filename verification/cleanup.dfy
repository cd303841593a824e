/**
 `cleanup_dataframe` of PyLaTeXtables/utils.py: one part of the sheet becomes
 a table. All-null rows and columns are dropped, the header is built, a part
 without data rows is returned as it is, the first `ic` columns become the
 index (filled top to bottom when there are several), the index names are
 simplified, and every data cell is converted to a number or to missing.
 Python's `float` test and `pandas.to_numeric` are the parameters
 `isNumber` and `toNumeric`.
 */
module Cleanup {
  import opened Base
  import opened Grid
  import opened Fill
  import opened Header

  /** The columns among the first `n` that hold at least one value, in order. */
  function KeptColumns(rows: seq<Row>, width: nat, n: nat): (kept: seq<nat>)
    requires Rectangular(rows, width) && n <= width
    ensures |kept| <= n
    ensures forall j :: 0 <= j < |kept| ==> kept[j] < n
    ensures forall j, m :: 0 <= j < m < |kept| ==> kept[j] < kept[m]
    ensures forall c :: 0 <= c < n ==> (c in kept <==> !IsNullRow(Column(rows, c)))
  {
    if n == 0 then []
    else KeptColumns(rows, width, n - 1) + (if !IsNullRow(Column(rows, n - 1)) then [n - 1] else [])
  }

  /** `dropna(axis=1, how="all")`: the frame restricted to its columns with a value. */
  function DropNullColumns(frame: Frame): (r: Frame)
    requires frame.Valid()
    ensures r.Valid() && |r.rows| == |frame.rows|
    ensures var kept := KeptColumns(frame.rows, frame.width, frame.width);
      && r.width == |kept|
      && forall row, j :: 0 <= row < |r.rows| && 0 <= j < r.width ==> r.rows[row][j] == frame.rows[row][kept[j]]
  {
    var kept := KeptColumns(frame.rows, frame.width, frame.width);
    Frame(|kept|, seq(|frame.rows|, row requires 0 <= row < |frame.rows| =>
      seq(|kept|, j requires 0 <= j < |kept| => frame.rows[row][kept[j]])))
  }

  lemma {:induction false} NonNullRowsRectangular(rows: seq<Row>, width: nat)
    requires Rectangular(rows, width)
    ensures Rectangular(NonNullRows(rows), width)
    decreases |rows|
  {
    if |rows| > 0 {
      NonNullRowsRectangular(rows[..|rows| - 1], width);
    }
  }

  /** The frame as `build_header` sees it: all-null rows dropped, then all-null columns. */
  function Prepared(frame: Frame): (r: Frame)
    requires frame.Valid()
    ensures r.Valid()
    ensures |r.rows| == |NonNullRows(frame.rows)| && r.width <= frame.width
    ensures var rows := NonNullRows(frame.rows);
      Rectangular(rows, frame.width) &&
      var kept := KeptColumns(rows, frame.width, frame.width);
      && r.width == |kept|
      && forall row, j :: 0 <= row < |r.rows| && 0 <= j < r.width ==> r.rows[row][j] == rows[row][kept[j]]
  {
    NonNullRowsRectangular(frame.rows, frame.width);
    DropNullColumns(Frame(frame.width, NonNullRows(frame.rows)))
  }

  /** Dropping cannot leave an all-null row or an all-null column behind. */
  lemma PreparedHasNoNulls(frame: Frame)
    requires frame.Valid()
    ensures var p := Prepared(frame);
      && (forall row :: 0 <= row < |p.rows| ==> !IsNullRow(p.rows[row]))
      && (forall c :: 0 <= c < p.width ==> !IsNullRow(Column(p.rows, c)))
  {
    NonNullRowsRectangular(frame.rows, frame.width);
    var rows := NonNullRows(frame.rows);
    var kept := KeptColumns(rows, frame.width, frame.width);
    var p := Prepared(frame);
    forall row | 0 <= row < |p.rows|
      ensures !IsNullRow(p.rows[row])
    {
      assert !IsNullRow(rows[row]) && |rows[row]| == frame.width;
      var c :| 0 <= c < frame.width && rows[row][c].Some?;
      assert Column(rows, c)[row].Some?;
      var j :| 0 <= j < |kept| && kept[j] == c;
      assert p.rows[row][j].Some?;
    }
    forall c | 0 <= c < p.width
      ensures !IsNullRow(Column(p.rows, c))
    {
      assert !IsNullRow(Column(rows, kept[c]));
      var row :| 0 <= row < |rows| && Column(rows, kept[c])[row].Some?;
      assert Column(p.rows, c)[row].Some?;
    }
  }

  /** The name of one index column after the fix: a label tuple whose leading labels are all `""` collapses to its last label. */
  datatype IndexName = Plain(name: string) | Levels(labels: seq<string>)

  function SimplifyName(tuple: seq<string>): (n: IndexName)
    requires |tuple| > 0
    ensures n.Plain? <==> forall i :: 0 <= i < |tuple| - 1 ==> tuple[i] == ""
    ensures n.Plain? ==> n.name == tuple[|tuple| - 1]
    ensures n.Levels? ==> n.labels == tuple
  {
    if forall i :: 0 <= i < |tuple| - 1 ==> tuple[i] == "" then Plain(tuple[|tuple| - 1]) else Levels(tuple)
  }

  /** The label tuple a name stands for in a header of `levels` levels. */
  function ExpandName(n: IndexName, levels: nat): seq<string>
  {
    match n
    case Plain(name) => seq(if levels > 0 then levels - 1 else 0, _ => "") + [name]
    case Levels(labels) => labels
  }

  /** The fix loses nothing: the label tuple can be recovered from the name and the header depth. */
  lemma NameRoundTrip(tuple: seq<string>)
    requires |tuple| > 0
    ensures ExpandName(SimplifyName(tuple), |tuple|) == tuple
  {
    if SimplifyName(tuple).Plain? {
      var e := ExpandName(SimplifyName(tuple), |tuple|);
      assert |e| == |tuple|;
      forall i | 0 <= i < |tuple|
        ensures e[i] == tuple[i]
      {
      }
    }
  }

  /** `pandas.to_numeric(errors="coerce")` on one cell: a number, or missing when absent or unparsable. */
  function Coerce(c: Cell, toNumeric: string -> Option<real>): (x: Option<real>)
    ensures x.Some? <==> c.Some? && toNumeric(c.value).Some?
    ensures x.Some? ==> x == toNumeric(c.value)
  {
    if c.Some? then toNumeric(c.value) else None
  }

  /** What `cleanup_dataframe` returns: a header without data, or a table with its index split off. */
  datatype Cleaned =
    | HeaderOnly(columns: seq<seq<string>>)
    | Table(columns: seq<seq<string>>, names: seq<IndexName>, index: seq<Row>, data: seq<seq<Option<real>>>)

  /**
   What the part of `cleanup_dataframe` after the empty check makes of a
   headed frame: the first `ic` columns become the index, filled per column
   top to bottom only when `ic > 1`; their label tuples become the index
   names; the other columns remain, every cell coerced. This needs
   distinct label tuples, so that each label selects one column.
   */
  ghost predicate IsIndexed(h: Headed, ic: nat, toNumeric: string -> Option<real>, t: Cleaned)
  {
    && 0 < ic <= |h.columns| && Rectangular(h.body, |h.columns|) && DistinctLabels(h.columns)
    && (forall i :: 0 <= i < |h.columns| ==> |h.columns[i]| > 0)
    && t.Table?
    && t.columns == h.columns[ic..]
    && |t.names| == ic && (forall i :: 0 <= i < ic ==> t.names[i] == SimplifyName(h.columns[i]))
    && |t.index| == |h.body| && Rectangular(t.index, ic)
    && (ic == 1 ==> forall row :: 0 <= row < |h.body| ==> t.index[row][0] == h.body[row][0])
    && (ic > 1 ==> forall row, c :: 0 <= row < |h.body| && 0 <= c < ic ==>
          t.index[row][c] == Some(FilledValue(Column(h.body, c), row)))
    && |t.data| == |h.body|
    && (forall row :: 0 <= row < |h.body| ==> |t.data[row]| == |h.columns| - ic)
    && (forall row, j :: 0 <= row < |h.body| && 0 <= j < |h.columns| - ic ==>
          t.data[row][j] == Coerce(h.body[row][ic + j], toNumeric))
  }

  /** The simplified names of the first `ic` label tuples. */
  function IndexNames(columns: seq<seq<string>>, ic: nat): (names: seq<IndexName>)
    requires ic <= |columns| && forall i :: 0 <= i < |columns| ==> |columns[i]| > 0
    ensures |names| == ic && forall i :: 0 <= i < ic ==> names[i] == SimplifyName(columns[i])
  {
    seq(ic, i requires 0 <= i < ic => SimplifyName(columns[i]))
  }

  /** Every data cell, right of the `ic` index columns, coerced. */
  function CoerceBody(body: seq<Row>, width: nat, ic: nat, toNumeric: string -> Option<real>): (data: seq<seq<Option<real>>>)
    requires ic <= width && Rectangular(body, width)
    ensures |data| == |body|
    ensures forall row :: 0 <= row < |body| ==> |data[row]| == width - ic
    ensures forall row, j :: 0 <= row < |body| && 0 <= j < width - ic ==> data[row][j] == Coerce(body[row][ic + j], toNumeric)
  {
    seq(|body|, row requires 0 <= row < |body| =>
      seq(width - ic, j requires 0 <= j < width - ic => Coerce(body[row][ic + j], toNumeric)))
  }

  /** The first `ic` cells of every row, as the index rows. */
  function IndexRows(body: seq<Row>, width: nat, ic: nat): (index: seq<Row>)
    requires ic <= width && Rectangular(body, width)
    ensures |index| == |body| && Rectangular(index, ic)
    ensures forall row, c :: 0 <= row < |body| && 0 <= c < ic ==> index[row][c] == body[row][c]
  {
    seq(|body|, row requires 0 <= row < |body| => body[row][..ic])
  }

  /** The index columns of `IndexRows` are the first columns of the body. */
  lemma IndexColumns(body: seq<Row>, width: nat, ic: nat)
    requires ic <= width && Rectangular(body, width)
    ensures forall c :: 0 <= c < ic ==> Column(IndexRows(body, width, ic), c) == Column(body, c)
  {
  }

  /** Setting the index, the names and the numbers on a headed frame. */
  method SetIndex(h: Headed, ic: nat, toNumeric: string -> Option<real>) returns (t: Cleaned)
    requires 0 < ic <= |h.columns|
    requires Rectangular(h.body, |h.columns|)
    requires forall i :: 0 <= i < |h.columns| ==> |h.columns[i]| > 0
    requires DistinctLabels(h.columns)
    ensures IsIndexed(h, ic, toNumeric, t)
  {
    var raw := IndexRows(h.body, |h.columns|, ic);
    var index := raw;
    if ic > 1 {
      index := FillIndex(raw, ic);
      IndexColumns(h.body, |h.columns|, ic);
    }
    t := Table(h.columns[ic..], IndexNames(h.columns, ic), index, CoerceBody(h.body, |h.columns|, ic, toNumeric));
  }

  /** The rows after the header of a valid frame have one cell per label tuple. */
  lemma HeadedShape(frame: Frame, isNumber: string -> bool)
    requires frame.Valid()
    requires BuildHeader(frame, isNumber).Ok?
    ensures var h := BuildHeader(frame, isNumber).value;
      Rectangular(h.body, |h.columns|) && forall i :: 0 <= i < |h.columns| ==> |h.columns[i]| > 0
  {
  }

  /**
   `cleanup_dataframe(df, index_columns=ic)`. The failures come in the order
   the source meets them: the header, then `set_index` with no labels, then
   `set_index` or `to_numeric` on a label that selects several columns, then
   the index fill with more index columns than there are columns.
   */
  method CleanupDataFrame(frame: Frame, ic: nat, isNumber: string -> bool, toNumeric: string -> Option<real>)
    returns (r: Result<Cleaned, IngestError>)
    requires frame.Valid()
    ensures var h := BuildHeader(Prepared(frame), isNumber);
      && (h.Err? ==> r == Err(h.error))
      && (h.Ok? && |h.value.body| == 0 ==> r == Ok(HeaderOnly(h.value.columns)))
      && (h.Ok? && |h.value.body| > 0 && ic == 0 ==> r == Err(NoIndexLevels))
      && (h.Ok? && |h.value.body| > 0 && ic > 0 && !DistinctLabels(h.value.columns) ==> r == Err(DuplicateLabels))
      && (h.Ok? && |h.value.body| > 0 && DistinctLabels(h.value.columns) && ic > |h.value.columns| ==>
            r == Err(IndexBeyondColumns))
      && (h.Ok? && |h.value.body| > 0 && DistinctLabels(h.value.columns) && 0 < ic <= |h.value.columns| ==>
            r.Ok? && IsIndexed(h.value, ic, toNumeric, r.value))
  {
    var p := Prepared(frame);
    var built := BuildHeader(p, isNumber);
    if built.Err? {
      return Err(built.error);
    }
    var h := built.value;
    if |h.body| == 0 {
      return Ok(HeaderOnly(h.columns));
    }
    if ic == 0 {
      return Err(NoIndexLevels);
    }
    if !DistinctLabels(h.columns) {
      return Err(DuplicateLabels);
    }
    if ic > |h.columns| {
      return Err(IndexBeyondColumns);
    }
    HeadedShape(p, isNumber);
    var t := SetIndex(h, ic, toNumeric);
    r := Ok(t);
  }
}
