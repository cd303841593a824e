/**
 The split of a raw grid into parts on all-null rows (the loop at the end of
 `load_dataframes` in PyLaTeXtables/utils.py). The indices of the null rows,
 with ghost separators at -1 and at the length, bound the parts; a part is
 kept when it holds at least one row.
 */
module Split {
  import opened Base
  import opened Grid

  /** Where the last run of non-null rows starts (`|rows|` when the last row is null). */
  function LastRunStart(rows: seq<Row>): (k: nat)
    ensures k <= |rows|
    ensures forall i :: k <= i < |rows| ==> !IsNullRow(rows[i])
    ensures k > 0 ==> IsNullRow(rows[k - 1])
    ensures |rows| > 0 && !IsNullRow(rows[|rows| - 1]) ==> k < |rows|
  {
    if |rows| == 0 || IsNullRow(rows[|rows| - 1]) then |rows| else LastRunStart(rows[..|rows| - 1])
  }

  /** The maximal runs of non-null rows, in order: the parts the split yields. */
  function Parts(rows: seq<Row>): seq<seq<Row>>
    decreases |rows|
  {
    if |rows| == 0 then []
    else if IsNullRow(rows[|rows| - 1]) then Parts(rows[..|rows| - 1])
    else
      var k := LastRunStart(rows);
      Parts(rows[..k]) + [rows[k..]]
  }

  /** Each part holds at least one row and no all-null row. */
  lemma {:induction false} PartsAreNonNullRuns(rows: seq<Row>)
    ensures forall p :: 0 <= p < |Parts(rows)| ==> |Parts(rows)[p]| > 0
    ensures forall p, i :: 0 <= p < |Parts(rows)| && 0 <= i < |Parts(rows)[p]| ==> !IsNullRow(Parts(rows)[p][i])
    decreases |rows|
  {
    if |rows| > 0 {
      if IsNullRow(rows[|rows| - 1]) {
        PartsAreNonNullRuns(rows[..|rows| - 1]);
      } else {
        var k := LastRunStart(rows);
        PartsAreNonNullRuns(rows[..k]);
      }
    }
  }

  lemma NonNullRowsOfRun(rows: seq<Row>, k: nat)
    requires k <= |rows|
    requires forall i :: k <= i < |rows| ==> !IsNullRow(rows[i])
    ensures NonNullRows(rows) == NonNullRows(rows[..k]) + rows[k..]
  {
    SplitAt(rows, k);
    RunHasNoNullRow(rows, k);
    NonNullRowsKeepsAll(rows[k..]);
    NonNullRowsAppend(rows[..k], rows[k..]);
  }

  lemma SplitAt<T>(s: seq<T>, k: nat)
    requires k <= |s|
    ensures s[..k] + s[k..] == s
  {
  }

  lemma RunHasNoNullRow(rows: seq<Row>, k: nat)
    requires k <= |rows|
    requires forall i :: k <= i < |rows| ==> !IsNullRow(rows[i])
    ensures forall i :: 0 <= i < |rows[k..]| ==> !IsNullRow(rows[k..][i])
  {
    assert forall i :: 0 <= i < |rows[k..]| ==> rows[k..][i] == rows[k + i];
  }

  /** The parts, put back together, are the input with its all-null rows removed. */
  lemma {:induction false} PartsConcatenate(rows: seq<Row>)
    ensures Flatten(Parts(rows)) == NonNullRows(rows)
    decreases |rows|
  {
    if |rows| > 0 {
      var init := rows[..|rows| - 1];
      if IsNullRow(rows[|rows| - 1]) {
        PartsConcatenate(init);
      } else {
        var k := LastRunStart(rows);
        PartsConcatenate(rows[..k]);
        var ps := Parts(rows[..k]) + [rows[k..]];
        assert ps[..|ps| - 1] == Parts(rows[..k]);
        NonNullRowsOfRun(rows, k);
      }
    }
  }

  /** `LastRunStart` is the one position its contract describes. */
  lemma LastRunStartIs(rows: seq<Row>, k: nat)
    requires k <= |rows|
    requires forall i :: k <= i < |rows| ==> !IsNullRow(rows[i])
    requires k > 0 ==> IsNullRow(rows[k - 1])
    ensures LastRunStart(rows) == k
  {
    var s := LastRunStart(rows);
    assert s > 0 ==> IsNullRow(rows[s - 1]);
  }

  /**
   One pair of neighbouring separators `a < b`: the rows strictly between them
   are non-null, and the parts up to and including `b` are the parts up to and
   including `a`, plus the rows in between when there are any.
   */
  lemma PartsStep(rows: seq<Row>, a: int, b: int, lo: nat, hi: nat)
    requires -1 <= a < b <= |rows|
    requires a >= 0 ==> IsNullRow(rows[a])
    requires b < |rows| ==> IsNullRow(rows[b])
    requires forall j :: a < j < b ==> !IsNullRow(rows[j])
    requires lo == a + 1 && hi == (if b < |rows| then b + 1 else b)
    ensures Parts(rows[..hi]) == Parts(rows[..lo]) + (if b - a > 1 then [rows[a + 1..b]] else [])
  {
    if b < |rows| {
      PartsDropNullLast(rows, b);
    }
    if b - a > 1 {
      PartsCloseRun(rows, a, b);
    } else {
      assert rows[..b] == rows[..a + 1];
    }
  }

  /** An all-null row at the end adds no part. */
  lemma PartsDropNullLast(rows: seq<Row>, b: nat)
    requires b < |rows| && IsNullRow(rows[b])
    ensures Parts(rows[..b + 1]) == Parts(rows[..b])
  {
    var withB := rows[..b + 1];
    assert withB[..|withB| - 1] == rows[..b];
    assert withB[|withB| - 1] == rows[b];
  }

  /** A run of non-null rows that follows a null row (or the start) and ends the input is its last part. */
  lemma PartsCloseRun(rows: seq<Row>, a: int, b: int)
    requires -1 <= a && a + 1 < b <= |rows|
    requires a >= 0 ==> IsNullRow(rows[a])
    requires forall j :: a < j < b ==> !IsNullRow(rows[j])
    ensures Parts(rows[..b]) == Parts(rows[..a + 1]) + [rows[a + 1..b]]
  {
    var upTo := rows[..b];
    assert forall i :: a + 1 <= i < |upTo| ==> upTo[i] == rows[i];
    assert !IsNullRow(upTo[|upTo| - 1]);
    LastRunStartIs(upTo, a + 1);
    assert upTo[..a + 1] == rows[..a + 1];
    assert upTo[a + 1..] == rows[a + 1..b];
  }

  /** Bookkeeping of the scan for null rows: ghost separator -1, then the null rows below `upTo`. */
  ghost predicate Separators(rows: seq<Row>, nulls: seq<int>, upTo: int)
  {
    && |nulls| >= 1 && nulls[0] == -1
    && (forall k :: 0 < k < |nulls| ==> 0 <= nulls[k] < upTo && nulls[k] < |rows| && IsNullRow(rows[nulls[k]]))
    && (forall k, m :: 0 <= k < m < |nulls| ==> nulls[k] < nulls[m])
    && (forall j :: 0 <= j < upTo && j < |rows| && IsNullRow(rows[j]) ==> j in nulls)
  }

  /** The separators of a complete scan: -1, every null row index in order, then the length. */
  ghost predicate NullSeparators(rows: seq<Row>, nulls: seq<int>)
  {
    && |nulls| >= 2 && nulls[0] == -1 && nulls[|nulls| - 1] == |rows|
    && (forall k :: 0 < k < |nulls| - 1 ==> 0 <= nulls[k] < |rows| && IsNullRow(rows[nulls[k]]))
    && (forall k, m :: 0 <= k < m < |nulls| ==> nulls[k] < nulls[m])
    && (forall j :: 0 <= j < |rows| && IsNullRow(rows[j]) ==> j in nulls)
  }

  /** `null_rows` with the ghost separators: -1, the null row indices, then the length. */
  method NullRowIndices(rows: seq<Row>) returns (nulls: seq<int>)
    ensures NullSeparators(rows, nulls)
  {
    nulls := [-1];
    var i := 0;
    while i < |rows|
      invariant 0 <= i <= |rows|
      invariant Separators(rows, nulls, i)
    {
      if IsNullRow(rows[i]) {
        nulls := nulls + [i];
      }
      i := i + 1;
    }
    nulls := nulls + [|rows|];
  }

  /** No null row lies strictly between two neighbouring separators. */
  lemma BetweenNeighbours(rows: seq<Row>, nulls: seq<int>, k: nat)
    requires NullSeparators(rows, nulls)
    requires k < |nulls| - 1
    ensures forall j :: nulls[k] < j < nulls[k + 1] ==> !IsNullRow(rows[j])
  {
    forall j | nulls[k] < j < nulls[k + 1]
      ensures !IsNullRow(rows[j])
    {
      forall m | 0 <= m < |nulls|
        ensures nulls[m] != j
      {
        if m <= k {
          assert nulls[m] <= nulls[k];
        } else {
          assert nulls[k + 1] <= nulls[m];
        }
      }
      assert j !in nulls;
    }
  }

  /** One pair of neighbouring separators is one `PartsStep`. */
  lemma NeighbourStep(rows: seq<Row>, nulls: seq<int>, k: nat)
    requires k < |nulls| - 1
    requires -1 <= nulls[k] < nulls[k + 1] <= |rows|
    requires nulls[k + 1] < |rows| <==> k + 1 < |nulls| - 1
    requires nulls[k] >= 0 ==> IsNullRow(rows[nulls[k]])
    requires nulls[k + 1] < |rows| ==> IsNullRow(rows[nulls[k + 1]])
    requires forall j :: nulls[k] < j < nulls[k + 1] ==> !IsNullRow(rows[j])
    ensures Parts(rows[..Cut(rows, nulls, k + 1)]) ==
      Parts(rows[..Cut(rows, nulls, k)]) + (if nulls[k + 1] - nulls[k] > 1 then [rows[nulls[k] + 1..nulls[k + 1]]] else [])
  {
    PartsStep(rows, nulls[k], nulls[k + 1], Cut(rows, nulls, k), Cut(rows, nulls, k + 1));
  }

  /** Neighbouring separators are in range, and each one below the length is a null row. */
  lemma SeparatorBounds(rows: seq<Row>, nulls: seq<int>, k: nat)
    requires NullSeparators(rows, nulls)
    requires k < |nulls| - 1
    ensures -1 <= nulls[k] < nulls[k + 1] <= |rows|
    ensures nulls[k] >= 0 ==> IsNullRow(rows[nulls[k]])
    ensures nulls[k + 1] < |rows| ==> IsNullRow(rows[nulls[k + 1]])
    ensures nulls[k + 1] < |rows| <==> k + 1 < |nulls| - 1
  {
    assert nulls[0] <= nulls[k];
    assert nulls[k + 1] <= nulls[|nulls| - 1];
  }

  /** How far the split loop has read after `k` separator pairs: up to and including the `k`-th separator. */
  ghost function Cut(rows: seq<Row>, nulls: seq<int>, k: nat): (c: nat)
    requires k < |nulls|
    requires k < |nulls| - 1 ==> -1 <= nulls[k] < |rows|
    ensures c <= |rows|
  {
    if k < |nulls| - 1 then nulls[k] + 1 else |rows|
  }

  /**
   The split loop of `load_dataframes`: for each pair of neighbouring
   separators `a < b`, the rows strictly between them form a part when
   `b - a > 1`.
   */
  method SplitOnNullRows(rows: seq<Row>) returns (parts: seq<seq<Row>>)
    ensures parts == Parts(rows)
    ensures forall p :: 0 <= p < |parts| ==> |parts[p]| > 0
    ensures forall p, i :: 0 <= p < |parts| && 0 <= i < |parts[p]| ==> !IsNullRow(parts[p][i])
    ensures Flatten(parts) == NonNullRows(rows)
  {
    var nulls := NullRowIndices(rows);
    parts := [];
    var k := 0;
    while k < |nulls| - 1
      invariant 0 <= k <= |nulls| - 1
      invariant parts == Parts(rows[..Cut(rows, nulls, k)])
    {
      SeparatorBounds(rows, nulls, k);
      BetweenNeighbours(rows, nulls, k);
      NeighbourStep(rows, nulls, k);
      if nulls[k + 1] - nulls[k] > 1 {
        parts := parts + [rows[nulls[k] + 1..nulls[k + 1]]];
      }
      k := k + 1;
    }
    assert rows[..|rows|] == rows;
    PartsAreNonNullRuns(rows);
    PartsConcatenate(rows);
  }
}
