/**
 Span computation over one level of sparsified labels (`_get_spans` in
 PyLaTeXtables/formatting.py). In a sparse label list a repeated label is
 replaced by "", so a non-empty label starts a merged cell that reaches up to
 the next non-empty label. As written, every empty position gets span 1,
 wherever it lies.
 */
module Spans {

  /** Python truthiness of a sparse label. */
  predicate IsSet(text: string)
  {
    text != ""
  }

  /** The first position at or after `i` holding a set label, or `|labels|` if there is none. */
  function NextSet(labels: seq<string>, i: nat): (j: nat)
    requires i <= |labels|
    ensures i <= j <= |labels|
    ensures j < |labels| ==> IsSet(labels[j])
    ensures forall k :: i <= k < j ==> !IsSet(labels[k])
    decreases |labels| - i
  {
    if i == |labels| || IsSet(labels[i]) then i else NextSet(labels, i + 1)
  }

  /** The span the source gives position `i`: up to the next set label for a set label, 1 otherwise. */
  function SpanAt(labels: seq<string>, i: nat): (s: nat)
    requires i < |labels|
    ensures s >= 1
  {
    if IsSet(labels[i]) then NextSet(labels, i + 1) - i else 1
  }

  /** The spans of a whole level, position by position. */
  function LevelSpans(labels: seq<string>): (spans: seq<nat>)
    ensures |spans| == |labels|
    ensures forall i :: 0 <= i < |labels| ==> spans[i] == SpanAt(labels, i)
  {
    seq(|labels|, i requires 0 <= i < |labels| => SpanAt(labels, i))
  }

  /** The facts about a list of start positions that `SetPositions` collects while scanning up to `upTo`. */
  ghost predicate StartsOf(labels: seq<string>, starts: seq<int>, upTo: int)
  {
    && (forall k :: 0 <= k < |starts| ==> 0 <= starts[k] < upTo && starts[k] < |labels| && IsSet(labels[starts[k]]))
    && (forall k, m :: 0 <= k < m < |starts| ==> starts[k] < starts[m])
    && (forall j :: 0 <= j < upTo && j < |labels| && IsSet(labels[j]) ==> j in starts)
  }

  /** Every set position, in increasing order, followed by the sentinel `|labels|`. */
  ghost predicate Boundaries(labels: seq<string>, starts: seq<int>)
  {
    && |starts| > 0 && starts[|starts| - 1] == |labels|
    && (forall k :: 0 <= k < |starts| - 1 ==> 0 <= starts[k] < |labels| && IsSet(labels[starts[k]]))
    && (forall k, m :: 0 <= k < m < |starts| ==> starts[k] < starts[m])
    && (forall j :: 0 <= j < |labels| && IsSet(labels[j]) ==> j in starts)
  }

  /** In the boundaries, the first entry at or after `i` is the next set position. */
  lemma StartIsNextSet(labels: seq<string>, starts: seq<int>, c: nat, i: nat)
    requires Boundaries(labels, starts)
    requires c < |starts| && i <= |labels|
    requires c == 0 || starts[c - 1] < i
    requires i <= starts[c]
    ensures starts[c] == NextSet(labels, i)
  {
    assert forall k, m :: 0 <= k <= m < |starts| ==> starts[k] <= starts[m];
    var t := NextSet(labels, i);
    // no set label lies in [i, t), and starts[c] is set unless it is the sentinel
    assert c < |starts| - 1 ==> IsSet(labels[starts[c]]);
    assert t <= starts[c];
    if t < |labels| {
      assert t in starts;
      var m :| 0 <= m < |starts| && starts[m] == t;
      assert m >= c;
      assert starts[c] <= t;
    }
  }

  /**
   The positions of the set labels, in increasing order, followed by the
   length of the list: `[i for i, label in enumerate(labels) if label]` and the
   appended `len(labels)`.
   */
  method SetPositions(labels: seq<string>) returns (starts: seq<int>)
    ensures Boundaries(labels, starts)
  {
    starts := [];
    var i := 0;
    while i < |labels|
      invariant 0 <= i <= |labels|
      invariant StartsOf(labels, starts, i)
    {
      if IsSet(labels[i]) {
        starts := starts + [i];
      }
      i := i + 1;
    }
    starts := starts + [|labels|];
  }

  /** Differences of neighbouring entries: `[x - xs[i - 1] for i, x in enumerate(xs) if i > 0]`. */
  method Differences(xs: seq<int>) returns (diffs: seq<int>)
    requires |xs| > 0
    ensures |diffs| == |xs| - 1
    ensures forall m :: 0 <= m < |diffs| ==> diffs[m] == xs[m + 1] - xs[m]
  {
    diffs := [];
    var k := 1;
    while k < |xs|
      invariant 1 <= k <= |xs|
      invariant |diffs| == k - 1
      invariant forall m :: 0 <= m < k - 1 ==> diffs[m] == xs[m + 1] - xs[m]
    {
      diffs := diffs + [xs[k] - xs[k - 1]];
      k := k + 1;
    }
  }

  /** Appending the span of the next position keeps a prefix of spans correct. */
  lemma SpansExtend(labels: seq<string>, spans: seq<nat>, span: nat)
    requires |spans| < |labels|
    requires forall j :: 0 <= j < |spans| ==> spans[j] == SpanAt(labels, j)
    requires span == SpanAt(labels, |spans|)
    ensures forall j :: 0 <= j <= |spans| ==> (spans + [span])[j] == SpanAt(labels, j)
  {
  }

  /** At a set label the pending difference is its span, and the cursor moves past it. */
  lemma PopAtSet(labels: seq<string>, starts: seq<int>, c: nat, i: nat)
    requires Boundaries(labels, starts)
    requires c < |starts| && i < |labels| && IsSet(labels[i])
    requires c == 0 || starts[c - 1] < i
    requires i <= starts[c]
    ensures c + 1 < |starts| && starts[c] == i && starts[c + 1] - starts[c] == SpanAt(labels, i)
  {
    StartIsNextSet(labels, starts, c, i);
    assert c + 1 < |starts|;
    assert starts[c] < starts[c + 1];
    StartIsNextSet(labels, starts, c + 1, i + 1);
  }

  /** At an empty label the cursor already points past it. */
  lemma PassEmpty(labels: seq<string>, starts: seq<int>, c: nat, i: nat)
    requires Boundaries(labels, starts)
    requires c < |starts| && i < |labels| && !IsSet(labels[i])
    requires i <= starts[c]
    ensures i + 1 <= starts[c]
  {
    assert c < |starts| - 1 ==> IsSet(labels[starts[c]]);
  }

  /**
   The last loop of `_get_spans`: one popped difference per set label and 1
   per empty label, given the set positions with their sentinel and the
   differences of neighbouring positions.
   */
  method PopSpans(labels: seq<string>, starts: seq<int>, diffs: seq<int>) returns (spans: seq<nat>)
    requires Boundaries(labels, starts)
    requires |diffs| == |starts| - 1
    requires forall m :: 0 <= m < |diffs| ==> diffs[m] == starts[m + 1] - starts[m]
    ensures spans == LevelSpans(labels)
  {
    spans := [];
    var queue := diffs;
    ghost var c := 0;
    var i := 0;
    while i < |labels|
      invariant 0 <= i <= |labels|
      invariant |spans| == i
      invariant 0 <= c < |starts| && queue == diffs[c..]
      invariant c == 0 || starts[c - 1] < i
      invariant i <= starts[c]
      invariant forall j :: 0 <= j < i ==> spans[j] == SpanAt(labels, j)
    {
      if IsSet(labels[i]) {
        PopAtSet(labels, starts, c, i);
        var span := queue[0];
        SpansExtend(labels, spans, span);
        spans := spans + [span];
        queue := queue[1..];
        c := c + 1;
      } else {
        PassEmpty(labels, starts, c, i);
        SpansExtend(labels, spans, 1);
        spans := spans + [1];
      }
      i := i + 1;
    }
    assert spans == LevelSpans(labels);
  }

  /**
   `_get_spans`: the positions of the set labels, the list length as a
   sentinel, the differences of neighbours, then one popped difference per
   set label and 1 per empty label.
   */
  method GetSpans(labels: seq<string>) returns (spans: seq<nat>)
    ensures |spans| == |labels|
    ensures forall i :: 0 <= i < |labels| && !IsSet(labels[i]) ==> spans[i] == 1
    ensures forall i :: 0 <= i < |labels| && IsSet(labels[i]) ==> spans[i] == NextSet(labels, i + 1) - i
    ensures spans == LevelSpans(labels)
  {
    var starts := SetPositions(labels);
    var diffs := Differences(starts);
    spans := PopSpans(labels, starts, diffs);
  }

  /** Sum of the spans of the set labels at positions `i` and after. */
  function SetSpanSum(labels: seq<string>, i: nat): nat
    requires i <= |labels|
    decreases |labels| - i
  {
    if i == |labels| then 0
    else (if IsSet(labels[i]) then SpanAt(labels, i) else 0) + SetSpanSum(labels, i + 1)
  }

  /**
   The merged cells of the set labels tile the level from its first set label
   to its end: their spans add up to the length minus the first set position
   (to 0 when no label is set).
   */
  lemma {:induction false} SetSpansTile(labels: seq<string>, i: nat)
    requires i <= |labels|
    ensures SetSpanSum(labels, i) == |labels| - NextSet(labels, i)
    decreases |labels| - i
  {
    if i < |labels| {
      SetSpansTile(labels, i + 1);
    }
  }

  /** Leading empties and empties inside a run both get span 1 as written. */
  lemma LeadingAndInnerEmpties()
    ensures LevelSpans(["", "", "a", "", "b"]) == [1, 1, 2, 1, 1]
  {
    var l := ["", "", "a", "", "b"];
    assert NextSet(l, 3) == 4;
    assert NextSet(l, 5) == 5;
  }
}
