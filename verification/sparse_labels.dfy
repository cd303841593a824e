/**
 Packaging of sparse labels into (label, span) pairs (`get_sparse_labels` in
 PyLaTeXtables/formatting.py, after pandas has produced the sparse labels).
 A header is packaged per level (one row of cells per level); an index is
 packaged transposed, per position (one row of cells per table row).
 */
module SparseLabels {
  import opened Base
  import opened Spans

  /**
   What `MultiIndex.format(sparsify=True, adjoin=False)` hands over: a plain
   index gives one flat list of labels, a multi-index one tuple per level.
   */
  datatype SparseInput = Flat(labels: seq<string>) | Nested(levels: seq<seq<string>>)

  /** `sparse_labels[0]` on an empty list raises IndexError. */
  datatype PackError = NoLabels

  /** One entry of the packaged result: a label and the number of positions it spans. */
  type LabelSpan = (string, nat)

  /** The number of entries of the list the source indexes with `[0]`. */
  function RawLength(input: SparseInput): nat
  {
    match input
    case Flat(labels) => |labels|
    case Nested(levels) => |levels|
  }

  /** A single-level list is wrapped as the one level of a one-level axis. */
  function AsLevels(input: SparseInput): (levels: seq<seq<string>>)
    ensures input.Flat? ==> levels == [input.labels]
    ensures input.Nested? ==> levels == input.levels
  {
    match input
    case Flat(labels) => [labels]
    case Nested(levels) => levels
  }

  /** Pairs each list of labels with the list of spans at the same place. */
  function PairUp(labels: seq<seq<string>>, spans: seq<seq<nat>>): (rows: seq<seq<LabelSpan>>)
    requires |labels| == |spans|
    requires forall r :: 0 <= r < |labels| ==> |labels[r]| == |spans[r]|
    ensures |rows| == |labels|
    ensures forall r :: 0 <= r < |rows| ==> |rows[r]| == |labels[r]|
    ensures forall r, p :: 0 <= r < |rows| && 0 <= p < |rows[r]| ==> rows[r][p] == (labels[r][p], spans[r][p])
  {
    seq(|labels|, r requires 0 <= r < |labels| => Zip(labels[r], spans[r]))
  }

  /**
   `get_sparse_labels` from the sparse labels on: spans per level, an optional
   transpose of both the labels and the spans, then pairing.
   */
  function GetSparseLabels(input: SparseInput, transpose: bool): (r: Result<seq<seq<LabelSpan>>, PackError>)
    ensures r.Err? <==> RawLength(input) == 0
    ensures r.Ok? && !transpose ==>
      var levels := AsLevels(input);
      && |r.value| == |levels|
      && (forall l :: 0 <= l < |levels| ==> |r.value[l]| == |levels[l]|)
      && (forall l, p :: 0 <= l < |levels| && 0 <= p < |levels[l]| ==>
            r.value[l][p] == (levels[l][p], SpanAt(levels[l], p)))
    ensures r.Ok? && transpose ==>
      var levels := AsLevels(input);
      && |r.value| == MinLength(levels)
      && (forall p :: 0 <= p < |r.value| ==> |r.value[p]| == |levels|)
      && (forall p, l :: 0 <= p < |r.value| && 0 <= l < |levels| ==>
            r.value[p][l] == (levels[l][p], SpanAt(levels[l], p)))
  {
    if RawLength(input) == 0 then Err(NoLabels)
    else
      var levels := AsLevels(input);
      var spans := seq(|levels|, l requires 0 <= l < |levels| => LevelSpans(levels[l]));
      if transpose then
        MinLengthOfSameShape(levels, spans);
        Ok(PairUp(Transpose(levels), Transpose(spans)))
      else
        Ok(PairUp(levels, spans))
  }

  /**
   The transposed packaging is the per-level packaging read column-wise: the
   pair for level `l` at position `p` is the same in both.
   */
  lemma TransposedPackaging(input: SparseInput)
    requires RawLength(input) > 0
    ensures var byLevel := GetSparseLabels(input, false).value;
            var byPosition := GetSparseLabels(input, true).value;
            && |byPosition| == MinLength(byLevel)
            && forall p, l :: 0 <= p < |byPosition| && 0 <= l < |byLevel| ==> byPosition[p][l] == byLevel[l][p]
  {
    var levels := AsLevels(input);
    var byLevel := GetSparseLabels(input, false).value;
    var byPosition := GetSparseLabels(input, true).value;
    MinLengthOfSameShape(levels, byLevel);
    forall p, l | 0 <= p < |byPosition| && 0 <= l < |byLevel|
      ensures byPosition[p][l] == byLevel[l][p]
    {
      assert p < |levels[l]|;
    }
  }

  /**
   A non-empty flat label list packages exactly like a one-level multi-index
   (an empty one raises where the one-level multi-index does not).
   */
  lemma FlatIsOneLevel(labels: seq<string>, transpose: bool)
    requires |labels| > 0
    ensures GetSparseLabels(Flat(labels), transpose) == GetSparseLabels(Nested([labels]), transpose)
  {
  }
}
