# PyLaTeXtables in Dafny

PyLaTeXtables turns a spreadsheet into LaTeX tables. `load_dataframes` reads
the sheet as a grid of cells and splits it into parts at all-null rows.
`cleanup_dataframe` turns each part into a table:

- it drops all-null rows and columns;
- `build_header` takes the leading rows without numbers as a header;
- it fills the label cells left blank by spanning;
- it splits off the index columns, simplifies their names, and converts the
  data cells to numbers.

`write_latex` then hands the table to a template. The template uses a set of
filters:

- `_get_spans` and `get_sparse_labels` compute the row and column spans of the
  sparse header and index labels;
- `escape_tex` escapes LaTeX special characters;
- `np` renders numbers for `\np{...}`;
- `header_fmt`, `vertical_text` and `multirow` wrap labels and cells.

This project models those two halves as pure Dafny functions and methods. It
proves what they compute against independent reference definitions.

A raw cell is `Option<string>`, where `None` is pandas' NaN. "Filled" means
Python truthiness: present and non-empty. Python's `float()` test,
`pandas.to_numeric` and float formatting are not modelled; they are function
parameters. The header dictionary of `write_latex`, a closure variable in the
source, is a parameter of `HeaderFmt`.

The model follows the code as written in these places, where a reader might
expect different behaviour:

- every empty sparse label gets span 1, including one inside a run that a
  set label spans (`Spans.GetSpans`);
- a part of a single row between two null rows is kept (`Split.SplitOnNullRows`);
- `multirow` wraps a cell even when its span is 1 (`Filters.SingleSpanStillWrapped`);
- the exponent clean-up of `np` strips only the zeros leading the exponent, but an exponent made of zeros alone loses all its digits, so `e+00` becomes `e+` while `e+10` stays (`Numbers.ZeroExponentLosesDigits`);
- the notation of `np` is chosen on the signed value, so with exponents on the notation picked for any negative value is `e`, not `f` or `g` by magnitude (`Numbers.NegativeValuesUseExponent`). It shows only when the value is rendered by the format: a value collapsed to an integer by `maybe_int`, or one without a valid digit count, never reaches it.

Modules: `Base` has `Option`, `Result`, `Flatten`, `Transpose` and `Zip`.
`Decimal` has `str` of an integer and its parser. Then come `Spans`,
`SparseLabels`, `Escape`, `Numbers` and `Filters` for the formatting side,
and `Grid`, `Split`, `Fill`, `Header` and `Cleanup` for the ingestion side.

## Model

| member | source | states |
|---|---|---|
| Spans.GetSpans | PyLaTeXtables/formatting.py:13-28 | one span per label; an empty label gets 1; a set label gets the distance to the next set label, or to the end of the list; the result is the reference `LevelSpans` that the packaging uses |
| Spans.LevelSpans | PyLaTeXtables/formatting.py:13-28 | reference definition of the spans of one level, position by position, with one entry per label |
| Spans.SetPositions | PyLaTeXtables/formatting.py:15-16 | the positions of the set labels in increasing order, every set label among them, then the list length |
| Spans.PopSpans | PyLaTeXtables/formatting.py:21-26 | given the set positions and their differences, each label gets the reference span at its position |
| Spans.Differences | PyLaTeXtables/formatting.py:19 | one difference per neighbouring pair, each the later entry minus the earlier |
| Spans.SetSpansTile | PyLaTeXtables/formatting.py:13-28 | the spans of the set labels tile the list: their sum is the length minus the position of the first set label |
| Spans.LeadingAndInnerEmpties | PyLaTeXtables/formatting.py:21-26 | for `["", "", "a", "", "b"]` the spans are `[1, 1, 2, 1, 1]`: leading and inner empty labels both get 1 |
| SparseLabels.GetSparseLabels | PyLaTeXtables/formatting.py:30-49 | no labels is an error; without transpose there is one list of (label, span) pairs per level; with transpose, one list per position, as long as the shortest level |
| SparseLabels.PairUp | PyLaTeXtables/formatting.py:42-49 | each label is paired with the span at the same place, and the shape is kept |
| SparseLabels.TransposedPackaging | PyLaTeXtables/formatting.py:37-40 | the transposed result is the per-level result with positions and levels swapped |
| SparseLabels.FlatIsOneLevel | PyLaTeXtables/formatting.py:32-34 | a flat label list is packaged exactly as a single level holding it |
| Escape.EscapeTex | PyLaTeXtables/formatting.py:56-69 | the six ordered passes are one per-character escape followed by the dot-run pass |
| Escape.Ellipses | PyLaTeXtables/formatting.py:62 | the dot-run pass leaves text without dots unchanged |
| Escape.EllipsesNonDot | PyLaTeXtables/formatting.py:62 | a character other than a dot is kept, wherever it stands, and the pass goes on after it |
| Escape.EllipsesShortRun | PyLaTeXtables/formatting.py:62 | a maximal run of one or two dots is kept as it is, and the pass goes on after it |
| Escape.EscapeChar | PyLaTeXtables/formatting.py:56-61 | a character is left alone exactly when it is not one of the special characters |
| Escape.OrderedPassesAreCharwise | PyLaTeXtables/formatting.py:56-69 | the five ordered substitution passes act as one escape per character; later passes never touch what earlier ones wrote |
| Escape.EscapeTexFixes | PyLaTeXtables/formatting.py:56-69 | text with no special character and no run of three dots comes back unchanged |
| Escape.EscapeTexWithoutDots | PyLaTeXtables/formatting.py:56-69 | without dots, escaping is the character-by-character escape |
| Escape.DotRunCollapses | PyLaTeXtables/formatting.py:62 | a maximal run of three or more dots becomes one `\ldots`, and the pass goes on after it; with `EllipsesNonDot` and `EllipsesShortRun` this covers every position of the text |
| Escape.EllipsesFixes | PyLaTeXtables/formatting.py:62 | text without a run of three dots is unchanged by the ellipsis pass |
| Filters.HeaderFmt | PyLaTeXtables/formatting.py:110-117 | a dictionary entry wins; a label with `$` is kept; another non-empty label becomes exactly `$ label $`; the empty label becomes `""`; outside the dictionary, the result holds `$` exactly when the label is non-empty |
| Filters.HeaderFmtIdempotent | PyLaTeXtables/formatting.py:110-117 | formatting twice is formatting once, for a label the dictionary does not map whose formatted text the dictionary does not map either |
| Filters.VerticalText | PyLaTeXtables/formatting.py:71-74 | the result is empty exactly when the value is |
| Filters.VerticalTextRoundTrip | PyLaTeXtables/formatting.py:71-74 | the rotated value can be read back |
| Filters.Multirow | PyLaTeXtables/formatting.py:76-77 | the span and the value can be read back from every `\multirow` cell, whatever the span |
| Filters.SingleSpanStillWrapped | PyLaTeXtables/formatting.py:76-77 | a span of 1 is wrapped as well |
| Decimal.IntToDecimal | PyLaTeXtables/formatting.py:83 | `str` of an integer is non-empty, starts with `-` exactly for a negative integer, and holds only `-` and digits |
| Decimal.IntDecimalRoundTrip | PyLaTeXtables/formatting.py:83 | the decimal text of an integer parses back to it |
| Numbers.Np | PyLaTeXtables/formatting.py:79-108 | `nan` comes back as is; text that does not parse comes back unchanged; an integer is rendered as `\np{n}` with `n` readable back |
| Numbers.Notation | PyLaTeXtables/formatting.py:88-96 | `e` below 0.25, `f` from 0.25 up to 1000, `g` from 1000, and always `f` when exponents are off |
| Numbers.NegativeValuesUseExponent | PyLaTeXtables/formatting.py:89-90 | every negative value gets `e` notation |
| Numbers.IntInsideNp | PyLaTeXtables/formatting.py:82-83 | the integer inside `\np{...}` reads back as the input |
| Numbers.IntegerValuedFloatCollapses | PyLaTeXtables/formatting.py:86-87 | with `maybe_int`, an integer-valued float renders exactly as the integer |
| Numbers.ParsedTextRendersAsFloat | PyLaTeXtables/formatting.py:84-85 | text that parses as a float renders as that float |
| Numbers.MissingDigitsGiveFloatText | PyLaTeXtables/formatting.py:97-108 | with no digit count, or a negative one, the format raises and the plain float text is returned |
| Numbers.FixedNotationWithoutExponents | PyLaTeXtables/formatting.py:95-106 | with exponents off, the value is rendered in `f` notation and wrapped, and nothing is stripped |
| Numbers.NpFloat | PyLaTeXtables/formatting.py:85-108 | with `maybe_int`, an integer-valued float is `\np{n}` with `n` readable back as its integer; otherwise, without a valid digit count, the result is `str()` of the float |
| Numbers.StripExponent | PyLaTeXtables/formatting.py:98-106 | the clean-up fails exactly when the text has more than one `e`; without `e` it keeps the text; it never lengthens the text |
| Numbers.StripExponentLaw | PyLaTeXtables/formatting.py:98-105 | the exponent keeps its sign and loses its leading zeros; the mantissa is untouched |
| Numbers.NoExponentUnchanged | PyLaTeXtables/formatting.py:98-106 | a rendering without `e` is returned unchanged |
| Numbers.TwoExponentsFail | PyLaTeXtables/formatting.py:99-100 | the exponent clean-up of a text with two `e` fails, as the two-way unpacking of `split("e")` raises |
| Numbers.TwoExponentsGiveFloatText | PyLaTeXtables/formatting.py:97-108 | when the rendering holds two `e`, `np` returns `str()` of the float, the ValueError being caught |
| Numbers.ExponentNotationStripsZeros | PyLaTeXtables/formatting.py:88-105 | with exponents on, a value below 0.25 that is not collapsed is rendered in `e` notation and wrapped; its exponent keeps its sign and loses its leading zeros |
| Numbers.FixedNotationWithExponents | PyLaTeXtables/formatting.py:88-106 | with exponents on, a value from 0.25 up to 1000 that is not collapsed is rendered in `f` notation and wrapped, and a rendering without `e` is returned unchanged |
| Numbers.GeneralNotationStripsZeros | PyLaTeXtables/formatting.py:88-105 | with exponents on, a value from 1000 on that is not collapsed is rendered in `g` notation and wrapped; its exponent keeps its sign and loses its leading zeros |
| Numbers.StripZeros | PyLaTeXtables/formatting.py:105 | `lstrip("0")` never lengthens the text, and what it returns does not start with `0` |
| Numbers.StripZerosDropsZeros | PyLaTeXtables/formatting.py:105 | `lstrip("0")` removes only zeros from the front and keeps the rest of the text as it is |
| Numbers.ZeroExponentLosesDigits | PyLaTeXtables/formatting.py:102-105 | an exponent of `+00` or `-00` before the closing brace loses all its digits, so `\np{-5.50e+00}` becomes `\np{-5.50e+}` |
| Grid.NonNullRows | PyLaTeXtables/utils.py:102 | the rows kept by `dropna(axis=0, how="all")`: a row is kept exactly when it is not all-null, and there are no more than before |
| Grid.NonNullRowsAppend | PyLaTeXtables/utils.py:102 | dropping distributes over concatenation, so the kept rows stay in their order |
| Split.NullRowIndices | PyLaTeXtables/utils.py:39-46 | -1, then every all-null row index in increasing order, then the length |
| Split.SplitOnNullRows | PyLaTeXtables/utils.py:39-51 | the parts are the maximal runs of non-null rows, in order; each is non-empty and has no all-null row; together they are the input without its all-null rows |
| Split.PartsConcatenate | PyLaTeXtables/utils.py:39-51 | concatenating the parts gives the input with its all-null rows removed |
| Split.PartsAreNonNullRuns | PyLaTeXtables/utils.py:49-51 | every part has at least one row and no all-null row |
| Fill.ForwardFill | PyLaTeXtables/utils.py:77-86 | the fill of one header row gives each position the last filled value at or left of it, or `""` |
| Fill.ForwardFillCells | PyLaTeXtables/utils.py:77-86 | a filled header cell is kept; a blank one takes the last filled value to its left, or `""` when there is none; the row length is kept |
| Fill.FillIndexColumn | PyLaTeXtables/utils.py:124-133 | one index column is filled top to bottom, and the other columns are untouched |
| Fill.FillIndex | PyLaTeXtables/utils.py:119-133 | every index cell becomes the last filled value at or above it in its column, or `""`; the row count is kept |
| Header.IsHeaderRow | PyLaTeXtables/utils.py:62-66 | a row is a header row exactly when none of its present cells parses as a number |
| Header.HeaderRowCount | PyLaTeXtables/utils.py:62-72 | the header is the longest prefix of rows in which no present cell is a number |
| Header.HeaderRowCountIs | PyLaTeXtables/utils.py:62-72 | that prefix length is unique |
| Header.BuildHeader | PyLaTeXtables/utils.py:54-97 | an error exactly when there is no header row or no column; otherwise column `i`'s label tuple holds the filled header rows at `i`, and the body is the rows after the header |
| Base.Transpose | PyLaTeXtables/utils.py:89 | `zip(*rows)`: one tuple per position up to the length of the shortest row, each with one entry per row, entry `l` of tuple `p` being cell `p` of row `l` |
| Header.BlankColumnRepeatsLeft | PyLaTeXtables/utils.py:77-89 | a column blank in every header row gets the label tuple of the column on its left, so two label tuples coincide |
| Header.HeaderLabels | PyLaTeXtables/utils.py:68-92 | each label is the last filled header cell at or left of its column; header and body together are all rows; the body starts with a row holding a number |
| Cleanup.KeptColumns | PyLaTeXtables/utils.py:104 | the kept columns are in increasing order, and a column is kept exactly when it has a value |
| Cleanup.DropNullColumns | PyLaTeXtables/utils.py:104 | each row is projected onto the kept columns, and the row count is kept |
| Cleanup.Prepared | PyLaTeXtables/utils.py:101-104 | the non-null rows, in order, each projected onto the columns that still hold a value; no more columns than before |
| Cleanup.PreparedHasNoNulls | PyLaTeXtables/utils.py:101-104 | after both drops, no row and no column is all-null |
| Cleanup.SimplifyName | PyLaTeXtables/utils.py:139-145 | a label tuple becomes its last label exactly when all the others are `""`; otherwise it is kept whole |
| Cleanup.NameRoundTrip | PyLaTeXtables/utils.py:139-145 | the label tuple can be recovered from the simplified name and the header depth |
| Cleanup.Coerce | PyLaTeXtables/utils.py:147-150 | a data cell becomes a number exactly when it is present and parses; otherwise it is missing |
| Cleanup.SetIndex | PyLaTeXtables/utils.py:113-150 | `IsIndexed`, for distinct label tuples: the first `ic` columns become the index, raw when `ic == 1` and filled per column when `ic > 1`; names come from their label tuples; the other columns remain, every cell coerced |
| Cleanup.CleanupDataFrame | PyLaTeXtables/utils.py:100-152 | drops all-null rows and columns before header detection; a header error is passed on; a part without data rows is returned with its header only; then zero index columns, two columns with one label tuple, and more index columns than columns are errors, in that order; otherwise it is the table `SetIndex` describes |

## Left out

- The Jinja2 environment, the template and the file write of `write_latex` are left out: they are I/O and a foreign template engine.
- `MultiIndex.format(sparsify=True)` is left out: the sparse label lists are the input of `SparseLabels.GetSparseLabels`.
- Python's float formatting is left out: `str(float)`, `format(value, ".0{digits}{f}")` and `float()` are the parameters of `Numbers.FloatSyntax`. Infinities and float NaN are not modelled; only the text `nan` and the `NanArg` value are.
- The `unoconv` conversion, `pandas.read_csv` and its `na_values` are left out: they are I/O and a foreign parser. The grid of cells is the input.
- The pandas display options at import time are left out: they do not change any result.
- `pandas.to_numeric` and the `float()` test of `build_header` are parameters (`toNumeric`, `isNumber`). They are not tied to each other.
- Column dtypes are left out: pandas may read an all-numeric column as floats. The model keeps every cell as text and lets the two parameters decide.
- `make_table` in `PyLaTeXtables/__init__.py` is not part of this model: it joins the cleaned parts side by side with `pandas.concat(parts, axis=1).reindex(parts[0].index)`, may transpose the result, and writes the file. Those are pandas operations outside the modelled core.
- `make_examples.py` is not part of this model: it builds the example tables, recomputing EOC columns with `math.log`, which is floating point.
- Cleanup.CleanupDataFrame: a negative `index_columns` is not modelled, because `ic` is a `nat`. Python would slice the columns from the end.
- Cleanup.CleanupDataFrame: the pandas exceptions are results, and which exception is raised is not kept. `MultiIndex.from_tuples([])` raises a TypeError: `NoHeaderColumns`. `set_index([])` raises a ValueError: `NoIndexLevels`. A label tuple shared by two columns makes `df[label]` a DataFrame, on which `set_index` or `to_numeric` fails: `DuplicateLabels`. More index columns than columns: with two or more columns, the fill reads past a label tuple (IndexError); with one column, the index is flat and `list(r)` splits each cell into characters: a missing cell raises TypeError, too few characters raise IndexError, and otherwise the index gets more levels than there are names, so `set_names` raises ValueError. Both are `IndexBeyondColumns`.
- Split.SplitOnNullRows: `load_dataframes` yields the parts lazily as a generator; the model returns the whole list.
- Escape.EscapeTex: regular expressions are modelled as per-character rules plus the dot-run pass; the `re` module itself is not modelled.
