/**
 The label and cell wrappers registered as template filters in
 PyLaTeXtables/formatting.py: `header_fmt`, `vertical_text` and `multirow`.
 The header dictionary, a closure variable in the source, is a parameter.
 */
module Filters {
  import opened Base
  import opened Decimal

  /**
   `header_fmt`: a dictionary entry wins; otherwise a label that already
   holds `$` is kept, a non-empty label is put in math mode as `$ label $`,
   and the empty label stays empty.
   */
  function HeaderFmt(value: string, headerDict: map<string, string>): (r: string)
    ensures value in headerDict ==> r == headerDict[value]
    ensures value !in headerDict ==> ('$' in r <==> value != "")
    ensures value !in headerDict && '$' in value ==> r == value
    ensures value !in headerDict && '$' !in value ==> r == (if value == "" then "" else "$ " + value + " $")
  {
    if value in headerDict then headerDict[value]
    else if '$' in value then value
    else if value != "" then "$ " + value + " $"
    else ""
  }

  /**
   Formatting a formatted label again changes nothing, unless the dictionary
   maps the formatted text itself.
   */
  lemma HeaderFmtIdempotent(value: string, headerDict: map<string, string>)
    requires value !in headerDict
    requires HeaderFmt(value, headerDict) !in headerDict
    ensures HeaderFmt(HeaderFmt(value, headerDict), headerDict) == HeaderFmt(value, headerDict)
  {
  }

  const RotateOpen := "\\rotatebox[origin=c]{90}{"

  /** `vertical_text`: a non-empty value is rotated by 90 degrees; the empty value stays empty. */
  function VerticalText(value: string): (r: string)
    ensures r == "" <==> value == ""
  {
    if value != "" then RotateOpen + value + "}" else ""
  }

  /** Reads back the value `vertical_text` rotated. */
  function UnrotateText(s: string): Option<string>
  {
    if s == "" then Some("")
    else if |s| > |RotateOpen| && s[..|RotateOpen|] == RotateOpen && s[|s| - 1] == '}' then
      Some(s[|RotateOpen|..|s| - 1])
    else None
  }

  lemma VerticalTextRoundTrip(value: string)
    ensures UnrotateText(VerticalText(value)) == Some(value)
  {
    if value != "" {
      var r := VerticalText(value);
      assert r[..|RotateOpen|] == RotateOpen;
      assert r[|RotateOpen|..|r| - 1] == value;
    }
  }

  const MultirowOpen := "\\multirow{"
  const MultirowMiddle := "}{*}{"

  /**
   `multirow`: wraps the value for a merged cell of `span` rows, whatever the
   span; the span and the value can be read back from the result.
   */
  function Multirow(value: string, span: int): (r: string)
    ensures ParseMultirow(r) == Some((span, value))
  {
    var number := IntToDecimal(span);
    IntDecimalRoundTrip(span);
    ParseMultirowParts(number, span, value);
    MultirowOpen + (number + (MultirowMiddle + value + "}"))
  }

  predicate IsNumberChar(c: char)
  {
    c == '-' || IsDigit(c)
  }

  /** The length of the run of sign and digit characters at the start of `s`. */
  function NumberRun(s: string): (k: nat)
    ensures k <= |s|
    ensures forall i :: 0 <= i < k ==> IsNumberChar(s[i])
    ensures k < |s| ==> !IsNumberChar(s[k])
  {
    if |s| == 0 || !IsNumberChar(s[0]) then 0 else 1 + NumberRun(s[1..])
  }

  /** Reads back the span and the value of a `\multirow` cell. */
  function ParseMultirow(s: string): Option<(int, string)>
  {
    if |s| < |MultirowOpen| || s[..|MultirowOpen|] != MultirowOpen then None
    else
      var rest := s[|MultirowOpen|..];
      var k := NumberRun(rest);
      match ParseInt(rest[..k])
      case None => None
      case Some(span) =>
        var tail := rest[k..];
        if |tail| > |MultirowMiddle| && tail[..|MultirowMiddle|] == MultirowMiddle && tail[|tail| - 1] == '}' then
          Some((span, tail[|MultirowMiddle|..|tail| - 1]))
        else None
  }

  lemma {:induction false} NumberRunOfNumber(number: string, rest: string)
    requires forall i :: 0 <= i < |number| ==> IsNumberChar(number[i])
    requires |rest| > 0 && !IsNumberChar(rest[0])
    ensures NumberRun(number + rest) == |number|
    decreases |number|
  {
    if |number| == 0 {
      assert number + rest == rest;
    } else {
      assert (number + rest)[1..] == number[1..] + rest;
      NumberRunOfNumber(number[1..], rest);
    }
  }

  lemma ParseMultirowParts(number: string, span: int, value: string)
    requires forall i :: 0 <= i < |number| ==> IsNumberChar(number[i])
    requires ParseInt(number) == Some(span)
    ensures ParseMultirow(MultirowOpen + (number + (MultirowMiddle + value + "}"))) == Some((span, value))
  {
    var tail := MultirowMiddle + value + "}";
    var s := MultirowOpen + (number + tail);
    assert s[..|MultirowOpen|] == MultirowOpen;
    assert s[|MultirowOpen|..] == number + tail;
    NumberRunOfNumber(number, tail);
    assert (number + tail)[..|number|] == number;
    assert (number + tail)[|number|..] == tail;
    TailOfMultirow(value);
  }

  lemma TailOfMultirow(value: string)
    ensures var tail := MultirowMiddle + value + "}";
      && |tail| > |MultirowMiddle|
      && tail[..|MultirowMiddle|] == MultirowMiddle
      && tail[|tail| - 1] == '}'
      && tail[|MultirowMiddle|..|tail| - 1] == value
  {
  }

  /** A span of 1 still gets the wrapper: the code as written never leaves a cell bare. */
  lemma SingleSpanStillWrapped(value: string)
    ensures Multirow(value, 1) != value
  {
    var r := Multirow(value, 1);
    assert |r| > |value|;
  }
}
