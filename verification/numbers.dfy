/**
 The `np` filter of PyLaTeXtables/formatting.py: renders a cell value as
 `\np{...}` (the numprint macro). It picks a notation from the value, lets
 Python's float formatting produce the digits, and strips leading zeros from
 the exponent. The float formatting, `float()` parsing and `str()` of a float
 are not modelled: they are the three fields of `FloatSyntax`, passed in.
 */
module Numbers {
  import opened Base
  import opened Decimal

  /** The kinds of value the filter distinguishes. */
  datatype NpArg =
    | NanArg              // a float NaN: `str(value) == "nan"`
    | IntArg(n: int)      // a Python `int`
    | FloatArg(x: real)   // a finite Python `float`
    | TextArg(s: string)  // a string, converted with `float()`

  /** The keyword arguments of `np`: `digits` is `None` by default. */
  datatype NpOptions = NpOptions(digits: Option<int>, maybeInt: bool, exponents: bool)

  /**
   Python's float handling, left abstract: `parse` is `float()` on a string
   (`None` when it raises ValueError), `repr` is `str()` of a float, and
   `render(x, d, f)` is `"{:.0<d><f>}".format(x)` for a valid precision `d`.
   */
  datatype FloatSyntax = FloatSyntax(
    parse: string -> Option<real>,
    repr: real -> string,
    render: (real, nat, char) -> string)

  /** The numprint wrapper. */
  function Wrap(body: string): string
  {
    "\\np{" + body + "}"
  }

  /** Reads back the integer inside `\np{...}`. */
  function UnwrapInt(s: string): Option<int>
  {
    if |s| >= 5 && s[..4] == "\\np{" && s[|s| - 1] == '}' then ParseInt(s[4..|s| - 1]) else None
  }

  /**
   The notation letter: with `exponents` on, below 0.25 is `e`, from 0.25 up
   to 1000 is `f`, and from 1000 on is `g`; with `exponents` off, always `f`.
   The value is compared with its sign.
   */
  function Notation(x: real, exponents: bool): (f: char)
    ensures f == 'e' <==> exponents && x < 0.25
    ensures f == 'f' <==> !exponents || 0.25 <= x < 1000.0
    ensures f == 'g' <==> exponents && 1000.0 <= x
  {
    if exponents then
      if x < 0.25 then 'e' else if x < 1000.0 then 'f' else 'g'
    else 'f'
  }

  function CountChar(s: string, c: char): nat
  {
    if |s| == 0 then 0 else (if s[0] == c then 1 else 0) + CountChar(s[1..], c)
  }

  /** The first position of `c` in `s`. */
  function IndexOf(s: string, c: char): (i: nat)
    requires CountChar(s, c) > 0
    ensures i < |s| && s[i] == c
    ensures forall k :: 0 <= k < i ==> s[k] != c
  {
    if s[0] == c then 0 else 1 + IndexOf(s[1..], c)
  }

  /** `s.lstrip("0")`: no longer than `s`, and not starting with `0`. */
  function StripZeros(s: string): (z: string)
    ensures |z| <= |s|
    ensures |z| == 0 || z[0] != '0'
  {
    if |s| > 0 && s[0] == '0' then StripZeros(s[1..]) else s
  }

  /** What `lstrip("0")` removes is a run of zeros at the front; what it keeps is the rest of `s`. */
  lemma {:induction false} StripZerosDropsZeros(s: string)
    ensures var z := StripZeros(s);
      && z == s[|s| - |z|..]
      && forall i :: 0 <= i < |s| - |z| ==> s[i] == '0'
    decreases |s|
  {
    if |s| > 0 && s[0] == '0' {
      StripZerosDropsZeros(s[1..]);
      var z := StripZeros(s);
      assert s[1..][|s| - 1 - |z|..] == s[|s| - |z|..];
      assert forall i :: 1 <= i < |s| - |z| ==> s[1..][i - 1] == s[i];
    }
  }

  /**
   The exponent clean-up of `np`: with no `e` the text is kept; with exactly
   one `e` the sign character after it is kept and leading zeros of the rest
   are stripped; with more than one `e` the unpacking of `split("e")` raises
   ValueError, shown as `None`.
   */
  function StripExponent(fnum: string): (r: Option<string>)
    ensures r.None? <==> CountChar(fnum, 'e') > 1
    ensures CountChar(fnum, 'e') == 0 ==> r == Some(fnum)
    ensures r.Some? ==> |r.value| <= |fnum|
  {
    var count := CountChar(fnum, 'e');
    if count == 0 then Some(fnum)
    else if count > 1 then None
    else
      var i := IndexOf(fnum, 'e');
      var a := fnum[..i] + "e";
      var b := fnum[i + 1..];
      if |b| > 0 && (b[0] == '-' || b[0] == '+') then Some(a + [b[0]] + StripZeros(b[1..]))
      else Some(a + StripZeros(b))
  }

  /**
   `np` once `value` is a float: an integer-valued float collapses to its
   integer under `maybe_int`; otherwise the format decides, and its failures
   give `str()` of the float.
   */
  function NpFloat(x: real, opts: NpOptions, syntax: FloatSyntax): (r: string)
    ensures opts.maybeInt && x == x.Floor as real ==> UnwrapInt(r) == Some(x.Floor)
    ensures !(opts.maybeInt && x == x.Floor as real) && (opts.digits.None? || opts.digits.value < 0) ==> r == syntax.repr(x)
  {
    if opts.maybeInt && x == x.Floor as real then IntInsideNp(x.Floor); Wrap(IntToDecimal(x.Floor))
    else if opts.digits.None? || opts.digits.value < 0 then syntax.repr(x)
    else
      var fnum := Wrap(syntax.render(x, opts.digits.value, Notation(x, opts.exponents)));
      match StripExponent(fnum)
      case Some(r) => r
      case None => syntax.repr(x)
  }

  /** The `np` filter. */
  function Np(value: NpArg, opts: NpOptions, syntax: FloatSyntax): (r: string)
    ensures value == NanArg || value == TextArg("nan") ==> r == "nan"
    ensures value.TextArg? && syntax.parse(value.s).None? ==> r == value.s
    ensures value.IntArg? ==> UnwrapInt(r) == Some(value.n)
  {
    match value
    case NanArg => "nan"
    case IntArg(n) => IntInsideNp(n); Wrap(IntToDecimal(n))
    case FloatArg(x) => NpFloat(x, opts, syntax)
    case TextArg(s) =>
      if s == "nan" then s
      else match syntax.parse(s)
        case None => s
        case Some(x) => NpFloat(x, opts, syntax)
  }

  lemma IntInsideNp(n: int)
    ensures UnwrapInt(Wrap(IntToDecimal(n))) == Some(n)
  {
    var w := Wrap(IntToDecimal(n));
    assert w[..4] == "\\np{";
    assert w[4..|w| - 1] == IntToDecimal(n);
    IntDecimalRoundTrip(n);
  }

  /** With `maybe_int`, an integer-valued float renders exactly like the integer. */
  lemma IntegerValuedFloatCollapses(n: int, opts: NpOptions, syntax: FloatSyntax)
    requires opts.maybeInt
    ensures Np(FloatArg(n as real), opts, syntax) == Np(IntArg(n), opts, syntax)
  {
    assert (n as real).Floor == n;
  }

  /** A string `float()` accepts renders like the float it parses to. */
  lemma ParsedTextRendersAsFloat(s: string, x: real, opts: NpOptions, syntax: FloatSyntax)
    requires s != "nan" && syntax.parse(s) == Some(x)
    ensures Np(TextArg(s), opts, syntax) == Np(FloatArg(x), opts, syntax)
  {
  }

  /**
   Without a valid `digits` the format string raises ValueError, and a value
   that is not collapsed to an integer comes back as `str()` of the float.
   */
  lemma MissingDigitsGiveFloatText(x: real, opts: NpOptions, syntax: FloatSyntax)
    requires opts.digits.None? || opts.digits.value < 0
    requires !opts.maybeInt || x != x.Floor as real
    ensures Np(FloatArg(x), opts, syntax) == syntax.repr(x)
  {
  }

  /** Every negative value is given `e` notation when exponents are on. */
  lemma NegativeValuesUseExponent(x: real)
    requires x < 0.0
    ensures Notation(x, true) == 'e'
  {
  }

  lemma {:induction false} CountCharAppend(a: string, b: string, c: char)
    ensures CountChar(a + b, c) == CountChar(a, c) + CountChar(b, c)
    decreases |a|
  {
    if |a| == 0 {
      assert a + b == b;
    } else {
      assert (a + b)[1..] == a[1..] + b;
      CountCharAppend(a[1..], b, c);
    }
  }

  lemma {:induction false} CountCharZero(s: string, c: char)
    requires forall i :: 0 <= i < |s| ==> s[i] != c
    ensures CountChar(s, c) == 0
    decreases |s|
  {
    if |s| > 0 {
      CountCharZero(s[1..], c);
    }
  }

  lemma {:induction false} CountCharPositive(s: string, c: char, i: nat)
    requires i < |s| && s[i] == c
    ensures CountChar(s, c) > 0
    decreases i
  {
    if i > 0 {
      CountCharPositive(s[1..], c, i - 1);
    }
  }

  /**
   The exponent law: after the `e` the sign is kept and a run of zeros
   disappears, the mantissa and the remaining digits being untouched.
   */
  lemma StripExponentLaw(m: string, sign: string, zeros: string, rest: string)
    requires forall i :: 0 <= i < |m| ==> m[i] != 'e'
    requires forall i :: 0 <= i < |rest| ==> rest[i] != 'e'
    requires sign == "" || sign == "+" || sign == "-"
    requires forall i :: 0 <= i < |zeros| ==> zeros[i] == '0'
    requires |rest| == 0 || (rest[0] != '0' && rest[0] != '+' && rest[0] != '-')
    ensures StripExponent(m + "e" + sign + zeros + rest) == Some(m + "e" + sign + rest)
  {
    if sign == "" {
      assert m + "e" + sign + zeros + rest == m + "e" + (zeros + rest);
      assert m + "e" + sign + rest == m + "e" + rest;
      UnsignedExponent(m, zeros, rest);
    } else {
      assert m + "e" + sign + zeros + rest == m + "e" + ([sign[0]] + zeros + rest);
      assert m + "e" + sign + rest == m + "e" + [sign[0]] + rest;
      SignedExponent(m, sign[0], zeros, rest);
    }
  }

  lemma UnsignedExponent(m: string, zeros: string, rest: string)
    requires forall i :: 0 <= i < |m| ==> m[i] != 'e'
    requires forall i :: 0 <= i < |rest| ==> rest[i] != 'e'
    requires forall i :: 0 <= i < |zeros| ==> zeros[i] == '0'
    requires |rest| == 0 || (rest[0] != '0' && rest[0] != '+' && rest[0] != '-')
    ensures StripExponent(m + "e" + (zeros + rest)) == Some(m + "e" + rest)
  {
    var tail := zeros + rest;
    assert forall i :: 0 <= i < |tail| ==> tail[i] != 'e';
    StripExponentAtOnlyE(m, tail);
    StripZerosOfRun(zeros, rest);
    assert |zeros| > 0 ==> tail[0] == '0';
    assert |zeros| == 0 ==> tail == rest;
  }

  lemma SignedExponent(m: string, sign: char, zeros: string, rest: string)
    requires forall i :: 0 <= i < |m| ==> m[i] != 'e'
    requires forall i :: 0 <= i < |rest| ==> rest[i] != 'e'
    requires sign == '+' || sign == '-'
    requires forall i :: 0 <= i < |zeros| ==> zeros[i] == '0'
    requires |rest| == 0 || rest[0] != '0'
    ensures StripExponent(m + "e" + ([sign] + zeros + rest)) == Some(m + "e" + [sign] + rest)
  {
    var tail := [sign] + zeros + rest;
    assert forall i :: 0 <= i < |tail| ==> tail[i] != 'e';
    StripExponentAtOnlyE(m, tail);
    StripZerosOfRun(zeros, rest);
    assert tail[1..] == zeros + rest;
  }

  /** `m + "e" + tail` with no other `e` has exactly one, right after `m`. */
  lemma OnlyE(m: string, tail: string)
    requires forall i :: 0 <= i < |m| ==> m[i] != 'e'
    requires forall i :: 0 <= i < |tail| ==> tail[i] != 'e'
    ensures CountChar(m + "e" + tail, 'e') == 1
    ensures IndexOf(m + "e" + tail, 'e') == |m|
  {
    var fnum := m + "e" + tail;
    assert fnum == m + ("e" + tail);
    CountCharZero(m, 'e');
    CountCharZero(tail, 'e');
    CountCharAppend(m, "e" + tail, 'e');
    CountCharAppend("e", tail, 'e');
    assert fnum[|m|] == 'e';
    assert forall k :: 0 <= k < |m| ==> fnum[k] == m[k];
  }

  /** With exactly one `e`, the clean-up splits there. */
  lemma StripExponentAtOnlyE(m: string, tail: string)
    requires forall i :: 0 <= i < |m| ==> m[i] != 'e'
    requires forall i :: 0 <= i < |tail| ==> tail[i] != 'e'
    ensures StripExponent(m + "e" + tail) ==
      if |tail| > 0 && (tail[0] == '-' || tail[0] == '+') then Some(m + "e" + [tail[0]] + StripZeros(tail[1..]))
      else Some(m + "e" + StripZeros(tail))
  {
    var fnum := m + "e" + tail;
    OnlyE(m, tail);
    assert fnum[..|m|] == m;
    assert fnum[|m| + 1..] == tail;
  }

  lemma {:induction false} StripZerosOfRun(zeros: string, rest: string)
    requires forall i :: 0 <= i < |zeros| ==> zeros[i] == '0'
    requires |rest| == 0 || rest[0] != '0'
    ensures StripZeros(zeros + rest) == rest
    decreases |zeros|
  {
    if |zeros| == 0 {
      assert zeros + rest == rest;
    } else {
      assert (zeros + rest)[1..] == zeros[1..] + rest;
      StripZerosOfRun(zeros[1..], rest);
    }
  }

  /** A text without `e` passes the clean-up unchanged. */
  lemma NoExponentUnchanged(fnum: string)
    requires forall i :: 0 <= i < |fnum| ==> fnum[i] != 'e'
    ensures StripExponent(fnum) == Some(fnum)
  {
    CountCharZero(fnum, 'e');
  }

  /** Two `e`s make the unpacking fail. */
  lemma TwoExponentsFail(fnum: string, i: nat, j: nat)
    requires i < j < |fnum| && fnum[i] == 'e' && fnum[j] == 'e'
    ensures StripExponent(fnum) == None
  {
    assert fnum == fnum[..j] + fnum[j..];
    CountCharPositive(fnum[..j], 'e', i);
    CountCharPositive(fnum[j..], 'e', 0);
    CountCharAppend(fnum[..j], fnum[j..], 'e');
  }

  /**
   An exponent of zero loses all its digits: `-5.5` in `e` notation with two
   digits is `\np{-5.50e+00}`, which comes out as `\np{-5.50e+}`. The
   closing brace is part of the text the zeros are stripped from.
   */
  lemma ZeroExponentLosesDigits(m: string, sign: string)
    requires forall i :: 0 <= i < |m| ==> m[i] != 'e'
    requires sign == "+" || sign == "-"
    ensures StripExponent(m + "e" + sign + "00}") == Some(m + "e" + sign + "}")
  {
    StripExponentLaw(m, sign, "00", "}");
    assert m + "e" + sign + "00" + "}" == m + "e" + sign + "00}";
  }

  /**
   The `e` path of `np` with exponents on: a value below 0.25 that is not
   collapsed to an integer is rendered in `e` notation, and the zeros
   leading its exponent are dropped while the sign stays.
   */
  lemma ExponentNotationStripsZeros(x: real, d: nat, opts: NpOptions, syntax: FloatSyntax,
                                    m: string, sign: string, zeros: string, rest: string)
    requires opts.exponents && opts.digits == Some(d as int) && x < 0.25
    requires !opts.maybeInt || x != x.Floor as real
    requires syntax.render(x, d, 'e') == m + "e" + sign + zeros + rest
    requires forall i :: 0 <= i < |m| ==> m[i] != 'e'
    requires forall i :: 0 <= i < |rest| ==> rest[i] != 'e'
    requires sign == "" || sign == "+" || sign == "-"
    requires forall i :: 0 <= i < |zeros| ==> zeros[i] == '0'
    requires |rest| == 0 || (rest[0] != '0' && rest[0] != '+' && rest[0] != '-')
    ensures Np(FloatArg(x), opts, syntax) == "\\np{" + m + "e" + sign + rest + "}"
  {
    WrappedExponent(m, sign, zeros, rest);
  }

  /** The exponent law inside the numprint wrapper: its closing brace is kept. */
  lemma WrappedExponent(m: string, sign: string, zeros: string, rest: string)
    requires forall i :: 0 <= i < |m| ==> m[i] != 'e'
    requires forall i :: 0 <= i < |rest| ==> rest[i] != 'e'
    requires sign == "" || sign == "+" || sign == "-"
    requires forall i :: 0 <= i < |zeros| ==> zeros[i] == '0'
    requires |rest| == 0 || (rest[0] != '0' && rest[0] != '+' && rest[0] != '-')
    ensures StripExponent(Wrap(m + "e" + sign + zeros + rest)) == Some("\\np{" + m + "e" + sign + rest + "}")
  {
    NoExponentAround(m, rest);
    StripExponentLaw("\\np{" + m, sign, zeros, rest + "}");
    WrapRegroup("\\np{", m, "e", sign, zeros, rest, "}");
    Regroup("\\np{" + m + "e" + sign, rest, "}");
  }

  /** The wrapper adds no `e`. */
  lemma NoExponentAround(m: string, rest: string)
    requires forall i :: 0 <= i < |m| ==> m[i] != 'e'
    requires forall i :: 0 <= i < |rest| ==> rest[i] != 'e'
    ensures forall i :: 0 <= i < |"\\np{" + m| ==> ("\\np{" + m)[i] != 'e'
    ensures forall i :: 0 <= i < |rest + "}"| ==> (rest + "}")[i] != 'e'
  {
    var head := "\\np{" + m;
    assert forall i :: 4 <= i < |head| ==> head[i] == m[i - 4];
    var tail := rest + "}";
    assert forall i :: 0 <= i < |rest| ==> tail[i] == rest[i];
  }

  lemma WrapRegroup(a: string, m: string, e: string, s: string, z: string, r: string, c: string)
    ensures a + (m + e + s + z + r) + c == a + m + e + s + z + (r + c)
  {
  }

  lemma Regroup(x: string, r: string, c: string)
    ensures x + (r + c) == x + r + c
  {
  }

  /**
   When the rendering holds two `e`s, `np` falls back to `str()` of the
   float: the failed unpacking is a ValueError, which the filter catches.
   */
  lemma TwoExponentsGiveFloatText(x: real, d: nat, opts: NpOptions, syntax: FloatSyntax, i: nat, j: nat)
    requires opts.digits == Some(d as int)
    requires !opts.maybeInt || x != x.Floor as real
    requires var t := syntax.render(x, d, Notation(x, opts.exponents)); i < j < |t| && t[i] == 'e' && t[j] == 'e'
    ensures Np(FloatArg(x), opts, syntax) == syntax.repr(x)
  {
    var t := syntax.render(x, d, Notation(x, opts.exponents));
    var w := Wrap(t);
    assert w[i + 4] == t[i] && w[j + 4] == t[j];
    TwoExponentsFail(w, i + 4, j + 4);
  }

  /** A rendering without `e` stays without `e` inside the wrapper, so the clean-up keeps it. */
  lemma WrapWithoutExponent(body: string)
    requires forall i :: 0 <= i < |body| ==> body[i] != 'e'
    ensures StripExponent(Wrap(body)) == Some(Wrap(body))
  {
    var w := Wrap(body);
    assert forall i :: 0 <= i < |w| ==> w[i] != 'e' by {
      assert forall i :: 4 <= i < 4 + |body| ==> w[i] == body[i - 4];
    }
    NoExponentUnchanged(w);
  }

  /**
   With exponents off, a non-integer value with valid digits is rendered in
   fixed notation and, when the rendering has no `e`, kept as rendered.
   */
  lemma FixedNotationWithoutExponents(x: real, d: nat, opts: NpOptions, syntax: FloatSyntax)
    requires !opts.exponents && opts.digits == Some(d as int)
    requires !opts.maybeInt || x != x.Floor as real
    requires forall i :: 0 <= i < |syntax.render(x, d, 'f')| ==> syntax.render(x, d, 'f')[i] != 'e'
    ensures Np(FloatArg(x), opts, syntax) == Wrap(syntax.render(x, d, 'f'))
  {
    WrapWithoutExponent(syntax.render(x, d, 'f'));
  }

  /**
   With exponents on, a value from 0.25 up to 1000 that is not collapsed is
   rendered in fixed notation and, when the rendering has no `e`, kept as rendered.
   */
  lemma FixedNotationWithExponents(x: real, d: nat, opts: NpOptions, syntax: FloatSyntax)
    requires opts.exponents && opts.digits == Some(d as int) && 0.25 <= x < 1000.0
    requires !opts.maybeInt || x != x.Floor as real
    requires forall i :: 0 <= i < |syntax.render(x, d, 'f')| ==> syntax.render(x, d, 'f')[i] != 'e'
    ensures Np(FloatArg(x), opts, syntax) == Wrap(syntax.render(x, d, 'f'))
  {
    WrapWithoutExponent(syntax.render(x, d, 'f'));
  }

  /**
   The `g` path of `np` with exponents on: a value from 1000 on that is not
   collapsed is rendered in `g` notation, and when that rendering has an
   exponent, its leading zeros are dropped while the sign stays.
   */
  lemma GeneralNotationStripsZeros(x: real, d: nat, opts: NpOptions, syntax: FloatSyntax,
                                   m: string, sign: string, zeros: string, rest: string)
    requires opts.exponents && opts.digits == Some(d as int) && x >= 1000.0
    requires !opts.maybeInt || x != x.Floor as real
    requires syntax.render(x, d, 'g') == m + "e" + sign + zeros + rest
    requires forall i :: 0 <= i < |m| ==> m[i] != 'e'
    requires forall i :: 0 <= i < |rest| ==> rest[i] != 'e'
    requires sign == "" || sign == "+" || sign == "-"
    requires forall i :: 0 <= i < |zeros| ==> zeros[i] == '0'
    requires |rest| == 0 || (rest[0] != '0' && rest[0] != '+' && rest[0] != '-')
    ensures Np(FloatArg(x), opts, syntax) == "\\np{" + m + "e" + sign + rest + "}"
  {
    WrappedExponent(m, sign, zeros, rest);
  }
}
