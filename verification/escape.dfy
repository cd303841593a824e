/**
 `escape_tex` from PyLaTeXtables/formatting.py: six regular-expression
 substitutions (`LATEX_SUBS`) applied one after another. The first five each
 replace single characters; the last collapses runs of three or more dots.
 Running the backslash rule first is what keeps the backslashes added by the
 later rules from being rewritten.
 */
module Escape {

  /** Replaces every character by the string a per-character rule gives it. */
  function Substitute(s: string, rule: char -> string): string
  {
    if |s| == 0 then "" else rule(s[0]) + Substitute(s[1..], rule)
  }

  /** Rule 1: `\` becomes `\textbackslash`. */
  function BackslashRule(c: char): string
  {
    if c == '\\' then "\\textbackslash" else [c]
  }

  /** The characters rule 2 prefixes with a backslash. */
  predicate IsPrefixed(c: char)
  {
    c == '{' || c == '}' || c == '_' || c == '#' || c == '%' || c == '&' || c == '$'
  }

  /** Rule 2: each of `{ } _ # % & $` gets a backslash in front. */
  function PrefixRule(c: char): string
  {
    if IsPrefixed(c) then ['\\', c] else [c]
  }

  /** Rule 3: `~` becomes `\~{}`. */
  function TildeRule(c: char): string
  {
    if c == '~' then "\\~{}" else [c]
  }

  /** Rule 4: `^` becomes `\^{}`. */
  function CaretRule(c: char): string
  {
    if c == '^' then "\\^{}" else [c]
  }

  /** Rule 5: a straight double quote becomes two single quotes. */
  function QuoteRule(c: char): string
  {
    if c == '"' then "''" else [c]
  }

  /** The length of the run of dots at the start of `s`. */
  function DotRun(s: string): (k: nat)
    ensures k <= |s|
    ensures forall i :: 0 <= i < k ==> s[i] == '.'
    ensures k < |s| ==> s[k] != '.'
  {
    if |s| == 0 || s[0] != '.' then 0 else 1 + DotRun(s[1..])
  }

  /**
   Rule 6, `re.sub(r'\.\.\.+', r'\\ldots', s)`: scanning left to right, each
   maximal run of three or more dots becomes one `\ldots`; shorter runs stay.
   */
  function Ellipses(s: string): (r: string)
    ensures (forall i :: 0 <= i < |s| ==> s[i] != '.') ==> r == s
    decreases |s|
  {
    if |s| == 0 then ""
    else if s[0] != '.' then [s[0]] + Ellipses(s[1..])
    else
      var k := DotRun(s);
      if k >= 3 then "\\ldots" + Ellipses(s[k..]) else s[..k] + Ellipses(s[k..])
  }

  /**
   `escape_tex`: the six rules in the order of `LATEX_SUBS`. The first five
   passes amount to one per-character escape, which the dot-run pass follows.
   */
  function EscapeTex(s: string): (r: string)
    ensures r == Ellipses(Substitute(s, EscapeChar))
  {
    var t1 := Substitute(s, BackslashRule);
    var t2 := Substitute(t1, PrefixRule);
    var t3 := Substitute(t2, TildeRule);
    var t4 := Substitute(t3, CaretRule);
    var t5 := Substitute(t4, QuoteRule);
    OrderedPassesAreCharwise(s);
    Ellipses(t5)
  }

  /** The characters some rule 1-5 rewrites. */
  predicate IsSpecial(c: char)
  {
    c == '\\' || IsPrefixed(c) || c == '~' || c == '^' || c == '"'
  }

  /** What rules 1-5 together make of one input character. */
  function EscapeChar(c: char): (r: string)
    ensures !IsSpecial(c) <==> r == [c]
  {
    if c == '\\' then "\\textbackslash"
    else if IsPrefixed(c) then ['\\', c]
    else if c == '~' then "\\~{}"
    else if c == '^' then "\\^{}"
    else if c == '"' then "''"
    else [c]
  }

  lemma {:induction false} SubstituteAppend(a: string, b: string, rule: char -> string)
    ensures Substitute(a + b, rule) == Substitute(a, rule) + Substitute(b, rule)
    decreases |a|
  {
    if |a| > 0 {
      assert (a + b)[0] == a[0];
      assert (a + b)[1..] == a[1..] + b;
      SubstituteAppend(a[1..], b, rule);
    } else {
      assert a + b == b;
    }
  }

  /** A string whose characters a rule leaves alone is left alone as a whole. */
  lemma {:induction false} SubstituteFixes(s: string, rule: char -> string)
    requires forall i :: 0 <= i < |s| ==> rule(s[i]) == [s[i]]
    ensures Substitute(s, rule) == s
    decreases |s|
  {
    if |s| > 0 {
      SubstituteFixes(s[1..], rule);
    }
  }

  /** Rules 1-5 applied in order, each as one pass over the whole string. */
  function Passes(s: string): string
  {
    Substitute(Substitute(Substitute(Substitute(Substitute(s, BackslashRule), PrefixRule), TildeRule), CaretRule), QuoteRule)
  }

  lemma SubstituteOne(c: char, rule: char -> string)
    ensures Substitute([c], rule) == rule(c)
  {
    assert [c][1..] == "";
  }

  /** Backslashes and lower-case letters pass rules 2-5 untouched. */
  lemma LaterRulesFixLetters(t: string)
    requires forall i :: 0 <= i < |t| ==> t[i] == '\\' || 'a' <= t[i] <= 'z'
    ensures Substitute(t, PrefixRule) == t
    ensures Substitute(t, TildeRule) == t
    ensures Substitute(t, CaretRule) == t
    ensures Substitute(t, QuoteRule) == t
  {
    LettersFixedBy(t, PrefixRule);
    LettersFixedBy(t, TildeRule);
    LettersFixedBy(t, CaretRule);
    LettersFixedBy(t, QuoteRule);
  }

  lemma LettersFixedBy(t: string, rule: char -> string)
    requires forall i :: 0 <= i < |t| ==> t[i] == '\\' || 'a' <= t[i] <= 'z'
    requires forall c: char :: c == '\\' || 'a' <= c <= 'z' ==> rule(c) == [c]
    ensures Substitute(t, rule) == t
  {
    SubstituteFixes(t, rule);
  }

  lemma PassesOfBackslash()
    ensures Passes("\\") == EscapeChar('\\')
  {
    var t := "\\textbackslash";
    SubstituteOne('\\', BackslashRule);
    assert Substitute("\\", BackslashRule) == t;
    LaterRulesFixLetters(t);
    assert Substitute(t, PrefixRule) == t;
    assert Substitute(Substitute(t, PrefixRule), TildeRule) == t;
    assert Substitute(Substitute(Substitute(t, PrefixRule), TildeRule), CaretRule) == t;
  }

  lemma PassesOfPrefixed(c: char)
    requires IsPrefixed(c)
    ensures Passes([c]) == EscapeChar(c)
  {
    var t := ['\\', c];
    SubstituteOne(c, BackslashRule);
    SubstituteOne(c, PrefixRule);
    SubstituteFixes(t, TildeRule);
    SubstituteFixes(t, CaretRule);
    SubstituteFixes(t, QuoteRule);
  }

  lemma PassesOfTilde()
    ensures Passes("~") == EscapeChar('~')
  {
    var t := "\\~{}";
    SubstituteOne('~', BackslashRule);
    SubstituteOne('~', PrefixRule);
    SubstituteOne('~', TildeRule);
    SubstituteFixes(t, CaretRule);
    SubstituteFixes(t, QuoteRule);
  }

  lemma PassesOfCaret()
    ensures Passes("^") == EscapeChar('^')
  {
    var t := "\\^{}";
    SubstituteOne('^', BackslashRule);
    SubstituteOne('^', PrefixRule);
    SubstituteOne('^', TildeRule);
    SubstituteOne('^', CaretRule);
    SubstituteFixes(t, QuoteRule);
  }

  lemma PassesOfOther(c: char)
    requires c != '\\' && !IsPrefixed(c) && c != '~' && c != '^'
    ensures Passes([c]) == EscapeChar(c)
  {
    SubstituteOne(c, BackslashRule);
    SubstituteOne(c, PrefixRule);
    SubstituteOne(c, TildeRule);
    SubstituteOne(c, CaretRule);
    SubstituteOne(c, QuoteRule);
  }

  lemma PassesOfChar(c: char)
    ensures Passes([c]) == EscapeChar(c)
  {
    if c == '\\' {
      PassesOfBackslash();
    } else if IsPrefixed(c) {
      PassesOfPrefixed(c);
    } else if c == '~' {
      PassesOfTilde();
    } else if c == '^' {
      PassesOfCaret();
    } else {
      PassesOfOther(c);
    }
  }

  /**
   Because the backslash rule runs first, rules 1-5 in sequence act as one
   simultaneous per-character translation: no backslash added by rules 2-4 is
   rewritten by rule 1, and nothing added is escaped twice.
   */
  lemma {:induction false} OrderedPassesAreCharwise(s: string)
    ensures Passes(s) == Substitute(s, EscapeChar)
    decreases |s|
  {
    if |s| > 0 {
      var head, tail := [s[0]], s[1..];
      assert s == head + tail;
      var t1a, t1b := Substitute(head, BackslashRule), Substitute(tail, BackslashRule);
      SubstituteAppend(head, tail, BackslashRule);
      var t2a, t2b := Substitute(t1a, PrefixRule), Substitute(t1b, PrefixRule);
      SubstituteAppend(t1a, t1b, PrefixRule);
      var t3a, t3b := Substitute(t2a, TildeRule), Substitute(t2b, TildeRule);
      SubstituteAppend(t2a, t2b, TildeRule);
      var t4a, t4b := Substitute(t3a, CaretRule), Substitute(t3b, CaretRule);
      SubstituteAppend(t3a, t3b, CaretRule);
      SubstituteAppend(t4a, t4b, QuoteRule);
      assert Passes(s) == Passes(head) + Passes(tail);
      PassesOfChar(s[0]);
      OrderedPassesAreCharwise(tail);
    }
  }

  /** No three consecutive dots anywhere in `s`. */
  predicate NoDotRun(s: string)
  {
    forall i :: 0 <= i < |s| - 2 ==> !(s[i] == '.' && s[i + 1] == '.' && s[i + 2] == '.')
  }

  lemma {:induction false} EllipsesFixes(s: string)
    requires NoDotRun(s)
    ensures Ellipses(s) == s
    decreases |s|
  {
    if |s| > 0 {
      var k := DotRun(s);
      if |s| >= 3 {
        assert !(s[0] == '.' && s[1] == '.' && s[2] == '.');
      }
      if s[0] != '.' {
        assert forall i :: 0 <= i < |s| - 3 ==> s[1..][i] == s[i + 1];
        EllipsesFixes(s[1..]);
      } else {
        assert k < 3;
        assert forall i :: 0 <= i < |s| - k - 2 ==> s[k..][i] == s[i + k];
        EllipsesFixes(s[k..]);
        assert s[..k] + s[k..] == s;
      }
    }
  }

  /** A string of `k` dots. */
  function Dots(k: nat): (d: string)
    ensures |d| == k && forall i :: 0 <= i < k ==> d[i] == '.'
  {
    seq(k, _ => '.')
  }

  /** A maximal run of three or more dots becomes a single `\ldots`. */
  lemma DotRunCollapses(k: nat, rest: string)
    requires k >= 3
    requires |rest| == 0 || rest[0] != '.'
    ensures Ellipses(Dots(k) + rest) == "\\ldots" + Ellipses(rest)
  {
    var s := Dots(k) + rest;
    assert DotRun(s) == k by {
      DotRunOfDots(k, rest);
    }
    assert s[k..] == rest;
  }

  /** A character other than a dot passes the dot-run pass unchanged, wherever it stands. */
  lemma EllipsesNonDot(c: char, s: string)
    requires c != '.'
    ensures Ellipses([c] + s) == [c] + Ellipses(s)
  {
    assert ([c] + s)[1..] == s;
  }

  /** A maximal run of one or two dots is kept as it is. */
  lemma EllipsesShortRun(k: nat, rest: string)
    requires 0 < k < 3
    requires |rest| == 0 || rest[0] != '.'
    ensures Ellipses(Dots(k) + rest) == Dots(k) + Ellipses(rest)
  {
    var s := Dots(k) + rest;
    DotRunOfDots(k, rest);
    assert s[..k] == Dots(k);
    assert s[k..] == rest;
  }

  lemma {:induction false} DotRunOfDots(k: nat, rest: string)
    requires |rest| == 0 || rest[0] != '.'
    ensures DotRun(Dots(k) + rest) == k
    decreases k
  {
    if k > 0 {
      assert (Dots(k) + rest)[1..] == Dots(k - 1) + rest;
      DotRunOfDots(k - 1, rest);
    } else {
      assert Dots(0) + rest == rest;
    }
  }

  /**
   `escape_tex` returns its input unchanged when it holds none of the special
   characters and no run of three dots.
   */
  lemma EscapeTexFixes(s: string)
    requires forall i :: 0 <= i < |s| ==> !IsSpecial(s[i])
    requires NoDotRun(s)
    ensures EscapeTex(s) == s
  {
    OrderedPassesAreCharwise(s);
    SubstituteFixes(s, EscapeChar);
    EllipsesFixes(s);
  }

  /**
   `escape_tex` of a string without dots is the per-character translation:
   each backslash becomes `\textbackslash`, each of `{ } _ # % & $` gets
   exactly one backslash, `~` and `^` get their `{}` forms and `"` becomes `''`.
   */
  lemma EscapeTexWithoutDots(s: string)
    requires forall i :: 0 <= i < |s| ==> s[i] != '.'
    ensures EscapeTex(s) == Substitute(s, EscapeChar)
  {
    OrderedPassesAreCharwise(s);
    SubstituteHasNoDots(s);
    EllipsesFixes(Substitute(s, EscapeChar));
  }

  lemma {:induction false} SubstituteHasNoDots(s: string)
    requires forall i :: 0 <= i < |s| ==> s[i] != '.'
    ensures forall i :: 0 <= i < |Substitute(s, EscapeChar)| ==> Substitute(s, EscapeChar)[i] != '.'
    decreases |s|
  {
    if |s| > 0 {
      SubstituteHasNoDots(s[1..]);
    }
  }
}
