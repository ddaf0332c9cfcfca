/** Text helpers shared by the predicate side and the SQL side of the engine. */
module Strings {

  /** `needle` sits in `hay` at offset `j`. */
  predicate MatchesAt(hay: string, needle: string, j: int) {
    0 <= j && j + |needle| <= |hay| && hay[j..j + |needle|] == needle
  }

  /** `needle` occurs somewhere in `hay`; the meaning of `LIKE '%needle%'` with escaped wildcards. */
  ghost predicate Occurs(needle: string, hay: string) {
    exists j :: MatchesAt(hay, needle, j)
  }

  /** The first offset at or after `from` where `needle` occurs in `hay`, or -1. */
  function IndexFrom(hay: string, needle: string, from: nat): (r: int)
    ensures r == -1 || (from <= r && MatchesAt(hay, needle, r))
    ensures r != -1 ==> forall j :: from <= j < r ==> !MatchesAt(hay, needle, j)
    ensures r == -1 ==> forall j :: from <= j ==> !MatchesAt(hay, needle, j)
    decreases |hay| - from
  {
    if from + |needle| > |hay| then -1
    else if hay[from..from + |needle|] == needle then from
    else IndexFrom(hay, needle, from + 1)
  }

  /** `String.IndexOf`: the first offset of `needle` in `hay`, or -1 when it does not occur. */
  function IndexOf(hay: string, needle: string): (r: int)
    ensures r >= 0 <==> Occurs(needle, hay)
    ensures r >= 0 ==> MatchesAt(hay, needle, r) && forall j :: 0 <= j < r ==> !MatchesAt(hay, needle, j)
  {
    IndexFrom(hay, needle, 0)
  }

  /**
    The case fold used for case-insensitive comparison. The source relies on the
    current culture on the predicate side and on the store's `LOWER` on the SQL side;
    both are represented by this one ASCII fold.
  */
  function Fold(c: char): char {
    if 'A' <= c <= 'Z' then (c as int - 'A' as int + 'a' as int) as char else c
  }

  function FoldAll(s: string): (r: string)
    ensures |r| == |s|
    ensures forall i :: 0 <= i < |s| ==> r[i] == Fold(s[i])
  {
    seq(|s|, i requires 0 <= i < |s| => Fold(s[i]))
  }

  /** Text with every character mapped by a case fold. */
  function MapChars(fold: char -> char, s: string): (r: string)
    ensures |r| == |s|
    ensures forall i :: 0 <= i < |s| ==> r[i] == fold(s[i])
  {
    seq(|s|, i requires 0 <= i < |s| => fold(s[i]))
  }

  /** An occurrence survives case folding of both sides. */
  lemma OccursFolded(needle: string, hay: string)
    requires Occurs(needle, hay)
    ensures Occurs(FoldAll(needle), FoldAll(hay))
  {
    var j :| MatchesAt(hay, needle, j);
    assert FoldAll(hay)[j..j + |needle|] == FoldAll(needle);
    assert MatchesAt(FoldAll(hay), FoldAll(needle), j);
  }

  function DigitChar(d: nat): char
    requires d < 10
  {
    "0123456789"[d]
  }

  function NatToString(n: nat): (r: string)
    ensures |r| >= 1
    decreases n
  {
    if n < 10 then [DigitChar(n)] else NatToString(n / 10) + [DigitChar(n % 10)]
  }

  /** Decimal text of an integer as C# string concatenation writes it. */
  function IntToString(n: int): string {
    if n < 0 then "-" + NatToString(-n) else NatToString(n)
  }

  /** Strips one pair of enclosing single quotes, turning a SQL string literal into its text. */
  function Unwrap(q: string): string {
    if |q| >= 2 && q[0] == '\'' && q[|q| - 1] == '\'' then q[1..|q| - 1] else q
  }

  /** Strips one pair of enclosing parentheses. */
  function Unparenthesis(q: string): string {
    if |q| >= 2 && q[0] == '(' && q[|q| - 1] == ')' then q[1..|q| - 1] else q
  }

  /** The rows of a `values` clause, one parenthesised integer per row: `(1), (2)`. */
  function ValueRows(xs: seq<int>): string {
    if |xs| == 0 then ""
    else if |xs| == 1 then "(" + IntToString(xs[0]) + ")"
    else "(" + IntToString(xs[0]) + "), " + ValueRows(xs[1..])
  }

  function JoinInts(xs: seq<int>): string {
    if |xs| == 0 then ""
    else if |xs| == 1 then IntToString(xs[0])
    else IntToString(xs[0]) + ", " + JoinInts(xs[1..])
  }

  /** Text as the body of an SQL string literal: every single quote doubled. */
  function DoubleQuotes(s: string): string {
    if |s| == 0 then ""
    else (if s[0] == '\'' then "''" else [s[0]]) + DoubleQuotes(s[1..])
  }

  /** The value an SQL string literal body stands for: a doubled single quote reads as one. */
  function UndoubleQuotes(s: string): string {
    if |s| == 0 then ""
    else if |s| >= 2 && s[0] == '\'' && s[1] == '\'' then "'" + UndoubleQuotes(s[2..])
    else [s[0]] + UndoubleQuotes(s[1..])
  }

  /** Reading a literal body back gives the text it was built from. */
  lemma {:induction false} UndoubleDoubled(s: string)
    ensures UndoubleQuotes(DoubleQuotes(s)) == s
    decreases |s|
  {
    if |s| > 0 {
      var rest := DoubleQuotes(s[1..]);
      UndoubleDoubled(s[1..]);
      if s[0] == '\'' {
        assert DoubleQuotes(s) == "''" + rest;
        assert ("''" + rest)[2..] == rest;
      } else {
        assert DoubleQuotes(s) == [s[0]] + rest;
        assert ([s[0]] + rest)[1..] == rest;
      }
      assert s == [s[0]] + s[1..];
    }
  }

  /** Reading a literal body never shrinks it below half its length. */
  lemma {:induction false} UndoubledLength(s: string)
    ensures 2 * |UndoubleQuotes(s)| >= |s|
    decreases |s|
  {
    if |s| >= 2 && s[0] == '\'' && s[1] == '\'' {
      UndoubledLength(s[2..]);
    } else if |s| > 0 {
      UndoubledLength(s[1..]);
    }
  }
}
