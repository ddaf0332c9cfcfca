/**
  The dispatch rules of the `contains` and `in` operators: from the kinds the two
  operands advertise, each operator picks one comparison strategy, and both of its
  compilers (predicate and SQL) follow that one choice.
*/
module Operators {
  import opened Wrappers
  import opened Kinds
  import opened Strings

  /** The configured string comparison of the substring strategy. */
  datatype Comparison = Ordinal | CurrentCultureIgnoreCase

  /**
    `contains` compares as strings when the left operand cannot be a set, or when it
    can be a string and the right operand can be neither a set nor a number.
  */
  predicate CompareAsString(lst: set<Kind>, rst: set<Kind>) {
    Set !in lst || (String in lst && Set !in rst && Numeric !in rst)
  }

  /** How an operator compares its operands. */
  datatype Strategy =
    | Substring      // needle occurs in haystack
    | SetHasNumber   // a number is a member of a set
    | SetsIntersect  // two sets share an element

  /**
    The strategy of `contains`: strings first, then a numeric right operand, then sets.
    The first three clauses characterise the dispatch itself. The last is what the
    set strategies rely on: the left operand can then be a set.
  */
  function ContainsStrategy(lst: set<Kind>, rst: set<Kind>): (st: Strategy)
    ensures st == Substring <==> CompareAsString(lst, rst)
    ensures st == SetHasNumber <==> !CompareAsString(lst, rst) && Numeric in rst
    ensures st == SetsIntersect <==> !CompareAsString(lst, rst) && Numeric !in rst
    ensures st != Substring ==> Set in lst
  {
    if CompareAsString(lst, rst) then Substring
    else if Numeric in rst then SetHasNumber
    else SetsIntersect
  }

  /**
    The strategy of `in`: the right operand is always a set; a numeric left operand is a
    member test. The contract characterises the dispatch: `in` never compares strings.
  */
  function ContainedByStrategy(lst: set<Kind>): (st: Strategy)
    ensures st != Substring
    ensures st == SetHasNumber <==> Numeric in lst
  {
    if Numeric in lst then SetHasNumber else SetsIntersect
  }

  function ApplyComparison(cmp: Comparison, s: string): string {
    match cmp
    case Ordinal => s
    case CurrentCultureIgnoreCase => FoldAll(s)
  }

  /**
    The predicate of the substring strategy: a null haystack or needle gives `false`,
    otherwise `IndexOf` under the configured comparison finds the needle.
  */
  function StringContains(hay: Option<string>, needle: Option<string>, cmp: Comparison): (r: bool)
    ensures hay.None? || needle.None? ==> !r
    ensures hay.Some? && needle.Some? && cmp == Ordinal ==>
              (r <==> Occurs(needle.value, hay.value))
    ensures hay.Some? && needle.Some? && cmp == CurrentCultureIgnoreCase ==>
              (r <==> Occurs(FoldAll(needle.value), FoldAll(hay.value)))
  {
    if hay.None? || needle.None? then false
    else IndexOf(ApplyComparison(cmp, hay.value), ApplyComparison(cmp, needle.value)) >= 0
  }

  /**
    The substring predicate under a culture's case-insensitive comparison, with the
    culture's case fold as a parameter. The `CurrentCultureIgnoreCase` of this model
    is the culture that folds ASCII letters only.
  */
  function CultureContains(fold: char -> char, hay: Option<string>, needle: Option<string>): (r: bool)
    ensures hay.None? || needle.None? ==> !r
    ensures hay.Some? && needle.Some? ==>
              (r <==> Occurs(MapChars(fold, needle.value), MapChars(fold, hay.value)))
  {
    if hay.None? || needle.None? then false
    else IndexOf(MapChars(fold, hay.value), MapChars(fold, needle.value)) >= 0
  }

  /**
    On text whose every character the culture folds as ASCII folding does, the
    culture predicate is the model's ignore-case predicate.
  */
  lemma CultureContainsOnAscii(fold: char -> char, hay: string, needle: string)
    requires forall c :: c in hay ==> fold(c) == Fold(c)
    requires forall c :: c in needle ==> fold(c) == Fold(c)
    ensures CultureContains(fold, Some(hay), Some(needle)) ==
            StringContains(Some(hay), Some(needle), CurrentCultureIgnoreCase)
  {
    forall i | 0 <= i < |hay| ensures MapChars(fold, hay)[i] == FoldAll(hay)[i] {
      assert hay[i] in hay;
    }
    forall i | 0 <= i < |needle| ensures MapChars(fold, needle)[i] == FoldAll(needle)[i] {
      assert needle[i] in needle;
    }
    assert MapChars(fold, hay) == FoldAll(hay);
    assert MapChars(fold, needle) == FoldAll(needle);
  }

  /** `Any` over one set with the other's membership test is a non-empty intersection. */
  lemma AnySharedIsIntersection(a: set<int>, b: set<int>)
    ensures (exists x :: x in b && x in a) <==> a * b != {}
  {
    if exists x :: x in b && x in a {
      var x :| x in b && x in a;
      assert x in a * b;
    } else {
      assert a * b == {};
    }
  }
}
