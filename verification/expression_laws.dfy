/**
  Properties of the expression compilers: advertised kinds are exactly the kinds a
  node answers, the two compilers take the same branch, each operator branch has the
  documented predicate and SQL shape, the two readings agree on every representable
  status (one way only where the store's `LIKE` ignores case and the predicate does
  not), and `in` is `contains` with its operands swapped. The string branch as written
  splices the needle's text into the pattern; a corrected compiler passes its value.
*/
module ExpressionLaws {
  import opened Wrappers
  import opened Kinds
  import opened Statuses
  import opened Strings
  import opened Store
  import opened UserValues
  import opened Operators
  import opened Expressions

  /**
    A node answers a value kind exactly when it advertises it (operators may still
    fail for their operands' sake), and no node advertises nothing.
  */
  lemma AdvertisedKindsAreAnswered(e: Expr, cmp: Comparison)
    ensures NumericProvider(e).Success? <==> Numeric in SupportedTypes(e)
    ensures StringProvider(e).Success? <==> String in SupportedTypes(e)
    ensures SetProvider(e).Success? <==> Set in SupportedTypes(e)
    ensures BooleanProvider(e, cmp).Success? ==> Boolean in SupportedTypes(e)
    ensures !e.Contains? && !e.ContainedBy? ==>
              (BooleanProvider(e, cmp).Success? <==> Boolean in SupportedTypes(e))
    ensures e.Contains? || e.ContainedBy? || e.UserFlag? || e.RetweeterFlag? ==>
              SupportedTypes(e) == {Boolean}
    ensures e.UserValue? || e.RetweeterValue? ==> SupportedTypes(e) == {Numeric, String}
    ensures SupportedTypes(e) != {}
  {
  }

  /**
    The predicate compiler and the SQL compiler succeed for the same nodes and fail
    with the same unsupported kind, because both follow one strategy choice.
  */
  lemma CompilersInLockstep(e: Expr, cmp: Comparison)
    ensures NumericProvider(e).Success? <==> NumericSql(e).Success?
    ensures StringProvider(e).Success? <==> StringSql(e).Success?
    ensures SetProvider(e).Success? <==> SetSql(e).Success?
    ensures NumericProvider(e).Failure? ==> NumericProvider(e).error == NumericSql(e).error
    ensures StringProvider(e).Failure? ==> StringProvider(e).error == StringSql(e).error
    ensures SetProvider(e).Failure? ==> SetProvider(e).error == SetSql(e).error
    ensures BooleanProvider(e, cmp).Success? <==> BooleanSql(e, cmp).Success?
    ensures BooleanProvider(e, cmp).Failure? ==>
              BooleanProvider(e, cmp).error == BooleanSql(e, cmp).error
  {
  }

  /**
    `contains` on the string branch: the predicate is null-safe substring search
    under the configured comparison, and the SQL is a `LIKE '%needle%'`, wrapped in
    `LOWER` on both sides when the comparison ignores case.
  */
  lemma ContainsStringBranch(l: Expr, r: Expr, cmp: Comparison, s: Status)
    requires CompareAsString(SupportedTypes(l), SupportedTypes(r))
    requires ContainsPredicate(l, r, cmp).Success?
    ensures StringProvider(l).Success? && StringProvider(r).Success?
    ensures StringSql(l).Success? && StringSql(r).Success?
    ensures ContainsPredicate(l, r, cmp).value(s) ==
              StringContains(StringProvider(l).value(s), StringProvider(r).value(s), cmp)
    ensures var hq := Render(StringSql(l).value);
            var needle := Unwrap(Render(StringSql(r).value));
            Render(ContainsSql(l, r, cmp).value) ==
              if cmp == CurrentCultureIgnoreCase
              then "LOWER(" + hq + ") LIKE LOWER('%" + needle + "%') escape '\\'"
              else hq + " LIKE '%" + needle + "%' escape '\\'"
  {
    var hq := StringSql(l).value;
    var needle := Unwrap(Render(StringSql(r).value));
    assert ContainsSql(l, r, cmp).value == Like(hq, needle, cmp == CurrentCultureIgnoreCase);
    LikeText(hq, needle, cmp == CurrentCultureIgnoreCase);
  }

  /**
    `contains` with a set on the left and a number on the right: membership, emitted
    as `<number> IN <set>`.
  */
  lemma ContainsMembershipBranch(l: Expr, r: Expr, cmp: Comparison, s: Status)
    requires !CompareAsString(SupportedTypes(l), SupportedTypes(r))
    requires Numeric in SupportedTypes(r)
    requires ContainsPredicate(l, r, cmp).Success?
    ensures SetProvider(l).Success? && NumericProvider(r).Success?
    ensures ContainsPredicate(l, r, cmp).value(s) <==>
              NumericProvider(r).value(s) in SetProvider(l).value(s)
    ensures Render(ContainsSql(l, r, cmp).value) ==
              Render(NumericSql(r).value) + " IN " + Render(SetSql(l).value)
  {
    InText(NumericSql(r).value, SetSql(l).value);
  }

  /**
    `contains` with sets on both sides: non-empty intersection, emitted as
    `exists (L intersect R)`.
  */
  lemma ContainsIntersectionBranch(l: Expr, r: Expr, cmp: Comparison, s: Status)
    requires !CompareAsString(SupportedTypes(l), SupportedTypes(r))
    requires Numeric !in SupportedTypes(r)
    requires ContainsPredicate(l, r, cmp).Success?
    ensures SetProvider(l).Success? && SetProvider(r).Success?
    ensures ContainsPredicate(l, r, cmp).value(s) <==>
              SetProvider(l).value(s) * SetProvider(r).value(s) != {}
    ensures Render(ContainsSql(l, r, cmp).value) ==
              "exists (" + Unparenthesis(Render(SetSql(l).value)) + " intersect "
              + Unparenthesis(Render(SetSql(r).value)) + ")"
  {
    AnySharedIsIntersection(SetProvider(l).value(s), SetProvider(r).value(s));
    ExistsIntersectText(SetSql(l).value, SetSql(r).value);
  }

  /**
    `in`: a numeric left operand is a member of the right set (`<number> IN <set>`);
    otherwise the two sets intersect.
  */
  lemma ContainedByBranches(l: Expr, r: Expr, s: Status)
    requires ContainedByPredicate(l, r).Success?
    ensures SetProvider(r).Success?
    ensures Numeric in SupportedTypes(l) ==>
              && NumericProvider(l).Success?
              && (ContainedByPredicate(l, r).value(s) <==> NumericProvider(l).value(s) in SetProvider(r).value(s))
              && Render(ContainedBySql(l, r).value) == Render(NumericSql(l).value) + " IN " + Render(SetSql(r).value)
    ensures Numeric !in SupportedTypes(l) ==>
              && SetProvider(l).Success?
              && (ContainedByPredicate(l, r).value(s) <==> SetProvider(l).value(s) * SetProvider(r).value(s) != {})
              && Render(ContainedBySql(l, r).value) ==
                   "exists (" + Unparenthesis(Render(SetSql(l).value)) + " intersect "
                   + Unparenthesis(Render(SetSql(r).value)) + ")"
  {
    if Numeric in SupportedTypes(l) {
      InText(NumericSql(l).value, SetSql(r).value);
    } else {
      ExistsIntersectText(SetSql(l).value, SetSql(r).value);
      AnySharedIsIntersection(SetProvider(r).value(s), SetProvider(l).value(s));
      assert SetProvider(r).value(s) * SetProvider(l).value(s) == SetProvider(l).value(s) * SetProvider(r).value(s);
    }
  }

  /**
    On the string branch of `contains` the SQL needle is the unwrapped TEXT of the
    right operand's fragment, which is the needle's value only for a string literal.
  */
  predicate NeedlesAreLiterals(e: Expr) {
    match e
    case Contains(l, r) => CompareAsString(SupportedTypes(l), SupportedTypes(r)) ==> r.StringLiteral?
    case _ => true
  }

  /** The numeric, string and set fragments of every node evaluate to its provided value. */
  lemma ValueAgreesWithSql(e: Expr, users: UserTable, s: Status)
    requires Represents(users, s)
    ensures NumericProvider(e).Success? ==>
              Eval(NumericSql(e).value, RowOf(s), users) == Int(NumericProvider(e).value(s))
    ensures StringProvider(e).Success? ==>
              Eval(StringSql(e).value, RowOf(s), users) == TextOf(StringProvider(e).value(s))
    ensures SetProvider(e).Success? ==>
              Eval(SetSql(e).value, RowOf(s), users) == Rows(SetProvider(e).value(s))
  {
    match e
    case UserValue => UserAgrees(users, s);
    case RetweeterValue => RetweeterAgrees(users, s);
    case _ =>
  }

  /**
    `contains`: a status the predicate accepts always keeps its row. The converse holds
    except on the ordinal string branch, where the store's `LIKE` ignores case and so
    also keeps rows the predicate rejects (see `OrdinalKeepsOtherCase`).
  */
  lemma ContainsAgrees(l: Expr, r: Expr, cmp: Comparison, users: UserTable, s: Status)
    requires Represents(users, s)
    requires CompareAsString(SupportedTypes(l), SupportedTypes(r)) ==> r.StringLiteral?
    requires ContainsPredicate(l, r, cmp).Success?
    ensures ContainsSql(l, r, cmp).Success?
    ensures ContainsPredicate(l, r, cmp).value(s) ==> Truthy(Eval(ContainsSql(l, r, cmp).value, RowOf(s), users))
    ensures !OrdinalSubstring(l, r, cmp) ==>
              Truthy(Eval(ContainsSql(l, r, cmp).value, RowOf(s), users)) == ContainsPredicate(l, r, cmp).value(s)
  {
    if CompareAsString(SupportedTypes(l), SupportedTypes(r)) {
      LiteralStringBranch(l, r, cmp, users, s);
    } else {
      ContainsAgreesOffStrings(l, r, cmp, users, s);
    }
  }

  lemma LiteralStringBranch(l: Expr, r: Expr, cmp: Comparison, users: UserTable, s: Status)
    requires Represents(users, s)
    requires CompareAsString(SupportedTypes(l), SupportedTypes(r)) && r.StringLiteral?
    requires ContainsPredicate(l, r, cmp).Success?
    ensures ContainsSql(l, r, cmp).Success?
    ensures var keeps := Truthy(Eval(ContainsSql(l, r, cmp).value, RowOf(s), users));
            && (ContainsPredicate(l, r, cmp).value(s) ==> keeps)
            && (cmp == CurrentCultureIgnoreCase ==> keeps == ContainsPredicate(l, r, cmp).value(s))
  {
    ValueAgreesWithSql(l, users, s);
    var hq := StringSql(l).value;
    UnwrapTextConst(r.text);
    assert ContainsSql(l, r, cmp).value == Like(hq, DoubleQuotes(r.text), cmp == CurrentCultureIgnoreCase);
    assert ContainsPredicate(l, r, cmp).value(s) ==
      StringContains(StringProvider(l).value(s), Some(r.text), cmp);
    LikeAgrees(hq, StringProvider(l).value(s), r.text, cmp, RowOf(s), users);
  }

  /** `contains` on the string branch with an ordinal comparison: the only place the store ignores case and the predicate does not. */
  predicate OrdinalSubstring(l: Expr, r: Expr, cmp: Comparison) {
    CompareAsString(SupportedTypes(l), SupportedTypes(r)) && cmp == Ordinal
  }

  /**
    A `LIKE` over a fragment that evaluates to the haystack, with the needle written as a
    literal body, is the case-folded substring test: it agrees with the predicate when the comparison ignores case, and it keeps
    every row the ordinal predicate accepts.
  */
  lemma LikeAgrees(hq: Sql, hay: Option<string>, needle: string, cmp: Comparison, row: Row, users: UserTable)
    requires Eval(hq, row, users) == TextOf(hay)
    ensures Truthy(Eval(Like(hq, DoubleQuotes(needle), cmp == CurrentCultureIgnoreCase), row, users)) <==>
              hay.Some? && Occurs(FoldAll(needle), FoldAll(hay.value))
    ensures cmp == CurrentCultureIgnoreCase ==>
              Truthy(Eval(Like(hq, DoubleQuotes(needle), cmp == CurrentCultureIgnoreCase), row, users)) ==
              StringContains(hay, Some(needle), cmp)
    ensures StringContains(hay, Some(needle), cmp) ==>
              Truthy(Eval(Like(hq, DoubleQuotes(needle), cmp == CurrentCultureIgnoreCase), row, users))
  {
    UndoubleDoubled(needle);
    if hay.Some? && cmp == Ordinal && Occurs(needle, hay.value) {
      OccursFolded(needle, hay.value);
    }
  }

  /**
    The ordinal string branch as written: `"ABC" contains "b"` rejects every status,
    while its fragment `'ABC' LIKE '%b%'` keeps every row.
  */
  lemma OrdinalKeepsOtherCase(s: Status, row: Row, users: UserTable)
    ensures var l, r := StringLiteral("ABC"), StringLiteral("b");
            && ContainsPredicate(l, r, Ordinal).Success? && !ContainsPredicate(l, r, Ordinal).value(s)
            && ContainsSql(l, r, Ordinal).Success? && Truthy(Eval(ContainsSql(l, r, Ordinal).value, row, users))
  {
    var l, r := StringLiteral("ABC"), StringLiteral("b");
    assert ContainsStrategy(SupportedTypes(l), SupportedTypes(r)) == Substring;
    UnwrapTextConst("b");
    var q := Like(TextConst("ABC"), "b", false);
    assert ContainsSql(l, r, Ordinal) == Success(q);
    assert ContainsPredicate(l, r, Ordinal).value(s) == StringContains(Some("ABC"), Some("b"), Ordinal);
    OnlyCaseDiffers();
    assert StringContains(Some("ABC"), Some("b"), Ordinal) == Occurs("b", "ABC");
    assert Eval(q, row, users) == BoolValue(Occurs(FoldAll("b"), FoldAll("ABC")));
  }

  /**
    A literal with a single quote renders as well-formed SQL: the quote is doubled in
    the literal and in the pattern, and the store reads the pattern back as `'`.
  */
  lemma QuotedNeedleIsEscaped(row: Row, users: UserTable)
    ensures var l, r := StringLiteral("it's"), StringLiteral("'");
            && ContainsSql(l, r, Ordinal) == Success(Like(TextConst("it's"), "''", false))
            && Render(ContainsSql(l, r, Ordinal).value) == "'it''s' LIKE '%''%' escape '\\'"
            && Truthy(Eval(ContainsSql(l, r, Ordinal).value, row, users))
  {
    var l, r := StringLiteral("it's"), StringLiteral("'");
    assert ContainsStrategy(SupportedTypes(l), SupportedTypes(r)) == Substring;
    UnwrapTextConst("'");
    QuoteBodies();
    var q := Like(TextConst("it's"), "''", false);
    assert ContainsSql(l, r, Ordinal) == Success(q);
    QuotedPatternText();
    QuoteOccurs();
    assert Eval(TextConst("it's"), row, users) == Text("it's");
  }

  lemma QuotedPatternText()
    ensures Render(Like(TextConst("it's"), "''", false)) == "'it''s' LIKE '%''%' escape '\\'"
  {
    QuotedLiteralText();
    LikeText(TextConst("it's"), "''", false);
    ConcatPattern("'it''s'", "''");
  }

  lemma QuotedLiteralText()
    ensures Render(TextConst("it's")) == "'it''s'"
  {
    QuoteBodies();
  }

  lemma ConcatPattern(h: string, n: string)
    requires h == "'it''s'" && n == "''"
    ensures h + " LIKE '%" + n + "%' escape '\\'" == "'it''s' LIKE '%''%' escape '\\'"
  {
  }

  lemma QuoteBodies()
    ensures DoubleQuotes("'") == "''"
    ensures DoubleQuotes("it's") == "it''s"
    ensures UndoubleQuotes("''") == "'"
  {
    assert DoubleQuotes("s") == "s";
    assert DoubleQuotes("'s") == "''s";
    assert DoubleQuotes("t's") == "t''s";
  }

  lemma QuoteOccurs()
    ensures Occurs(FoldAll("'"), FoldAll("it's"))
  {
    assert FoldAll("'") == "'";
    assert FoldAll("it's")[2] == '\'';
    assert FoldAll("it's")[2..3] == "'";
    assert MatchesAt(FoldAll("it's"), FoldAll("'"), 2);
  }

  /**
    Ignoring case, the predicate folds with the current culture and the fragment with
    SQLite's `LOWER`, which folds ASCII letters only. For any culture that folds `É`
    and `é` alike, `"É" contains "é"` accepts every status while its fragment keeps no
    row; the ASCII fold of this model rejects it, as the store does.
  */
  lemma NonAsciiCaseDropsRow(fold: char -> char, row: Row, users: UserTable)
    requires fold('É') == fold('é')
    ensures CultureContains(fold, Some("É"), Some("é"))
    ensures !StringContains(Some("É"), Some("é"), CurrentCultureIgnoreCase)
    ensures var l, r := StringLiteral("É"), StringLiteral("é");
            && ContainsSql(l, r, CurrentCultureIgnoreCase).Success?
            && !Truthy(Eval(ContainsSql(l, r, CurrentCultureIgnoreCase).value, row, users))
  {
    var l, r := StringLiteral("É"), StringLiteral("é");
    assert MapChars(fold, "É")[0..1] == MapChars(fold, "é");
    assert MatchesAt(MapChars(fold, "É"), MapChars(fold, "é"), 0);
    assert ContainsStrategy(SupportedTypes(l), SupportedTypes(r)) == Substring;
    UnwrapTextConst("é");
    assert DoubleQuotes("é") == "é";
    assert ContainsSql(l, r, CurrentCultureIgnoreCase) == Success(Like(TextConst("É"), "é", true));
    AccentedCaseDiffers();
  }

  /** The ASCII fold leaves `É` and `é` apart. */
  lemma AccentedCaseDiffers()
    ensures !Occurs(FoldAll("é"), FoldAll("É"))
    ensures UndoubleQuotes("é") == "é"
  {
    assert FoldAll("É") == "É" && FoldAll("é") == "é";
    forall j ensures !MatchesAt("É", "é", j) {
      if 0 <= j && j + 1 <= 1 {
        assert "É"[j..j + 1] == "É";
      }
    }
  }

  /** `b` occurs in `ABC` only once case is folded. */
  lemma OnlyCaseDiffers()
    ensures !Occurs("b", "ABC")
    ensures Occurs(FoldAll("b"), FoldAll("ABC"))
  {
    forall j ensures !MatchesAt("ABC", "b", j) {
      if 0 <= j && j + 1 <= 3 {
        assert "ABC"[j..j + 1] == ["ABC"[j]];
      }
    }
    var hay, needle := FoldAll("ABC"), FoldAll("b");
    assert hay[1] == Fold('B') == 'b';
    assert needle[0] == Fold('b') == 'b';
    assert hay[1..2] == needle;
    assert MatchesAt(hay, needle, 1);
  }

  /**
    The string branch as written splices the needle fragment's TEXT into the pattern:
    `user contains user` accepts every status, yet for an author named `x` the
    fragment searches `x` for the text of the sub-select and drops the row.
  */
  lemma SubqueryNeedleIsText()
    ensures var u := User(1, "x", false, false, false, false, false);
            var s := Status(10, u, None);
            var users := map[1 := u];
            var e := Contains(UserValue, UserValue);
            && Represents(users, s)
            && BooleanProvider(e, Ordinal).Success? && BooleanProvider(e, Ordinal).value(s)
            && BooleanSql(e, Ordinal).Success? && !Truthy(Eval(BooleanSql(e, Ordinal).value, RowOf(s), users))
  {
    var u := User(1, "x", false, false, false, false, false);
    var s := Status(10, u, None);
    var users := map[1 := u];
    var e := Contains(UserValue, UserValue);
    assert Represents(users, s);
    assert ContainsStrategy(SupportedTypes(UserValue), SupportedTypes(UserValue)) == Substring;
    var q := Render(UserStringSql());
    var needle := Unwrap(q);
    assert q[0] == '(';
    assert needle == q;
    assert ContainsSql(UserValue, UserValue, Ordinal) == Success(Like(UserStringSql(), needle, false));
    assert GetOriginal(s) == s;
    assert StringProvider(UserValue).value(s) == UserScreenName(s) == Some("x");
    assert ContainsPredicate(UserValue, UserValue, Ordinal).value(s) ==
      StringContains(StringProvider(UserValue).value(s), StringProvider(UserValue).value(s), Ordinal);
    assert MatchesAt("x", "x", 0);
    assert Eval(UserStringSql(), RowOf(s), users) == Text("x");
    LongerNeverOccurs(FoldAll(needle), FoldAll("x"));
  }

  /** A needle longer than the haystack never occurs in it. */
  lemma LongerNeverOccurs(needle: string, hay: string)
    requires |needle| > |hay|
    ensures !Occurs(needle, hay)
  {
  }

  /**
    With the needle passed as a value, `contains` agrees with its predicate for every
    string needle, literal or not: a status the predicate accepts keeps its row, and
    off the ordinal string branch the fragment keeps exactly those rows.
  */
  lemma CorrectedContainsAgrees(l: Expr, r: Expr, cmp: Comparison, users: UserTable, s: Status)
    requires Represents(users, s)
    requires ContainsPredicate(l, r, cmp).Success?
    ensures ContainsSqlCorrected(l, r, cmp).Success?
    ensures ContainsPredicate(l, r, cmp).value(s) ==>
              Truthy(Eval(ContainsSqlCorrected(l, r, cmp).value, RowOf(s), users))
    ensures !OrdinalSubstring(l, r, cmp) ==>
              Truthy(Eval(ContainsSqlCorrected(l, r, cmp).value, RowOf(s), users)) == ContainsPredicate(l, r, cmp).value(s)
  {
    if CompareAsString(SupportedTypes(l), SupportedTypes(r)) {
      CorrectedStringBranch(l, r, cmp, users, s);
    } else {
      ContainsAgreesOffStrings(l, r, cmp, users, s);
    }
  }

  lemma CorrectedStringBranch(l: Expr, r: Expr, cmp: Comparison, users: UserTable, s: Status)
    requires Represents(users, s)
    requires CompareAsString(SupportedTypes(l), SupportedTypes(r))
    requires ContainsPredicate(l, r, cmp).Success?
    ensures ContainsSqlCorrected(l, r, cmp).Success?
    ensures var keeps := Truthy(Eval(ContainsSqlCorrected(l, r, cmp).value, RowOf(s), users));
            && (ContainsPredicate(l, r, cmp).value(s) ==> keeps)
            && (cmp == CurrentCultureIgnoreCase ==> keeps == ContainsPredicate(l, r, cmp).value(s))
  {
    var hq, nq := StringSql(l).value, StringSql(r).value;
    ValueAgreesWithSql(l, users, s);
    ValueAgreesWithSql(r, users, s);
    assert ContainsSqlCorrected(l, r, cmp).value == LikeConcat(hq, nq, cmp == CurrentCultureIgnoreCase);
    assert ContainsPredicate(l, r, cmp).value(s) ==
      StringContains(StringProvider(l).value(s), StringProvider(r).value(s), cmp);
    LikeConcatAgrees(hq, nq, StringProvider(l).value(s), StringProvider(r).value(s), cmp, RowOf(s), users);
  }

  /** A `LIKE` whose pattern is built from the needle fragment's value is the case-folded substring test. */
  lemma LikeConcatAgrees(hq: Sql, nq: Sql, hay: Option<string>, needle: Option<string>, cmp: Comparison,
                         row: Row, users: UserTable)
    requires Eval(hq, row, users) == TextOf(hay)
    requires Eval(nq, row, users) == TextOf(needle)
    ensures var keeps := Truthy(Eval(LikeConcat(hq, nq, cmp == CurrentCultureIgnoreCase), row, users));
            && (StringContains(hay, needle, cmp) ==> keeps)
            && (cmp == CurrentCultureIgnoreCase ==> keeps == StringContains(hay, needle, cmp))
  {
    var q := LikeConcat(hq, nq, cmp == CurrentCultureIgnoreCase);
    if hay.Some? && needle.Some? {
      var folded := Occurs(FoldAll(needle.value), FoldAll(hay.value));
      assert Eval(q, row, users) == BoolValue(folded);
      if cmp == Ordinal {
        assert StringContains(hay, needle, cmp) == Occurs(needle.value, hay.value);
        if Occurs(needle.value, hay.value) {
          OccursFolded(needle.value, hay.value);
        }
      } else {
        assert StringContains(hay, needle, cmp) == folded;
      }
    } else {
      assert Eval(q, row, users) == Null;
      assert !StringContains(hay, needle, cmp);
    }
  }

  lemma ContainsAgreesOffStrings(l: Expr, r: Expr, cmp: Comparison, users: UserTable, s: Status)
    requires Represents(users, s)
    requires !CompareAsString(SupportedTypes(l), SupportedTypes(r))
    requires ContainsPredicate(l, r, cmp).Success?
    ensures ContainsSqlCorrected(l, r, cmp) == ContainsSql(l, r, cmp)
    ensures Truthy(Eval(ContainsSqlCorrected(l, r, cmp).value, RowOf(s), users)) == ContainsPredicate(l, r, cmp).value(s)
  {
    ValueAgreesWithSql(l, users, s);
    ValueAgreesWithSql(r, users, s);
    if Numeric !in SupportedTypes(r) {
      AnySharedIsIntersection(SetProvider(l).value(s), SetProvider(r).value(s));
    }
  }

  /** On a literal needle the corrected and the as-written fragments keep the same rows. */
  lemma CorrectedMatchesOnLiterals(l: Expr, t: string, cmp: Comparison, row: Row, users: UserTable)
    requires ContainsSql(l, StringLiteral(t), cmp).Success?
    ensures ContainsSqlCorrected(l, StringLiteral(t), cmp).Success?
    ensures Eval(ContainsSqlCorrected(l, StringLiteral(t), cmp).value, row, users) ==
            Eval(ContainsSql(l, StringLiteral(t), cmp).value, row, users)
  {
    UnwrapTextConst(t);
    if ContainsStrategy(SupportedTypes(l), SupportedTypes(StringLiteral(t))) == Substring {
      var hq := StringSql(l).value;
      var lower := cmp == CurrentCultureIgnoreCase;
      assert ContainsSql(l, StringLiteral(t), cmp).value == Like(hq, DoubleQuotes(t), lower);
      assert ContainsSqlCorrected(l, StringLiteral(t), cmp).value == LikeConcat(hq, TextConst(t), lower);
    }
  }

  /** `in`: the SQL fragment keeps a stored row exactly when the predicate accepts the status. */
  lemma ContainedByAgrees(l: Expr, r: Expr, users: UserTable, s: Status)
    requires Represents(users, s)
    requires ContainedByPredicate(l, r).Success?
    ensures ContainedBySql(l, r).Success?
    ensures Truthy(Eval(ContainedBySql(l, r).value, RowOf(s), users)) == ContainedByPredicate(l, r).value(s)
  {
    ValueAgreesWithSql(l, users, s);
    ValueAgreesWithSql(r, users, s);
    if Numeric !in SupportedTypes(l) {
      AnySharedIsIntersection(SetProvider(r).value(s), SetProvider(l).value(s));
      assert SetProvider(r).value(s) * SetProvider(l).value(s) == SetProvider(l).value(s) * SetProvider(r).value(s);
    }
  }

  /**
    Every boolean node compiles to a predicate and a SQL fragment that agree: on any
    status the store can represent, the fragment keeps the row exactly when the
    predicate accepts the status.
  */
  lemma PredicateAgreesWithSql(e: Expr, cmp: Comparison, users: UserTable, s: Status)
    requires Represents(users, s)
    requires NeedlesAreLiterals(e)
    requires BooleanProvider(e, cmp).Success?
    ensures BooleanSql(e, cmp).Success?
    ensures BooleanProvider(e, cmp).value(s) ==> Truthy(Eval(BooleanSql(e, cmp).value, RowOf(s), users))
    ensures !(e.Contains? && OrdinalSubstring(e.left, e.right, cmp)) ==>
              Truthy(Eval(BooleanSql(e, cmp).value, RowOf(s), users)) == BooleanProvider(e, cmp).value(s)
  {
    match e
    case UserFlag(f) => UserIsAgrees(f, users, s);
    case RetweeterFlag(f) => RetweeterIsAgrees(f, users, s);
    case Contains(l, r) => ContainsAgrees(l, r, cmp, users, s);
    case ContainedBy(l, r) => ContainedByAgrees(l, r, users, s);
    case _ =>
  }

  /**
    For a left operand `b` on which `contains` does not compare as strings,
    `a in b` is `b contains a`: same success, same error, same predicate value, and
    a fragment the store evaluates identically (the very same text when `a` is numeric;
    the intersection with its operands swapped otherwise).
  */
  lemma ContainedByMirrorsContains(a: Expr, b: Expr, cmp: Comparison, s: Status, row: Row, users: UserTable)
    requires !CompareAsString(SupportedTypes(b), SupportedTypes(a))
    ensures ContainedByPredicate(a, b).Success? <==> ContainsPredicate(b, a, cmp).Success?
    ensures ContainedByPredicate(a, b).Failure? ==>
              ContainedByPredicate(a, b).error == ContainsPredicate(b, a, cmp).error
    ensures ContainedByPredicate(a, b).Success? ==>
              ContainedByPredicate(a, b).value(s) == ContainsPredicate(b, a, cmp).value(s)
    ensures ContainedBySql(a, b).Success? <==> ContainsSql(b, a, cmp).Success?
    ensures Numeric in SupportedTypes(a) ==> ContainedBySql(a, b) == ContainsSql(b, a, cmp)
    ensures ContainedBySql(a, b).Success? ==>
              Eval(ContainedBySql(a, b).value, row, users) == Eval(ContainsSql(b, a, cmp).value, row, users)
  {
    if ContainedByPredicate(a, b).Success? && Numeric !in SupportedTypes(a) {
      var aSet := SetProvider(a).value(s);
      var bs := SetProvider(b).value(s);
      AnySharedIsIntersection(bs, aSet);
      AnySharedIsIntersection(aSet, bs);
      assert aSet * bs == bs * aSet;
    }
    if ContainedBySql(a, b).Success? && Numeric !in SupportedTypes(a) {
      var aq := SetSql(a).value;
      var bq := SetSql(b).value;
      match (Eval(aq, row, users), Eval(bq, row, users))
      case (Rows(x), Rows(y)) => assert x * y == y * x;
      case _ =>
    }
  }
}
