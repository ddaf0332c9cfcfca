/**
  The user and retweeter accessor nodes: the boolean account flags
  (`user.is_*`, `retweeter.is_*`) and the `user` / `retweeter` values, each as a
  predicate-side value over a status and a SQL fragment over the stored row.
  The retweeter accessors are total: a status that is not a retweet has
  retweeter flags `false`, retweeter id `-1` and retweeter name `""`, and the
  fragments encode the same defaults with a NULL-coalesce.
*/
module UserValues {
  import opened Wrappers
  import opened Statuses
  import opened Store

  // ---- Booleans.cs -------------------------------------------------------

  /** `UserIs*`: the flag of the author of the original status. */
  function UserIs(f: Flag, s: Status): bool {
    GetOriginal(s).user.FlagValue(f)
  }

  /** `RetweeterIs*`: the flag of the retweeter, `false` when the status is not a retweet. */
  function RetweeterIs(f: Flag, s: Status): bool {
    s.IsRetweet() && s.user.FlagValue(f)
  }

  function UserIsSql(f: Flag): Sql {
    UserLookup(FlagColumn(f), BaseUserId)
  }

  function RetweeterIsSql(f: Flag): Sql {
    Coalesce(UserLookup(FlagColumn(f), RetweeterId), IntConst(0))
  }

  function FlagQueryName(f: Flag): string {
    match f
    case Protected => "is_protected"
    case Verified => "is_verified"
    case Translator => "is_translator"
    case ContributorsEnabled => "is_contributors_enabled"
    case GeoEnabled => "is_geo_enabled"
  }

  function UserIsQuery(f: Flag): string {
    "user." + FlagQueryName(f)
  }

  function RetweeterIsQuery(f: Flag): string {
    "retweeter." + FlagQueryName(f)
  }

  // ---- Complexes.cs ------------------------------------------------------

  /** `User` as a number: the id of the original author. */
  function UserId(s: Status): int {
    GetOriginal(s).user.id
  }

  /** `User` as a string: the screen name of the original author. */
  function UserScreenName(s: Status): Option<string> {
    Some(GetOriginal(s).user.screenName)
  }

  /** `Retweeter` as a number: the retweeting user's id, or -1. */
  function RetweeterUserId(s: Status): int {
    if s.IsRetweet() then s.user.id else -1
  }

  /** `Retweeter` as a string: the retweeting user's screen name, or the empty string. */
  function RetweeterScreenName(s: Status): Option<string> {
    Some(if s.IsRetweet() then s.user.screenName else "")
  }

  function UserNumericSql(): Sql {
    Column(BaseUserId)
  }

  function UserStringSql(): Sql {
    UserLookup(ScreenName, BaseUserId)
  }

  function RetweeterNumericSql(): Sql {
    Coalesce(Column(RetweeterId), IntConst(-1))
  }

  function RetweeterStringSql(): Sql {
    Coalesce(UserLookup(ScreenName, RetweeterId), TextConst(""))
  }

  // ---- Agreement of the two readings --------------------------------------

  /**
    A `user.is_*` fragment reads the flag through `status.BaseUserId`, and on every
    representable status it yields exactly the predicate's flag as 0/1.
  */
  lemma UserIsAgrees(f: Flag, users: UserTable, s: Status)
    requires Represents(users, s)
    ensures Render(UserIsSql(f)) ==
      "(select " + UserColumnName(FlagColumn(f)) + " from User where Id = status.BaseUserId limit 1)"
    ensures Eval(UserIsSql(f), RowOf(s), users) == BoolValue(UserIs(f, s))
  {
  }

  /**
    A `retweeter.is_*` fragment reads the flag through `status.RetweeterId`; a
    non-retweet has a NULL `RetweeterId`, the lookup yields NULL and the coalesce
    turns it into 0, the same `false` the predicate gives.
  */
  lemma RetweeterIsAgrees(f: Flag, users: UserTable, s: Status)
    requires Represents(users, s)
    ensures Render(RetweeterIsSql(f)) ==
      "coalesce((select " + UserColumnName(FlagColumn(f)) + " from User where Id = status.RetweeterId limit 1), 0)"
    ensures !s.IsRetweet() ==> !RetweeterIs(f, s) && Eval(RetweeterIsSql(f), RowOf(s), users) == Int(0)
    ensures Eval(RetweeterIsSql(f), RowOf(s), users) == BoolValue(RetweeterIs(f, s))
  {
    RetweeterIsText(f);
    var row := RowOf(s);
    if s.IsRetweet() {
      assert ColumnValue(row, RetweeterId) == Int(s.user.id);
    } else {
      assert Eval(UserLookup(FlagColumn(f), RetweeterId), row, users) == Null;
    }
  }

  lemma RetweeterIsText(f: Flag)
    ensures Render(RetweeterIsSql(f)) ==
      "coalesce((select " + UserColumnName(FlagColumn(f)) + " from User where Id = status.RetweeterId limit 1), 0)"
  {
    var x := UserColumnName(FlagColumn(f));
    LookupText(FlagColumn(f), RetweeterId);
    RenderSmallInts();
    assert Render(RetweeterIsSql(f)) == "coalesce(" + Render(UserLookup(FlagColumn(f), RetweeterId)) + ", " + "0" + ")";
    CoalesceText(x);
  }

  lemma CoalesceText(x: string)
    ensures "coalesce(" + ("(select " + x + " from User where Id = status." + "RetweeterId" + " limit 1)") + ", " + "0" + ")"
         == "coalesce((select " + x + " from User where Id = status.RetweeterId limit 1), 0)"
  {
  }

  /** The `user` fragments yield the original author's id and screen name. */
  lemma UserAgrees(users: UserTable, s: Status)
    requires Represents(users, s)
    ensures Render(UserNumericSql()) == "BaseUserId"
    ensures Eval(UserNumericSql(), RowOf(s), users) == Int(UserId(s))
    ensures Eval(UserStringSql(), RowOf(s), users) == TextOf(UserScreenName(s))
  {
  }

  /**
    The `retweeter` fragments coalesce a missing retweeter to -1 and `''`, the
    defaults the predicate side gives for a non-retweet.
  */
  lemma RetweeterAgrees(users: UserTable, s: Status)
    requires Represents(users, s)
    ensures Render(RetweeterNumericSql()) == "coalesce(RetweeterId, -1)"
    ensures !s.IsRetweet() ==> RetweeterUserId(s) == -1 && RetweeterScreenName(s) == Some("")
    ensures s.IsRetweet() ==> RetweeterUserId(s) == s.user.id
    ensures Eval(RetweeterNumericSql(), RowOf(s), users) == Int(RetweeterUserId(s))
    ensures Eval(RetweeterStringSql(), RowOf(s), users) == TextOf(RetweeterScreenName(s))
  {
    RenderSmallInts();
  }

  /** The canonical names of the ten flag accessors are pairwise distinct. */
  lemma FlagQueriesDistinct(f: Flag, g: Flag)
    ensures UserIsQuery(f) != RetweeterIsQuery(g)
    ensures UserIsQuery(f) == UserIsQuery(g) <==> f == g
    ensures RetweeterIsQuery(f) == RetweeterIsQuery(g) <==> f == g
  {
  }
}
