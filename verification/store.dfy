/**
  The SQL fragments the engine emits, as a small syntax tree with two readings:
  `Render`, the text appended to the store query, and `Eval`, what the store
  computes for that text on one status row joined with the user table.
*/
module Store {
  import opened Wrappers
  import opened Statuses
  import opened Strings

  /** Status-table columns the fragments reference. */
  datatype StatusColumn = BaseUserId | RetweeterId

  /** User-table columns the fragments select. */
  datatype UserColumn = FlagColumn(flag: Flag) | ScreenName

  /** A value in the store: NULL, an integer (booleans are 0/1), text, or a row set of ids. */
  datatype SqlValue = Null | Int(i: int) | Text(t: string) | Rows(ids: set<int>)

  datatype Sql =
    | IntConst(n: int)
    | TextConst(t: string)
    | Column(c: StatusColumn)
    | UserLookup(field: UserColumn, key: StatusColumn)
    | Coalesce(e: Sql, fallback: Sql)
    | IdList(ids: seq<int>)
    | Like(hay: Sql, needle: string, lower: bool)          // literal body spliced into the pattern
    | LikeConcat(hay: Sql, pattern: Sql, lower: bool)      // pattern built from a fragment's value
    | In(elem: Sql, within: Sql)
    | ExistsIntersect(left: Sql, right: Sql)

  function BoolValue(b: bool): SqlValue {
    Int(if b then 1 else 0)
  }

  /** A `WHERE` clause keeps a row when its value is a non-zero integer; NULL rejects. */
  predicate Truthy(v: SqlValue) {
    v.Int? && v.i != 0
  }

  function TextOf(s: Option<string>): SqlValue {
    match s
    case Some(t) => Text(t)
    case None => Null
  }

  function ColumnValue(row: Row, c: StatusColumn): SqlValue {
    match c
    case BaseUserId => Int(row.baseUserId)
    case RetweeterId => if row.retweeterId.Some? then Int(row.retweeterId.value) else Null
  }

  function UserFieldValue(u: User, f: UserColumn): SqlValue {
    match f
    case FlagColumn(flag) => BoolValue(u.FlagValue(flag))
    case ScreenName => Text(u.screenName)
  }

  /**
    What the store computes for a fragment on one row. The store is SQLite, whose
    `LIKE` ignores the case of ASCII letters; with or without `LOWER` on both sides, a
    `LIKE '%n%'` is a case-folded substring test. The text `n` sits inside a string
    literal, so a doubled single quote in it stands for one.
  */
  ghost function Eval(q: Sql, row: Row, users: UserTable): SqlValue {
    match q
    case IntConst(n) => Int(n)
    case TextConst(t) => Text(t)
    case Column(c) => ColumnValue(row, c)
    case UserLookup(f, key) =>
      (match ColumnValue(row, key)
       case Int(id) => if id in users then UserFieldValue(users[id], f) else Null
       case _ => Null)
    case Coalesce(e, d) =>
      var v := Eval(e, row, users);
      if v.Null? then Eval(d, row, users) else v
    case IdList(ids) => Rows(set x | x in ids)
    case Like(h, n, _) =>
      (match Eval(h, row, users)
       case Text(t) => BoolValue(Occurs(FoldAll(UndoubleQuotes(n)), FoldAll(t)))
       case _ => Null)
    case LikeConcat(h, n, _) =>
      (match (Eval(h, row, users), Eval(n, row, users))
       case (Text(t), Text(m)) => BoolValue(Occurs(FoldAll(m), FoldAll(t)))
       case _ => Null)
    case In(e, within) =>
      (match (Eval(e, row, users), Eval(within, row, users))
       case (Int(x), Rows(xs)) => BoolValue(x in xs)
       case _ => Null)
    case ExistsIntersect(l, r) =>
      (match (Eval(l, row, users), Eval(r, row, users))
       case (Rows(ls), Rows(rs)) => BoolValue(ls * rs != {})
       case _ => Null)
  }

  function ColumnName(c: StatusColumn): string {
    match c
    case BaseUserId => "BaseUserId"
    case RetweeterId => "RetweeterId"
  }

  function UserColumnName(f: UserColumn): string {
    match f
    case FlagColumn(Protected) => "IsProtected"
    case FlagColumn(Verified) => "IsVerified"
    case FlagColumn(Translator) => "IsTranslator"
    case FlagColumn(ContributorsEnabled) => "IsContributorsEnabled"
    case FlagColumn(GeoEnabled) => "IsGeoEnabled"
    case ScreenName => "ScreenName"
  }

  /** The fragment text, built the way the source concatenates it. */
  function Render(q: Sql): string {
    match q
    case IntConst(n) => IntToString(n)
    case TextConst(t) => "'" + DoubleQuotes(t) + "'"
    case Column(c) => ColumnName(c)
    case UserLookup(f, key) =>
      "(select " + UserColumnName(f) + " from User where Id = status." + ColumnName(key) + " limit 1)"
    case Coalesce(e, d) => "coalesce(" + Render(e) + ", " + Render(d) + ")"
    case IdList(ids) => "(" + IdSelect(ids) + ")"
    case Like(h, n, lower) =>
      if lower then "LOWER(" + Render(h) + ") LIKE LOWER('%" + n + "%') escape '\\'"
      else Render(h) + " LIKE '%" + n + "%' escape '\\'"
    case LikeConcat(h, n, lower) =>
      if lower then "LOWER(" + Render(h) + ") LIKE LOWER('%' || " + Render(n) + " || '%') escape '\\'"
      else Render(h) + " LIKE '%' || " + Render(n) + " || '%' escape '\\'"
    case In(e, within) => Render(e) + " IN " + Render(within)
    case ExistsIntersect(l, r) =>
      "exists (" + Unparenthesis(Render(l)) + " intersect " + Unparenthesis(Render(r)) + ")"
  }

  /**
    An id set as one simple `select` of a single column, so that it can stand on either
    side of `intersect` and on the right of `IN`; an empty set selects no row.
  */
  function IdSelect(ids: seq<int>): string {
    "select " + (if |ids| == 0 then "0 where 0" else "column1 from (values " + ValueRows(ids) + ")")
  }

  lemma ParenthesesStrip(q: string)
    ensures Unparenthesis("(" + q + ")") == q
  {
    var p := "(" + q + ")";
    assert p[1..|p| - 1] == q;
  }

  lemma SelectPrefix(q: string)
    ensures ("select " + q)[..7] == "select "
  {
  }

  /**
    Two id sets compared by intersection render as `exists (select … intersect select …)`,
    a compound select of two simple ones.
  */
  lemma IdListsIntersectAsSelects(a: seq<int>, b: seq<int>)
    ensures Unparenthesis(Render(IdList(a))) == IdSelect(a)
    ensures IdSelect(a)[..7] == "select "
    ensures Render(ExistsIntersect(IdList(a), IdList(b))) ==
              "exists (" + IdSelect(a) + " intersect " + IdSelect(b) + ")"
  {
    assert Render(IdList(a)) == "(" + IdSelect(a) + ")";
    assert Render(IdList(b)) == "(" + IdSelect(b) + ")";
    ParenthesesStrip(IdSelect(a));
    ParenthesesStrip(IdSelect(b));
    ExistsIntersectText(IdList(a), IdList(b));
    SelectPrefix(if |a| == 0 then "0 where 0" else "column1 from (values " + ValueRows(a) + ")");
  }

  /** The integer literals the fragments use render as their decimal text. */
  lemma RenderSmallInts()
    ensures Render(IntConst(0)) == "0"
    ensures Render(IntConst(1)) == "1"
    ensures Render(IntConst(-1)) == "-1"
  {
    assert DigitChar(0) == '0' && DigitChar(1) == '1';
  }

  /** The text of a single-column user lookup keyed by a status column. */
  lemma LookupText(f: UserColumn, key: StatusColumn)
    ensures Render(UserLookup(f, key)) ==
      "(select " + UserColumnName(f) + " from User where Id = status." + ColumnName(key) + " limit 1)"
  {
  }

  lemma LikeText(h: Sql, n: string, lower: bool)
    ensures lower ==> Render(Like(h, n, lower)) == "LOWER(" + Render(h) + ") LIKE LOWER('%" + n + "%') escape '\\'"
    ensures !lower ==> Render(Like(h, n, lower)) == Render(h) + " LIKE '%" + n + "%' escape '\\'"
  {
  }

  lemma InText(e: Sql, within: Sql)
    ensures Render(In(e, within)) == Render(e) + " IN " + Render(within)
  {
  }

  lemma ExistsIntersectText(l: Sql, r: Sql)
    ensures Render(ExistsIntersect(l, r)) ==
      "exists (" + Unparenthesis(Render(l)) + " intersect " + Unparenthesis(Render(r)) + ")"
  {
  }

  /**
    The text of a string literal fragment unwraps to the literal's body, which read
    back as a literal body is the literal's text.
  */
  lemma UnwrapTextConst(t: string)
    ensures Unwrap(Render(TextConst(t))) == DoubleQuotes(t)
    ensures UndoubleQuotes(Unwrap(Render(TextConst(t)))) == t
  {
    var q := Render(TextConst(t));
    assert q[1..|q| - 1] == DoubleQuotes(t);
    UndoubleDoubled(t);
  }
}
