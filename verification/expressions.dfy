/**
  Filter expression nodes and their two compilers. Every node advertises the kinds
  it supports; for each supported kind it yields a value provider (a function of the
  status) and a SQL fragment. Asking a node for a kind it does not support is the
  fail-fast "malformed tree" error, modelled as `Failure(Unsupported(kind))`.
*/
module Expressions {
  import opened Wrappers
  import opened Kinds
  import opened Statuses
  import opened Strings
  import opened Store
  import opened UserValues
  import opened Operators

  datatype Malformed = Unsupported(kind: Kind)

  /**
    The value nodes of the user accessor files, the two set operators, and three
    literal operands that stand in for the rest of the expression language.
  */
  datatype Expr =
    | UserFlag(flag: Flag)        // user.is_*
    | RetweeterFlag(flag: Flag)   // retweeter.is_*
    | UserValue                   // user
    | RetweeterValue              // retweeter
    | StringLiteral(text: string)
    | NumericLiteral(n: int)
    | SetLiteral(ids: seq<int>)
    | Contains(left: Expr, right: Expr)     // contains
    | ContainedBy(left: Expr, right: Expr)  // in

  function SupportedTypes(e: Expr): set<Kind> {
    match e
    case UserFlag(_) => {Boolean}
    case RetweeterFlag(_) => {Boolean}
    case UserValue => {Numeric, String}
    case RetweeterValue => {Numeric, String}
    case StringLiteral(_) => {String}
    case NumericLiteral(_) => {Numeric}
    case SetLiteral(_) => {Set}
    case Contains(_, _) => {Boolean}
    case ContainedBy(_, _) => {Boolean}
  }

  function ToQuery(e: Expr): string {
    match e
    case UserFlag(f) => UserIsQuery(f)
    case RetweeterFlag(f) => RetweeterIsQuery(f)
    case UserValue => "user"
    case RetweeterValue => "retweeter"
    case StringLiteral(t) => "\"" + t + "\""
    case NumericLiteral(n) => IntToString(n)
    case SetLiteral(ids) => "[" + JoinInts(ids) + "]"
    case Contains(l, r) => ToQuery(l) + " contains " + ToQuery(r)
    case ContainedBy(l, r) => ToQuery(l) + " in " + ToQuery(r)
  }

  // ---- Value providers (the predicate side) --------------------------------

  function NumericProvider(e: Expr): Result<Status -> int, Malformed> {
    match e
    case UserValue => Success(UserId)
    case RetweeterValue => Success(RetweeterUserId)
    case NumericLiteral(n) => Success(_ => n)
    case _ => Failure(Unsupported(Numeric))
  }

  function StringProvider(e: Expr): Result<Status -> Option<string>, Malformed> {
    match e
    case UserValue => Success(UserScreenName)
    case RetweeterValue => Success(RetweeterScreenName)
    case StringLiteral(t) => Success(_ => Some(t))
    case _ => Failure(Unsupported(String))
  }

  function SetProvider(e: Expr): Result<Status -> set<int>, Malformed> {
    match e
    case SetLiteral(ids) => Success(_ => set x | x in ids)
    case _ => Failure(Unsupported(Set))
  }

  function BooleanProvider(e: Expr, cmp: Comparison): Result<Status -> bool, Malformed> {
    match e
    case UserFlag(f) => Success(s => UserIs(f, s))
    case RetweeterFlag(f) => Success(s => RetweeterIs(f, s))
    case Contains(l, r) => ContainsPredicate(l, r, cmp)
    case ContainedBy(l, r) => ContainedByPredicate(l, r)
    case _ => Failure(Unsupported(Boolean))
  }

  /** `FilterOperatorContains.GetBooleanValueProvider`. */
  function ContainsPredicate(l: Expr, r: Expr, cmp: Comparison): Result<Status -> bool, Malformed> {
    match ContainsStrategy(SupportedTypes(l), SupportedTypes(r))
    case Substring =>
      var hay :- StringProvider(l);
      var needle :- StringProvider(r);
      Success(s => StringContains(hay(s), needle(s), cmp))
    case SetHasNumber =>
      var ls :- SetProvider(l);
      var rn :- NumericProvider(r);
      Success(s => rn(s) in ls(s))
    case SetsIntersect =>
      var ls :- SetProvider(l);
      var rs :- SetProvider(r);
      Success(s => exists x :: x in rs(s) && x in ls(s))
  }

  /** `FilterOperatorContainedBy.GetBooleanValueProvider`. */
  function ContainedByPredicate(l: Expr, r: Expr): Result<Status -> bool, Malformed> {
    var rs :- SetProvider(r);
    if ContainedByStrategy(SupportedTypes(l)) == SetHasNumber then
      var ln :- NumericProvider(l);
      Success(s => ln(s) in rs(s))
    else
      var ls :- SetProvider(l);
      Success(s => exists x :: x in ls(s) && x in rs(s))
  }

  // ---- SQL fragments (the store side) -------------------------------------

  function NumericSql(e: Expr): Result<Sql, Malformed> {
    match e
    case UserValue => Success(UserNumericSql())
    case RetweeterValue => Success(RetweeterNumericSql())
    case NumericLiteral(n) => Success(IntConst(n))
    case _ => Failure(Unsupported(Numeric))
  }

  function StringSql(e: Expr): Result<Sql, Malformed> {
    match e
    case UserValue => Success(UserStringSql())
    case RetweeterValue => Success(RetweeterStringSql())
    case StringLiteral(t) => Success(TextConst(t))
    case _ => Failure(Unsupported(String))
  }

  function SetSql(e: Expr): Result<Sql, Malformed> {
    match e
    case SetLiteral(ids) => Success(IdList(ids))
    case _ => Failure(Unsupported(Set))
  }

  function BooleanSql(e: Expr, cmp: Comparison): Result<Sql, Malformed> {
    match e
    case UserFlag(f) => Success(UserIsSql(f))
    case RetweeterFlag(f) => Success(RetweeterIsSql(f))
    case Contains(l, r) => ContainsSql(l, r, cmp)
    case ContainedBy(l, r) => ContainedBySql(l, r)
    case _ => Failure(Unsupported(Boolean))
  }

  /** `FilterOperatorContains.GetBooleanSqlQuery`; the needle is the unwrapped text of the right fragment. */
  function ContainsSql(l: Expr, r: Expr, cmp: Comparison): Result<Sql, Malformed> {
    match ContainsStrategy(SupportedTypes(l), SupportedTypes(r))
    case Substring =>
      var hq :- StringSql(l);
      var nq :- StringSql(r);
      Success(Like(hq, Unwrap(Render(nq)), cmp == CurrentCultureIgnoreCase))
    case SetHasNumber =>
      var lq :- SetSql(l);
      var rq :- NumericSql(r);
      Success(In(rq, lq))
    case SetsIntersect =>
      var lq :- SetSql(l);
      var rq :- SetSql(r);
      Success(ExistsIntersect(lq, rq))
  }

  /**
    `contains` compiled with the needle passed to the store as a value: the pattern is
    concatenated from the right fragment instead of spliced from its text, so any
    string-valued needle works and not only a literal.
  */
  function ContainsSqlCorrected(l: Expr, r: Expr, cmp: Comparison): Result<Sql, Malformed> {
    match ContainsStrategy(SupportedTypes(l), SupportedTypes(r))
    case Substring =>
      var hq :- StringSql(l);
      var nq :- StringSql(r);
      Success(LikeConcat(hq, nq, cmp == CurrentCultureIgnoreCase))
    case _ => ContainsSql(l, r, cmp)
  }

  /** `FilterOperatorContainedBy.GetBooleanSqlQuery`. */
  function ContainedBySql(l: Expr, r: Expr): Result<Sql, Malformed> {
    var rq :- SetSql(r);
    if ContainedByStrategy(SupportedTypes(l)) == SetHasNumber then
      var lq :- NumericSql(l);
      Success(In(lq, rq))
    else
      var lq :- SetSql(l);
      Success(ExistsIntersect(lq, rq))
  }
}
