/**
  The part of a Twitter status the user accessors read, and the shape of the
  persisted row the store query engine sees for it.
*/
module Statuses {
  import opened Wrappers

  /** The five boolean account flags the `UserIs*` and `RetweeterIs*` nodes read. */
  datatype Flag = Protected | Verified | Translator | ContributorsEnabled | GeoEnabled

  datatype User = User(
    id: int,
    screenName: string,
    isProtected: bool,
    isVerified: bool,
    isTranslator: bool,
    isContributorsEnabled: bool,
    isGeoEnabled: bool)
  {
    function FlagValue(f: Flag): bool {
      match f
      case Protected => isProtected
      case Verified => isVerified
      case Translator => isTranslator
      case ContributorsEnabled => isContributorsEnabled
      case GeoEnabled => isGeoEnabled
    }
  }

  /**
    A status. For a retweet, `user` is the retweeter and `retweetedStatus`
    is the original status with the original author.
  */
  datatype Status = Status(id: int, user: User, retweetedStatus: Option<Status>) {
    predicate IsRetweet() {
      retweetedStatus.Some?
    }
  }

  /** The original status: the retweeted one for a retweet, the status itself otherwise. */
  function GetOriginal(s: Status): (o: Status)
    ensures s.IsRetweet() ==> o == s.retweetedStatus.value
    ensures !s.IsRetweet() ==> o == s
  {
    match s.retweetedStatus
    case Some(r) => r
    case None => s
  }

  /**
    The columns of the persisted status row the SQL fragments reference:
    `Id`, `BaseUserId` (author of the original) and the nullable `RetweeterId`.
  */
  datatype Row = Row(id: int, baseUserId: int, retweeterId: Option<int>)

  /** The user table, keyed by `Id`. */
  type UserTable = map<int, User>

  /** The row the store keeps for a status. */
  function RowOf(s: Status): (r: Row)
    ensures r.id == s.id
    ensures r.baseUserId == GetOriginal(s).user.id
    ensures r.retweeterId.Some? <==> s.IsRetweet()
    ensures s.IsRetweet() ==> r.retweeterId.value == s.user.id
  {
    Row(s.id, GetOriginal(s).user.id, if s.IsRetweet() then Some(s.user.id) else None)
  }

  /**
    A status is representable in a store whose user table holds, under their ids,
    the original author and (for a retweet) the retweeter exactly as the status carries them.
  */
  ghost predicate Represents(users: UserTable, s: Status) {
    var author := GetOriginal(s).user;
    && author.id in users && users[author.id] == author
    && (s.IsRetweet() ==> s.user.id in users && users[s.user.id] == s.user)
  }
}
