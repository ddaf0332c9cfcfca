# StarryEyes filter engine: a verified Dafny model

StarryEyes is a Twitter client. Its timelines are defined by a small typed filter
language. Every node of a filter expression is compiled twice:

- into an in-memory predicate over a status;
- into an SQL `WHERE` fragment that the status store runs over persisted rows.

This project models the core of that engine:

- **Operators.** The two set operators are `contains` (`FilterOperatorContains`) and
  `in` (`FilterOperatorContainedBy`). Each picks a comparison strategy from the kinds
  its operands advertise: substring match, numeric membership or set intersection.
- **Accessors.** The user and retweeter accessor nodes cover the `user.is_*` and
  `retweeter.is_*` flags and the `user` and `retweeter` values. They have total
  defaults for statuses that are not retweets.
- **Search source.** `FilterSearch` is a two-state activation machine with a
  growing set of accepted ids.
- **Local source.** `FilterLocal` resolves a tab name against the tab registry and
  checks that tabs do not refer to themselves.
- **Surrogate helper.** `TextSurrogateHelper` counts and slices UTF-16 text with
  surrogate pairs taken into account.

The SQL side is modelled as a syntax tree (`Store.Sql`) with two readings:

- `Render` is the text built exactly as the source concatenates it.
- `Eval` is what the store computes for that text on one row joined with the user
  table.

Predicate/SQL agreement is stated against `Eval`.

Modules, one per file:

- `Wrappers`: `Option` and `Result`.
- `Kinds`: the four expression kinds.
- `Statuses`: statuses, users and stored rows.
- `Strings`: substring search, case folding, and the quoting helpers.
- `Store`: the SQL tree, `Render` and `Eval`.
- `UserValues`: Booleans.cs and Complexes.cs.
- `Operators`: the dispatch.
- `Expressions`: the node datatype and its compilers.
- `ExpressionLaws`: agreement and mirroring.
- `SearchSource`: FilterSearch.cs.
- `Expansion`: the reachability search behind the recursion check.
- `LocalSource`: FilterLocal.cs.
- `Surrogates`: TextSurrogateHelper.cs.

## Model

| member | source | states |
|---|---|---|
| Operators.ContainsStrategy | StarryEyes/Filters/Expressions/Operators/OperatorSets.cs:16-25 | `contains` compares as strings exactly when the left operand cannot be a set, or when it can be a string and the right operand can be neither a set nor a number. Otherwise it tests membership exactly when the right operand can be numeric, and intersection in the remaining case. Both non-string strategies imply that the left operand is a set. |
| Operators.ContainedByStrategy | StarryEyes/Filters/Expressions/Operators/OperatorSets.cs:88-114 | `in` never compares strings. It tests membership exactly when the left operand can be numeric. |
| Operators.StringContains | StarryEyes/Filters/Expressions/Operators/OperatorSets.cs:33-39 | A null haystack or needle gives `false`. Otherwise the result is "the needle occurs in the haystack", either ordinally or after case folding both sides. The fold is the ASCII fold; `Operators.CultureContains` takes a culture's fold as a parameter. |
| Operators.AnySharedIsIntersection | StarryEyes/Filters/Expressions/Operators/OperatorSets.cs:47-52 | "some element of the right set is in the left set" holds exactly when the intersection is non-empty. |
| Operators.CultureContains | StarryEyes/Filters/Expressions/Operators/OperatorSets.cs:33-39 | The ignore-case predicate under a culture whose case fold is a parameter: a null side gives `false`; otherwise the result is "the folded needle occurs in the folded haystack". |
| Operators.CultureContainsOnAscii | StarryEyes/Filters/Expressions/Operators/OperatorSets.cs:33-39 | On text whose every character the culture folds as ASCII folding does, the culture predicate equals the model's ignore-case `StringContains`. |
| Strings.IndexOf | StarryEyes/Filters/Expressions/Operators/OperatorSets.cs:38 | The index is non-negative exactly when the needle occurs, and it is then the first occurrence. |
| ExpressionLaws.AdvertisedKindsAreAnswered | StarryEyes/Filters/Expressions/Operators/OperatorSets.cs:75-78 | A node yields a numeric, string or set provider exactly when it advertises that kind. Both operators and every flag accessor advertise exactly `{Boolean}`. `user` and `retweeter` advertise exactly `{Numeric, String}`. |
| ExpressionLaws.CompilersInLockstep | StarryEyes/Filters/Expressions/Operators/OperatorSets.cs:29-72 | For every node and each of the numeric, string, set and boolean kinds, the predicate compiler succeeds exactly when the SQL compiler does, and on failure both report the same malformed-tree error. |
| ExpressionLaws.ContainsStringBranch | StarryEyes/Filters/Expressions/Operators/OperatorSets.cs:29-40 | On the string path the predicate is the null-safe substring test of the two string values. The fragment is `LOWER(h) LIKE LOWER('%n%') escape '\'` when ignoring case, and `h LIKE '%n%' escape '\'` otherwise. |
| ExpressionLaws.ContainsMembershipBranch | StarryEyes/Filters/Expressions/Operators/OperatorSets.cs:41-46 | With a numeric right operand, the predicate is "the left set holds the right number" and the fragment is `<num> IN <set>`. |
| ExpressionLaws.ContainsIntersectionBranch | StarryEyes/Filters/Expressions/Operators/OperatorSets.cs:47-52 | Otherwise the predicate is a non-empty intersection and the fragment is `exists (L intersect R)` with one pair of parentheses stripped from each side. |
| ExpressionLaws.ContainedByBranches | StarryEyes/Filters/Expressions/Operators/OperatorSets.cs:88-114 | With a numeric left operand, `in` is "the right set holds the left number" with fragment `<num> IN <set>`. Otherwise it is a non-empty intersection with fragment `exists (L intersect R)`, one pair of parentheses stripped from each side. |
| ExpressionLaws.ValueAgreesWithSql | StarryEyes/Filters/Expressions/Values/Users/Complexes.cs:19-74 | On every status the store can represent, each numeric, string and set fragment evaluates to the value its provider gives. |
| ExpressionLaws.LikeAgrees | StarryEyes/Filters/Expressions/Operators/OperatorSets.cs:59-63 | SQLite's `LIKE` ignores ASCII case, so a `LIKE '%n%'` over a fragment that evaluates to the haystack keeps the row exactly when the case-folded needle occurs in the case-folded haystack. This agrees with the predicate under `CurrentCultureIgnoreCase`. Under `Ordinal` it keeps every row the predicate accepts. |
| ExpressionLaws.ContainsAgrees | StarryEyes/Filters/Expressions/Operators/OperatorSets.cs:27-73 | For a literal needle: a status that `contains` accepts always keeps its row. Off the ordinal string branch, the fragment keeps exactly the rows whose statuses the predicate accepts. |
| ExpressionLaws.ContainedByAgrees | StarryEyes/Filters/Expressions/Operators/OperatorSets.cs:88-114 | The `in` fragment keeps the stored row exactly when the `in` predicate accepts the status. |
| ExpressionLaws.PredicateAgreesWithSql | StarryEyes/Filters/Expressions/Operators/OperatorSets.cs:27-114 | For every boolean node with literal needles, the fragment keeps the row of every status the predicate accepts. Except for an ordinal string `contains`, it keeps exactly those rows. |
| ExpressionLaws.OrdinalKeepsOtherCase | StarryEyes/Filters/Expressions/Operators/OperatorSets.cs:33-39 | `"ABC" contains "b"` with the ordinal comparison rejects every status, while its fragment `'ABC' LIKE '%b%'` keeps every row. |
| ExpressionLaws.NonAsciiCaseDropsRow | StarryEyes/Filters/Expressions/Operators/OperatorSets.cs:59-61 | Ignoring case, for any culture fold that maps `É` and `é` alike, `"É" contains "é"` accepts every status, while its fragment `LOWER('É') LIKE LOWER('%é%')` keeps no row. The model's ASCII fold rejects it, as the store does. |
| ExpressionLaws.QuotedNeedleIsEscaped | StarryEyes/Filters/Expressions/Operators/OperatorSets.cs:62 | `"it's" contains "'"` renders as `'it''s' LIKE '%''%' escape '\'`, with each quote doubled, and the store keeps the row. |
| ExpressionLaws.SubqueryNeedleIsText | StarryEyes/Filters/Expressions/Operators/OperatorSets.cs:60-62 | As written, `user contains user` accepts a status whose author is `x` stored in the user table. Its fragment drops that row, because it searches `x` for the text of the sub-select. |
| ExpressionLaws.CorrectedContainsAgrees | StarryEyes/Filters/Expressions/Operators/OperatorSets.cs:27-73 | With the needle passed to the store as a value (`'%' \|\| n \|\| '%'`), every needle works, literal or not: accepted statuses keep their rows, and off the ordinal string branch exactly those rows are kept. |
| ExpressionLaws.CorrectedMatchesOnLiterals | StarryEyes/Filters/Expressions/Operators/OperatorSets.cs:59-63 | On a string-literal needle, the corrected fragment and the as-written fragment evaluate alike on every row. |
| ExpressionLaws.ContainedByMirrorsContains | StarryEyes/Filters/Expressions/Operators/OperatorSets.cs:88-114 | When `contains` with left operand `b` does not compare as strings, `a in b` and `b contains a` have the same success, error and predicate value, and fragments that evaluate alike. The fragment text is identical when `a` is numeric. |
| Expressions.SupportedTypes | StarryEyes/Filters/Expressions/Operators/OperatorSets.cs:75-78 | The kinds each node advertises; `ExpressionLaws.AdvertisedKindsAreAnswered` states that they are exactly the kinds it answers. |
| Expressions.ContainsPredicate | StarryEyes/Filters/Expressions/Operators/OperatorSets.cs:27-53 | The predicate of `contains`, chosen by `Operators.ContainsStrategy`; its three branches are stated by `ExpressionLaws.ContainsStringBranch`, `ContainsMembershipBranch` and `ContainsIntersectionBranch`. |
| Expressions.ContainsSql | StarryEyes/Filters/Expressions/Operators/OperatorSets.cs:55-73 | The fragment of `contains`, with the needle's text spliced into the `LIKE` pattern; stated by the same branch lemmas and by `ExpressionLaws.ContainsAgrees`. |
| Expressions.ContainsSqlCorrected | StarryEyes/Filters/Expressions/Operators/OperatorSets.cs:59-63 | `contains` with the pattern concatenated from the needle fragment's value; stated by `ExpressionLaws.CorrectedContainsAgrees`. |
| Expressions.ContainedByPredicate | StarryEyes/Filters/Expressions/Operators/OperatorSets.cs:88-102 | The predicate of `in`; stated by `ExpressionLaws.ContainedByBranches` and `ContainedByMirrorsContains`. |
| Expressions.ContainedBySql | StarryEyes/Filters/Expressions/Operators/OperatorSets.cs:104-114 | The fragment of `in`; stated by `ExpressionLaws.ContainedByBranches` and `ContainedByAgrees`. |
| Expressions.ToQuery | StarryEyes/Filters/Expressions/Values/Users/Booleans.cs:25-28 | The canonical text of a node; `UserValues.FlagQueriesDistinct` states that the flag accessors print distinctly. |
| UserValues.UserIsAgrees | StarryEyes/Filters/Expressions/Values/Users/Booleans.cs:15-23 | A `user.is_*` fragment reads the flag through `status.BaseUserId`. It evaluates to the original author's flag as 0/1. |
| UserValues.RetweeterIsAgrees | StarryEyes/Filters/Expressions/Values/Users/Booleans.cs:130-138 | A `retweeter.is_*` fragment is `coalesce((select … where Id = status.RetweeterId …), 0)`. For a non-retweet both the predicate and the fragment give false. In general the fragment is the retweeter's flag as 0/1. |
| UserValues.UserAgrees | StarryEyes/Filters/Expressions/Values/Users/Complexes.cs:19-37 | `user` is `BaseUserId` as a number and the looked-up screen name as a string. Both are the original author's. |
| UserValues.RetweeterAgrees | StarryEyes/Filters/Expressions/Values/Users/Complexes.cs:56-74 | `retweeter` is the retweeting user's id and name. A non-retweet gives -1 and "". The fragments coalesce to the same defaults (`coalesce(RetweeterId, -1)`). |
| UserValues.FlagQueriesDistinct | StarryEyes/Filters/Expressions/Values/Users/Booleans.cs:25-28 | The canonical name of a `user.is_*` accessor never equals that of a `retweeter.is_*` accessor. Within each family, two accessors print alike exactly when they read the same flag. |
| UserValues.UserIs | StarryEyes/Filters/Expressions/Values/Users/Booleans.cs:15-18 | The original author's flag; with `UserIsSql` it is stated by `UserValues.UserIsAgrees`. |
| UserValues.UserIsSql | StarryEyes/Filters/Expressions/Values/Users/Booleans.cs:20-23 | The lookup through `status.BaseUserId`; stated by `UserValues.UserIsAgrees`. |
| UserValues.RetweeterIs | StarryEyes/Filters/Expressions/Values/Users/Booleans.cs:130-133 | The retweeter's flag, false for a non-retweet; with `RetweeterIsSql` it is stated by `UserValues.RetweeterIsAgrees`. |
| UserValues.RetweeterIsSql | StarryEyes/Filters/Expressions/Values/Users/Booleans.cs:135-138 | The coalesced lookup through `status.RetweeterId`; stated by `UserValues.RetweeterIsAgrees`. |
| UserValues.UserIsQuery | StarryEyes/Filters/Expressions/Values/Users/Booleans.cs:25-28 | `user.is_*`; stated by `UserValues.FlagQueriesDistinct`. |
| UserValues.RetweeterIsQuery | StarryEyes/Filters/Expressions/Values/Users/Booleans.cs:140-143 | `retweeter.is_*`; stated by `UserValues.FlagQueriesDistinct`. |
| UserValues.UserId | StarryEyes/Filters/Expressions/Values/Users/Complexes.cs:19-22 | The original author's id; with `UserNumericSql` it is stated by `UserValues.UserAgrees`. |
| UserValues.UserNumericSql | StarryEyes/Filters/Expressions/Values/Users/Complexes.cs:24-27 | `BaseUserId`; stated by `UserValues.UserAgrees`. |
| UserValues.UserScreenName | StarryEyes/Filters/Expressions/Values/Users/Complexes.cs:29-32 | The original author's screen name; with `UserStringSql` it is stated by `UserValues.UserAgrees`. |
| UserValues.UserStringSql | StarryEyes/Filters/Expressions/Values/Users/Complexes.cs:34-37 | The screen-name lookup through `BaseUserId`; stated by `UserValues.UserAgrees`. |
| UserValues.RetweeterUserId | StarryEyes/Filters/Expressions/Values/Users/Complexes.cs:56-59 | The retweeter's id or -1; with `RetweeterNumericSql` it is stated by `UserValues.RetweeterAgrees`. |
| UserValues.RetweeterNumericSql | StarryEyes/Filters/Expressions/Values/Users/Complexes.cs:61-64 | `coalesce(RetweeterId, -1)`; stated by `UserValues.RetweeterAgrees`. |
| UserValues.RetweeterScreenName | StarryEyes/Filters/Expressions/Values/Users/Complexes.cs:66-69 | The retweeter's screen name or `""`; with `RetweeterStringSql` it is stated by `UserValues.RetweeterAgrees`. |
| UserValues.RetweeterStringSql | StarryEyes/Filters/Expressions/Values/Users/Complexes.cs:71-74 | The coalesced screen-name lookup through `RetweeterId`; stated by `UserValues.RetweeterAgrees`. |
| Store.UnwrapTextConst | StarryEyes/Filters/Expressions/Operators/OperatorSets.cs:61 | A string literal renders with its single quotes doubled. Unwrapping it gives that literal body, and the store reads the body back as the literal's text. |
| Store.IdListsIntersectAsSelects | StarryEyes/Filters/Expressions/Operators/OperatorSets.cs:65-72 | An id-set operand renders as a parenthesised simple `select`, which `Unparenthesis` turns back into that `select`. Two id sets compared by intersection therefore render as `exists (select … intersect select …)`. |
| SearchSource.Activate | StarryEyes/Filters/Sources/FilterSearch.cs:68-73 | After activation the source is active. It registers its own query and cache exactly when it was inactive, and the accepted ids are unchanged. |
| SearchSource.Deactivate | StarryEyes/Filters/Sources/FilterSearch.cs:75-80 | After deactivation the source is inactive. It unregisters its own query and cache exactly when it was active, and the accepted ids are kept. |
| SearchSource.Receive | StarryEyes/Filters/Sources/FilterSearch.cs:57-63 | A received status id joins the accept set whatever the activation state. Nothing else changes. |
| SearchSource.Evaluate | StarryEyes/Filters/Sources/FilterSearch.cs:24-34 | The evaluator passes a status by its id alone. Its contract is stated by `SearchSource.PassesExactlyReceived`: a new source passes exactly the ids received since. It is also stated by `SearchSource.AcceptedIdsPersist`: a status once passed keeps passing. |
| SearchSource.PassesExactlyReceived | StarryEyes/Filters/Sources/FilterSearch.cs:24-34 | A new source, after any sequence of activations, deactivations and receptions, passes a status exactly when its id was among those received. |
| SearchSource.SearchSqlMatchesNothing | StarryEyes/Filters/Sources/FilterSearch.cs:36-39 | The store query is the text `0`, which keeps no row. |
| SearchSource.NewSearch | StarryEyes/Filters/Sources/FilterSearch.cs:16-22 | A new source holds its query, is inactive and has accepted nothing. |
| SearchSource.RunInvariants | StarryEyes/Filters/Sources/FilterSearch.cs:57-80 | Over any sequence of operations: registrations and unregistrations alternate, starting from the initial state, and the final activation flag follows from their count; every call carries the source's own query and cache; the accept set is the initial set plus exactly the received ids. |
| SearchSource.AcceptedIdsPersist | StarryEyes/Filters/Sources/FilterSearch.cs:75-80 | A status once accepted stays accepted through any later activations, deactivations and receptions. |
| SearchSource.ActivationIdempotent | StarryEyes/Filters/Sources/FilterSearch.cs:68-80 | Activating twice makes one registration. Deactivating twice makes one unregistration. |
| LocalSource.FindFirst | StarryEyes/Filters/Sources/FilterLocal.cs:64-66 | The lookup returns the first tab with the name, over all columns in order. It returns nothing exactly when no tab has the name. |
| LocalSource.Lookup | StarryEyes/Filters/Sources/FilterLocal.cs:64-66 | Lookup finds nothing exactly when no tab in the registry has the name. Otherwise it gives a registry tab with that name. |
| LocalSource.NewLocal | StarryEyes/Filters/Sources/FilterLocal.cs:23-27 | The constructor resolves at once. With an empty name or a loading registry the node is unresolved and no error is raised. A missing name raises "tab not found". A found tab is held, and the recursion error is raised exactly when that tab reaches itself, decided by the check with a visited set. |
| LocalSource.Current | StarryEyes/Filters/Sources/FilterLocal.cs:17 | The node's tab is a reference: its contents are those of the registry tab with the same identity, or the contents last seen once the tab is no longer listed. |
| LocalSource.Resolve | StarryEyes/Filters/Sources/FilterLocal.cs:49-84 | Cases, in order: (1) an empty name does nothing; (2) an unresolved node stays unresolved, without error, while the registry has no columns; (3) otherwise a name the registry lacks raises "tab not found" and leaves the node unchanged; (4) a found tab is the first with the name; (5) a resolved tab is kept by identity, is not looked up by name again, and its current contents are read; (6) the recursion error is raised exactly when those contents reach the tab itself, decided by the check with a visited set (`LocalSource.HasCycle`). |
| LocalSource.GetEvaluator | StarryEyes/Filters/Sources/FilterLocal.cs:29-35 | The call resolves first and propagates its error. Without a tab or a query the evaluator passes every status. Otherwise it is the evaluator of the resolved tab's current query. |
| LocalSource.GetSqlQuery | StarryEyes/Filters/Sources/FilterLocal.cs:37-43 | The call resolves first and propagates its error. Without a tab or a query the text is `1`. Otherwise it is the text of the resolved tab's current query. |
| LocalSource.ReadsCurrentQuery | StarryEyes/Filters/Sources/FilterLocal.cs:29-43 | For a resolved node, both calls answer from the tab's current contents, however the tab was edited since it was resolved. The recursion error is raised exactly when those contents reach the tab, decided by the check with a visited set. Otherwise the answer is `1` / the tautology without a query, or the current query's text / evaluator. |
| LocalSource.EditedTabIsRechecked | StarryEyes/Filters/Sources/FilterLocal.cs:74-83 | A node resolved while `A` referred to nothing raises the recursion error once `A` is edited to refer to `B`, which refers back to `A`. |
| LocalSource.UnresolvedPassesAll | StarryEyes/Filters/Sources/FilterLocal.cs:51-62 | With an empty name, or while the registry is loading, the node passes every status, its query text is `1`, and no error is raised. |
| LocalSource.ResolveIdempotent | StarryEyes/Filters/Sources/FilterLocal.cs:56 | In a registry where tabs with one identity are one tab, resolving a resolved node again gives the same node and the same error. |
| LocalSource.HasCycleIffCheckFinds | StarryEyes/Filters/Sources/FilterLocal.cs:74-83 | The recursion check with a visited set reports recursion exactly when the check as written finds a node for this tab after some finite number of layers. |
| LocalSource.MutualReferenceRaises | StarryEyes/Filters/Sources/FilterLocal.cs:74-83 | `A` → `B` → `A`: the check finds `A` in the second layer. Resolution keeps the tab and raises the recursion error. |
| LocalSource.ChainResolves | StarryEyes/Filters/Sources/FilterLocal.cs:74-83 | `A` → `B` → `C`: the check as written ends without a hit, and the reference resolves without error. |
| LocalSource.RecursionCheckNeverEnds | StarryEyes/Filters/Sources/FilterLocal.cs:74-83 | `A` → `B`, with `B` ⇄ `C`: the check as written never ends, however many layers it is given. The check with a visited set reports no recursion, and the reference resolves. |
| LocalSource.ResolveAsWritten | StarryEyes/Filters/Sources/FilterLocal.cs:49-84 | Resolution with the recursion check as written and `fuel` layers. It is still running exactly when a found tab's check has not ended, and it raises the recursion error only when that check found the tab. |
| LocalSource.AsWrittenAgreesWhenItEnds | StarryEyes/Filters/Sources/FilterLocal.cs:49-84 | Whenever resolution as written returns, it gives the same node and error as `Resolve`. Every recursion error `Resolve` raises is also raised as written, given enough layers. |
| LocalSource.ResolveAsWrittenNeverReturns | StarryEyes/Filters/Sources/FilterLocal.cs:23-43 | `A` → `B`, with `B` ⇄ `C`: resolving `A` as written is still running for every number of layers, so the constructor, `GetEvaluator` and `GetSqlQuery` never return on it. |
| LocalSource.RecursionCheck | StarryEyes/Filters/Sources/FilterLocal.cs:74-79 | The check as written: the enumeration from the tab's own `local` sources, looking for a node that stands for the tab; stated by `LocalSource.HasCycleIffCheckFinds` and `Expansion.ExpandSearchFinds`. |
| LocalSource.HasCycle | StarryEyes/Filters/Sources/FilterLocal.cs:74-83 | The check with a visited set; stated by `LocalSource.HasCycleIffCheckFinds`. |
| Expansion.ExpandSearch | StarryEyes/Filters/Sources/FilterLocal.cs:74-79 | The layer-by-layer `Expand` with a `fuel` bound; stated by `Expansion.ExpandSearchFinds` and `ExpandSearchExhausts`. |
| Expansion.ExpandSearchFinds | StarryEyes/Filters/Sources/FilterLocal.cs:74-83 | The layer-by-layer enumeration finds a target within `fuel` layers exactly when one of the first `fuel + 1` layers holds one. |
| Expansion.ExpandSearchExhausts | StarryEyes/Filters/Sources/FilterLocal.cs:74-83 | The enumeration runs dry only when some layer is empty, and it is still running only when every layer so far is non-empty. |
| Expansion.Closure | StarryEyes/Filters/Sources/FilterLocal.cs:74-83 | The closure contains its start set and is closed under the expansion step. |
| Expansion.ReachesIffSomeLayer | StarryEyes/Filters/Sources/FilterLocal.cs:74-83 | The closure holds a target exactly when some layer of the enumeration does. |
| Expansion.ReachesIffFound | StarryEyes/Filters/Sources/FilterLocal.cs:74-83 | The closure holds a target exactly when the enumeration finds one given enough layers. |
| Expansion.EndedSearchIsRight | StarryEyes/Filters/Sources/FilterLocal.cs:74-83 | When the enumeration ends, its answer is right: "found" implies a reachable target, and "ran dry" implies none. |
| Surrogates.UnsurrogatedLength | StarryEyes.Anomaly/Utils/TextSurrogateHelper.cs:43-47 | Null is an argument error. Otherwise the result is the length plus the number of high surrogates. |
| Surrogates.SurrogatedLength | StarryEyes.Anomaly/Utils/TextSurrogateHelper.cs:54-58 | Null is an argument error. Otherwise the result is the length minus the number of high surrogates. |
| Surrogates.UnsurrogatedSum | StarryEyes.Anomaly/Utils/TextSurrogateHelper.cs:46 | The left-to-right sum (2 per high surrogate, 1 otherwise) equals the length plus the high-surrogate count. |
| Surrogates.SurrogatedSum | StarryEyes.Anomaly/Utils/TextSurrogateHelper.cs:57 | The left-to-right sum (0 per high surrogate, 1 otherwise) plus the high-surrogate count equals the length. |
| Surrogates.HighCountBounds | StarryEyes.Anomaly/Utils/TextSurrogateHelper.cs:46-57 | There are at most as many high surrogates as code units. There are none exactly when no code unit is a high surrogate. |
| Surrogates.LengthsOrdered | StarryEyes.Anomaly/Utils/TextSurrogateHelper.cs:43-58 | The surrogated length is at most the code-unit length, which is at most the unsurrogated length. Each equality holds exactly when there is no high surrogate. |
| Surrogates.SubstringOf | StarryEyes.Anomaly/Utils/TextSurrogateHelper.cs:20-35 | The start is `startIndex` plus the high surrogates among the first `startIndex` code units. With `length == -1` the call succeeds exactly when that start is in range, and gives the suffix from it. Otherwise it succeeds exactly when both slices are in range, and gives `length` plus the high surrogates among those units. Every failure is an out-of-range error carrying the string, the start index and the length. |
| Surrogates.SurrogatedSubstring | StarryEyes.Anomaly/Utils/TextSurrogateHelper.cs:17-19 | Null, and only null, is an argument error. |
| Surrogates.SubstringWithoutSurrogates | StarryEyes.Anomaly/Utils/TextSurrogateHelper.cs:22-28 | On text without high surrogates the helper is plain `Substring`, with or without a length. |
| Surrogates.SubstringSplitsPair | StarryEyes.Anomaly/Utils/TextSurrogateHelper.cs:22-25 | On two emoji followed by `a`, asking from code point 2 returns a text starting inside the second pair, at a lone low surrogate. The code-point reading returns `a`. |
| Surrogates.AdvanceLands | StarryEyes.Anomaly/Utils/TextSurrogateHelper.cs:22-28 | On well-formed text, stepping `k` code points lands after exactly `k` code points, on a pair boundary. |
| Surrogates.AdvanceFails | StarryEyes.Anomaly/Utils/TextSurrogateHelper.cs:22-28 | Stepping `k` code points fails exactly when fewer than `k` follow. |
| Surrogates.CodePointSubstringOf | StarryEyes.Anomaly/Utils/TextSurrogateHelper.cs:30-35 | Every failure of the corrected substring is an out-of-range error carrying the inputs. |
| Surrogates.CodePointSubstring | StarryEyes.Anomaly/Utils/TextSurrogateHelper.cs:17-19 | Null, and only null, is an argument error for the corrected substring. |
| Surrogates.CodePointSubstringSucceeds | StarryEyes.Anomaly/Utils/TextSurrogateHelper.cs:17-36 | On well-formed text the corrected substring succeeds exactly when the requested code points exist. |
| Surrogates.CodePointSubstringSlices | StarryEyes.Anomaly/Utils/TextSurrogateHelper.cs:17-36 | On well-formed text a successful corrected substring lies between two pair boundaries. It starts `startIndex` code points in, and holds `length` code points or runs to the end. |
| Surrogates.SubstringReadingsAgree | StarryEyes.Anomaly/Utils/TextSurrogateHelper.cs:17-36 | Without high surrogates the as-written and corrected substrings agree on every input. |

## Left out

- I/O and concurrency are not modelled:
  - the `lock`s around the accept set;
  - the AVL tree, which is a `set<int>` here;
  - the network `ReceiveSink` pipeline, of which only "every received id is added" is kept;
  - the receive manager's side of `RegisterSearchQuery` and `UnregisterSearchQuery`, which is a call log here.
- The helpers the core calls but this model does not contain are modelled as follows:
  - `Unwrap` strips one pair of single quotes.
  - `Unparenthesis` strips one pair of outer parentheses.
  - `GetOriginal` is the retweeted status if there is one, else the status itself.
  - The retweeter defaults are a NULL-coalesce, rendered `coalesce(x, d)`.
  - The `TabManager` registry is a sequence of columns of tabs.
- `CurrentCultureIgnoreCase` is the culture that folds ASCII letters only, the fold `Strings.Fold` that SQLite's `LOWER` and its default `LIKE` use. So every ignore-case agreement below holds only for text whose letters a real culture folds as ASCII folding does (`Operators.CultureContainsOnAscii`). A culture that folds non-ASCII case pairs such as `É`/`é` or `Ａ`/`ａ` makes the predicate accept statuses whose rows the fragment drops (`ExpressionLaws.NonAsciiCaseDropsRow`, Findings). Real culture rules are not modelled.
- Operators.StringContains: its ignore-case branch is the ASCII fold, not the current culture's fold.
- A `LIKE` needle is read as the body of an SQL string literal, so a doubled quote stands for one. A needle text with a lone quote would be rejected by the store; `Eval` reads that quote as itself.
- `%`, `_` and `\` inside a `LIKE` needle are taken literally. The emitted `escape '\'` clause is rendered, but the store's wildcard semantics are not.
- ExpressionLaws.ContainsAgrees: states agreement on the string path only for a literal needle (`ExpressionLaws.NeedlesAreLiterals`). For any other needle the source splices the fragment's text into the pattern (see Findings). On the ordinal string path it states only that accepted statuses keep their rows. SQLite's `LIKE` ignores ASCII case, so the fragment also keeps rows the ordinal predicate rejects (`ExpressionLaws.OrdinalKeepsOtherCase`). Its ignore-case equality holds only while the culture folds the text's letters as ASCII folding does; for non-ASCII case pairs the predicate accepts and the fragment drops the row.
- ExpressionLaws.PredicateAgreesWithSql: carries the same literal-needle restriction and the same one-way statement for an ordinal string `contains`. Its ignore-case equality also rests on the ASCII fold, and fails for non-ASCII case pairs.
- ExpressionLaws.LikeAgrees: under `Ordinal` it states only that accepted statuses keep their rows, for the same reason. Under `CurrentCultureIgnoreCase` its equality is with the ASCII-fold predicate; a culture that folds non-ASCII letters breaks it (`ExpressionLaws.NonAsciiCaseDropsRow`).
- ExpressionLaws.CorrectedContainsAgrees: has the same one-way ordinal statement. Passing the needle as a value does not make `LIKE` case-sensitive, nor make `LOWER` fold non-ASCII letters: its ignore-case equality also rests on the ASCII fold.
- Only the accessor nodes, the two operators and three literal operands (string, number and id set) are expression nodes. The rest of the expression language is outside this model. The id-set literal stands in for the language's set-valued operands. Those render as parenthesised sub-selects, and so does the id set here: `(select column1 from (values (1), (2)))`, or `(select 0 where 0)` when empty.
- `long` ids are unbounded integers. Statuses and users never carry ids near the 64-bit limit.
- LocalSource.TabOfNode: every nested `local` node is taken to be resolved against the current registry. In the source a nested node built while the registry was loading keeps no tab until its own `GetEvaluator` or `GetSqlQuery` runs, and `Expand` does not look past such a node. So the source's check can end, or miss a cycle, at an unresolved node where this model keeps going. An empty name resolves to nothing.
- Tab identity (the reference the node holds, and reference equality in the recursion check) is the `uid` field.
- LocalSource.Current: a tab that has left the registry keeps the contents it had when last read. Edits made to it after it left are not seen.
- LocalSource.ResolveIdempotent: requires that tabs with one `uid` are one tab, which is what `uid` stands for.
- Evaluators and query texts of other tabs' filter queries are opaque values carried by the tab.
- LocalSource.Resolve: raises the recursion error by the check with a visited set (`HasCycle`). Where the source's enumeration never ends (`LocalSource.ResolveAsWrittenNeverReturns`), it returns without error. `LocalSource.ResolveAsWritten` is the as-written resolution, and `LocalSource.AsWrittenAgreesWhenItEnds` shows the two agree whenever it returns.
- LocalSource.NewLocal: resolves with `Resolve`, so it returns without error where the source's constructor never returns.
- LocalSource.GetEvaluator: resolves with `Resolve`, so it answers where the source's call never returns.
- LocalSource.GetSqlQuery: resolves with `Resolve`, so it answers where the source's call never returns.
- LocalSource.ReadsCurrentQuery: states the answers of the calls that resolve with `Resolve`, including where the source's calls never return.
- The as-written recursion check is an enumeration that may not end. It is modelled with a `fuel` bound, and `OutOfFuel` means "still running".
- The filter-language strings `FilterKey` (`search`, `local`) and `FilterValue` (the query, the tab name) are modelled as plain functions with no contract.
- Dafny's `char` cannot hold a lone surrogate, so UTF-16 text is a sequence of the 16-bit `Surrogates.CodeUnit`.
- The sums in `TextSurrogateHelper` cannot overflow `int`: twice the maximum .NET string length is below 2^31.

## Findings

| source | as written | input that shows it | evidently intended | confidence | as-written member | corrected member |
|---|---|---|---|---|---|---|
| StarryEyes.Anomaly/Utils/TextSurrogateHelper.cs:22 | The start offset is `startIndex` plus the high surrogates among the first `startIndex` *code units*. | Two emoji (`D83D DE00 D83D DE00`) then `a`, `startIndex = 2`, `length = -1`: the start offset is 3 and the result begins with the lone low surrogate `DE00`. | The first `startIndex` *code points* are skipped, giving `a`. | high (not executed) | Surrogates.SubstringSplitsPair | Surrogates.CodePointSubstringSlices |
| StarryEyes/Filters/Sources/FilterLocal.cs:74-79 | The recursion check enumerates the `local` sources layer by layer without remembering visited nodes, and stops only on a hit or on an empty layer. | Tab `A` refers to `B`; `B` and `C` refer to each other. Resolving `A` enumerates `B, C, B, C, …` forever. | Report no recursion for `A`, which is not on a cycle, and finish. | medium (not executed) | LocalSource.RecursionCheckNeverEnds | LocalSource.HasCycleIffCheckFinds |
| StarryEyes/Filters/Expressions/Operators/OperatorSets.cs:60-62 | On the string path the needle enters the `LIKE` pattern as the unwrapped SQL *text* of the right operand, so only a string literal survives. | `user contains user`, with author `x` in the user table: the predicate accepts. The fragment `(select ScreenName …) LIKE '%(select ScreenName … limit 1)%'` drops the row. | The pattern is built from the needle's value (`'%' \|\| n \|\| '%'`), so any string-valued operand works. | high (not executed) | ExpressionLaws.SubqueryNeedleIsText | ExpressionLaws.CorrectedContainsAgrees |
| StarryEyes/Filters/Expressions/Operators/OperatorSets.cs:59-61 | Ignoring case, the predicate (line 38) folds with the current culture, while the fragment folds with SQLite's `LOWER`, which folds ASCII letters only. | `"É" contains "é"` with `CurrentCultureIgnoreCase`: the culture comparison accepts every status, and `LOWER('É') LIKE LOWER('%é%')` keeps no row. | The store keeps exactly the statuses the predicate accepts, which needs both sides to fold case the same way. | medium (not executed) | ExpressionLaws.NonAsciiCaseDropsRow | ExpressionLaws.LikeAgrees |
