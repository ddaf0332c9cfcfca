/**
  The `search` filter source: a status passes when its id has been received from the
  web search for the query. Activation registers the query (with its accept-id cache)
  with the receive manager and deactivation unregisters it, each at most once per
  change of state. The store query never matches, so only received ids pass.
*/
module SearchSource {
  import opened Statuses
  import opened Store

  /** A call into the receive manager; `cache` names the accept-id cache object. */
  datatype ManagerCall =
    | RegisterSearchQuery(query: string, cache: nat)
    | UnregisterSearchQuery(query: string, cache: nat)

  /** A search source: its query, its cache's identity, the activation flag and the accepted ids. */
  datatype Search = Search(query: string, cache: nat, isActivated: bool, acceptIds: set<int>)

  /** A new source is inactive and has accepted nothing. */
  function NewSearch(query: string, cache: nat): (src: Search)
    ensures src.query == query && src.cache == cache
    ensures !src.isActivated && src.acceptIds == {}
  {
    Search(query, cache, false, {})
  }

  /** The source after an operation, and the calls the operation made. */
  datatype Step = Step(source: Search, calls: seq<ManagerCall>)

  /** `Activate`: registers once on the inactive-to-active change; otherwise nothing happens. */
  function Activate(src: Search): (r: Step)
    ensures r.source.isActivated
    ensures r.source.acceptIds == src.acceptIds
    ensures r.source.query == src.query && r.source.cache == src.cache
    ensures src.isActivated <==> r.calls == []
    ensures !src.isActivated ==> r.calls == [RegisterSearchQuery(src.query, src.cache)]
  {
    if src.isActivated then Step(src, [])
    else Step(src.(isActivated := true), [RegisterSearchQuery(src.query, src.cache)])
  }

  /** `Deactivate`: unregisters once on the active-to-inactive change; the accepted ids stay. */
  function Deactivate(src: Search): (r: Step)
    ensures !r.source.isActivated
    ensures r.source.acceptIds == src.acceptIds
    ensures r.source.query == src.query && r.source.cache == src.cache
    ensures !src.isActivated <==> r.calls == []
    ensures src.isActivated ==> r.calls == [UnregisterSearchQuery(src.query, src.cache)]
  {
    if !src.isActivated then Step(src, [])
    else Step(src.(isActivated := false), [UnregisterSearchQuery(src.query, src.cache)])
  }

  /** The search result sink: every received status id joins the accept set, active or not. */
  function Receive(src: Search, id: int): (r: Search)
    ensures r.acceptIds == src.acceptIds + {id}
    ensures r.query == src.query && r.cache == src.cache && r.isActivated == src.isActivated
  {
    src.(acceptIds := src.acceptIds + {id})
  }

  /** The evaluator: a status passes exactly when its id was received. */
  function Evaluate(src: Search, s: Status): bool {
    s.id in src.acceptIds
  }

  /** The store query is the constant `0`: the store never yields a status for this source. */
  function SearchSql(): Sql {
    IntConst(0)
  }

  lemma SearchSqlMatchesNothing(row: Row, users: UserTable)
    ensures Render(SearchSql()) == "0"
    ensures !Truthy(Eval(SearchSql(), row, users))
  {
    RenderSmallInts();
  }

  function FilterKey(): string {
    "search"
  }

  function FilterValue(src: Search): string {
    src.query
  }

  /** The operations a source goes through over its life. */
  datatype Op = ActivateOp | DeactivateOp | ReceiveOp(id: int)

  function Apply(src: Search, op: Op): Step {
    match op
    case ActivateOp => Activate(src)
    case DeactivateOp => Deactivate(src)
    case ReceiveOp(id) => Step(Receive(src, id), [])
  }

  /** Runs the operations in order, collecting every call made. */
  function Run(src: Search, ops: seq<Op>): Step
    decreases |ops|
  {
    if |ops| == 0 then Step(src, [])
    else
      var first := Apply(src, ops[0]);
      var rest := Run(first.source, ops[1..]);
      Step(rest.source, first.calls + rest.calls)
  }

  /** The ids received by a sequence of operations. */
  function ReceivedIds(ops: seq<Op>): set<int> {
    set i | 0 <= i < |ops| && ops[i].ReceiveOp? :: ops[i].id
  }

  /**
    The calls alternate, starting with a registration when the source was inactive and
    with an unregistration when it was active; every call names the source's own query
    and cache.
  */
  ghost predicate Alternating(calls: seq<ManagerCall>, wasActive: bool, query: string, cache: nat) {
    forall i :: 0 <= i < |calls| ==>
      calls[i] == (if (i % 2 == 0) == wasActive then UnregisterSearchQuery(query, cache)
                   else RegisterSearchQuery(query, cache))
  }

  lemma AlternatingAppend(a: seq<ManagerCall>, b: seq<ManagerCall>, wasActive: bool, query: string, cache: nat)
    requires Alternating(a, wasActive, query, cache)
    requires Alternating(b, if |a| % 2 == 0 then wasActive else !wasActive, query, cache)
    ensures Alternating(a + b, wasActive, query, cache)
  {
    forall i | 0 <= i < |a + b|
      ensures (a + b)[i] == (if (i % 2 == 0) == wasActive then UnregisterSearchQuery(query, cache)
                             else RegisterSearchQuery(query, cache))
    {
      if i >= |a| {
        assert (a + b)[i] == b[i - |a|];
        ParityOfSum(i - |a|, |a|);
      } else {
        assert (a + b)[i] == a[i];
      }
    }
  }

  lemma ParityOfSum(x: nat, y: nat)
    ensures ((x + y) % 2 == 0) == ((x % 2 == 0) == (y % 2 == 0))
  {
  }

  /**
    Over any run: registrations and unregistrations alternate, so the activation flag at
    the end is the flag at the start flipped once per call; the calls carry the query and
    cache; and the accept set is the starting set plus exactly the received ids.
  */
  lemma {:induction false} RunInvariants(src: Search, ops: seq<Op>)
    ensures Alternating(Run(src, ops).calls, src.isActivated, src.query, src.cache)
    ensures Run(src, ops).source.isActivated == (src.isActivated != (|Run(src, ops).calls| % 2 == 1))
    ensures Run(src, ops).source.query == src.query && Run(src, ops).source.cache == src.cache
    ensures Run(src, ops).source.acceptIds == src.acceptIds + ReceivedIds(ops)
    decreases |ops|
  {
    if |ops| == 0 {
      assert ReceivedIds(ops) == {};
    } else {
      var first := Apply(src, ops[0]);
      RunInvariants(first.source, ops[1..]);
      var rest := Run(first.source, ops[1..]);
      AlternatingAppend(first.calls, rest.calls, src.isActivated, src.query, src.cache);
      assert ReceivedIds(ops) == (if ops[0].ReceiveOp? then {ops[0].id} else {}) + ReceivedIds(ops[1..]) by {
        forall x | x in ReceivedIds(ops)
          ensures x in (if ops[0].ReceiveOp? then {ops[0].id} else {}) + ReceivedIds(ops[1..])
        {
          var i :| 0 <= i < |ops| && ops[i].ReceiveOp? && ops[i].id == x;
          if i > 0 {
            assert ops[1..][i - 1] == ops[i];
          }
        }
        forall x | x in ReceivedIds(ops[1..]) ensures x in ReceivedIds(ops) {
          var i :| 0 <= i < |ops[1..]| && ops[1..][i].ReceiveOp? && ops[1..][i].id == x;
          assert ops[i + 1] == ops[1..][i];
        }
      }
    }
  }

  /** Accepted ids are never dropped, whatever happens after they arrive. */
  lemma AcceptedIdsPersist(src: Search, ops: seq<Op>, s: Status)
    requires Evaluate(src, s)
    ensures Evaluate(Run(src, ops).source, s)
  {
    RunInvariants(src, ops);
  }

  /**
    A new source passes, after any life, exactly the statuses whose ids it received;
    activation and deactivation never decide what passes.
  */
  lemma PassesExactlyReceived(query: string, cache: nat, ops: seq<Op>, s: Status)
    ensures Evaluate(Run(NewSearch(query, cache), ops).source, s) <==> s.id in ReceivedIds(ops)
  {
    RunInvariants(NewSearch(query, cache), ops);
  }

  /** Activating twice registers once; deactivating twice unregisters once. */
  lemma ActivationIdempotent(src: Search)
    ensures Activate(Activate(src).source) == Step(Activate(src).source, [])
    ensures Deactivate(Deactivate(src).source) == Step(Deactivate(src).source, [])
    ensures Run(src, [ActivateOp, ActivateOp]).calls == Activate(src).calls
    ensures Run(src, [DeactivateOp, DeactivateOp]).calls == Deactivate(src).calls
  {
    assert [ActivateOp, ActivateOp][1..] == [ActivateOp];
    assert [DeactivateOp, DeactivateOp][1..] == [DeactivateOp];
  }
}
