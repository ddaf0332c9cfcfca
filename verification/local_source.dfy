/**
  The `local` filter source: it stands for the filter of another tab, named by the
  user. It resolves the name against the tab registry once (while the registry is
  still loading it stays unresolved), then passes what that tab's filter passes. Every
  use re-runs the recursion check: a tab may not, through a chain of `local` sources,
  refer back to itself.
*/
module LocalSource {
  import opened Wrappers
  import opened Statuses
  import opened Expansion

  /**
    What a tab's filter query offers: the tab names of the `local` sources among its
    sources, its evaluator and its store query text.
  */
  datatype FilterQuery = FilterQuery(localSources: seq<string>, evaluator: Status -> bool, sql: string)

  /** A tab. `uid` stands for the tab object's identity, which the recursion check compares. */
  datatype TabModel = TabModel(uid: nat, name: string, filterQuery: Option<FilterQuery>)

  datatype TabColumn = TabColumn(tabs: seq<TabModel>)

  /** The registry of columns; it has no columns while the tabs are still being loaded. */
  datatype Registry = Registry(columns: seq<TabColumn>)

  /** All tabs, column by column. */
  function AllTabs(columns: seq<TabColumn>): seq<TabModel> {
    if |columns| == 0 then [] else columns[0].tabs + AllTabs(columns[1..])
  }

  /** The first tab with the given name. */
  function FindFirst(tabs: seq<TabModel>, name: string): (r: Option<TabModel>)
    ensures r.None? <==> forall i :: 0 <= i < |tabs| ==> tabs[i].name != name
    ensures r.Some? ==> exists i :: 0 <= i < |tabs| && tabs[i] == r.value && r.value.name == name &&
                          forall j :: 0 <= j < i ==> tabs[j].name != name
  {
    if |tabs| == 0 then None
    else if tabs[0].name == name then Some(tabs[0])
    else
      var r := FindFirst(tabs[1..], name);
      assert forall i :: 1 <= i < |tabs| ==> tabs[i] == tabs[1..][i - 1];
      r
  }

  /** The registry lookup: the first tab, over all columns, whose name matches. */
  function Lookup(reg: Registry, name: string): (r: Option<TabModel>)
    ensures r.None? <==> name !in Names(reg)
    ensures r.Some? ==> r.value.name == name && r.value in AllTabs(reg.columns)
  {
    FindFirst(AllTabs(reg.columns), name)
  }

  /** The tab names of the `local` sources in a tab's filter query. */
  function LocalSourcesOf(t: TabModel): seq<string> {
    match t.filterQuery
    case None => []
    case Some(q) => q.localSources
  }

  /**
    The tab a `local` source node found inside another tab's query stands for. Every
    such node is taken to be resolved against the current registry, even one built
    while the registry was loading; an empty name resolves to nothing.
  */
  function TabOfNode(reg: Registry, name: string): Option<TabModel> {
    if name == "" then None else Lookup(reg, name)
  }

  function ChildrenOf(reg: Registry, name: string): seq<string> {
    match TabOfNode(reg, name)
    case None => []
    case Some(t) => LocalSourcesOf(t)
  }

  /** The names of all tabs in the registry. */
  function Names(reg: Registry): set<string> {
    var tabs := AllTabs(reg.columns);
    set i | 0 <= i < |tabs| :: tabs[i].name
  }

  /**
    The expansion step of the recursion check: each node stands for the tab its name
    resolves to, and expands to the `local` sources of that tab's query.
  */
  function LinksOf(reg: Registry): Links {
    map n | n in Names(reg) :: set x | x in ChildrenOf(reg, n)
  }

  /** The nodes that stand for the tab with identity `me`. */
  function NodesOf(reg: Registry, me: nat): set<string> {
    set n | n in Names(reg) && TabOfNode(reg, n).Some? && TabOfNode(reg, n).value.uid == me
  }

  /** The first layer of the recursion check: the `local` sources of the tab's own query. */
  function FirstLayer(t: TabModel): set<string> {
    set n | n in LocalSourcesOf(t)
  }

  /**
    The recursion check as written: from the tab's own `local` sources, the enumeration
    looks, layer by layer, for a node whose tab is this tab.
  */
  function RecursionCheck(reg: Registry, t: TabModel, fuel: nat): Outcome {
    ExpandSearch(LinksOf(reg), NodesOf(reg, t.uid), FirstLayer(t), fuel)
  }

  /** The recursion check with a visited set: a node reachable from the tab's sources stands for the tab. */
  function HasCycle(reg: Registry, t: TabModel): bool {
    Reaches(LinksOf(reg), NodesOf(reg, t.uid), FirstLayer(t))
  }

  /** The check with a visited set raises exactly when the check as written would find the tab given time. */
  lemma HasCycleIffCheckFinds(reg: Registry, t: TabModel)
    ensures HasCycle(reg, t) <==> exists fuel: nat :: RecursionCheck(reg, t, fuel) == Found
  {
    var g, targets, start := LinksOf(reg), NodesOf(reg, t.uid), FirstLayer(t);
    ReachesIffFound(g, targets, start);
    if HasCycle(reg, t) {
      var fuel: nat :| ExpandSearch(g, targets, start, fuel) == Found;
      assert RecursionCheck(reg, t, fuel) == Found;
    }
    forall fuel: nat | RecursionCheck(reg, t, fuel) == Found ensures HasCycle(reg, t) {
      assert ExpandSearch(g, targets, start, fuel) == Found;
    }
  }

  // ---- Resolution -------------------------------------------------------------

  /** The first tab with the given identity. */
  function FindUid(tabs: seq<TabModel>, uid: nat): (r: Option<TabModel>)
    ensures r.None? <==> forall i :: 0 <= i < |tabs| ==> tabs[i].uid != uid
    ensures r.Some? ==> r.value.uid == uid && r.value in tabs
  {
    if |tabs| == 0 then None
    else if tabs[0].uid == uid then Some(tabs[0])
    else
      var r := FindUid(tabs[1..], uid);
      assert forall i :: 1 <= i < |tabs| ==> tabs[i] == tabs[1..][i - 1];
      r
  }

  /**
    The current contents of a tab the node holds a reference to: the registry's tab
    with that identity, or the contents last seen when the tab is no longer listed.
  */
  function Current(reg: Registry, t: TabModel): (c: TabModel)
    ensures c.uid == t.uid
    ensures FindUid(AllTabs(reg.columns), t.uid).Some? ==> c in AllTabs(reg.columns)
    ensures FindUid(AllTabs(reg.columns), t.uid).None? ==> c == t
  {
    match FindUid(AllTabs(reg.columns), t.uid)
    case Some(c) => c
    case None => t
  }

  /** Tab identity is object identity: tabs with one identity are one tab. */
  ghost predicate IdentityConsistent(reg: Registry) {
    var tabs := AllTabs(reg.columns);
    forall i, j :: 0 <= i < |tabs| && 0 <= j < |tabs| && tabs[i].uid == tabs[j].uid ==> tabs[i] == tabs[j]
  }

  /** In a consistent registry, a listed tab is its own current contents. */
  lemma ListedTabIsCurrent(reg: Registry, t: TabModel)
    requires IdentityConsistent(reg)
    requires t in AllTabs(reg.columns)
    ensures Current(reg, t) == t
  {
  }

  /**
    A `local` source node: the tab name it was given ("" for none) and the reference
    to the tab it has resolved, shown as that tab's contents when last read.
  */
  datatype LocalNode = LocalNode(tabName: string, tab: Option<TabModel>)

  datatype LocalError = TabNotFound | TabIsRecursion

  /** The node after resolution (the tab is kept even when an error is raised) and the error raised. */
  datatype Resolution = Resolution(node: LocalNode, error: Option<LocalError>)

  /**
    `ResolveTabReference`: an empty name does nothing; an unresolved node looks its tab
    up unless the registry is still loading, and a missing tab is an error; a resolved
    tab is kept by identity and never looked up by name again, and its current contents
    are read; then the recursion check runs on those contents.
  */
  function Resolve(reg: Registry, n: LocalNode): (r: Resolution)
    ensures r.node.tabName == n.tabName
    ensures n.tabName == "" ==> r == Resolution(n, None)
    ensures n.tabName != "" && n.tab.None? && |reg.columns| == 0 ==> r == Resolution(n, None)
    ensures n.tabName != "" && n.tab.None? && |reg.columns| > 0 ==>
              (r.error == Some(TabNotFound) <==> Lookup(reg, n.tabName).None?)
    ensures n.tab.None? && r.node.tab.Some? ==> r.node.tab == Lookup(reg, n.tabName) && |reg.columns| > 0
    ensures n.tabName != "" && n.tab.Some? ==> r.node.tab == Some(Current(reg, n.tab.value))
    ensures n.tab.Some? ==> r.node.tab.Some? && r.node.tab.value.uid == n.tab.value.uid
    ensures r.error == Some(TabNotFound) ==> r.node == n
    ensures r.error == Some(TabIsRecursion) <==>
              n.tabName != "" && r.node.tab.Some? && HasCycle(reg, r.node.tab.value)
  {
    if n.tabName == "" then Resolution(n, None)
    else if n.tab.None? && |reg.columns| == 0 then Resolution(n, None)
    else if n.tab.None? && Lookup(reg, n.tabName).None? then Resolution(n, Some(TabNotFound))
    else
      var t := if n.tab.Some? then Current(reg, n.tab.value) else Lookup(reg, n.tabName).value;
      var node := n.(tab := Some(t));
      if HasCycle(reg, t) then Resolution(node, Some(TabIsRecursion)) else Resolution(node, None)
  }

  /**
    `ResolveTabReference` with the recursion check as written, given `fuel` layers:
    `None` while the enumeration is still running.
  */
  function ResolveAsWritten(reg: Registry, n: LocalNode, fuel: nat): (r: Option<Resolution>)
    ensures r.None? <==>
              n.tabName != "" && Resolve(reg, n).node.tab.Some? && Resolve(reg, n).error != Some(TabNotFound)
              && RecursionCheck(reg, Resolve(reg, n).node.tab.value, fuel) == OutOfFuel
    ensures r.Some? && r.value.error == Some(TabIsRecursion) ==>
              r.value.node.tab.Some? && RecursionCheck(reg, r.value.node.tab.value, fuel) == Found
  {
    if n.tabName == "" then Some(Resolution(n, None))
    else if n.tab.None? && |reg.columns| == 0 then Some(Resolution(n, None))
    else if n.tab.None? && Lookup(reg, n.tabName).None? then Some(Resolution(n, Some(TabNotFound)))
    else
      var t := if n.tab.Some? then Current(reg, n.tab.value) else Lookup(reg, n.tabName).value;
      var node := n.(tab := Some(t));
      match RecursionCheck(reg, t, fuel)
      case Found => Some(Resolution(node, Some(TabIsRecursion)))
      case Exhausted => Some(Resolution(node, None))
      case OutOfFuel => None
  }

  /**
    When the check as written ends, resolution as written and resolution with the
    visited set agree; and given enough time the check as written raises whenever the
    visited set does.
  */
  lemma AsWrittenAgreesWhenItEnds(reg: Registry, n: LocalNode, fuel: nat)
    ensures ResolveAsWritten(reg, n, fuel).Some? ==> ResolveAsWritten(reg, n, fuel).value == Resolve(reg, n)
    ensures Resolve(reg, n).error == Some(TabIsRecursion) ==>
              exists f: nat :: ResolveAsWritten(reg, n, f) == Some(Resolve(reg, n))
  {
    var r := Resolve(reg, n);
    if n.tabName != "" && r.node.tab.Some? && r.error != Some(TabNotFound) {
      var t := r.node.tab.value;
      var g, targets, start := LinksOf(reg), NodesOf(reg, t.uid), FirstLayer(t);
      EndedSearchIsRight(g, targets, start, fuel);
      assert RecursionCheck(reg, t, fuel) == ExpandSearch(g, targets, start, fuel);
      if r.error == Some(TabIsRecursion) {
        HasCycleIffCheckFinds(reg, t);
        var f: nat :| RecursionCheck(reg, t, f) == Found;
        assert ResolveAsWritten(reg, n, f) == Some(r);
      }
    }
  }

  /**
    The constructor with a tab name resolves at once, so it can already raise "tab
    not found" or the recursion error.
  */
  function NewLocal(reg: Registry, name: string): (r: Resolution)
    ensures r.node.tabName == name
    ensures name == "" || |reg.columns| == 0 ==> r == Resolution(LocalNode(name, None), None)
    ensures name != "" && |reg.columns| > 0 && Lookup(reg, name).None? ==>
              r == Resolution(LocalNode(name, None), Some(TabNotFound))
    ensures name != "" && |reg.columns| > 0 && Lookup(reg, name).Some? ==>
              && r.node.tab == Lookup(reg, name)
              && (r.error.Some? <==> HasCycle(reg, Lookup(reg, name).value))
              && r.error != Some(TabNotFound)
  {
    Resolve(reg, LocalNode(name, None))
  }

  /** Resolving again against the same consistent registry changes nothing. */
  lemma ResolveIdempotent(reg: Registry, n: LocalNode)
    requires IdentityConsistent(reg)
    ensures Resolve(reg, Resolve(reg, n).node) == Resolve(reg, n)
  {
    var r := Resolve(reg, n);
    if n.tabName != "" && r.node.tab.Some? {
      var t := r.node.tab.value;
      if n.tab.None? {
        var tabs := AllTabs(reg.columns);
        var i :| 0 <= i < |tabs| && tabs[i] == t && t.name == n.tabName &&
                 forall j :: 0 <= j < i ==> tabs[j].name != n.tabName;
        ListedTabIsCurrent(reg, t);
      } else {
        assert Current(reg, t) == t by {
          if FindUid(AllTabs(reg.columns), t.uid).Some? {
            ListedTabIsCurrent(reg, t);
          }
        }
      }
    }
  }

  /** A node's query: the resolved tab's filter query, if any. */
  function QueryOf(n: LocalNode): Option<FilterQuery> {
    if n.tab.None? then None else n.tab.value.filterQuery
  }

  /** The result of a call that resolves first: the node as resolution left it, and the value or the error. */
  datatype Answer<T> = Answer(node: LocalNode, value: Result<T, LocalError>)

  /**
    `GetEvaluator`: the tautology without a tab or a query, otherwise the evaluator of
    the resolved tab's current query.
  */
  function GetEvaluator(reg: Registry, n: LocalNode): (r: Answer<Status -> bool>)
    ensures r.node == Resolve(reg, n).node
    ensures r.value.Failure? <==> Resolve(reg, n).error.Some?
    ensures r.value.Failure? ==> r.value.error == Resolve(reg, n).error.value
    ensures r.value.Success? && QueryOf(r.node).None? ==> forall s :: r.value.value(s)
    ensures r.value.Success? && QueryOf(r.node).Some? ==> r.value.value == QueryOf(r.node).value.evaluator
  {
    var res := Resolve(reg, n);
    if res.error.Some? then Answer(res.node, Failure(res.error.value))
    else
      match QueryOf(res.node)
      case None => Answer(res.node, Success(_ => true))
      case Some(q) => Answer(res.node, Success(q.evaluator))
  }

  /** `GetSqlQuery`: `1` (always true) without a tab or a query, otherwise the text of the resolved tab's current query. */
  function GetSqlQuery(reg: Registry, n: LocalNode): (r: Answer<string>)
    ensures r.node == Resolve(reg, n).node
    ensures r.value.Failure? <==> Resolve(reg, n).error.Some?
    ensures r.value.Failure? ==> r.value.error == Resolve(reg, n).error.value
    ensures r.value.Success? && QueryOf(r.node).None? ==> r.value.value == "1"
    ensures r.value.Success? && QueryOf(r.node).Some? ==> r.value.value == QueryOf(r.node).value.sql
  {
    var res := Resolve(reg, n);
    if res.error.Some? then Answer(res.node, Failure(res.error.value))
    else
      match QueryOf(res.node)
      case None => Answer(res.node, Success("1"))
      case Some(q) => Answer(res.node, Success(q.sql))
  }

  /**
    A resolved node follows its tab: whatever the tab has been edited into since, both
    calls re-check recursion on the current contents and answer with the current query.
  */
  lemma ReadsCurrentQuery(reg: Registry, n: LocalNode, s: Status)
    requires n.tabName != "" && n.tab.Some?
    ensures var t := Current(reg, n.tab.value);
            && GetSqlQuery(reg, n).value ==
                 (if HasCycle(reg, t) then Failure(TabIsRecursion)
                  else if t.filterQuery.None? then Success("1") else Success(t.filterQuery.value.sql))
            && (GetEvaluator(reg, n).value.Failure? <==> HasCycle(reg, t))
            && (GetEvaluator(reg, n).value.Success? ==>
                  GetEvaluator(reg, n).value.value(s) ==
                    (t.filterQuery.None? || t.filterQuery.value.evaluator(s)))
  {
  }

  /** An empty tab name, or a registry still loading, lets everything through without error. */
  lemma UnresolvedPassesAll(reg: Registry, n: LocalNode, s: Status)
    requires n.tabName == "" || (n.tab.None? && |reg.columns| == 0)
    requires n.tab.None?
    ensures GetEvaluator(reg, n).value.Success? && GetEvaluator(reg, n).value.value(s)
    ensures GetSqlQuery(reg, n) == Answer(n, Success("1"))
  {
  }

  function FilterKey(): string {
    "local"
  }

  function FilterValue(n: LocalNode): string {
    n.tabName
  }

  // ---- Scenarios ----------------------------------------------------------------

  function TabWithSources(uid: nat, name: string, sources: seq<string>): TabModel {
    TabModel(uid, name, Some(FilterQuery(sources, _ => true, "1")))
  }

  function OneColumn(tabs: seq<TabModel>): Registry {
    Registry([TabColumn(tabs)])
  }

  lemma AllTabsOfOneColumn(tabs: seq<TabModel>)
    ensures AllTabs(OneColumn(tabs).columns) == tabs
  {
    assert OneColumn(tabs).columns[1..] == [];
  }

  /** Tab `A` refers to `B`; `B` and `C` refer to each other. */
  const TabA := TabWithSources(1, "A", ["B"])
  const CycleAvoidingA := OneColumn([TabA, TabWithSources(2, "B", ["C"]), TabWithSources(3, "C", ["B"])])

  lemma CycleAvoidingALinks()
    ensures LinksOf(CycleAvoidingA) == map["A" := {"B"}, "B" := {"C"}, "C" := {"B"}]
    ensures NodesOf(CycleAvoidingA, 1) == {"A"}
  {
    AllTabsOfOneColumn(CycleAvoidingA.columns[0].tabs);
    var tabs := AllTabs(CycleAvoidingA.columns);
    assert Names(CycleAvoidingA) == {"A", "B", "C"} by {
      assert tabs[0].name == "A" && tabs[1].name == "B" && tabs[2].name == "C";
    }
    assert Lookup(CycleAvoidingA, "A") == Some(tabs[0]);
    assert Lookup(CycleAvoidingA, "B") == Some(tabs[1]);
    assert Lookup(CycleAvoidingA, "C") == Some(tabs[2]);
    var g := LinksOf(CycleAvoidingA);
    assert g.Keys == {"A", "B", "C"};
    assert ChildrenOf(CycleAvoidingA, "A") == ["B"];
    assert ChildrenOf(CycleAvoidingA, "B") == ["C"];
    assert ChildrenOf(CycleAvoidingA, "C") == ["B"];
    assert g["A"] == {"B"} && g["B"] == {"C"} && g["C"] == {"B"};
  }

  lemma {:induction false} BouncesBetweenBAndC(fuel: nat)
    ensures ExpandSearch(map["A" := {"B"}, "B" := {"C"}, "C" := {"B"}], {"A"}, {"B"}, fuel) == OutOfFuel
    ensures ExpandSearch(map["A" := {"B"}, "B" := {"C"}, "C" := {"B"}], {"A"}, {"C"}, fuel) == OutOfFuel
    decreases fuel
  {
    var g := map["A" := {"B"}, "B" := {"C"}, "C" := {"B"}];
    assert Successors(g, {"B"}) == {"C"};
    assert Successors(g, {"C"}) == {"B"};
    if fuel > 0 {
      BouncesBetweenBAndC(fuel - 1);
    }
  }

  /**
    A reference to a tab whose sources cycle without coming back to it: the check as
    written never ends, whatever time it is given, while the check with a visited set
    finds no recursion and the reference resolves.
  */
  lemma RecursionCheckNeverEnds()
    ensures forall fuel: nat :: RecursionCheck(CycleAvoidingA, TabA, fuel) == OutOfFuel
    ensures !HasCycle(CycleAvoidingA, TabA)
    ensures Resolve(CycleAvoidingA, LocalNode("A", None)) == Resolution(LocalNode("A", Some(TabA)), None)
  {
    CycleAvoidingALinks();
    assert FirstLayer(TabA) == {"B"};
    forall fuel: nat ensures RecursionCheck(CycleAvoidingA, TabA, fuel) == OutOfFuel {
      BouncesBetweenBAndC(fuel);
    }
    HasCycleIffCheckFinds(CycleAvoidingA, TabA);
    AllTabsOfOneColumn(CycleAvoidingA.columns[0].tabs);
    assert Lookup(CycleAvoidingA, "A") == Some(TabA);
  }

  /**
    On the same registry, resolving `A` as written (the constructor, `GetEvaluator` and
    `GetSqlQuery` all resolve first) never returns, whatever time it is given.
  */
  lemma ResolveAsWrittenNeverReturns()
    ensures forall fuel: nat :: ResolveAsWritten(CycleAvoidingA, LocalNode("A", None), fuel).None?
  {
    RecursionCheckNeverEnds();
  }

  /** `A` refers to `B` and `B` back to `A`. */
  const MutualAB := OneColumn([TabA, TabWithSources(2, "B", ["A"])])

  /** A reference through another tab back to itself raises the recursion error; the tab stays resolved. */
  lemma MutualReferenceRaises()
    ensures RecursionCheck(MutualAB, TabA, 1) == Found
    ensures Resolve(MutualAB, LocalNode("A", None)) ==
              Resolution(LocalNode("A", Some(TabA)), Some(TabIsRecursion))
  {
    AllTabsOfOneColumn(MutualAB.columns[0].tabs);
    var tabs := AllTabs(MutualAB.columns);
    assert Names(MutualAB) == {"A", "B"} by {
      assert tabs[0].name == "A" && tabs[1].name == "B";
    }
    assert Lookup(MutualAB, "A") == Some(TabA);
    assert Lookup(MutualAB, "B") == Some(tabs[1]);
    var g := LinksOf(MutualAB);
    assert ChildrenOf(MutualAB, "B") == ["A"];
    assert "A" in g["B"];
    assert NodesOf(MutualAB, 1) == {"A"};
    assert FirstLayer(TabA) == {"B"};
    assert "A" in Successors(g, {"B"});
    assert RecursionCheck(MutualAB, TabA, 1) == Found;
    HasCycleIffCheckFinds(MutualAB, TabA);
  }

  /**
    A node that resolved `A` while `A` referred to nothing: after `A` is edited to
    refer to `B`, which refers back to `A`, the node reads the edited tab and raises
    the recursion error, as a fresh node does.
  */
  lemma EditedTabIsRechecked()
    ensures Resolve(MutualAB, LocalNode("A", Some(TabWithSources(1, "A", [])))) ==
              Resolution(LocalNode("A", Some(TabA)), Some(TabIsRecursion))
    ensures GetSqlQuery(MutualAB, LocalNode("A", Some(TabWithSources(1, "A", [])))).value == Failure(TabIsRecursion)
  {
    AllTabsOfOneColumn(MutualAB.columns[0].tabs);
    assert FindUid(AllTabs(MutualAB.columns), 1) == Some(TabA);
    MutualReferenceRaises();
    HasCycleIffCheckFinds(MutualAB, TabA);
  }

  /** `A` refers to `B`, `B` to `C`, and `C` has no filter query. */
  const ChainABC := OneColumn([TabA, TabWithSources(2, "B", ["C"]), TabModel(3, "C", None)])

  /** An acyclic chain resolves without error, and the check as written ends. */
  lemma ChainResolves()
    ensures RecursionCheck(ChainABC, TabA, 2) == Exhausted
    ensures Resolve(ChainABC, LocalNode("A", None)) == Resolution(LocalNode("A", Some(TabA)), None)
  {
    AllTabsOfOneColumn(ChainABC.columns[0].tabs);
    var tabs := AllTabs(ChainABC.columns);
    assert Names(ChainABC) == {"A", "B", "C"} by {
      assert tabs[0].name == "A" && tabs[1].name == "B" && tabs[2].name == "C";
    }
    assert Lookup(ChainABC, "A") == Some(TabA);
    assert Lookup(ChainABC, "B") == Some(tabs[1]);
    assert Lookup(ChainABC, "C") == Some(tabs[2]);
    var g := LinksOf(ChainABC);
    assert ChildrenOf(ChainABC, "B") == ["C"];
    assert ChildrenOf(ChainABC, "C") == [];
    assert g["B"] == {"C"} && g["C"] == {};
    assert NodesOf(ChainABC, 1) == {"A"};
    assert FirstLayer(TabA) == {"B"};
    assert Successors(g, {"B"}) == {"C"};
    assert Successors(g, {"C"}) == {};
    assert RecursionCheck(ChainABC, TabA, 2) == Exhausted;
    EndedSearchIsRight(g, NodesOf(ChainABC, 1), FirstLayer(TabA), 2);
  }
}
