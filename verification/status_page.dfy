/** The status page's own logic (src/pages/StatusPage.tsx): the recursive search
    and status filter over the component forest, the incident name filter, and
    the headline status it computes. */
module StatusPage {
  import opened Seqs
  import opened Domain
  import opened Text
  import opened Nesting
  import ApiHandlers

  /** A component of the nested forest with its children. */
  datatype Node = Node(comp: Component, children: seq<Node>)

  /** The status `<select>`: "all", or one of the five component statuses. */
  datatype StatusFilter = AllStatuses | OnlyStatus(status: ComponentStatus)

  /** `matches`: the status filter admits the component and its lower-cased name
      includes the lower-cased search. A search longer than the name never
      matches, and an empty search leaves only the status filter. */
  predicate SelfMatches(c: Component, search: string, sf: StatusFilter)
    ensures SelfMatches(c, search, sf) ==> |search| <= |c.name|
    ensures search == "" ==> (SelfMatches(c, search, sf) <==> sf.AllStatuses? || c.status == sf.status)
  {
    (sf.AllStatuses? || c.status == sf.status) && Contains(Lower(c.name), Lower(search))
  }

  /** The `map` callback of `filterComponents`: the node with its filtered children
      when it matches or keeps a child, `null` otherwise. */
  function KeepNode(n: Node, search: string, sf: StatusFilter): (k: Option<Node>)
    ensures k.Some? ==> k.value.comp == n.comp && |k.value.children| <= |n.children|
    decreases n
  {
    var children := FilterComponents(n.children, search, sf);
    if SelfMatches(n.comp, search, sf) || |children| > 0 then Some(Node(n.comp, children)) else None
  }

  /** `filterComponents`: map every node through `KeepNode`, then drop the nulls. */
  function FilterComponents(ns: seq<Node>, search: string, sf: StatusFilter): (r: seq<Node>)
    ensures |r| <= |ns|
    decreases ns
  {
    if ns == [] then []
    else
      var k := KeepNode(ns[0], search, sf);
      (if k.Some? then [k.value] else []) + FilterComponents(ns[1..], search, sf)
  }

  /** A node survives when it matches itself or some child survives. */
  predicate Survives(n: Node, search: string, sf: StatusFilter)
    decreases n
  {
    SelfMatches(n.comp, search, sf) ||
    exists i | 0 <= i < |n.children| :: Survives(n.children[i], search, sf)
  }

  /** The surviving-node test as a function value, for `Filter`. */
  function SurvivesWith(search: string, sf: StatusFilter): Node -> bool
  {
    (n: Node) => Survives(n, search, sf)
  }

  /** Each node of `ns` with its children replaced by their filtered list. */
  function Pruned(ns: seq<Node>, search: string, sf: StatusFilter): (r: seq<Node>)
    ensures |r| == |ns|
  {
    if ns == [] then [] else [Node(ns[0].comp, FilterComponents(ns[0].children, search, sf))] + Pruned(ns[1..], search, sf)
  }

  /** Filtering a concatenation filters each part. */
  lemma {:induction false} FilterComponentsConcat(a: seq<Node>, b: seq<Node>, search: string, sf: StatusFilter)
    ensures FilterComponents(a + b, search, sf) == FilterComponents(a, search, sf) + FilterComponents(b, search, sf)
  {
    if a != [] {
      FilterComponentsConcat(a[1..], b, search, sf);
      assert (a + b)[1..] == a[1..] + b;
    } else {
      assert a + b == b;
    }
  }

  /** A node is kept exactly when it survives, and then it carries only its
      filtered children. */
  lemma {:induction false} KeepIffSurvives(n: Node, search: string, sf: StatusFilter)
    ensures KeepNode(n, search, sf).Some? <==> Survives(n, search, sf)
    ensures KeepNode(n, search, sf).Some? ==>
      KeepNode(n, search, sf).value == Node(n.comp, FilterComponents(n.children, search, sf))
    decreases n, 1
  {
    SomeSurvives(n.children, search, sf);
  }

  /** A filtered list is non-empty exactly when some node of it survives. */
  lemma {:induction false} SomeSurvives(ns: seq<Node>, search: string, sf: StatusFilter)
    ensures |FilterComponents(ns, search, sf)| > 0 <==> exists i | 0 <= i < |ns| :: Survives(ns[i], search, sf)
    decreases ns, 0
  {
    if ns != [] {
      KeepIffSurvives(ns[0], search, sf);
      SomeSurvives(ns[1..], search, sf);
      if exists i | 0 <= i < |ns| :: Survives(ns[i], search, sf) {
        var i :| 0 <= i < |ns| && Survives(ns[i], search, sf);
        if i > 0 {
          assert ns[1..][i - 1] == ns[i];
        }
      }
      if exists i | 0 <= i < |ns[1..]| :: Survives(ns[1..][i], search, sf) {
        var i :| 0 <= i < |ns[1..]| && Survives(ns[1..][i], search, sf);
        assert Survives(ns[i + 1], search, sf);
      }
    }
  }

  /** The filter keeps exactly the surviving siblings, in their order, each with
      only its filtered children. */
  lemma {:induction false} FilterKeepsSurvivors(ns: seq<Node>, search: string, sf: StatusFilter)
    ensures FilterComponents(ns, search, sf) == Pruned(Filter(SurvivesWith(search, sf), ns), search, sf)
  {
    if ns != [] {
      var p := SurvivesWith(search, sf);
      var head, tail := [ns[0]], ns[1..];
      assert ns == head + tail;
      FilterKeepsSurvivors(tail, search, sf);
      SurvivorsOfOne(ns[0], search, sf);
      FilterComponentsConcat(head, tail, search, sf);
      FilterConcat(p, head, tail);
      PrunedConcat(Filter(p, head), Filter(p, tail), search, sf);
    }
  }

  /** `FilterKeepsSurvivors` for a single node. */
  lemma SurvivorsOfOne(n: Node, search: string, sf: StatusFilter)
    ensures FilterComponents([n], search, sf) == Pruned(Filter(SurvivesWith(search, sf), [n]), search, sf)
  {
    var p := SurvivesWith(search, sf);
    KeepIffSurvives(n, search, sf);
    assert [n][..0] == [];
    assert [n][1..] == [];
    assert Filter(p, [n]) == if p(n) then [n] else [];
  }

  /** Pruning a concatenation prunes each part. */
  lemma {:induction false} PrunedConcat(a: seq<Node>, b: seq<Node>, search: string, sf: StatusFilter)
    ensures Pruned(a + b, search, sf) == Pruned(a, search, sf) + Pruned(b, search, sf)
  {
    if a != [] {
      PrunedConcat(a[1..], b, search, sf);
      assert (a + b)[1..] == a[1..] + b;
    } else {
      assert a + b == b;
    }
  }

  /** With an empty search and the "all" filter every node at every depth is kept. */
  lemma {:induction false} EmptySearchKeepsAll(ns: seq<Node>)
    ensures FilterComponents(ns, "", AllStatuses) == ns
    decreases ns, 0
  {
    if ns != [] {
      EmptySearchKeepsNode(ns[0]);
      EmptySearchKeepsAll(ns[1..]);
      assert ns == [ns[0]] + ns[1..];
    }
  }

  /** With an empty search and the "all" filter a node comes back unchanged. */
  lemma {:induction false} EmptySearchKeepsNode(n: Node)
    ensures KeepNode(n, "", AllStatuses) == Some(n)
    decreases n, 1
  {
    EmptyQueryMatches(n.comp.name);
    EmptySearchKeepsAll(n.children);
  }

  /** Filtering a filtered forest again with the same search and status filter
      changes nothing. */
  lemma {:induction false} FilterIdempotent(ns: seq<Node>, search: string, sf: StatusFilter)
    ensures FilterComponents(FilterComponents(ns, search, sf), search, sf) == FilterComponents(ns, search, sf)
    decreases ns, 0
  {
    if ns != [] {
      var k := KeepNode(ns[0], search, sf);
      var head := if k.Some? then [k.value] else [];
      var rest := FilterComponents(ns[1..], search, sf);
      FilterComponentsConcat(head, rest, search, sf);
      FilterIdempotent(ns[1..], search, sf);
      if k.Some? {
        KeepNodeIdempotent(ns[0], search, sf);
        assert head[1..] == [];
      }
    }
  }

  /** A kept node is kept again, unchanged. */
  lemma {:induction false} KeepNodeIdempotent(n: Node, search: string, sf: StatusFilter)
    requires KeepNode(n, search, sf).Some?
    ensures KeepNode(KeepNode(n, search, sf).value, search, sf) == KeepNode(n, search, sf)
    decreases n, 1
  {
    FilterIdempotent(n.children, search, sf);
  }

  /** The incident search test: the lower-cased name includes the lower-cased search. */
  function NameMatches(search: string): Incident -> bool
  {
    (i: Incident) => Contains(Lower(i.name), Lower(search))
  }

  /** `filteredIncidents`: the unresolved incidents whose name matches the search,
      in their original order. */
  function FilterIncidents(incs: seq<Incident>, search: string): (r: seq<Incident>)
    ensures |r| <= |incs|
    ensures forall x :: x in r <==> x in incs && Contains(Lower(x.name), Lower(search))
  {
    Filter(NameMatches(search), incs)
  }

  /** An empty search keeps every incident, in order. */
  lemma {:induction false} EmptySearchKeepsIncidents(incs: seq<Incident>)
    ensures FilterIncidents(incs, "") == incs
  {
    if incs != [] {
      EmptySearchKeepsIncidents(incs[..|incs| - 1]);
      EmptyQueryMatches(incs[|incs| - 1].name);
      assert incs == incs[..|incs| - 1] + [incs[|incs| - 1]];
    }
  }

  /** The components the page holds after `nestComponents`: the roots only. With
      unique ids these are exactly the components whose group id is null, empty
      or names no component, in input order. */
  function RootComponents(cs: seq<Component>): (r: seq<Component>)
    ensures |r| == |Roots(cs)| && Below(Roots(cs), |cs|)
    ensures forall i | 0 <= i < |r| :: r[i] == cs[Roots(cs)[i]]
    ensures UniqueIds(cs) ==> r == Filter(Unparented(cs), cs)
  {
    var roots := Roots(cs);
    RootsInRange(cs, |cs|);
    var r := seq(|roots|, i requires 0 <= i < |roots| => cs[roots[i]]);
    if UniqueIds(cs) then
      RootsArePositions(cs, |cs|);
      PositionsPickFilter(cs, Unparented(cs), |cs|);
      assert cs[..|cs|] == cs;
      r
    else r
  }

  /** The headline as written: `getOverallStatus(components)` where `components`
      holds the nested roots, so only root statuses are read. With unique ids it
      reads major exactly when some component without a resolvable parent is in
      a major outage, and operational exactly when all such components are
      operational or under maintenance. */
  function PageIndicatorAsWritten(cs: seq<Component>): (r: ApiHandlers.Indicator)
    ensures UniqueIds(cs) ==> (r == ApiHandlers.Major <==>
      exists j | 0 <= j < |cs| :: Unparented(cs)(cs[j]) && cs[j].status == MajorOutage)
    ensures UniqueIds(cs) ==> (r == ApiHandlers.Indicator.Operational <==>
      forall j | 0 <= j < |cs| && Unparented(cs)(cs[j]) ::
        cs[j].status in {ComponentStatus.Operational, UnderMaintenance})
  {
    var top := RootComponents(cs);
    var r := PageIndicator(top);
    if UniqueIds(cs) then
      assert forall j | 0 <= j < |cs| && Unparented(cs)(cs[j]) :: cs[j] in top;
      r
    else r
  }

  /** A major outage of a nested component does not reach the headline as written:
      a parent "a" that is operational and its child "b" in a major outage read as
      operational. */
  lemma ChildOutageHidden()
    ensures
      var a := Component("a", "API", ComponentStatus.Operational, None);
      var b := Component("b", "Database", MajorOutage, Some("a"));
      PageIndicatorAsWritten([a, b]) == ApiHandlers.Indicator.Operational &&
      PageIndicator([a, b]) == ApiHandlers.Major
  {
    var a := Component("a", "API", ComponentStatus.Operational, None);
    var b := Component("b", "Database", MajorOutage, Some("a"));
    var cs := [a, b];
    assert IdIndex(cs[..1]) == map["a" := 0];
    assert cs[..1][..0] == [];
    assert IdIndex(cs) == map["a" := 0, "b" := 1];
    assert HasParent(cs, 1) by {
      assert cs[0].id == "a";
    }
    assert !HasParent(cs, 0);
    assert RootsUpTo(cs, 1) == [0];
    assert Roots(cs) == [0];
    assert RootComponents(cs) == [a];
    assert !ApiHandlers.HasStatus(MajorOutage)(cs[0]);
    assert !ApiHandlers.HasStatus(PartialOutage)(cs[0]);
    assert !ApiHandlers.HasStatus(DegradedPerformance)(cs[0]);
    assert ApiHandlers.HasStatus(MajorOutage)(cs[1]);
  }

  /** The headline as intended: the indicator over every component the summary
      lists, nested or not, so an outage at any depth reaches it. */
  function PageIndicator(cs: seq<Component>): (r: ApiHandlers.Indicator)
    ensures r == ApiHandlers.Major <==> exists j | 0 <= j < |cs| :: cs[j].status == MajorOutage
    ensures r == ApiHandlers.Indicator.Operational <==>
      forall j | 0 <= j < |cs| :: cs[j].status in {ComponentStatus.Operational, UnderMaintenance}
  {
    var r := ApiHandlers.IndicatorOf(cs);
    if forall j | 0 <= j < |cs| :: cs[j].status in {ComponentStatus.Operational, UnderMaintenance} then
      ApiHandlers.QuietPageIsOperational(cs);
      r
    else
      var j :| 0 <= j < |cs| && cs[j].status !in {ComponentStatus.Operational, UnderMaintenance};
      assert ApiHandlers.HasStatus(cs[j].status)(cs[j]);
      r
  }
}
