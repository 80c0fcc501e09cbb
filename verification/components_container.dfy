/** The component panel (src/components/ComponentsContainer.tsx): it groups its
    components by their `group` name, splits off the "Ungrouped" bucket, reduces
    the statuses to one headline status and names it. */
module ComponentsContainer {
  import opened Seqs
  import opened Domain
  import opened Grouping
  import ApiHandlers

  /** The panel's own component shape: `group` is an optional group name. */
  datatype PanelComponent = PanelComponent(
    id: string,
    name: string,
    status: ComponentStatus,
    group: Option<string>)

  const UNGROUPED: string := "Ungrouped"

  /** `component.group || 'Ungrouped'`. */
  function GroupName(c: PanelComponent): (k: string)
    ensures k == UNGROUPED <==> c.group == None || c.group == Some("") || c.group == Some(UNGROUPED)
  {
    if c.group.Some? && c.group.value != "" then c.group.value else UNGROUPED
  }

  /** One `[group, components]` pair of `Object.entries`. */
  type Entry = (string, seq<PanelComponent>)

  /** The record's entries for the keys `ks`, in that order. */
  function EntriesFor(buckets: map<string, seq<PanelComponent>>, ks: seq<string>): seq<Entry>
    requires forall i | 0 <= i < |ks| :: ks[i] in buckets
  {
    if ks == [] then [] else [(ks[0], buckets[ks[0]])] + EntriesFor(buckets, ks[1..])
  }

  /** `.flat()` over the component lists of some entries. */
  function Members(es: seq<Entry>): seq<PanelComponent>
  {
    if es == [] then [] else es[0].1 + Members(es[1..])
  }

  /** The test "this key is not the fallback bucket". */
  function NamedGroup(k: string): bool
  {
    k != UNGROUPED
  }

  /** The severity test `c.status === s`. */
  function HasStatus(s: ComponentStatus): PanelComponent -> bool
  {
    (c: PanelComponent) => c.status == s
  }

  /** The panel's `getOverallStatus`, over the flattened component list: all
      operational (including none), else the most severe of major outage, partial
      outage and degraded performance, else operational. */
  function PanelStatus(all: seq<PanelComponent>): (r: ComponentStatus)
    ensures r != UnderMaintenance
  {
    if |Filter(HasStatus(Operational), all)| == |all| then Operational
    else if Any(HasStatus(MajorOutage), all) then MajorOutage
    else if Any(HasStatus(PartialOutage), all) then PartialOutage
    else if Any(HasStatus(DegradedPerformance), all) then DegradedPerformance
    else Operational
  }

  /** What the panel renders from its components. */
  datatype Panel = Panel(grouped: seq<Entry>, ungrouped: seq<PanelComponent>, overall: ComponentStatus)

  /** The grouping `reduce`, the grouped/ungrouped split and the headline status. */
  method Layout(cs: seq<PanelComponent>) returns (p: Panel)
    ensures forall i | 0 <= i < |p.grouped| :: p.grouped[i].0 != UNGROUPED && |p.grouped[i].1| > 0
    ensures forall i, j | 0 <= i < j < |p.grouped| :: p.grouped[i].0 != p.grouped[j].0
    ensures forall i | 0 <= i < |p.grouped| ::
      p.grouped[i].1 == Filter(HasKey(GroupName, p.grouped[i].0), cs)
    ensures p.ungrouped == Filter(HasKey(GroupName, UNGROUPED), cs)
    ensures multiset(Members(p.grouped) + p.ungrouped) == multiset(cs)
    ensures p.overall == PanelStatus(cs)
  {
    var g := GroupBy(cs, GroupName);
    var named := Filter(NamedGroup, g.keys);
    var grouped := EntriesFor(g.buckets, named);
    var ungrouped := if UNGROUPED in g.buckets then g.buckets[UNGROUPED] else [];
    if UNGROUPED !in g.buckets {
      KeyAbsentBucketEmpty(cs, GroupName, UNGROUPED);
    }
    assert ungrouped == Bucket(cs, GroupName, UNGROUPED);
    EntriesForShape(cs, g.buckets, named);
    GroupsPartition(cs, GroupName);
    KeysInOrderDistinct(cs, GroupName);
    FilterKeepsDistinct(NamedGroup, g.keys);
    forall i | 0 <= i < |grouped|
      ensures grouped[i].0 != UNGROUPED && |grouped[i].1| > 0
    {
      assert named[i] in named;
    }
    SplitCoversAll(cs);
    PanelStatusOrderIndependent(Flatten(cs, GroupName, g.keys), cs);
    p := Panel(grouped, ungrouped, PanelStatus(Flatten(cs, GroupName, g.keys)));
  }

  /** The named groups and the fallback bucket together hold every component once. */
  lemma SplitCoversAll(cs: seq<PanelComponent>)
    ensures
      var named := Filter(NamedGroup, KeysInOrder(cs, GroupName));
      multiset(Flatten(cs, GroupName, named) + Bucket(cs, GroupName, UNGROUPED)) == multiset(cs)
  {
    var named := Filter(NamedGroup, KeysInOrder(cs, GroupName));
    var all := Flatten(cs, GroupName, named) + Bucket(cs, GroupName, UNGROUPED);
    KeysInOrderDistinct(cs, GroupName);
    FilterKeepsDistinct(NamedGroup, KeysInOrder(cs, GroupName));
    forall x
      ensures multiset(all)[x] == multiset(cs)[x]
    {
      FlattenMultiplicity(cs, GroupName, named, x);
      FilterMultiplicity(HasKey(GroupName, UNGROUPED), cs, x);
      if x in cs {
        var i :| 0 <= i < |cs| && cs[i] == x;
        KeysInOrderMembership(cs, GroupName, GroupName(x));
        assert GroupName(x) != UNGROUPED ==> GroupName(x) in named;
      }
    }
    MultisetExtensional(multiset(all), multiset(cs));
  }

  /** The entries of the record for `ks` pair each key with its bucket, and their
      flattened members are the buckets of `ks` laid out in order. */
  lemma {:induction false} EntriesForShape(cs: seq<PanelComponent>, buckets: map<string, seq<PanelComponent>>, ks: seq<string>)
    requires forall i | 0 <= i < |ks| :: ks[i] in buckets
    requires forall k | k in buckets :: buckets[k] == Bucket(cs, GroupName, k)
    ensures |EntriesFor(buckets, ks)| == |ks|
    ensures forall i | 0 <= i < |ks| :: EntriesFor(buckets, ks)[i] == (ks[i], Bucket(cs, GroupName, ks[i]))
    ensures Members(EntriesFor(buckets, ks)) == Flatten(cs, GroupName, ks)
    decreases |ks|
  {
    if ks != [] {
      EntriesForShape(cs, buckets, ks[1..]);
      var es := EntriesFor(buckets, ks);
      assert es[1..] == EntriesFor(buckets, ks[1..]);
    }
  }

  /** The headline status depends only on which statuses occur how often. */
  lemma PanelStatusOrderIndependent(a: seq<PanelComponent>, b: seq<PanelComponent>)
    requires multiset(a) == multiset(b)
    ensures PanelStatus(a) == PanelStatus(b)
  {
    FilterPermutation(HasStatus(Operational), a, b);
    AnyPermutation(HasStatus(MajorOutage), a, b);
    AnyPermutation(HasStatus(PartialOutage), a, b);
    AnyPermutation(HasStatus(DegradedPerformance), a, b);
    assert |multiset(a)| == |a| && |multiset(b)| == |b|;
  }

  /** The all-operational test at the head of the panel reducer holds exactly when
      no component has any other status. */
  lemma {:induction false} AllOperationalIff(all: seq<PanelComponent>)
    ensures |Filter(HasStatus(Operational), all)| == |all| <==>
      forall i | 0 <= i < |all| :: all[i].status == Operational
    decreases |all|
  {
    if all != [] {
      var init := all[..|all| - 1];
      AllOperationalIff(init);
      assert forall i | 0 <= i < |init| :: init[i] == all[i];
      if all[|all| - 1].status == Operational {
        assert |Filter(HasStatus(Operational), all)| == |Filter(HasStatus(Operational), init)| + 1;
      } else {
        assert |Filter(HasStatus(Operational), all)| == |Filter(HasStatus(Operational), init)|;
        assert |Filter(HasStatus(Operational), init)| <= |init|;
      }
    }
  }

  /** The panel reducer's precedence: all operational gives operational; otherwise
      major outage beats partial outage beats degraded performance, and a list of
      only operational and under-maintenance components is operational. */
  lemma PanelPrecedence(all: seq<PanelComponent>)
    ensures PanelStatus(all) == MajorOutage <==> Any(HasStatus(MajorOutage), all)
    ensures PanelStatus(all) == PartialOutage <==>
      !Any(HasStatus(MajorOutage), all) && Any(HasStatus(PartialOutage), all)
    ensures PanelStatus(all) == DegradedPerformance <==>
      !Any(HasStatus(MajorOutage), all) && !Any(HasStatus(PartialOutage), all) &&
      Any(HasStatus(DegradedPerformance), all)
    ensures PanelStatus(all) == Operational <==>
      !Any(HasStatus(MajorOutage), all) && !Any(HasStatus(PartialOutage), all) &&
      !Any(HasStatus(DegradedPerformance), all)
  {
    AllOperationalIff(all);
    if |Filter(HasStatus(Operational), all)| == |all| {
      assert !Any(HasStatus(MajorOutage), all);
      assert !Any(HasStatus(PartialOutage), all);
      assert !Any(HasStatus(DegradedPerformance), all);
    }
  }

  /** The panel's headline status in the vocabulary of the API indicator. */
  function AsIndicator(s: ComponentStatus): ApiHandlers.Indicator
  {
    match s
    case MajorOutage => ApiHandlers.Major
    case PartialOutage => ApiHandlers.Partial
    case DegradedPerformance => ApiHandlers.Minor
    case _ => ApiHandlers.Indicator.Operational
  }

  /** The panel reducer and the API reducer agree on every list of statuses:
      mapping major_outage to major, partial_outage to partial and
      degraded_performance to minor turns one result into the other. */
  lemma ReducersAgree(cs: seq<Component>, ps: seq<PanelComponent>)
    requires |cs| == |ps|
    requires forall i | 0 <= i < |cs| :: cs[i].status == ps[i].status
    ensures AsIndicator(PanelStatus(ps)) == ApiHandlers.IndicatorOf(cs)
  {
    AllOperationalIff(ps);
    forall s
      ensures Any(HasStatus(s), ps) <==> Any(ApiHandlers.HasStatus(s), cs)
    {
      if Any(HasStatus(s), ps) {
        var i :| 0 <= i < |ps| && HasStatus(s)(ps[i]);
        assert ApiHandlers.HasStatus(s)(cs[i]);
      }
      if Any(ApiHandlers.HasStatus(s), cs) {
        var i :| 0 <= i < |cs| && ApiHandlers.HasStatus(s)(cs[i]);
        assert HasStatus(s)(ps[i]);
      }
    }
    if |Filter(HasStatus(Operational), ps)| == |ps| {
      assert !Any(HasStatus(MajorOutage), ps);
      assert !Any(HasStatus(PartialOutage), ps);
      assert !Any(HasStatus(DegradedPerformance), ps);
    }
  }

  /** `getStatusText`: a fixed label for each of the four statuses the reducer
      produces, "Unknown Status" for any other string. */
  function StatusText(status: string): (r: string)
    ensures r == "Unknown Status" <==>
      status !in {"operational", "degraded_performance", "partial_outage", "major_outage"}
  {
    match status
    case "operational" => "All Systems Operational"
    case "degraded_performance" => "Degraded Performance"
    case "partial_outage" => "Partial System Outage"
    case "major_outage" => "Major System Outage"
    case _ => "Unknown Status"
  }

  /** The API's string for each status. */
  function StatusName(s: ComponentStatus): string
  {
    match s
    case Operational => "operational"
    case DegradedPerformance => "degraded_performance"
    case PartialOutage => "partial_outage"
    case MajorOutage => "major_outage"
    case UnderMaintenance => "under_maintenance"
  }

  /** The headline never reads "Unknown Status": the reducer only produces statuses
      that have a label. */
  lemma HeadlineIsKnown(all: seq<PanelComponent>)
    ensures StatusText(StatusName(PanelStatus(all))) != "Unknown Status"
  {
  }
}
