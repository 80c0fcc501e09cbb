/** The two pure helpers the status page takes from the API layer:
    `getOverallStatus` (src/server/apiHandlers.ts:242-252) and
    `groupComponents` (src/server/apiHandlers.ts:254-263). */
module ApiHandlers {
  import opened Seqs
  import opened Domain
  import opened Grouping

  /** The page-level indicator `getOverallStatus` returns. */
  datatype Indicator = Operational | Minor | Partial | Major

  /** The test "this component has status `s`". */
  function HasStatus(s: ComponentStatus): Component -> bool
  {
    (c: Component) => c.status == s
  }

  /** How many components have status `s`. */
  function CountStatus(cs: seq<Component>, s: ComponentStatus): nat
  {
    |Filter(HasStatus(s), cs)|
  }

  /** The `reduce` that tallies statuses into a record: a key is present only
      once some component has that status. */
  method TallyStatuses(cs: seq<Component>) returns (counts: map<ComponentStatus, nat>)
    ensures forall s :: s in counts <==> CountStatus(cs, s) > 0
    ensures forall s | s in counts :: counts[s] == CountStatus(cs, s)
  {
    counts := map[];
    for i := 0 to |cs|
      invariant forall s :: s in counts <==> CountStatus(cs[..i], s) > 0
      invariant forall s | s in counts :: counts[s] == CountStatus(cs[..i], s)
    {
      assert cs[..i + 1][..i] == cs[..i];
      var s := cs[i].status;
      counts := counts[s := (if s in counts then counts[s] else 0) + 1];
    }
    assert cs[..|cs|] == cs;
  }

  /** `statusCounts[s] > 0`: an absent key reads as `undefined`, which is not > 0. */
  predicate Positive(counts: map<ComponentStatus, nat>, s: ComponentStatus)
  {
    s in counts && counts[s] > 0
  }

  /** How severe a component status is; operational and under maintenance
      rank lowest. */
  function Severity(s: ComponentStatus): nat
  {
    match s
    case MajorOutage => 3
    case PartialOutage => 2
    case DegradedPerformance => 1
    case _ => 0
  }

  /** How severe an indicator is, on the same scale. */
  function Level(r: Indicator): nat
  {
    match r
    case Major => 3
    case Partial => 2
    case Minor => 1
    case Operational => 0
  }

  /** The severity cascade over the tallied record, first match wins: the
      indicator is as severe as the most severe status counted, and no more. */
  function Cascade(counts: map<ComponentStatus, nat>): (r: Indicator)
    ensures forall s | Positive(counts, s) :: Severity(s) <= Level(r)
    ensures Level(r) > 0 ==> exists s :: Positive(counts, s) && Severity(s) == Level(r)
  {
    if Positive(counts, MajorOutage) then Major
    else if Positive(counts, PartialOutage) then Partial
    else if Positive(counts, DegradedPerformance) then Minor
    else Indicator.Operational
  }

  /** The aggregate status by set membership: any major outage, else any
      partial outage, else any degradation. */
  function IndicatorOf(cs: seq<Component>): Indicator
  {
    if Any(HasStatus(MajorOutage), cs) then Major
    else if Any(HasStatus(PartialOutage), cs) then Partial
    else if Any(HasStatus(DegradedPerformance), cs) then Minor
    else Indicator.Operational
  }

  /** `getOverallStatus`: tally, then cascade. */
  method GetOverallStatus(cs: seq<Component>) returns (r: Indicator)
    ensures r == Major <==> Any(HasStatus(MajorOutage), cs)
    ensures r == Partial <==> !Any(HasStatus(MajorOutage), cs) && Any(HasStatus(PartialOutage), cs)
    ensures r == Minor <==>
      !Any(HasStatus(MajorOutage), cs) && !Any(HasStatus(PartialOutage), cs) &&
      Any(HasStatus(DegradedPerformance), cs)
    ensures r == Indicator.Operational <==>
      !Any(HasStatus(MajorOutage), cs) && !Any(HasStatus(PartialOutage), cs) &&
      !Any(HasStatus(DegradedPerformance), cs)
    ensures r == IndicatorOf(cs)
  {
    var counts := TallyStatuses(cs);
    AnyIffFilterNonEmpty(HasStatus(MajorOutage), cs);
    AnyIffFilterNonEmpty(HasStatus(PartialOutage), cs);
    AnyIffFilterNonEmpty(HasStatus(DegradedPerformance), cs);
    r := Cascade(counts);
  }

  /** Components that are all operational or under maintenance, including none at
      all, give an operational page: maintenance never raises the indicator. */
  lemma QuietPageIsOperational(cs: seq<Component>)
    requires forall i | 0 <= i < |cs| :: cs[i].status in {ComponentStatus.Operational, UnderMaintenance}
    ensures IndicatorOf(cs) == Indicator.Operational
  {
    assert !Any(HasStatus(MajorOutage), cs);
    assert !Any(HasStatus(PartialOutage), cs);
    assert !Any(HasStatus(DegradedPerformance), cs);
  }

  /** Each status count, and hence the indicator, is the same for any reordering
      of the components. */
  lemma OverallStatusOrderIndependent(a: seq<Component>, b: seq<Component>)
    requires multiset(a) == multiset(b)
    ensures forall s :: CountStatus(a, s) == CountStatus(b, s)
    ensures IndicatorOf(a) == IndicatorOf(b)
  {
    forall s
      ensures CountStatus(a, s) == CountStatus(b, s)
    {
      FilterPermutation(HasStatus(s), a, b);
    }
    AnyPermutation(HasStatus(MajorOutage), a, b);
    AnyPermutation(HasStatus(PartialOutage), a, b);
    AnyPermutation(HasStatus(DegradedPerformance), a, b);
  }

  /** `component.group_id || 'Ungrouped'`: null and the empty string both fall back. */
  function GroupKey(c: Component): (k: string)
    ensures k == "Ungrouped" <==> c.groupId == None || c.groupId == Some("") || c.groupId == Some("Ungrouped")
  {
    if c.groupId.Some? && c.groupId.value != "" then c.groupId.value else "Ungrouped"
  }

  /** `groupComponents`: the components bucketed by group id. */
  method GroupComponents(cs: seq<Component>) returns (g: Groups<string, Component>)
    ensures g.keys == KeysInOrder(cs, GroupKey) && Distinct(g.keys)
    ensures forall k :: k in g.buckets <==> k in g.keys
    ensures forall i | 0 <= i < |cs| :: GroupKey(cs[i]) in g.buckets && cs[i] in g.buckets[GroupKey(cs[i])]
    ensures forall k | k in g.buckets ::
      && |g.buckets[k]| > 0
      && g.buckets[k] == Filter(HasKey(GroupKey, k), cs)
    ensures multiset(Flatten(cs, GroupKey, g.keys)) == multiset(cs)
    ensures |Flatten(cs, GroupKey, g.keys)| == |cs|
  {
    g := GroupBy(cs, GroupKey);
    GroupsPartition(cs, GroupKey);
    forall i | 0 <= i < |cs|
      ensures GroupKey(cs[i]) in g.buckets && cs[i] in g.buckets[GroupKey(cs[i])]
    {
      KeysInOrderMembership(cs, GroupKey, GroupKey(cs[i]));
      assert HasKey(GroupKey, GroupKey(cs[i]))(cs[i]);
    }
  }
}
