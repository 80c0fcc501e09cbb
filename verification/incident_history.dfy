/** The incident history page (src/pages/IncidentHistoryPage.tsx): the
    resolved/unresolved filter and its counts, the incidents grouped by month
    newest first, the month slider and the impact and status tallies. */
module IncidentHistoryPage {
  import opened Seqs
  import opened Domain
  import opened Grouping
  import opened MonthOrder

  /** The filter buttons: `'all' | 'resolved' | 'unresolved'`. */
  datatype ResolutionFilter = All | ResolvedOnly | UnresolvedOnly

  /** The test "this incident is resolved". */
  function IsResolved(): Incident -> bool
  {
    (i: Incident) => i.status == Resolved
  }

  /** The test "this incident is not resolved". */
  function IsUnresolved(): Incident -> bool
  {
    (i: Incident) => i.status != Resolved
  }

  /** The filter callback. */
  function Admits(f: ResolutionFilter): Incident -> bool
  {
    match f
    case ResolvedOnly => IsResolved()
    case UnresolvedOnly => IsUnresolved()
    case All => (i: Incident) => true
  }

  /** `filteredIncidents`. */
  function FilterIncidents(incs: seq<Incident>, f: ResolutionFilter): (r: seq<Incident>)
    ensures forall x :: x in r <==> x in incs && Admits(f)(x)
  {
    Filter(Admits(f), incs)
  }

  /** "all" keeps every incident in order, and the two other filters split the
      list between them, so the Resolved and Unresolved counts add up to the All
      count. */
  lemma FilterCounts(incs: seq<Incident>)
    ensures FilterIncidents(incs, All) == incs
    ensures |FilterIncidents(incs, ResolvedOnly)| + |FilterIncidents(incs, UnresolvedOnly)| == |incs|
    ensures |Filter(IsUnresolved(), incs)| + |Filter(IsResolved(), incs)| == |incs|
  {
    FilterKeepsAll(Admits(All), incs);
    FilterSplit(IsResolved(), IsUnresolved(), incs);
  }

  /** One `[month, incidents]` pair of the sorted entries. */
  type MonthEntry = (Month, seq<Incident>)

  /** The month of each entry: `monthGroups.map(([month]) => month)`. Entries in
      strictly newest-first order give months without repeats, so each month
      label names one entry. */
  function Months(entries: seq<MonthEntry>): (ms: seq<Month>)
    ensures |ms| == |entries|
    ensures forall i | 0 <= i < |entries| :: ms[i] == entries[i].0
    ensures (forall i, j | 0 <= i < j < |entries| :: Later(entries[i].0, entries[j].0)) ==> Distinct(ms)
  {
    seq(|entries|, i requires 0 <= i < |entries| => entries[i].0)
  }

  /** `monthGroups`: the incidents bucketed by the month they were created in,
      the record's entries sorted latest month first. */
  method MonthGroups(incs: seq<Incident>, monthOf: string -> Month) returns (entries: seq<MonthEntry>)
    ensures forall i, j | 0 <= i < j < |entries| :: Later(entries[i].0, entries[j].0)
    ensures forall i | 0 <= i < |entries| ::
      |entries[i].1| > 0 && entries[i].1 == Bucket(incs, CreatedMonth(monthOf), entries[i].0)
    ensures forall m :: m in Months(entries) <==> exists k | 0 <= k < |incs| :: monthOf(incs[k].createdAt) == m
    ensures multiset(Flatten(incs, CreatedMonth(monthOf), Months(entries))) == multiset(incs)
    ensures |Flatten(incs, CreatedMonth(monthOf), Months(entries))| == |incs|
  {
    var key := CreatedMonth(monthOf);
    var g := GroupBy(incs, key);
    GroupsPartition(incs, key);
    var months := SortLatestFirst(g.keys);
    assert forall i | 0 <= i < |months| :: months[i] in g.keys;
    entries := seq(|months|, i requires 0 <= i < |months| => (months[i], g.buckets[months[i]]));
    assert Months(entries) == months;
    forall i | 0 <= i < |entries|
      ensures |entries[i].1| > 0 && entries[i].1 == Bucket(incs, key, entries[i].0)
    {
      assert months[i] in g.keys;
    }
    SortedMonthsCover(incs, monthOf, months);
  }

  /** Any list holding each month of the incidents exactly once lays their
      buckets out as a permutation of the incidents. */
  lemma SortedMonthsCover(incs: seq<Incident>, monthOf: string -> Month, months: seq<Month>)
    requires Distinct(months)
    requires forall m :: m in months <==> m in KeysInOrder(incs, CreatedMonth(monthOf))
    ensures forall m :: m in months <==> exists k | 0 <= k < |incs| :: monthOf(incs[k].createdAt) == m
    ensures multiset(Flatten(incs, CreatedMonth(monthOf), months)) == multiset(incs)
    ensures |Flatten(incs, CreatedMonth(monthOf), months)| == |incs|
  {
    var key := CreatedMonth(monthOf);
    forall m
      ensures m in months <==> exists k | 0 <= k < |incs| :: monthOf(incs[k].createdAt) == m
    {
      KeysInOrderMembership(incs, key, m);
      if exists k | 0 <= k < |incs| :: monthOf(incs[k].createdAt) == m {
        var k :| 0 <= k < |incs| && monthOf(incs[k].createdAt) == m;
        assert key(incs[k]) == m;
      }
    }
    forall k | 0 <= k < |incs|
      ensures key(incs[k]) in months
    {
      assert monthOf(incs[k].createdAt) == key(incs[k]);
    }
    FlattenIsPermutation(incs, key, months);
  }

  /** `months[j] || null`: the month at `j`, none outside the list. */
  function MonthAt(months: seq<Month>, j: int): Option<Month>
  {
    if 0 <= j < |months| then Some(months[j]) else None
  }

  /** The slider's three labels on newest-first months, for an index the
      buttons keep in range: the current month is always shown; `prevMonth`
      exists exactly when the previous button is enabled, is older than the
      current month, and is the month a click on that button shows;
      `nextMonth` likewise for the next button, and is newer. */
  lemma MonthLabels(months: seq<Month>, monthIndex: int)
    requires forall i, j | 0 <= i < j < |months| :: Later(months[i], months[j])
    requires 0 <= monthIndex < |months|
    ensures MonthAt(months, monthIndex).Some?
    ensures MonthAt(months, monthIndex + 1).Some? <==> monthIndex != |months| - 1
    ensures MonthAt(months, monthIndex + 1).Some? ==>
      Later(MonthAt(months, monthIndex).value, MonthAt(months, monthIndex + 1).value) &&
      MonthAt(months, Min(monthIndex + 1, |months| - 1)) == MonthAt(months, monthIndex + 1)
    ensures MonthAt(months, monthIndex - 1).Some? <==> monthIndex != 0
    ensures MonthAt(months, monthIndex - 1).Some? ==>
      Later(MonthAt(months, monthIndex - 1).value, MonthAt(months, monthIndex).value) &&
      MonthAt(months, Max(monthIndex - 1, 0)) == MonthAt(months, monthIndex - 1)
  {
  }

  /** `monthGroups.find(([m]) => m === month)`: the first entry for `month`. */
  function FindMonth(entries: seq<MonthEntry>, month: Month): (r: Option<seq<Incident>>)
    ensures r.None? <==> month !in Months(entries)
  {
    if entries == [] then None
    else if entries[0].0 == month then Some(entries[0].1)
    else FindMonth(entries[1..], month)
  }

  /** `currentIncidents`: the incidents of the month at `monthIndex`, or none.
      When the months have no repeats it is the group at `monthIndex`, and
      nothing once the index lies outside the list of months. */
  function CurrentIncidents(entries: seq<MonthEntry>, monthIndex: int): (r: seq<Incident>)
    ensures Distinct(Months(entries)) ==>
      r == if 0 <= monthIndex < |entries| then entries[monthIndex].1 else []
  {
    assert Distinct(Months(entries)) && 0 <= monthIndex < |entries| ==>
      FindMonth(entries, entries[monthIndex].0) == Some(entries[monthIndex].1) by {
      if Distinct(Months(entries)) && 0 <= monthIndex < |entries| {
        FindMonthAt(entries, monthIndex);
      }
    }
    match MonthAt(Months(entries), monthIndex)
    case None => []
    case Some(m) =>
      match FindMonth(entries, m)
      case None => []
      case Some(b) => b
  }

  /** With distinct months the lookup finds the entry at that position. */
  lemma {:induction false} FindMonthAt(entries: seq<MonthEntry>, i: nat)
    requires Distinct(Months(entries)) && i < |entries|
    ensures FindMonth(entries, entries[i].0) == Some(entries[i].1)
  {
    if i > 0 {
      assert Months(entries)[0] != Months(entries)[i];
      assert Distinct(Months(entries[1..])) by {
        assert forall k | 0 <= k < |entries| - 1 :: Months(entries[1..])[k] == Months(entries)[k + 1];
      }
      FindMonthAt(entries[1..], i - 1);
    }
  }

  /** `monthIndex` and its two buttons. */
  class MonthSlider {
    /** `monthIndex`: 0 is the latest month. */
    var monthIndex: nat

    /** `useState(0)`. */
    constructor ()
      ensures monthIndex == 0
    {
      monthIndex := 0;
    }

    /** The previous-month button: `Math.min(i + 1, months.length - 1)`, disabled
        at the oldest month. It is only rendered when there are months. */
    method ClickPrev(count: nat)
      requires count > 0
      modifies this
      ensures old(monthIndex) == count - 1 ==> monthIndex == old(monthIndex)
      ensures old(monthIndex) != count - 1 ==> monthIndex == Min(old(monthIndex) + 1, count - 1)
      ensures monthIndex < count
    {
      if monthIndex != count - 1 {
        monthIndex := Min(monthIndex + 1, count - 1);
      }
    }

    /** The next-month button: `Math.max(i - 1, 0)`, disabled at the latest month.
        It is only rendered when there are months. */
    method ClickNext(count: nat)
      requires count > 0
      modifies this
      ensures old(monthIndex) == 0 ==> monthIndex == 0
      ensures old(monthIndex) != 0 ==> monthIndex == old(monthIndex) - 1
      ensures old(monthIndex) < count ==> monthIndex < count
    {
      if monthIndex != 0 {
        monthIndex := Max(monthIndex - 1, 0);
      }
    }
  }

  /** The impact of an incident. */
  function ImpactOf(i: Incident): Impact
  {
    i.impact
  }

  /** The status of an incident. */
  function StatusOf(i: Incident): IncidentStatus
  {
    i.status
  }

  /** The `{ critical, major, minor, none }` counter record of `impactStats`. */
  datatype ImpactCounts = ImpactCounts(critical: nat, major: nat, minor: nat, none: nat)
  {
    /** `stats[impact]`. */
    function Get(imp: Impact): nat
    {
      match imp
      case CriticalImpact => critical
      case MajorImpact => major
      case MinorImpact => minor
      case NoImpact => none
    }

    /** `stats[impact]++`. */
    function Inc(imp: Impact): (r: ImpactCounts)
      ensures forall k :: r.Get(k) == Get(k) + (if k == imp then 1 else 0)
    {
      match imp
      case CriticalImpact => this.(critical := critical + 1)
      case MajorImpact => this.(major := major + 1)
      case MinorImpact => this.(minor := minor + 1)
      case NoImpact => this.(none := none + 1)
    }

    /** The four counters added up. */
    function Total(): nat
    {
      critical + major + minor + none
    }
  }

  /** `impactStats`: one counter per impact level, each incremented once per
      incident of that level. */
  method ImpactStats(incs: seq<Incident>) returns (stats: ImpactCounts)
    ensures forall imp :: stats.Get(imp) == |Bucket(incs, ImpactOf, imp)|
    ensures stats.Total() == |incs|
  {
    stats := ImpactCounts(0, 0, 0, 0);
    for i := 0 to |incs|
      invariant forall imp :: stats.Get(imp) == |Bucket(incs[..i], ImpactOf, imp)|
    {
      forall k
        ensures |Bucket(incs[..i + 1], ImpactOf, k)| == |Bucket(incs[..i], ImpactOf, k)| + (if incs[i].impact == k then 1 else 0)
      {
        BucketExtend(incs, ImpactOf, k, i);
      }
      stats := stats.Inc(incs[i].impact);
    }
    assert incs[..|incs|] == incs;
    ImpactsAddUp(incs);
  }

  /** Every incident has exactly one of the four impact levels. */
  lemma ImpactsAddUp(incs: seq<Incident>)
    ensures |Bucket(incs, ImpactOf, CriticalImpact)| + |Bucket(incs, ImpactOf, MajorImpact)| +
      |Bucket(incs, ImpactOf, MinorImpact)| + |Bucket(incs, ImpactOf, NoImpact)| == |incs|
  {
    var ks := [CriticalImpact, MajorImpact, MinorImpact, NoImpact];
    forall i | 0 <= i < |incs|
      ensures ImpactOf(incs[i]) in ks
    {
      ImpactCases(incs[i].impact);
    }
    FlattenIsPermutation(incs, ImpactOf, ks);
    FlattenLengths(incs, ImpactOf, ks);
    var n := (k: Impact) => |Bucket(incs, ImpactOf, k)|;
    assert [NoImpact][1..] == [];
    assert BucketSizes(incs, ImpactOf, [NoImpact]) == n(NoImpact);
    assert [MinorImpact, NoImpact][1..] == [NoImpact];
    assert BucketSizes(incs, ImpactOf, [MinorImpact, NoImpact]) == n(MinorImpact) + n(NoImpact);
    assert [MajorImpact, MinorImpact, NoImpact][1..] == [MinorImpact, NoImpact];
    assert BucketSizes(incs, ImpactOf, [MajorImpact, MinorImpact, NoImpact]) == n(MajorImpact) + n(MinorImpact) + n(NoImpact);
    assert ks[1..] == [MajorImpact, MinorImpact, NoImpact];
  }

  /** The `{ investigating, identified, monitoring, resolved, postmortem }` counter
      record of `statusStats`. */
  datatype StatusCounts = StatusCounts(investigating: nat, identified: nat, monitoring: nat, resolved: nat, postmortem: nat)
  {
    /** `stats[status]`. */
    function Get(s: IncidentStatus): nat
    {
      match s
      case Investigating => investigating
      case Identified => identified
      case Monitoring => monitoring
      case Resolved => resolved
      case Postmortem => postmortem
    }

    /** `stats[status]++`. */
    function Inc(s: IncidentStatus): (r: StatusCounts)
      ensures forall k :: r.Get(k) == Get(k) + (if k == s then 1 else 0)
    {
      match s
      case Investigating => this.(investigating := investigating + 1)
      case Identified => this.(identified := identified + 1)
      case Monitoring => this.(monitoring := monitoring + 1)
      case Resolved => this.(resolved := resolved + 1)
      case Postmortem => this.(postmortem := postmortem + 1)
    }

    /** The five counters added up. */
    function Total(): nat
    {
      investigating + identified + monitoring + resolved + postmortem
    }
  }

  /** `statusStats`: one counter per incident status. */
  method StatusStats(incs: seq<Incident>) returns (stats: StatusCounts)
    ensures forall s :: stats.Get(s) == |Bucket(incs, StatusOf, s)|
    ensures stats.Total() == |incs|
  {
    stats := StatusCounts(0, 0, 0, 0, 0);
    for i := 0 to |incs|
      invariant forall s :: stats.Get(s) == |Bucket(incs[..i], StatusOf, s)|
    {
      forall k
        ensures |Bucket(incs[..i + 1], StatusOf, k)| == |Bucket(incs[..i], StatusOf, k)| + (if incs[i].status == k then 1 else 0)
      {
        BucketExtend(incs, StatusOf, k, i);
      }
      stats := stats.Inc(incs[i].status);
    }
    assert incs[..|incs|] == incs;
    StatusesAddUp(incs);
  }

  /** Every incident has exactly one of the five statuses. */
  lemma StatusesAddUp(incs: seq<Incident>)
    ensures |Bucket(incs, StatusOf, Investigating)| + |Bucket(incs, StatusOf, Identified)| +
      |Bucket(incs, StatusOf, Monitoring)| + |Bucket(incs, StatusOf, Resolved)| +
      |Bucket(incs, StatusOf, Postmortem)| == |incs|
  {
    var ks := [Investigating, Identified, Monitoring, Resolved, Postmortem];
    forall i | 0 <= i < |incs|
      ensures StatusOf(incs[i]) in ks
    {
      StatusCases(incs[i].status);
    }
    FlattenIsPermutation(incs, StatusOf, ks);
    FlattenLengths(incs, StatusOf, ks);
    var n := (k: IncidentStatus) => |Bucket(incs, StatusOf, k)|;
    assert [Postmortem][1..] == [];
    assert BucketSizes(incs, StatusOf, [Postmortem]) == n(Postmortem);
    assert [Resolved, Postmortem][1..] == [Postmortem];
    assert BucketSizes(incs, StatusOf, [Resolved, Postmortem]) == n(Resolved) + n(Postmortem);
    assert [Monitoring, Resolved, Postmortem][1..] == [Resolved, Postmortem];
    assert BucketSizes(incs, StatusOf, [Monitoring, Resolved, Postmortem]) ==
      n(Monitoring) + n(Resolved) + n(Postmortem);
    assert [Identified, Monitoring, Resolved, Postmortem][1..] == [Monitoring, Resolved, Postmortem];
    assert BucketSizes(incs, StatusOf, [Identified, Monitoring, Resolved, Postmortem]) ==
      n(Identified) + n(Monitoring) + n(Resolved) + n(Postmortem);
    assert ks[1..] == [Identified, Monitoring, Resolved, Postmortem];
  }
}
