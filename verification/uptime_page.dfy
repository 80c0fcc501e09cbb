/** The uptime calendar (src/pages/UptimePage.tsx): days bucketed by month, the
    sliding window of at most three months with its prev/next buttons, and the
    calendar grid padded to whole weeks. The month label of a date is a parameter
    `monthOf`; the days themselves come from a generator outside this model. */
module UptimePage {
  import opened Seqs
  import opened Domain
  import opened Grouping

  /** `UPTIME_MONTHS`: how many months the calendar shows at a time. */
  const UPTIME_MONTHS: nat := 3

  /** One day of the uptime series; the percentage is left out. */
  datatype UptimeDay = UptimeDay(date: string, status: ComponentStatus)

  /** The month label of a day: `getMonthYear(new Date(day.date))`. */
  function DayMonth(monthOf: string -> Month): UptimeDay -> Month
  {
    (d: UptimeDay) => monthOf(d.date)
  }

  /** `groupUptimeByMonth`: each day goes into the bucket of its month label. */
  method GroupUptimeByMonth(days: seq<UptimeDay>, monthOf: string -> Month) returns (g: Groups<Month, UptimeDay>)
    ensures g.keys == KeysInOrder(days, DayMonth(monthOf)) && Distinct(g.keys)
    ensures forall m :: m in g.buckets <==> m in g.keys
    ensures forall i | 0 <= i < |days| :: monthOf(days[i].date) in g.buckets && days[i] in g.buckets[monthOf(days[i].date)]
    ensures forall m | m in g.buckets :: |g.buckets[m]| > 0 && g.buckets[m] == Bucket(days, DayMonth(monthOf), m)
    ensures multiset(Flatten(days, DayMonth(monthOf), g.keys)) == multiset(days)
  {
    g := GroupBy(days, DayMonth(monthOf));
    GroupsPartition(days, DayMonth(monthOf));
    forall i | 0 <= i < |days|
      ensures monthOf(days[i].date) in g.buckets && days[i] in g.buckets[monthOf(days[i].date)]
    {
      KeysInOrderMembership(days, DayMonth(monthOf), monthOf(days[i].date));
      assert HasKey(DayMonth(monthOf), monthOf(days[i].date))(days[i]);
    }
  }

  /** How `Array.prototype.slice` reads one bound: negative counts from the end,
      and the result is clamped to `[0, len]`. */
  function SliceBound(x: int, len: nat): (b: nat)
    ensures b <= len
    ensures 0 <= x <= len ==> b == x
  {
    if x < 0 then Max(0, len + x) else Min(x, len)
  }

  /** `s.slice(start, end)`. */
  function JsSlice<T>(s: seq<T>, start: int, end: int): (r: seq<T>)
    ensures |r| <= |s|
  {
    var lo := SliceBound(start, |s|);
    var hi := SliceBound(end, |s|);
    if lo < hi then s[lo..hi] else []
  }

  /** The start index `getMonthRange` computes. */
  function WindowStart(total: nat, offset: nat): int
  {
    Max(0, total - UPTIME_MONTHS - offset)
  }

  /** `getMonthRange`: the distinct month labels in first-appearance order, sliced
      from `max(0, total - 3 - offset)` to `total - offset`. The window shows
      only listed months, never repeats one the list does not repeat, and holds
      at most three months while the offset stays within the list. */
  function MonthRange(months: seq<Month>, offset: nat): (w: seq<Month>)
    ensures forall i | 0 <= i < |w| :: w[i] in months
    ensures Distinct(months) ==> Distinct(w)
    ensures offset <= |months| ==> |w| <= UPTIME_MONTHS
  {
    JsSlice(months, WindowStart(|months|, offset), |months| - offset)
  }

  /** While the offset stays within the list, the window is the contiguous run of
      at most three months that ends `offset` months before the newest. */
  lemma WindowShape(months: seq<Month>, offset: nat)
    requires offset <= |months|
    ensures |MonthRange(months, offset)| == Min(UPTIME_MONTHS, |months| - offset)
    ensures MonthRange(months, offset) ==
      months[|months| - offset - Min(UPTIME_MONTHS, |months| - offset)..|months| - offset]
  {
  }

  /** At offset 0 the window is the last `min(3, total)` months. */
  lemma LatestWindow(months: seq<Month>)
    ensures MonthRange(months, 0) == months[|months| - Min(UPTIME_MONTHS, |months|)..]
  {
    WindowShape(months, 0);
  }

  /** `s.indexOf(x)`: the first position of `x`, or -1. */
  function IndexOf<T(==)>(s: seq<T>, x: T): (r: int)
    ensures r == -1 <==> x !in s
    ensures 0 <= r ==> r < |s| && s[r] == x && forall j | 0 <= j < r :: s[j] != x
  {
    if s == [] then -1
    else if s[0] == x then 0
    else
      var r := IndexOf(s[1..], x);
      if r < 0 then -1 else r + 1
  }

  /** `canGoPrev`: the window is non-empty and its first month is not the first
      key of the grouped record. It holds exactly when the window starts at a
      listed month other than the oldest. */
  function CanGoPrev(keys: seq<Month>, window: seq<Month>): (b: bool)
    ensures b <==> |window| > 0 && window[0] in keys && window[0] != keys[0]
  {
    |window| > 0 && IndexOf(keys, window[0]) > 0
  }

  /** `canGoNext`: enabled exactly when the click's update
      `Math.max(o - 1, 0)` would change the offset. */
  function CanGoNext(offset: nat): (b: bool)
    ensures b <==> Max(offset - 1, 0) != offset
  {
    offset > 0
  }

  /** On distinct month keys and an offset the pager can reach, the next button
      is enabled exactly when the window is not the newest one. */
  lemma CanGoNextIffNotLatest(months: seq<Month>, offset: nat)
    requires Distinct(months) && offset <= Max(0, |months| - UPTIME_MONTHS)
    ensures CanGoNext(offset) <==> MonthRange(months, offset) != MonthRange(months, 0)
  {
    if offset > 0 {
      var n := |months|;
      WindowShape(months, offset);
      WindowShape(months, 0);
      var w, w0 := MonthRange(months, offset), MonthRange(months, 0);
      assert w[|w| - 1] == months[n - offset - 1];
      assert w0[|w0| - 1] == months[n - 1];
    }
  }

  /** On distinct month keys, the prev button is enabled exactly when the window
      does not start at the oldest month. */
  lemma CanGoPrevIffStartPositive(months: seq<Month>, offset: nat)
    requires Distinct(months) && offset < |months|
    ensures CanGoPrev(months, MonthRange(months, offset)) <==> WindowStart(|months|, offset) > 0
  {
    WindowShape(months, offset);
    var s := WindowStart(|months|, offset);
    assert months[s] in months;
  }

  /** The month navigation of the calendar over the grouped month keys. */
  class MonthPager {
    /** `Object.keys(grouped)`, the same list as `getMonthRange`'s labels. */
    const months: seq<Month>
    /** `monthOffset`: 0 is the latest window, each step one month further back. */
    var offset: nat

    /** Distinct keys and an offset the buttons can reach from 0. */
    predicate Valid()
      reads this
    {
      Distinct(months) && offset <= Max(0, |months| - UPTIME_MONTHS)
    }

    /** `useState(0)`. */
    constructor (monthKeys: seq<Month>)
      requires Distinct(monthKeys)
      ensures months == monthKeys && offset == 0 && Valid()
    {
      months := monthKeys;
      offset := 0;
    }

    /** The months shown: between one and three of the pager's months when it
      has any, without repeats. */
    function Window(): (w: seq<Month>)
      reads this
      ensures Valid() ==> |w| <= UPTIME_MONTHS && (|months| > 0 ==> |w| > 0) && Distinct(w)
      ensures forall i | 0 <= i < |w| :: w[i] in months
    {
      assert Valid() && |months| > 0 ==> |MonthRange(months, offset)| > 0 by {
        if Valid() && |months| > 0 {
          WindowShape(months, offset);
        }
      }
      MonthRange(months, offset)
    }

    /** The prev button: `setMonthOffset(o => o + 1)`, disabled unless `canGoPrev`. */
    method ClickPrev()
      requires Valid()
      modifies this
      ensures Valid()
      ensures old(CanGoPrev(months, Window())) ==> offset == old(offset) + 1
      ensures !old(CanGoPrev(months, Window())) ==> offset == old(offset)
    {
      if 0 < |months| {
        CanGoPrevIffStartPositive(months, offset);
      }
      var w := MonthRange(months, offset);
      if CanGoPrev(months, w) {
        offset := offset + 1;
      }
    }

    /** The next button: `setMonthOffset(o => Math.max(o - 1, 0))`, disabled unless
        `canGoNext`. */
    method ClickNext()
      requires Valid()
      modifies this
      ensures Valid()
      ensures old(CanGoNext(offset)) ==> offset == old(offset) - 1
      ensures !old(CanGoNext(offset)) ==> offset == old(offset)
    {
      if CanGoNext(offset) {
        offset := Max(offset - 1, 0);
      }
    }
  }

  /** Every window the pager can show holds between one and three months when
      there is any month at all, each with a non-empty bucket of days, so
      `days[0]` exists for every month drawn. */
  lemma WindowMonthsHaveDays(days: seq<UptimeDay>, monthOf: string -> Month, offset: nat)
    requires offset <= Max(0, |KeysInOrder(days, DayMonth(monthOf))| - UPTIME_MONTHS)
    ensures var w := MonthRange(KeysInOrder(days, DayMonth(monthOf)), offset);
      (|days| > 0 ==> 1 <= |w| <= UPTIME_MONTHS) &&
      forall i | 0 <= i < |w| :: |Bucket(days, DayMonth(monthOf), w[i])| > 0
  {
    var ks := KeysInOrder(days, DayMonth(monthOf));
    WindowShape(ks, offset);
    var w := MonthRange(ks, offset);
    if |days| > 0 {
      KeysInOrderMembership(days, DayMonth(monthOf), monthOf(days[0].date));
      assert |ks| > 0;
      assert |w| == Min(UPTIME_MONTHS, |ks| - offset);
    }
    forall i | 0 <= i < |w|
      ensures |Bucket(days, DayMonth(monthOf), w[i])| > 0
    {
      var lo := |ks| - offset - Min(UPTIME_MONTHS, |ks| - offset);
      assert w[i] == ks[lo + i];
      KeyPresentBucketNonEmpty(days, DayMonth(monthOf), w[i]);
    }
  }

  /** The number of nulls that complete a row of 7 after `n` cells. */
  function WeekPadding(n: nat): (pad: nat)
    ensures pad < 7 && (n + pad) % 7 == 0
  {
    var r := n % 7;
    assert n == 7 * (n / 7) + r;
    if r == 0 then 0
    else
      assert n + (7 - r) == 7 * (n / 7 + 1);
      7 - r
  }

  /** The calendar grid: `Array(firstDay).fill(null).concat(days)`, then nulls
      pushed until the length is a multiple of 7. */
  method PadCalendarGrid<T>(firstDay: nat, days: seq<T>) returns (grid: seq<Option<T>>)
    ensures |grid| % 7 == 0
    ensures firstDay + |days| <= |grid| < firstDay + |days| + 7
    ensures forall i | 0 <= i < firstDay :: grid[i] == None
    ensures forall i | 0 <= i < |days| :: grid[firstDay + i] == Some(days[i])
    ensures forall i | firstDay + |days| <= i < |grid| :: grid[i] == None
  {
    grid := seq(firstDay, _ => None) + seq(|days|, i requires 0 <= i < |days| => Some(days[i]));
    var base := firstDay + |days|;
    ghost var pad := WeekPadding(base);
    while |grid| % 7 != 0
      invariant base <= |grid| <= base + pad
      invariant forall i | 0 <= i < firstDay :: grid[i] == None
      invariant forall i | 0 <= i < |days| :: grid[firstDay + i] == Some(days[i])
      invariant forall i | base <= i < |grid| :: grid[i] == None
      decreases base + pad - |grid|
    {
      grid := grid + [None];
    }
  }
}
