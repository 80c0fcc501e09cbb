/** The incident list component (src/components/IncidentsList.tsx): incidents
    grouped by the month they were created in, the months newest first, the time
    line under each incident and the text shown as its body. Date formatting is a
    parameter: `monthOf` names the month of a timestamp, `dateTime` and `timeOnly`
    are the two locale formats. */
module IncidentsList {
  import opened Seqs
  import opened Domain
  import opened Text
  import opened Grouping
  import opened MonthOrder

  /** `groupByMonthYear` followed by the sorted `Object.keys` of the record. */
  method GroupByMonthYear(incs: seq<Incident>, monthOf: string -> Month)
    returns (g: Groups<Month, Incident>, months: seq<Month>)
    ensures g.keys == KeysInOrder(incs, CreatedMonth(monthOf))
    ensures forall m :: m in g.buckets <==> m in g.keys
    ensures forall m | m in g.buckets :: g.buckets[m] == Bucket(incs, CreatedMonth(monthOf), m)
    ensures forall i | 0 <= i < |incs| ::
      monthOf(incs[i].createdAt) in g.buckets && incs[i] in g.buckets[monthOf(incs[i].createdAt)]
    ensures forall i, j | 0 <= i < j < |months| :: Later(months[i], months[j])
    ensures forall m :: m in months <==> m in g.buckets
    ensures forall i | 0 <= i < |months| :: |g.buckets[months[i]]| > 0
    ensures |months| == 0 <==> |incs| == 0
  {
    var key := CreatedMonth(monthOf);
    g := GroupBy(incs, key);
    KeysInOrderDistinct(incs, key);
    months := SortLatestFirst(g.keys);
    EveryIncidentFiled(incs, monthOf);
    MonthsNonEmpty(incs, monthOf, months);
  }

  /** Each incident lies in the bucket of its own month. */
  lemma EveryIncidentFiled(incs: seq<Incident>, monthOf: string -> Month)
    ensures forall i | 0 <= i < |incs| ::
      monthOf(incs[i].createdAt) in KeysInOrder(incs, CreatedMonth(monthOf)) &&
      incs[i] in Bucket(incs, CreatedMonth(monthOf), monthOf(incs[i].createdAt))
  {
    var key := CreatedMonth(monthOf);
    forall i | 0 <= i < |incs|
      ensures key(incs[i]) in KeysInOrder(incs, key) && incs[i] in Bucket(incs, key, key(incs[i]))
    {
      KeysInOrderMembership(incs, key, key(incs[i]));
      assert HasKey(key, key(incs[i]))(incs[i]);
    }
  }

  /** A list of exactly the incidents' months has no month without incidents, and
      is empty only when there are no incidents. */
  lemma MonthsNonEmpty(incs: seq<Incident>, monthOf: string -> Month, months: seq<Month>)
    requires forall m :: m in months <==> m in KeysInOrder(incs, CreatedMonth(monthOf))
    ensures forall i | 0 <= i < |months| :: |Bucket(incs, CreatedMonth(monthOf), months[i])| > 0
    ensures |months| == 0 <==> |incs| == 0
  {
    var key := CreatedMonth(monthOf);
    forall i | 0 <= i < |months|
      ensures |Bucket(incs, key, months[i])| > 0
    {
      assert months[i] in months;
      KeyPresentBucketNonEmpty(incs, key, months[i]);
    }
    if |incs| > 0 {
      KeysInOrderMembership(incs, key, key(incs[0]));
      assert key(incs[0]) in months;
    }
    if |months| > 0 {
      assert months[0] in months;
      KeysInOrderMembership(incs, key, months[0]);
    }
  }

  /** `formatIncidentTime`: the start in date-and-time form, then ` - ` and the
      end in time form when `end` is truthy (neither null nor empty), then ` UTC`. */
  method FormatIncidentTime(start: string, end: Option<string>, dateTime: string -> string, timeOnly: string -> string)
    returns (result: string)
    ensures IsPrefix(dateTime(start), result)
    ensures |result| >= |dateTime(start)| + 4 && result[|result| - 4..] == " UTC"
    ensures |result| > |dateTime(start)| + 4 <==> end.Some? && end.value != ""
    ensures end.Some? && end.value != "" ==>
      |result| == |dateTime(start)| + 3 + |timeOnly(end.value)| + 4 &&
      result[|dateTime(start)|..|dateTime(start)| + 3] == " - " &&
      result[|dateTime(start)| + 3..|result| - 4] == timeOnly(end.value)
  {
    result := dateTime(start);
    if end.Some? && end.value != "" {
      result := result + " - " + timeOnly(end.value);
    }
    result := result + " UTC";
  }

  /** The fixed text for a resolved incident without an update body. */
  const RESOLVED_TEXT: string := "This incident has been resolved."

  /** `incident.incident_updates[0]?.body || (resolved ? RESOLVED_TEXT : '')`. */
  function DisplayBody(inc: Incident): (r: string)
    ensures |inc.updates| > 0 && inc.updates[0].body != "" ==> r == inc.updates[0].body
    ensures r == "" <==> (|inc.updates| == 0 || inc.updates[0].body == "") && inc.status != Resolved
    ensures r != "" && r != RESOLVED_TEXT ==> |inc.updates| > 0 && r == inc.updates[0].body
  {
    if |inc.updates| > 0 && inc.updates[0].body != "" then inc.updates[0].body
    else if inc.status == Resolved then RESOLVED_TEXT
    else ""
  }
}
