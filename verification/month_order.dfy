/** Ordering month labels newest first, as the pages do with
    `.sort((a, b) => new Date(b).getTime() - new Date(a).getTime())`. */
module MonthOrder {
  import opened Seqs
  import opened Domain

  /** The month label of an incident: `formatMonthYear(incident.created_at)`. */
  function CreatedMonth(monthOf: string -> Month): Incident -> Month
  {
    (i: Incident) => monthOf(i.createdAt)
  }

  /** No month is later than one listed before it. */
  predicate LatestFirst(ms: seq<Month>)
  {
    forall i, j | 0 <= i < j < |ms| :: !Later(ms[j], ms[i])
  }

  /** Places `m` before the first month that is not later than it. */
  function Insert(m: Month, ms: seq<Month>): seq<Month>
  {
    if ms == [] then [m]
    else if !Later(ms[0], m) then [m] + ms
    else [ms[0]] + Insert(m, ms[1..])
  }

  /** Inserting adds exactly one copy of `m`. */
  lemma {:induction false} InsertCounts(m: Month, ms: seq<Month>)
    ensures multiset(Insert(m, ms)) == multiset(ms) + multiset{m}
    ensures forall x :: x in Insert(m, ms) <==> x == m || x in ms
  {
    if ms != [] && Later(ms[0], m) {
      InsertCounts(m, ms[1..]);
      assert ms == [ms[0]] + ms[1..];
    }
  }

  /** Inserting into a newest-first list keeps it newest first. */
  lemma {:induction false} InsertKeepsOrder(m: Month, ms: seq<Month>)
    requires LatestFirst(ms)
    ensures LatestFirst(Insert(m, ms))
  {
    if ms != [] && Later(ms[0], m) {
      var rest := Insert(m, ms[1..]);
      InsertKeepsOrder(m, ms[1..]);
      InsertCounts(m, ms[1..]);
      forall j | 0 <= j < |rest|
        ensures !Later(rest[j], ms[0])
      {
        assert rest[j] in rest;
        if rest[j] != m {
          var k :| 0 <= k < |ms[1..]| && ms[1..][k] == rest[j];
          assert ms[k + 1] == rest[j];
        }
      }
      assert Insert(m, ms) == [ms[0]] + rest;
    }
  }

  /** Inserting a month not yet present into a list without repeats gives a list
      without repeats. */
  lemma {:induction false} InsertKeepsDistinct(m: Month, ms: seq<Month>)
    requires m !in ms && Distinct(ms)
    ensures Distinct(Insert(m, ms))
  {
    if ms != [] && Later(ms[0], m) {
      InsertKeepsDistinct(m, ms[1..]);
      InsertCounts(m, ms[1..]);
      assert ms[0] !in ms[1..];
    }
  }

  /** A newest-first list without repeats is strictly newest first. */
  lemma StrictWhenDistinct(ms: seq<Month>)
    requires LatestFirst(ms) && Distinct(ms)
    ensures forall i, j | 0 <= i < j < |ms| :: Later(ms[i], ms[j])
  {
    forall i, j | 0 <= i < j < |ms|
      ensures Later(ms[i], ms[j])
    {
      LaterTotal(ms[i], ms[j]);
    }
  }

  /** The descending sort of month labels (an insertion sort stands for the
      library sort; on distinct keys every correct sort gives the same result). */
  function SortLatestFirst(ms: seq<Month>): (r: seq<Month>)
    ensures LatestFirst(r)
    ensures multiset(r) == multiset(ms)
    ensures forall x :: x in r <==> x in ms
    ensures Distinct(ms) ==> Distinct(r)
    ensures Distinct(ms) ==> forall i, j | 0 <= i < j < |r| :: Later(r[i], r[j])
  {
    if ms == [] then []
    else
      var rest := SortLatestFirst(ms[1..]);
      SortStep(ms, rest);
      Insert(ms[0], rest)
  }

  /** Inserting the head of a list into the sorted rest sorts the whole list. */
  lemma SortStep(ms: seq<Month>, rest: seq<Month>)
    requires ms != [] && LatestFirst(rest) && multiset(rest) == multiset(ms[1..])
    requires Distinct(ms[1..]) ==> Distinct(rest)
    ensures LatestFirst(Insert(ms[0], rest))
    ensures multiset(Insert(ms[0], rest)) == multiset(ms)
    ensures forall x :: x in Insert(ms[0], rest) <==> x in ms
    ensures Distinct(ms) ==> Distinct(Insert(ms[0], rest))
    ensures Distinct(ms) ==> forall i, j | 0 <= i < j < |Insert(ms[0], rest)| ::
      Later(Insert(ms[0], rest)[i], Insert(ms[0], rest)[j])
  {
    var r := Insert(ms[0], rest);
    InsertKeepsOrder(ms[0], rest);
    InsertCounts(ms[0], rest);
    assert ms == [ms[0]] + ms[1..];
    forall x
      ensures x in r <==> x in ms
    {
      assert x in r <==> x in multiset(r);
      assert x in ms <==> x in multiset(ms);
    }
    if Distinct(ms) {
      assert ms[0] !in ms[1..];
      assert Distinct(ms[1..]) by {
        assert forall i | 0 <= i < |ms| - 1 :: ms[1..][i] == ms[i + 1];
      }
      assert ms[0] !in rest by {
        assert ms[0] !in multiset(ms[1..]);
      }
      InsertKeepsDistinct(ms[0], rest);
      StrictWhenDistinct(r);
    }
  }
}
