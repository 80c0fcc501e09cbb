/** The records the status API returns, as the pages read them. Strings stay
    strings; the closed string unions of the TypeScript interfaces become
    datatypes. */
module Domain {
  import opened Seqs

  /** `Component.status`: a closed enumeration. */
  datatype ComponentStatus =
    | Operational
    | DegradedPerformance
    | PartialOutage
    | MajorOutage
    | UnderMaintenance

  /** A component as served by the status API. Only the fields the core reads are
      kept; `groupId` is `group_id`, which may be `null` (None) or a string. */
  datatype Component = Component(
    id: string,
    name: string,
    status: ComponentStatus,
    groupId: Option<string>)

  /** `Incident.status`. */
  datatype IncidentStatus = Investigating | Identified | Monitoring | Resolved | Postmortem

  /** `Incident.impact`. */
  datatype Impact = NoImpact | MinorImpact | MajorImpact | CriticalImpact

  /** One entry of `incident_updates`. */
  datatype IncidentUpdate = IncidentUpdate(body: string, createdAt: string)

  /** An incident; timestamps are the API's ISO strings. */
  datatype Incident = Incident(
    id: string,
    name: string,
    status: IncidentStatus,
    impact: Impact,
    createdAt: string,
    resolvedAt: Option<string>,
    updates: seq<IncidentUpdate>)

  /** The calendar month a "Month Year" label stands for. The pages derive the
      label from a timestamp with locale formatting and parse it back to sort;
      here the label is this pair and the formatting is a parameter
      (`monthOf: string -> Month`). */
  datatype Month = Month(year: int, month: int)

  /** `new Date(a) > new Date(b)` for the first instants of two months. */
  predicate Later(a: Month, b: Month)
  {
    a.year > b.year || (a.year == b.year && a.month > b.month)
  }

  /** Later is a strict total order on months. */
  lemma LaterTotal(a: Month, b: Month)
    ensures a == b || Later(a, b) || Later(b, a)
    ensures !(Later(a, b) && Later(b, a))
  {
  }

  /** The four impact levels are all there are. */
  lemma ImpactCases(imp: Impact)
    ensures imp == CriticalImpact || imp == MajorImpact || imp == MinorImpact || imp == NoImpact
  {
  }

  /** The five incident statuses are all there are. */
  lemma StatusCases(s: IncidentStatus)
    ensures s == Investigating || s == Identified || s == Monitoring || s == Resolved || s == Postmortem
  {
  }
}
