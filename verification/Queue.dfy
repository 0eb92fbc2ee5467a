/** The analyst queue: backend/app/alerts/queue.py. */
module Queue {
  import opened Wrappers
  import opened Text
  import opened Sorting
  import opened Runtime
  import opened Alerts

  function PriorityRank(p: AlertPriority): nat
  {
    match p case Urgent => 0 case HighPriority => 1 case Normal => 2 case LowPriority => 3
  }

  function SeverityRank(s: AlertSeverity): nat
  {
    match s
    case Critical => 0
    case HighSeverity => 1
    case Medium => 2
    case LowSeverity => 3
    case Informational => 4
    case Unassigned => 5
  }

  /** The lexicographic order of (priority rank, severity rank, creation, identifier). */
  predicate QueueBefore(a: Alert, b: Alert)
  {
    || PriorityRank(a.priority) < PriorityRank(b.priority)
    || (a.priority == b.priority && SeverityRank(a.severity) < SeverityRank(b.severity))
    || (a.priority == b.priority && a.severity == b.severity && a.createdAt < b.createdAt)
    || (a.priority == b.priority && a.severity == b.severity && a.createdAt == b.createdAt
        && StringLess(a.alertId, b.alertId))
  }

  // ---- The collection ----

  /** What one call of an iterator's `next` does. */
  datatype Drawn = Item(alert: Alert) | Stopped | Raised

  /** An iterator over what a collection yields before it stops or raises. */
  class Cursor {
    const items: seq<Alert>
    const raises: bool
    var position: nat

    constructor (items: seq<Alert>, raises: bool)
      ensures this.items == items && this.raises == raises && position == 0
    {
      this.items := items;
      this.raises := raises;
      position := 0;
    }

    method Next() returns (drawn: Drawn)
      requires position <= |items|
      modifies this
      ensures drawn == if old(position) < |items| then Item(items[old(position)]) else if raises then Raised else Stopped
      ensures position == if old(position) < |items| then old(position) + 1 else old(position)
    {
      if position < |items| {
        drawn := Item(items[position]);
        position := position + 1;
      } else {
        drawn := if raises then Raised else Stopped;
      }
    }
  }

  const INVALID_COLLECTION := AlertError("invalid_collection", "alerts")
  const INVALID_ALERT := AlertError("invalid_alert", "alerts")
  const DUPLICATE_ID := AlertError("duplicate_alert_id", "alert_id")

  /** `_snapshot_collection`: accept exactly as many items as the declared size, and
      draw at most one more, so that a longer stream is never drained. The size is None
      when asking for it raises. */
  method SnapshotCollection(size: Option<nat>, cursor: Cursor) returns (r: Result<seq<Alert>, AlertError>)
    requires cursor.position == 0
    modifies cursor
    ensures r == if size == Some(|cursor.items|) && !cursor.raises then Ok(cursor.items) else Err(INVALID_COLLECTION)
    ensures cursor.position <= if size.Some? then size.value + 1 else 0
  {
    if size.None? { return Err(INVALID_COLLECTION); }
    var entries: seq<Alert> := [];
    while |entries| < size.value + 1
      invariant |entries| <= size.value + 1
      invariant cursor.position == |entries| <= |cursor.items| && entries == cursor.items[..|entries|]
    {
      var drawn := cursor.Next();
      if drawn.Raised? { return Err(INVALID_COLLECTION); }
      if drawn.Stopped? {
        assert cursor.items[..|entries|] == cursor.items;
        break;
      }
      entries := entries + [drawn.alert];
    }
    if |entries| == size.value { return Ok(entries); }
    r := Err(INVALID_COLLECTION);
  }

  // ---- Validation and filters ----

  /** The failure met first along the collection, given the identifiers seen so far. */
  function CollectionFailure(h: Host, alerts: seq<Alert>, seen: set<string>): Option<AlertError>
  {
    if alerts == [] then None
    else if Revalidated(h, alerts[0]).None? then Some(INVALID_ALERT)
    else if alerts[0].alertId in seen then Some(DUPLICATE_ID)
    else CollectionFailure(h, alerts[1..], seen + {alerts[0].alertId})
  }

  /** A filter argument; `Malformed` is no built-in set or holds foreign values. */
  datatype Filter<!T(==)> = Omitted | Selected(values: set<T>) | Malformed

  function ReadFilter<T(==)>(f: Filter<T>, field: string): Result<Option<set<T>>, AlertError>
  {
    match f
    case Omitted => Ok(None)
    case Malformed => Err(AlertError("invalid_filter", field))
    case Selected(values) => if values == {} then Err(AlertError("invalid_filter", field)) else Ok(Some(values))
  }

  datatype Filters = Filters(
    states: Filter<AlertState>,
    severities: Filter<AlertSeverity>,
    priorities: Filter<AlertPriority>)

  const ACTIVE_STATES: set<AlertState> := {New, Acknowledged}

  const NO_FILTERS := Filters(Omitted, Omitted, Omitted)

  function FilterFailure(f: Filters): Option<AlertError>
  {
    match (ReadFilter(f.states, "states"), ReadFilter(f.severities, "severities"), ReadFilter(f.priorities, "priorities"))
    case (Err(e), _, _) => Some(e)
    case (_, Err(e), _) => Some(e)
    case (_, _, Err(e)) => Some(e)
    case _ => None
  }

  predicate Allows<T(==)>(f: Filter<T>, value: T) { f.Selected? ==> value in f.values }

  predicate Passes(f: Filters, a: Alert)
  {
    && (if f.states.Selected? then a.state in f.states.values else a.state in ACTIVE_STATES)
    && Allows(f.severities, a.severity)
    && Allows(f.priorities, a.priority)
  }

  function Matching(f: Filters, alerts: seq<Alert>): (r: seq<Alert>)
    ensures forall a :: a in r <==> a in alerts && Passes(f, a)
  {
    if alerts == [] then []
    else if Passes(f, alerts[0]) then [alerts[0]] + Matching(f, alerts[1..])
    else Matching(f, alerts[1..])
  }

  /** `list_alerts` on the items of a collection. */
  function QueueResult(h: Host, alerts: seq<Alert>, f: Filters): Result<seq<Alert>, AlertError>
  {
    match CollectionFailure(h, alerts, {})
    case Some(e) => Err(e)
    case None =>
      match FilterFailure(f)
      case Some(e) => Err(e)
      case None => Ok(Sort(Matching(f, alerts), QueueBefore))
  }

  /** `list_alerts` */
  method ListAlerts(h: Host, size: Option<nat>, cursor: Cursor, f: Filters) returns (r: Result<seq<Alert>, AlertError>)
    requires cursor.position == 0
    modifies cursor
    ensures r == if size == Some(|cursor.items|) && !cursor.raises then QueueResult(h, cursor.items, f) else Err(INVALID_COLLECTION)
    ensures cursor.position <= if size.Some? then size.value + 1 else 0
  {
    hide ValidAlert, Passes, QueueBefore;
    var entries := SnapshotCollection(size, cursor);
    if entries.Err? { return Err(entries.error); }
    var validated: seq<Alert> := [];
    var seen: set<string> := {};
    assert entries.value[0..] == entries.value;
    for i := 0 to |entries.value|
      invariant CollectionFailure(h, entries.value, {}) == CollectionFailure(h, entries.value[i..], seen)
      invariant validated == entries.value[..i]
    {
      assert entries.value[i..][1..] == entries.value[i + 1..];
      var snapshot := Revalidated(h, entries.value[i]);
      if snapshot.None? { return Err(INVALID_ALERT); }
      var alert := snapshot.value;
      if alert.alertId in seen { return Err(DUPLICATE_ID); }
      seen := seen + {alert.alertId};
      validated := validated + [alert];
    }
    assert validated == entries.value;
    var states := ReadFilter(f.states, "states");
    if states.Err? { return Err(states.error); }
    var severities := ReadFilter(f.severities, "severities");
    if severities.Err? { return Err(severities.error); }
    var priorities := ReadFilter(f.priorities, "priorities");
    if priorities.Err? { return Err(priorities.error); }
    r := Ok(Sort(Matching(f, validated), QueueBefore));
  }
}
