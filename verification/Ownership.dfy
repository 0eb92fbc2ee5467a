/** Alert objects and the evidence they own: the copying constructor and accessors of
    backend/app/models/alert.py and the operations of backend/app/alerts on them. */
module Ownership {
  import opened Wrappers
  import opened Runtime
  import opened Alerts
  import opened Runs
  import opened Queue
  import opened MatchGraph

  /** The scalar fields of an alert. */
  datatype AlertFields = AlertFields(
    alertId: string, createdAt: int, state: AlertState, stateChangedAt: int,
    severity: AlertSeverity, priority: AlertPriority, updatedAt: int)

  function FieldsOf(a: Alert): AlertFields
  {
    AlertFields(a.alertId, a.createdAt, a.state, a.stateChangedAt, a.severity, a.priority, a.updatedAt)
  }

  /** A frozen alert: its fields never change, its evidence is a graph of cells. */
  class AlertObject {
    const fields: AlertFields
    const evidence: Cell
    ghost const value: Alert  // what the alert stands for
    ghost const owned: set<Cell>  // the cells of its evidence

    /** The stored graph still has the value the alert stands for. */
    ghost predicate Intact()
      reads owned
    {
      && fields == FieldsOf(value)
      && evidence in owned && SelfContained(owned)
      && Represents(evidence, Encode(value.sourceMatch), owned)
    }

    /** Construction copies validated evidence into cells of its own. */
    constructor (value: Alert)
      ensures this.value == value && Intact() && fresh(owned)
    {
      var evidence, owned := Build(Encode(value.sourceMatch));
      this.fields := FieldsOf(value);
      this.evidence := evidence;
      this.value := value;
      this.owned := owned;
    }

    /** `alert.source_match`: every read hands out a new graph. */
    method SourceMatch() returns (m: Cell, ghost cells: set<Cell>)
      requires Intact()
      ensures fresh(cells) && SelfContained(cells) && m in cells
      ensures Represents(m, Encode(value.sourceMatch), cells)
    {
      var t := Dump(evidence, owned, {});
      assert Represents(evidence, Encode(value.sourceMatch), owned);
      if t.None? {
        assert false;
      } else {
        RepresentsOne(evidence, t.value, Encode(value.sourceMatch), owned);
        m, cells := Build(t.value);
      }
    }

    /** `dict(alert)`: the fields with a detached copy of the evidence. */
    method Snapshot() returns (a: Alert)
      requires Intact()
      ensures a == value
    {
      var copy, cells := SourceMatch();
      var m := ReadMatch(copy, cells);
      MatchOfRepresented(copy, value.sourceMatch, cells);
      a := Alert(fields.alertId, m.value, fields.createdAt, fields.state, fields.stateChangedAt,
                 fields.severity, fields.priority, fields.updatedAt);
    }
  }

  // ---- Operations ----

  method CreateAlertObject(h: Host, m: Cell, ghost cells: set<Cell>, alertId: string, createdAt: Moment,
                           severity: PolicyValue, priority: PolicyValue)
    returns (r: Result<AlertObject, Option<string>>)
    requires SelfContained(cells) && m in cells
    ensures match (r, CreateAlert(h, MatchOf(m, cells), alertId, createdAt, severity, priority))
      case (Ok(made), Ok(a)) => fresh(made) && made.value == a && made.Intact() && fresh(made.owned)
      case (Err(e), Err(e')) => e == e'
      case _ => false
  {
    hide CreateAlert;
    var evidence := ReadMatch(m, cells);
    var created := CreateAlert(h, evidence, alertId, createdAt, severity, priority);
    if created.Err? { return Err(created.error); }
    var made := new AlertObject(created.value);
    r := Ok(made);
  }

  /** `_transition`: the snapshot's fields are updated one by one and revalidated. */
  method TransitionObject(h: Host, alert: AlertObject, at: Moment, source: AlertState, target: AlertState)
    returns (r: Result<AlertObject, AlertError>)
    requires alert.Intact()
    ensures match (r, Transition(h, alert.value, at, source, target))
      case (Ok(made), Ok(a)) => fresh(made) && made.value == a && made.Intact() && fresh(made.owned)
      case (Err(e), Err(e')) => e == e'
      case _ => false
  {
    hide ValidAlert;
    var fields := alert.Snapshot();
    var current := Revalidated(h, fields);
    if current.None? { return Err(AlertError("invalid_alert", "alert")); }
    var instant := MomentInstant(at);
    if instant.None? { return Err(AlertError("invalid_at", "at")); }
    if instant.value < current.value.updatedAt { return Err(AlertError("out_of_order_at", "at")); }
    if current.value.state == target {
      var same := new AlertObject(current.value);
      return Ok(same);
    }
    if current.value.state != source { return Err(AlertError("forbidden_transition", "state")); }
    fields := fields.(state := target);
    fields := fields.(stateChangedAt := instant.value);
    fields := fields.(updatedAt := instant.value);
    var updated := Revalidated(h, fields);
    if updated.None? { return Err(AlertError("invalid_alert", "alert")); }
    var made := new AlertObject(updated.value);
    r := Ok(made);
  }

  /** `_set_policy` */
  method SetPolicyObject(h: Host, alert: AlertObject, field: PolicyField, value: PolicyValue, changedAt: Moment)
    returns (r: Result<AlertObject, AlertError>)
    requires alert.Intact()
    ensures match (r, SetPolicy(h, alert.value, field, value, changedAt))
      case (Ok(made), Ok(a)) => fresh(made) && made.value == a && made.Intact() && fresh(made.owned)
      case (Err(e), Err(e')) => e == e'
      case _ => false
  {
    hide ValidAlert;
    var fields := alert.Snapshot();
    var current := Revalidated(h, fields);
    if current.None? { return Err(AlertError("invalid_alert", "alert")); }
    if !FitsField(value, field) { return Err(AlertError("invalid_value", FieldName(field))); }
    var instant := MomentInstant(changedAt);
    if instant.None? { return Err(AlertError("invalid_changed_at", "changed_at")); }
    if instant.value < current.value.updatedAt { return Err(AlertError("out_of_order_changed_at", "changed_at")); }
    if current.value.state.Closed? { return Err(AlertError("closed_alert", "state")); }
    if value == Previous(current.value, field) {
      var same := new AlertObject(current.value);
      return Ok(same);
    }
    fields := WithPolicy(fields, field, value);
    fields := fields.(updatedAt := instant.value);
    var updated := Revalidated(h, fields);
    if updated.None? { return Err(AlertError("invalid_alert", "alert")); }
    var made := new AlertObject(updated.value);
    r := Ok(made);
  }

  method ApplyToObject(h: Host, alert: AlertObject, request: Request) returns (r: Result<AlertObject, AlertError>)
    requires alert.Intact()
    ensures match (r, Apply(h, alert.value, request))
      case (Ok(made), Ok(a)) => fresh(made) && made.value == a && made.Intact() && fresh(made.owned)
      case (Err(e), Err(e')) => e == e'
      case _ => false
  {
    hide Transition, SetPolicy;
    match request
    case Acknowledge(at) => r := TransitionObject(h, alert, at, New, Acknowledged);
    case Close(at) => r := TransitionObject(h, alert, at, AlertState.Acknowledged, Closed);
    case SetSeverity(value, at) => r := SetPolicyObject(h, alert, SeverityField, value, at);
    case SetPriority(value, at) => r := SetPolicyObject(h, alert, PriorityField, value, at);
  }

  ghost function Values(alerts: seq<AlertObject>): (values: seq<Alert>)
    ensures |values| == |alerts| && forall i | 0 <= i < |alerts| :: values[i] == alerts[i].value
  {
    seq(|alerts|, i requires 0 <= i < |alerts| => alerts[i].value)
  }

  /** The evidence of every alert of the list is as it was at construction. */
  ghost predicate AllIntact(alerts: seq<AlertObject>)
    reads set a, c | a in alerts && c in a.owned :: c
  {
    forall a | a in alerts :: a.Intact()
  }

  /** `list_alerts`: the listing consists of new alerts with evidence of their own. */
  method ListObjects(h: Host, alerts: seq<AlertObject>, f: Filters) returns (r: Result<seq<AlertObject>, AlertError>)
    requires AllIntact(alerts)
    ensures match (r, QueueResult(h, Values(alerts), f))
      case (Ok(objects), Ok(queue)) =>
        && Values(objects) == queue && AllIntact(objects)
        && forall o | o in objects :: fresh(o) && fresh(o.owned)
      case (Err(e), Err(e')) => e == e'
      case _ => false
  {
    hide QueueResult;
    var values: seq<Alert> := [];
    for i := 0 to |alerts|
      invariant |values| == i && forall j | 0 <= j < i :: values[j] == alerts[j].value
    {
      var value := alerts[i].Snapshot();
      values := values + [value];
    }
    assert values == Values(alerts);
    var listed := QueueResult(h, values, f);
    if listed.Err? { return Err(listed.error); }
    var objects: seq<AlertObject> := [];
    for i := 0 to |listed.value|
      invariant |objects| == i && forall j | 0 <= j < i :: objects[j].value == listed.value[j]
      invariant forall o | o in objects :: o.Intact() && fresh(o) && fresh(o.owned)
    {
      var made := new AlertObject(listed.value[i]);
      objects := objects + [made];
    }
    assert Values(objects) == listed.value;
    r := Ok(objects);
  }

  // ---- Isolation over whole sessions ----

  /** A chain of references. */
  ghost predicate IsChain(chain: seq<Cell>)
    reads chain
  {
    forall i | 0 <= i < |chain| - 1 :: chain[i + 1] in chain[i].parts
  }

  lemma {:induction false} ChainStaysInside(chain: seq<Cell>, cells: set<Cell>)
    requires chain != [] && IsChain(chain) && SelfContained(cells) && chain[0] in cells
    ensures forall c | c in chain :: c in cells
  {
    if |chain| > 1 {
      assert chain[1] in chain[0].parts;
      forall i | 0 <= i < |chain[1..]| - 1 ensures chain[1..][i + 1] in chain[1..][i].parts {
        assert chain[i + 1 + 1] in chain[i + 1].parts;
      }
      ChainStaysInside(chain[1..], cells);
      assert forall c | c in chain :: c == chain[0] || c in chain[1..];
    }
  }

  /** What a caller can do: make and rewrite cells it has references to, follow
      references, create alerts from its cells, read evidence, send requests, and list
      any collection of the alerts it holds. */
  datatype Action =
    | Make(content: Content, references: seq<nat>)
    | Write(target: nat, content: Content, references: seq<nat>)
    | Follow(from: nat, index: nat)
    | Create(source: nat, id: string, at: Moment, severity: PolicyValue, priority: PolicyValue)
    | ReadEvidence(alert: nat)
    | Send(alert: nat, request: Request)
    | List(chosen: seq<nat>, filters: Filters)

  function Created(r: Result<Alert, Option<string>>): seq<Alert> { match r case Ok(a) => [a] case Err(_) => [] }

  function Sent(r: Result<Alert, AlertError>): seq<Alert> { match r case Ok(a) => [a] case Err(_) => [] }

  function Listed(r: Result<seq<Alert>, AlertError>): seq<Alert> { match r case Ok(q) => q case Err(_) => [] }

  class Session {
    const host: Host
    var known: seq<Cell>  // the references the caller holds
    var alerts: seq<AlertObject>  // every alert it ever received
    ghost var exposed: set<Cell>  // what it can reach

    constructor (host: Host)
      ensures Isolated() && alerts == [] && known == [] && fresh(exposed)
    {
      this.host := host;
      known, alerts, exposed := [], [], {};
    }

    /** Nothing the caller can reach belongs to the evidence of any alert, and every
        alert still stands for its value. */
    ghost predicate Isolated()
      reads this, exposed, set a, c | a in alerts && c in a.owned :: c
    {
      && (forall c | c in known :: c in exposed)
      && SelfContained(exposed)
      && forall a | a in alerts :: a.Intact() && a.owned !! exposed
    }

    /** Chains of references from what the caller holds never meet the evidence. */
    lemma EvidenceUnreachable(a: AlertObject, fromCaller: seq<Cell>, fromAlert: seq<Cell>)
      requires Isolated() && a in alerts
      requires fromCaller != [] && fromCaller[0] in known && IsChain(fromCaller)
      requires fromAlert != [] && fromAlert[0] == a.evidence && IsChain(fromAlert)
      ensures forall c | c in fromCaller :: c !in fromAlert
    {
      ChainStaysInside(fromCaller, exposed);
      ChainStaysInside(fromAlert, a.owned);
    }

    function Pick(references: seq<nat>): (cells: seq<Cell>)
      reads this
      ensures forall c | c in cells :: c in known
    {
      if references == [] then []
      else
        var rest := Pick(references[1..]);
        if references[0] < |known| then [known[references[0]]] + rest else rest
    }

    method MakeCell(content: Content, references: seq<nat>)
      requires Isolated()
      modifies this
      ensures Isolated()
      ensures old(alerts) <= alerts && old(known) <= known
      ensures fresh(exposed - old(exposed)) && old(exposed) <= exposed
      ensures alerts == old(alerts) && |known| == |old(known)| + 1
      ensures var cell := known[|known| - 1]; fresh(cell) && cell.content == content && cell.parts == old(Pick(references))
    {
      var cell := new Cell(content, Pick(references));
      exposed := exposed + {cell};
      known := known + [cell];
    }

    method WriteCell(target: nat, content: Content, references: seq<nat>)
      requires Isolated()
      modifies this, exposed
      ensures Isolated()
      ensures old(alerts) <= alerts && old(known) <= known
      ensures fresh(exposed - old(exposed)) && old(exposed) <= exposed
      ensures alerts == old(alerts) && known == old(known)
      ensures target < |known| ==> known[target].content == content && known[target].parts == old(Pick(references))
    {
      if target < |known| {
        var parts := Pick(references);
        var cell := known[target];
        cell.content := content;
        cell.parts := parts;
        assert forall a | a in alerts :: cell !in a.owned;
      }
    }

    method FollowReference(from: nat, index: nat)
      requires Isolated()
      modifies this
      ensures Isolated()
      ensures old(alerts) <= alerts && old(known) <= known
      ensures fresh(exposed - old(exposed)) && old(exposed) <= exposed
      ensures alerts == old(alerts)
      ensures known == old(
        if from < |known| && index < |known[from].parts| then known + [known[from].parts[index]] else known)
    {
      if from < |known| && index < |known[from].parts| {
        assert known[from] in exposed;
        known := known + [known[from].parts[index]];
      }
    }

    method CreateFrom(source: nat, id: string, at: Moment, severity: PolicyValue, priority: PolicyValue)
      requires Isolated()
      modifies this
      ensures Isolated()
      ensures old(alerts) <= alerts && old(known) <= known
      ensures fresh(exposed - old(exposed)) && old(exposed) <= exposed
      ensures known == old(known)
      ensures Values(alerts) == old(Values(alerts)) + old(
        if source < |known| then
          Created(CreateAlert(host, MatchOf(known[source], exposed), id, at, severity, priority))
        else [])
    {
      hide CreateAlert, MatchOf, Represents;
      if source < |known| {
        assert known[source] in exposed;
        var created := CreateAlertObject(host, known[source], exposed, id, at, severity, priority);
        if created.Ok? { alerts := alerts + [created.value]; }
      }
    }

    method ReadEvidenceOf(alert: nat)
      requires Isolated()
      modifies this
      ensures Isolated()
      ensures old(alerts) <= alerts && old(known) <= known
      ensures fresh(exposed - old(exposed)) && old(exposed) <= exposed
      ensures alerts == old(alerts)
      ensures alert < |alerts| ==>
        && |known| == |old(known)| + 1
        && Represents(known[|known| - 1], Encode(alerts[alert].value.sourceMatch), exposed)
    {
      if alert < |alerts| {
        var m, cells := alerts[alert].SourceMatch();
        RepresentsInMore(m, Encode(alerts[alert].value.sourceMatch), cells, exposed + cells);
        exposed := exposed + cells;
        known := known + [m];
      }
    }

    method SendTo(alert: nat, request: Request)
      requires Isolated()
      modifies this
      ensures Isolated()
      ensures old(alerts) <= alerts && old(known) <= known
      ensures fresh(exposed - old(exposed)) && old(exposed) <= exposed
      ensures known == old(known)
      ensures Values(alerts) == old(Values(alerts)) + old(
        if alert < |alerts| then Sent(Apply(host, alerts[alert].value, request)) else [])
    {
      hide Apply, Represents;
      if alert < |alerts| {
        var r := ApplyToObject(host, alerts[alert], request);
        if r.Ok? { alerts := alerts + [r.value]; }
      }
    }

    /** The chosen alerts, in the chosen order and as often as chosen. */
    function PickAlerts(chosen: seq<nat>): (picked: seq<AlertObject>)
      reads this
      ensures forall a | a in picked :: a in alerts
    {
      if chosen == [] then []
      else
        var rest := PickAlerts(chosen[1..]);
        if chosen[0] < |alerts| then [alerts[chosen[0]]] + rest else rest
    }

    method ListChosen(chosen: seq<nat>, filters: Filters)
      requires Isolated()
      modifies this
      ensures Isolated()
      ensures old(alerts) <= alerts && old(known) <= known
      ensures fresh(exposed - old(exposed)) && old(exposed) <= exposed
      ensures known == old(known)
      ensures Values(alerts) == old(Values(alerts)) + old(Listed(QueueResult(host, Values(PickAlerts(chosen)), filters)))
    {
      hide QueueResult, Represents;
      var r := ListObjects(host, PickAlerts(chosen), filters);
      if r.Ok? { alerts := alerts + r.value; }
    }

    /** One action; references and alerts that the caller does not hold are
        ignored. */
    method Perform(action: Action)
      requires Isolated()
      modifies this, exposed
      ensures Isolated()
      ensures old(alerts) <= alerts && old(known) <= known
      ensures fresh(exposed - old(exposed)) && old(exposed) <= exposed
    {
      match action
      case Make(content, references) => MakeCell(content, references);
      case Write(target, content, references) => WriteCell(target, content, references);
      case Follow(from, index) => FollowReference(from, index);
      case Create(source, id, at, severity, priority) => CreateFrom(source, id, at, severity, priority);
      case ReadEvidence(alert) => ReadEvidenceOf(alert);
      case Send(alert, request) => SendTo(alert, request);
      case List(chosen, filters) => ListChosen(chosen, filters);
    }

    /** After any sequence of actions every alert still stands for the value it was
        created with, and its evidence is still out of the caller's reach. */
    method PerformAll(actions: seq<Action>)
      requires Isolated()
      modifies this, exposed
      ensures Isolated()
      ensures old(alerts) <= alerts && old(known) <= known
      ensures fresh(exposed - old(exposed)) && old(exposed) <= exposed
    {
      for i := 0 to |actions|
        invariant Isolated()
        invariant old(alerts) <= alerts && old(known) <= known
        invariant fresh(exposed - old(exposed)) && old(exposed) <= exposed
      {
        Perform(actions[i]);
      }
    }
  }
}
