/** Alerts as values: the model (backend/app/models/alert.py), creation, lifecycle
    and policy changes (backend/app/alerts). Stored times are UTC instants. */
module Alerts {
  import opened Wrappers
  import opened Text
  import opened Runtime
  import opened Events
  import opened Traces

  datatype AlertState = New | Acknowledged | Closed
  datatype AlertSeverity = Unassigned | Informational | LowSeverity | Medium | HighSeverity | Critical
  datatype AlertPriority = LowPriority | Normal | HighPriority | Urgent

  datatype Alert = Alert(
    alertId: string,
    sourceMatch: Match,
    createdAt: int,
    state: AlertState,
    stateChangedAt: int,
    severity: AlertSeverity,
    priority: AlertPriority,
    updatedAt: int)

  predicate ValidAlertId(id: string) { 1 <= |id| <= 128 && IsSlug(id) }

  /** Evidence is revalidated through the whole match before an alert owns it. */
  predicate ValidEvidence(h: Host, m: Match)
  {
    ValidMatch(h, m) && ValidEvent(m.event) && ValidTraceTree(h, m.trace)
  }

  predicate OrderedTimes(a: Alert) { a.createdAt <= a.stateChangedAt <= a.updatedAt }

  predicate ValidAlert(h: Host, a: Alert)
  {
    ValidAlertId(a.alertId) && ValidEvidence(h, a.sourceMatch) && OrderedTimes(a)
  }

  /** A failed request: a reason and the field at fault. */
  datatype AlertError = AlertError(reason: string, field: string)

  /** A value offered for a policy field; `ForeignValue` has neither enum type. */
  datatype PolicyValue = SeverityValue(severity: AlertSeverity) | PriorityValue(priority: AlertPriority) | ForeignValue

  // ---- Creation ----

  /** `create_alert`. The evidence is None when the object handed over is not the graph
      of a match. An instant outside the calendar aborts validation, so no field is
      named for it even when the identifier or the evidence is invalid too. */
  function CreateAlert(h: Host, evidence: Option<Match>, alertId: string, createdAt: Moment, severity: PolicyValue, priority: PolicyValue)
    : Result<Alert, Option<string>>
  {
    if !severity.SeverityValue? then Err(Some("severity"))
    else if !priority.PriorityValue? then Err(Some("priority"))
    else if createdAt.Aware? && !Representable(createdAt.at) then Err(None)
    else if !ValidAlertId(alertId) then Err(Some("alert_id"))
    else if evidence.None? || !ValidEvidence(h, evidence.value) then Err(Some("match"))
    else
      match MomentInstant(createdAt)
      case None => Err(Some("created_at"))
      case Some(at) => Ok(Alert(alertId, evidence.value, at, New, at, severity.severity, priority.priority, at))
  }

  // ---- Lifecycle and policy ----

  /** `validate_alert_fields` and `read_alert_snapshot` */
  function Revalidated(h: Host, a: Alert): Option<Alert>
  {
    if ValidAlert(h, a) then Some(a) else None
  }

  /** `_transition` */
  function Transition(h: Host, alert: Alert, at: Moment, source: AlertState, target: AlertState): Result<Alert, AlertError>
  {
    match Revalidated(h, alert)
    case None => Err(AlertError("invalid_alert", "alert"))
    case Some(current) =>
      match MomentInstant(at)
      case None => Err(AlertError("invalid_at", "at"))
      case Some(instant) =>
        if instant < current.updatedAt then Err(AlertError("out_of_order_at", "at"))
        else if current.state == target then Ok(current)
        else if current.state != source then Err(AlertError("forbidden_transition", "state"))
        else
          match Revalidated(h, current.(state := target, stateChangedAt := instant, updatedAt := instant))
          case None => Err(AlertError("invalid_alert", "alert"))
          case Some(updated) => Ok(updated)
  }

  function AcknowledgeAlert(h: Host, alert: Alert, at: Moment): Result<Alert, AlertError>
  {
    Transition(h, alert, at, New, Acknowledged)
  }

  function CloseAlert(h: Host, alert: Alert, at: Moment): Result<Alert, AlertError>
  {
    Transition(h, alert, at, Acknowledged, Closed)
  }

  datatype PolicyField = SeverityField | PriorityField

  function FieldName(field: PolicyField): string
  {
    match field case SeverityField => "severity" case PriorityField => "priority"
  }

  function Previous(a: Alert, field: PolicyField): PolicyValue
  {
    match field case SeverityField => SeverityValue(a.severity) case PriorityField => PriorityValue(a.priority)
  }

  predicate FitsField(value: PolicyValue, field: PolicyField)
  {
    match field case SeverityField => value.SeverityValue? case PriorityField => value.PriorityValue?
  }

  function WithPolicy(a: Alert, field: PolicyField, value: PolicyValue): Alert
    requires FitsField(value, field)
  {
    match field
    case SeverityField => a.(severity := value.severity)
    case PriorityField => a.(priority := value.priority)
  }

  /** `_set_policy` */
  function SetPolicy(h: Host, alert: Alert, field: PolicyField, value: PolicyValue, changedAt: Moment): Result<Alert, AlertError>
  {
    match Revalidated(h, alert)
    case None => Err(AlertError("invalid_alert", "alert"))
    case Some(current) =>
      if !FitsField(value, field) then Err(AlertError("invalid_value", FieldName(field)))
      else
        match MomentInstant(changedAt)
        case None => Err(AlertError("invalid_changed_at", "changed_at"))
        case Some(instant) =>
          if instant < current.updatedAt then Err(AlertError("out_of_order_changed_at", "changed_at"))
          else if current.state.Closed? then Err(AlertError("closed_alert", "state"))
          else if value == Previous(current, field) then Ok(current)
          else
            match Revalidated(h, WithPolicy(current, field, value).(updatedAt := instant))
            case None => Err(AlertError("invalid_alert", "alert"))
            case Some(updated) => Ok(updated)
  }
}
