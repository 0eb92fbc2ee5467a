/** Sequences of requests to one alert, and what every such run keeps. */
module Runs {
  import opened Wrappers
  import opened Text
  import opened Runtime
  import opened Traces
  import opened Alerts

  datatype Request =
    | Acknowledge(at: Moment)
    | Close(at: Moment)
    | SetSeverity(value: PolicyValue, at: Moment)
    | SetPriority(value: PolicyValue, at: Moment)

  function Apply(h: Host, a: Alert, r: Request): Result<Alert, AlertError>
  {
    match r
    case Acknowledge(at) => AcknowledgeAlert(h, a, at)
    case Close(at) => CloseAlert(h, a, at)
    case SetSeverity(value, at) => SetPolicy(h, a, SeverityField, value, at)
    case SetPriority(value, at) => SetPolicy(h, a, PriorityField, value, at)
  }

  /** A failed request leaves the caller with the alert it had. */
  function Next(h: Host, a: Alert, r: Request): Alert
  {
    match Apply(h, a, r) case Ok(updated) => updated case Err(_) => a
  }

  function Run(h: Host, a: Alert, rs: seq<Request>): Alert
    decreases |rs|
  {
    if rs == [] then a else Run(h, Next(h, a, rs[0]), rs[1..])
  }

  /** The request neither fails nor returns the alert unchanged. */
  predicate Effective(h: Host, a: Alert, r: Request) { Next(h, a, r) != a }

  function Rank(s: AlertState): nat
  {
    match s case New => 0 case Acknowledged => 1 case Closed => 2
  }

  // ---- One request ----

  /** What an effective request does: it has an instant no earlier than the last
      update, which becomes the last update, and it changes the state by one step
      (stamping that too) or one policy value of an open alert, and nothing else. */
  lemma EffectiveRequest(h: Host, a: Alert, r: Request)
    requires Effective(h, a, r)
    ensures ValidAlert(h, a) && ValidAlert(h, Next(h, a, r))
    ensures MomentInstant(r.at).Some? && a.updatedAt <= MomentInstant(r.at).value
    ensures !a.state.Closed?
    ensures
      var (b, t) := (Next(h, a, r), MomentInstant(r.at).value);
      match r
      case Acknowledge(_) => a.state.New? && b == a.(state := Acknowledged, stateChangedAt := t, updatedAt := t)
      case Close(_) => a.state.Acknowledged? && b == a.(state := Closed, stateChangedAt := t, updatedAt := t)
      case SetSeverity(v, _) => v.SeverityValue? && v.severity != a.severity && b == a.(severity := v.severity, updatedAt := t)
      case SetPriority(v, _) => v.PriorityValue? && v.priority != a.priority && b == a.(priority := v.priority, updatedAt := t)
  {
    hide ValidAlertId, ValidEvidence;
  }

  /** The guards of a request: the alert is valid, the instant exists and is no earlier
      than the last update, the state admits the request, and a policy value has the
      type of its field and differs from the present one. */
  predicate Admitted(h: Host, a: Alert, r: Request)
  {
    && ValidAlert(h, a)
    && MomentInstant(r.at).Some? && a.updatedAt <= MomentInstant(r.at).value
    && match r
       case Acknowledge(_) => a.state.New?
       case Close(_) => a.state.Acknowledged?
       case SetSeverity(v, _) => !a.state.Closed? && v.SeverityValue? && v.severity != a.severity
       case SetPriority(v, _) => !a.state.Closed? && v.PriorityValue? && v.priority != a.priority
  }

  /** What an admitted request is documented to change. */
  function Changed(h: Host, a: Alert, r: Request): Alert
    requires Admitted(h, a, r)
  {
    var t := MomentInstant(r.at).value;
    match r
    case Acknowledge(_) => a.(state := Acknowledged, stateChangedAt := t, updatedAt := t)
    case Close(_) => a.(state := Closed, stateChangedAt := t, updatedAt := t)
    case SetSeverity(v, _) => a.(severity := v.severity, updatedAt := t)
    case SetPriority(v, _) => a.(priority := v.priority, updatedAt := t)
  }

  /** The guards decide: an admitted request succeeds with the documented change, and
      every other one fails or returns the alert as it was. */
  lemma EffectiveExactly(h: Host, a: Alert, r: Request)
    ensures Effective(h, a, r) <==> Admitted(h, a, r)
    ensures Admitted(h, a, r) ==> Apply(h, a, r) == Ok(Changed(h, a, r))
    ensures Apply(h, a, r).Ok? && !Admitted(h, a, r) ==> Apply(h, a, r).value == a
  {
    hide ValidAlertId, ValidEvidence;
  }

  /** Exactly when a request on a valid alert fails. */
  lemma FailsExactly(h: Host, a: Alert, r: Request)
    requires ValidAlert(h, a)
    ensures Apply(h, a, r).Err? <==>
      || MomentInstant(r.at).None? || MomentInstant(r.at).value < a.updatedAt
      || match r
         case Acknowledge(_) => a.state.Closed?
         case Close(_) => a.state.New?
         case SetSeverity(v, _) => a.state.Closed? || !v.SeverityValue?
         case SetPriority(v, _) => a.state.Closed? || !v.PriorityValue?
  {
    hide ValidAlertId, ValidEvidence;
  }

  /** Why a request is refused: the reason and the field of the first guard that it
      fails, in the order in which they are checked. */
  function Refusal(h: Host, a: Alert, r: Request): Option<AlertError>
  {
    if !ValidAlert(h, a) then Some(AlertError("invalid_alert", "alert"))
    else if r.Acknowledge? || r.Close? then
      if MomentInstant(r.at).None? then Some(AlertError("invalid_at", "at"))
      else if MomentInstant(r.at).value < a.updatedAt then Some(AlertError("out_of_order_at", "at"))
      else if (r.Acknowledge? && a.state.Closed?) || (r.Close? && a.state.New?) then
        Some(AlertError("forbidden_transition", "state"))
      else None
    else if r.SetSeverity? && !r.value.SeverityValue? then Some(AlertError("invalid_value", "severity"))
    else if r.SetPriority? && !r.value.PriorityValue? then Some(AlertError("invalid_value", "priority"))
    else if MomentInstant(r.at).None? then Some(AlertError("invalid_changed_at", "changed_at"))
    else if MomentInstant(r.at).value < a.updatedAt then Some(AlertError("out_of_order_changed_at", "changed_at"))
    else if a.state.Closed? then Some(AlertError("closed_alert", "state"))
    else None
  }

  /** Every outcome of a request: refused for that reason, admitted with the documented
      change, or accepted without effect. */
  lemma RequestExact(h: Host, a: Alert, r: Request)
    ensures Apply(h, a, r) ==
      if Refusal(h, a, r).Some? then Err(Refusal(h, a, r).value)
      else if Admitted(h, a, r) then Ok(Changed(h, a, r))
      else Ok(a)
  {
    hide ValidAlertId, ValidEvidence;
  }

  /** Exactly when creation succeeds, and with what. */
  lemma CreationExact(h: Host, evidence: Option<Match>, id: string, at: Moment, severity: PolicyValue, priority: PolicyValue)
    ensures CreateAlert(h, evidence, id, at, severity, priority).Ok? <==>
      && severity.SeverityValue? && priority.PriorityValue?
      && MomentInstant(at).Some? && ValidAlertId(id) && evidence.Some? && ValidEvidence(h, evidence.value)
    ensures CreateAlert(h, evidence, id, at, severity, priority).Ok? ==>
      var a := CreateAlert(h, evidence, id, at, severity, priority).value;
      && ValidAlert(h, a) && a.state.New?
      && a.createdAt == a.stateChangedAt == a.updatedAt == MomentInstant(at).value
      && a.alertId == id && a.sourceMatch == evidence.value
      && a.severity == severity.severity && a.priority == priority.priority
  {
    hide ValidAlertId, ValidEvidence;
  }

  /** The field that a refused creation names, in the order of the checks: first the
      policy values; then nothing for an instant outside the calendar; then the
      identifier, the evidence and the instant. */
  lemma CreationRefused(h: Host, evidence: Option<Match>, id: string, at: Moment, severity: PolicyValue, priority: PolicyValue)
    requires CreateAlert(h, evidence, id, at, severity, priority).Err?
    ensures CreateAlert(h, evidence, id, at, severity, priority).error ==
      if !severity.SeverityValue? then Some("severity")
      else if !priority.PriorityValue? then Some("priority")
      else if at.Aware? && !(0 <= at.at.local - at.at.offset <= LAST_MOMENT) then None
      else if !(1 <= |id| <= 128 && IsSlug(id)) then Some("alert_id")
      else if evidence.None? || !ValidEvidence(h, evidence.value) then Some("match")
      else Some("created_at")
  {
    hide ValidEvidence, IsSlug;
  }

  // ---- Whole runs ----

  /** What a run keeps: identity, evidence and creation time are constant, the alert
      stays valid, times only advance, and the state never goes back. */
  ghost predicate Continues(h: Host, a: Alert, b: Alert)
  {
    && b.alertId == a.alertId && b.sourceMatch == a.sourceMatch && b.createdAt == a.createdAt
    && ValidAlert(h, b)
    && a.updatedAt <= b.updatedAt && a.stateChangedAt <= b.stateChangedAt
    && Rank(a.state) <= Rank(b.state)
    && (a.state == b.state ==> a.stateChangedAt == b.stateChangedAt)
  }

  lemma {:induction false} RunContinues(h: Host, a: Alert, rs: seq<Request>)
    requires ValidAlert(h, a)
    ensures Continues(h, a, Run(h, a, rs))
    decreases |rs|
  {
    hide ValidEvidence, ValidAlertId, Apply;
    if rs != [] {
      if Effective(h, a, rs[0]) { EffectiveRequest(h, a, rs[0]); }
      RunContinues(h, Next(h, a, rs[0]), rs[1..]);
    }
  }

  /** Every run from creation keeps the evidence and identity it was created with. */
  lemma CreatedRunInvariant(h: Host, m: Match, id: string, at: Moment, severity: PolicyValue, priority: PolicyValue, rs: seq<Request>)
    requires CreateAlert(h, Some(m), id, at, severity, priority).Ok?
    ensures
      var final := Run(h, CreateAlert(h, Some(m), id, at, severity, priority).value, rs);
      && ValidAlert(h, final)
      && final.alertId == id && final.sourceMatch == m && Some(final.createdAt) == MomentInstant(at)
      && final.createdAt <= final.stateChangedAt <= final.updatedAt
      && (final.state.New? ==> final.stateChangedAt == final.createdAt)
  {
    hide Run, ValidEvidence, ValidAlertId;
    RunContinues(h, CreateAlert(h, Some(m), id, at, severity, priority).value, rs);
  }

  /** How many requests of a run change the lifecycle state. */
  function StateChanges(h: Host, a: Alert, rs: seq<Request>): nat
    decreases |rs|
  {
    if rs == [] then 0
    else
      var b := Next(h, a, rs[0]);
      (if b.state != a.state then 1 else 0) + StateChanges(h, b, rs[1..])
  }

  /** The state advances by one rank per change, so there are at most two. */
  lemma {:induction false} StateChangesBounded(h: Host, a: Alert, rs: seq<Request>)
    ensures Rank(Run(h, a, rs).state) == Rank(a.state) + StateChanges(h, a, rs)
    ensures StateChanges(h, a, rs) <= 2
    decreases |rs|
  {
    hide Apply, ValidAlert;
    if rs != [] {
      if Effective(h, a, rs[0]) { EffectiveRequest(h, a, rs[0]); }
      StateChangesBounded(h, Next(h, a, rs[0]), rs[1..]);
    }
  }

  /** A closed alert never changes again. */
  lemma {:induction false} ClosedIsFinal(h: Host, a: Alert, rs: seq<Request>)
    requires a.state.Closed?
    ensures Run(h, a, rs) == a
    decreases |rs|
  {
    hide Apply, ValidAlert;
    if rs != [] {
      if Effective(h, a, rs[0]) { EffectiveRequest(h, a, rs[0]); }
      ClosedIsFinal(h, a, rs[1..]);
    }
  }

  // ---- Deleting what had no effect ----

  /** The requests that the guards admit where they stand, in order. Only the guards
      and the documented changes are consulted, not the code's results. */
  function Trim(h: Host, a: Alert, rs: seq<Request>): seq<Request>
    decreases |rs|
  {
    if rs == [] then []
    else if Admitted(h, a, rs[0]) then [rs[0]] + Trim(h, Changed(h, a, rs[0]), rs[1..])
    else Trim(h, a, rs[1..])
  }

  /** Every request of the run is effective where it stands. */
  predicate AllEffective(h: Host, a: Alert, rs: seq<Request>)
    decreases |rs|
  {
    rs == [] || (Effective(h, a, rs[0]) && AllEffective(h, Next(h, a, rs[0]), rs[1..]))
  }

  /** Deleting every request that the guards do not admit gives a run that ends in the
      same alert, and each request left succeeds and changes the alert. */
  lemma {:induction false} TrimmedRun(h: Host, a: Alert, rs: seq<Request>)
    ensures Run(h, a, Trim(h, a, rs)) == Run(h, a, rs)
    ensures AllEffective(h, a, Trim(h, a, rs))
    decreases |rs|
  {
    hide Apply, Admitted, Changed;
    if rs != [] {
      EffectiveExactly(h, a, rs[0]);
      TrimmedRun(h, Next(h, a, rs[0]), rs[1..]);
      if Admitted(h, a, rs[0]) {
        assert Trim(h, a, rs)[1..] == Trim(h, Next(h, a, rs[0]), rs[1..]);
      }
    }
  }

  predicate IsLifecycle(r: Request) { r.Acknowledge? || r.Close? }

  /** The last request of a kind. */
  function LastOf(rs: seq<Request>, kind: Request -> bool): Option<Request>
  {
    if rs == [] then None
    else if kind(rs[|rs| - 1]) then Some(rs[|rs| - 1])
    else LastOf(rs[..|rs| - 1], kind)
  }

  function InstantOf(r: Request): int
  {
    match MomentInstant(r.at) case Some(t) => t case None => 0
  }

  lemma {:induction false} LastOfPrepend(r: Request, rs: seq<Request>, kind: Request -> bool)
    ensures LastOf([r] + rs, kind) ==
      if LastOf(rs, kind).Some? then LastOf(rs, kind) else if kind(r) then Some(r) else None
  {
    var all := [r] + rs;
    if rs == [] {
      assert all == [r] && all[..0] == [];
    } else {
      assert all[..|all| - 1] == [r] + rs[..|rs| - 1];
      LastOfPrepend(r, rs[..|rs| - 1], kind);
    }
  }

  /** What the stamps and policy values of an alert record about a run. */
  ghost predicate Records(a: Alert, b: Alert, admitted: seq<Request>)
  {
    && b.updatedAt == (match LastOf(admitted, _ => true) case Some(r) => InstantOf(r) case None => a.updatedAt)
    && b.stateChangedAt ==
       (match LastOf(admitted, (r: Request) => IsLifecycle(r)) case Some(r) => InstantOf(r) case None => a.stateChangedAt)
    && (match LastOf(admitted, (r: Request) => r.SetSeverity?)
        case Some(r) => r.SetSeverity? && r.value == SeverityValue(b.severity)
        case None => b.severity == a.severity)
    && (match LastOf(admitted, (r: Request) => r.SetPriority?)
        case Some(r) => r.SetPriority? && r.value == PriorityValue(b.priority)
        case None => b.priority == a.priority)
  }

  /** `updated_at` is the time of the last admitted request, `state_changed_at` that of
      the last admitted lifecycle request, and each policy value is the last admitted one. */
  lemma {:induction false} RunRecords(h: Host, a: Alert, rs: seq<Request>)
    ensures Records(a, Run(h, a, rs), Trim(h, a, rs))
    decreases |rs|
  {
    hide Apply, ValidAlert;
    if rs != [] {
      EffectiveExactly(h, a, rs[0]);
      var b := Next(h, a, rs[0]);
      RunRecords(h, b, rs[1..]);
      if Admitted(h, a, rs[0]) {
        RecordsPrepend(a, b, Run(h, b, rs[1..]), rs[0], Trim(h, b, rs[1..]));
      }
    }
  }

  lemma RecordsPrepend(a: Alert, b: Alert, c: Alert, r: Request, rest: seq<Request>)
    requires Records(b, c, rest)
    requires MomentInstant(r.at).Some?
    requires b.updatedAt == InstantOf(r)
    requires b.stateChangedAt == if IsLifecycle(r) then InstantOf(r) else a.stateChangedAt
    requires if r.SetSeverity? then r.value == SeverityValue(b.severity) else b.severity == a.severity
    requires if r.SetPriority? then r.value == PriorityValue(b.priority) else b.priority == a.priority
    ensures Records(a, c, [r] + rest)
  {
    LastOfPrepend(r, rest, _ => true);
    LastOfPrepend(r, rest, (r: Request) => IsLifecycle(r));
    LastOfPrepend(r, rest, (r: Request) => r.SetSeverity?);
    LastOfPrepend(r, rest, (r: Request) => r.SetPriority?);
  }
}
