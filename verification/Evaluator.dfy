/** Three-valued evaluation of a condition tree, with a complete trace:
    backend/app/detection/evaluator.py. */
module Evaluator {
  import opened Wrappers
  import opened Text
  import opened Runtime
  import opened Events
  import opened Conditions
  import opened Semantics
  import opened Traces

  // ---- Field resolution ----

  /** A field of a model before enum values are turned into their names. */
  datatype RawField = Unset | EnumField(name: string) | ScalarField(value: Scalar)

  datatype Presence = Present(value: Scalar) | NotPresent(reason: Absence)

  datatype ResolvedField = ResolvedField(kind: FieldType, presence: Presence)

  function OptionalText(s: Option<string>): RawField
  {
    match s case None => Unset case Some(text) => ScalarField(TextValue(text))
  }

  function OptionalNumber(n: Option<int>): RawField
  {
    match n case None => Unset case Some(number) => ScalarField(NumberValue(number))
  }

  function OptionalAddress(a: Option<Address>): RawField
  {
    match a case None => Unset case Some(address) => ScalarField(AddressValue(address))
  }

  function EventFields(e: Event): map<string, RawField>
  {
    map[
      "source" := EnumField(SourceName(e.source)),
      "provider" := ScalarField(TextValue(e.provider)),
      "event_id" := ScalarField(NumberValue(e.eventId)),
      "channel" := ScalarField(TextValue(e.channel)),
      "timestamp" := ScalarField(TimeValue(e.timestamp)),
      "computer" := ScalarField(TextValue(e.computer)),
      "record_id" := OptionalNumber(e.recordId),
      "category" := EnumField(CategoryName(e.category))]
  }

  function ContextValues(context: EventContext): map<string, RawField>
  {
    match context
    case AuthenticationContext(outcome, user, domain, logonType, sourceIp, sourcePort, workstation) => map[
      "outcome" := EnumField(OutcomeName(outcome)),
      "user" := OptionalText(user),
      "domain" := OptionalText(domain),
      "logon_type" := OptionalNumber(logonType),
      "source_ip" := OptionalAddress(sourceIp),
      "source_port" := OptionalNumber(sourcePort),
      "workstation" := OptionalText(workstation)]
    case ProcessContext(image, processId, commandLine, parentProcessId, parentImage, user) => map[
      "image" := ScalarField(TextValue(image)),
      "process_id" := OptionalNumber(processId),
      "command_line" := OptionalText(commandLine),
      "parent_process_id" := OptionalNumber(parentProcessId),
      "parent_image" := OptionalText(parentImage),
      "user" := OptionalText(user)]
    case NetworkContext(sourceIp, sourcePort, destinationIp, destinationPort, protocol, processId, processImage) => map[
      "source_ip" := ScalarField(AddressValue(sourceIp)),
      "source_port" := ScalarField(NumberValue(sourcePort)),
      "destination_ip" := ScalarField(AddressValue(destinationIp)),
      "destination_port" := ScalarField(NumberValue(destinationPort)),
      "protocol" := OptionalText(protocol),
      "process_id" := OptionalNumber(processId),
      "process_image" := OptionalText(processImage)]
    case FileContext(targetPath, processId, processImage) => map[
      "target_path" := ScalarField(TextValue(targetPath)),
      "process_id" := OptionalNumber(processId),
      "process_image" := OptionalText(processImage)]
    case DnsContext(queryName, queryStatus, queryResults, processId, processImage) => map[
      "query_name" := ScalarField(TextValue(queryName)),
      "query_status" := OptionalText(queryStatus),
      "query_results" := OptionalText(queryResults),
      "process_id" := OptionalNumber(processId),
      "process_image" := OptionalText(processImage)]
  }

  predicate HasType(value: Scalar, kind: FieldType)
  {
    match kind
    case StringType => value.TextValue?
    case IntegerType => value.NumberValue?
    case TimestampType => value.TimeValue?
    case IpType => value.AddressValue?
  }

  /** `_resolved`: enum values become text, and the type must be the declared one. */
  function Resolve(path: string, kind: FieldType, raw: RawField): Result<ResolvedField, EvaluationError>
  {
    if raw.Unset? then Ok(ResolvedField(kind, NotPresent(Absent)))
    else
      var value := if raw.EnumField? then TextValue(raw.name) else raw.value;
      if HasType(value, kind) then Ok(ResolvedField(kind, Present(value)))
      else Err(Incompatible(path, "resolve", "invalid_actual_type"))
  }

  /** `resolve_event_field` */
  function ResolveEventField(h: Host, event: Event, path: string): Result<ResolvedField, EvaluationError>
  {
    match FieldTypeOf(h, path, event.category)
    case Err(e) => Err(e)
    case Ok(kind) =>
      var parts := Split(path, '.');
      var name := if |parts| > 1 then parts[1] else path;
      if "source_data." <= path then
        if name !in event.sourceData then Ok(ResolvedField(kind, NotPresent(Missing)))
        else Resolve(path, kind, ScalarField(TextValue(event.sourceData[name])))
      else if "context." <= path then
        if !ContextAgrees(event.category, event.context) then Err(EvaluationFailed("invalid_context_type"))
        else if name !in ContextValues(event.context) then Err(EvaluationFailed("invalid_evaluation_input"))
        else Resolve(path, kind, ContextValues(event.context)[name])
      else if path !in EventFields(event) then Err(EvaluationFailed("invalid_evaluation_input"))
      else Resolve(path, kind, EventFields(event)[path])
  }

  // ---- Leaves ----

  /** The value as an operand: a timestamp is moved to UTC, which can overflow. */
  function Canonical(actual: Scalar): Option<Operand>
  {
    match actual
    case TextValue(s) => Some(TextOperand(s))
    case NumberValue(n) => Some(NumberOperand(n))
    case AddressValue(a) => Some(AddressOperand(a))
    case TimeValue(t) =>
      match UtcInstant(t) case Some(i) => Some(InstantOperand(i)) case None => None
  }

  predicate ContainsText(actual: Operand, item: Operand)
    requires actual.TextOperand?
  {
    item.TextOperand? && IsSubstring(item.text, actual.text)
  }

  /** `_compare` on a canonical value; None stands for a type error. */
  function Matches(actual: Operand, op: Operator, operands: seq<Operand>): Option<bool>
    requires operands != []
  {
    var expected := operands[0];
    match op
    case Equals => Some(actual == expected)
    case NotEquals => Some(actual != expected)
    case In => Some(actual in operands)
    case NotIn => Some(actual !in operands)
    case Contains =>
      if actual.TextOperand? && expected.TextOperand? then Some(IsSubstring(expected.text, actual.text)) else None
    case ContainsAny =>
      if actual.TextOperand? && forall item | item in operands :: item.TextOperand? then
        Some(exists item | item in operands :: ContainsText(actual, item))
      else None
    case StartsWith =>
      if actual.TextOperand? && expected.TextOperand? then Some(expected.text <= actual.text) else None
    case EndsIn =>
      if actual.TextOperand? && expected.TextOperand? then Some(EndsWith(actual.text, expected.text)) else None
    case GreaterThan =>
      if actual.NumberOperand? && expected.NumberOperand? then Some(actual.number > expected.number) else None
    case GreaterOrEqual =>
      if actual.NumberOperand? && expected.NumberOperand? then Some(actual.number >= expected.number) else None
    case LessThan =>
      if actual.NumberOperand? && expected.NumberOperand? then Some(actual.number < expected.number) else None
    case LessOrEqual =>
      if actual.NumberOperand? && expected.NumberOperand? then Some(actual.number <= expected.number) else None
    case IpInCidr =>
      if actual.AddressOperand? && expected.NetworkOperand? then
        Some(SameVersion(actual.address, expected.network) && InNetwork(actual.address, expected.network))
      else None
    case _ => None
  }

  function Compare(actual: Scalar, op: Operator, operands: seq<Operand>): Result<bool, EvaluationError>
    requires operands != []
  {
    match Canonical(actual)
    case None => Err(EvaluationFailed("invalid_evaluation_input"))
    case Some(value) =>
      match Matches(value, op, operands)
      case None => Err(EvaluationFailed("invalid_evaluation_input"))
      case Some(result) => Ok(result)
  }

  function OutcomeOf(b: bool): Outcome { if b then True else False }

  function LeafOutcome(field: ResolvedField, leaf: Leaf, operands: seq<Operand>): Result<Outcome, EvaluationError>
    requires operands == [] ==> IsExistence(leaf.op)
  {
    if leaf.op.Exists? then Ok(OutcomeOf(field.presence.Present?))
    else if leaf.op.NotExists? then Ok(OutcomeOf(field.presence.NotPresent?))
    else if field.presence.NotPresent? then Ok(Unknown)
    else
      match Compare(field.presence.value, leaf.op, operands)
      case Err(e) => Err(e)
      case Ok(result) => Ok(OutcomeOf(result))
  }

  /** Construction of a trace node validates it; a failure surfaces as a plain error. */
  function Checked(h: Host, t: Trace): Result<Trace, EvaluationError>
  {
    if ValidTrace(h, t) then Ok(t) else Err(EvaluationFailed("invalid_evaluation_input"))
  }

  function LogicalNode(location: string, kind: TraceKind, outcome: Outcome, children: seq<Trace>): Trace
  {
    Trace(location, kind, outcome, children, None, None, None, None, None, false, None)
  }

  function LeafNode(location: string, leaf: Leaf, outcome: Outcome, presence: Presence): Trace
  {
    Trace(location, LeafKind, outcome, [], Some(leaf.field), Some(leaf.op),
          if IsExistence(leaf.op) then None
          else if leaf.value.None? then Some(OtherLiteral) else leaf.value,
          if presence.Present? then Some(presence.value) else None,
          if presence.Present? then None else Some(presence.reason),
          false, None)
  }

  function EvaluateLeaf(h: Host, event: Event, leaf: Leaf, location: string): Result<Trace, EvaluationError>
  {
    match ResolveEventField(h, event, leaf.field)
    case Err(e) => Err(e)
    case Ok(field) =>
      match ValidatedOperands(h, field.kind, leaf)
      case Err(e) => Err(e)
      case Ok(operands) =>
        match LeafOutcome(field, leaf, operands)
        case Err(e) => Err(e)
        case Ok(outcome) => Checked(h, LeafNode(location, leaf, outcome, field.presence))
  }

  datatype Evidence = LiteralEvidence(literal: Literal) | ScalarEvidence(scalar: Scalar) | AbsenceEvidence(absence: Absence)

  /** `_evaluate_leaf` as written: the optional evidence is gathered key by key. */
  method EvaluateLeafStepwise(h: Host, event: Event, leaf: Leaf, location: string)
    returns (r: Result<Trace, EvaluationError>)
    ensures r == EvaluateLeaf(h, event, leaf, location)
  {
    var field := ResolveEventField(h, event, leaf.field);
    if field.Err? { return Err(field.error); }
    var operands := ValidatedOperands(h, field.value.kind, leaf);
    if operands.Err? { return Err(operands.error); }
    var presence := field.value.presence;
    var outcome;
    if IsExistence(leaf.op) {
      outcome := OutcomeOf(if leaf.op.Exists? then presence.Present? else !presence.Present?);
    } else if !presence.Present? {
      outcome := Unknown;
    } else {
      var result := Compare(presence.value, leaf.op, operands.value);
      if result.Err? { return Err(result.error); }
      outcome := OutcomeOf(result.value);
    }
    var evidence: map<string, Evidence> := map[];
    if !IsExistence(leaf.op) {
      evidence := evidence["expected" := LiteralEvidence(if leaf.value.Some? then leaf.value.value else OtherLiteral)];
    }
    if presence.Present? {
      evidence := evidence["actual" := ScalarEvidence(presence.value)];
    } else {
      evidence := evidence["absence" := AbsenceEvidence(presence.reason)];
    }
    r := Checked(h, Trace(
      location, LeafKind, outcome, [], Some(leaf.field), Some(leaf.op),
      if "expected" in evidence then Some(evidence["expected"].literal) else None,
      if "actual" in evidence then Some(evidence["actual"].scalar) else None,
      if "absence" in evidence then Some(evidence["absence"].absence) else None,
      false, None));
  }

  // ---- Logical nodes ----

  function Negate(o: Outcome): Outcome
  {
    match o case True => False case False => True case Unknown => Unknown
  }

  /** One decisive child settles the node; otherwise one unknown child does. */
  function Combine(kind: TraceKind, outcomes: seq<Outcome>): Outcome
  {
    var decisive := if kind.AllKind? then False else True;
    if decisive in outcomes then decisive
    else if Unknown in outcomes then Unknown
    else if kind.AllKind? then True else False
  }

  function Outcomes(traces: seq<Trace>): seq<Outcome>
  {
    seq(|traces|, i requires 0 <= i < |traces| => traces[i].outcome)
  }

  function Evaluate(h: Host, event: Event, c: Condition, location: string): Result<Trace, EvaluationError>
    decreases c, 1
  {
    match c
    case Test(leaf) => EvaluateLeaf(h, event, leaf, location)
    case Not(child) =>
      (match Evaluate(h, event, child, ChildLocation(location, NotKind, 0))
       case Err(e) => Err(e)
       case Ok(t) => Checked(h, LogicalNode(location, NotKind, Negate(t.outcome), [t])))
    case All(nodes) => EvaluateGroup(h, event, nodes, AllKind, location)
    case Any(nodes) => EvaluateGroup(h, event, nodes, AnyKind, location)
  }

  /** Every child is evaluated before the outcomes are combined. */
  function EvaluateGroup(h: Host, event: Event, nodes: seq<Condition>, kind: TraceKind, location: string)
    : Result<Trace, EvaluationError>
    decreases nodes, 2
  {
    match EvaluateEach(h, event, nodes, kind, location, 0)
    case Err(e) => Err(e)
    case Ok(ts) => Checked(h, LogicalNode(location, kind, Combine(kind, Outcomes(ts)), ts))
  }

  function EvaluateEach(h: Host, event: Event, nodes: seq<Condition>, kind: TraceKind, location: string, index: nat)
    : (r: Result<seq<Trace>, EvaluationError>)
    ensures r.Ok? ==> |r.value| == |nodes|
    decreases nodes, 0
  {
    if nodes == [] then Ok([])
    else
      match Evaluate(h, event, nodes[0], ChildLocation(location, kind, index))
      case Err(e) => Err(e)
      case Ok(first) =>
        match EvaluateEach(h, event, nodes[1..], kind, location, index + 1)
        case Err(e) => Err(e)
        case Ok(rest) => Ok([first] + rest)
  }

  /** `evaluate_condition` */
  function EvaluateCondition(h: Host, event: Event, c: Condition): Result<Trace, EvaluationError>
  {
    Evaluate(h, event, c, "$")
  }
}
