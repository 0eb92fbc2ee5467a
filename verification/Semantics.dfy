/** Field types, operand validation and the static rule check:
    backend/app/detection/semantics.py. */
module Semantics {
  import opened Wrappers
  import opened Text
  import opened Runtime
  import opened Events
  import opened Conditions

  datatype EvaluationError =
    | InvalidField(field: string)
    | Incompatible(path: string, operator: string, reason: string)
    | EvaluationFailed(detail: string)

  datatype FieldType = StringType | IntegerType | TimestampType | IpType

  const COMMON_FIELDS: map<string, FieldType> := map[
    "source" := StringType,
    "provider" := StringType,
    "event_id" := IntegerType,
    "channel" := StringType,
    "timestamp" := TimestampType,
    "computer" := StringType,
    "record_id" := IntegerType,
    "category" := StringType]

  function ContextFields(category: EventCategory): map<string, FieldType>
  {
    match category
    case AuthenticationEvent => map[
      "outcome" := StringType,
      "user" := StringType,
      "domain" := StringType,
      "logon_type" := IntegerType,
      "source_ip" := IpType,
      "source_port" := IntegerType,
      "workstation" := StringType]
    case ProcessEvent => map[
      "image" := StringType,
      "process_id" := IntegerType,
      "command_line" := StringType,
      "parent_process_id" := IntegerType,
      "parent_image" := StringType,
      "user" := StringType]
    case NetworkEvent => map[
      "source_ip" := IpType,
      "source_port" := IntegerType,
      "destination_ip" := IpType,
      "destination_port" := IntegerType,
      "protocol" := StringType,
      "process_id" := IntegerType,
      "process_image" := StringType]
    case FileEvent => map[
      "target_path" := StringType,
      "process_id" := IntegerType,
      "process_image" := StringType]
    case DnsEvent => map[
      "query_name" := StringType,
      "query_status" := StringType,
      "query_results" := StringType,
      "process_id" := IntegerType,
      "process_image" := StringType]
  }

  /** The name test that the field resolver writes out by hand. */
  predicate RetainedName(h: Host, name: string)
  {
    && name != ""
    && (forall c | c in name :: IsAscii(c))
    && h.isAlpha(name[0])
    && (forall c | c in name :: h.isAlnum(c) || c == '_')
  }

  /** The type that a path names on every event of a category, or its rejection. */
  function FieldTypeOf(h: Host, field: string, category: EventCategory): Result<FieldType, EvaluationError>
  {
    if field in COMMON_FIELDS then Ok(COMMON_FIELDS[field])
    else
      var parts := Split(field, '.');
      if |parts| == 2 && parts[0] == "context" && parts[1] in ContextFields(category) then
        Ok(ContextFields(category)[parts[1]])
      else if |parts| == 2 && parts[0] == "source_data" && RetainedName(h, parts[1]) then
        Ok(StringType)
      else Err(InvalidField(field))
  }

  /** A parsed operand; instants are already in UTC. */
  datatype Operand =
    | TextOperand(text: string)
    | NumberOperand(number: int)
    | AddressOperand(address: Address)
    | InstantOperand(instant: int)
    | NetworkOperand(network: Network)

  function ParseLiteral(h: Host, kind: FieldType, value: Literal): Option<Operand>
  {
    match (kind, value)
    case (IntegerType, IntLiteral(n)) => Some(NumberOperand(n))
    case (StringType, TextLiteral(s)) => Some(TextOperand(s))
    case (IpType, TextLiteral(s)) =>
      (match h.ipAddress(s) case None => None case Some(a) => Some(AddressOperand(a)))
    case (TimestampType, TextLiteral(s)) =>
      (match h.isoDatetime(s)
       case None => None
       case Some(moment) =>
         match MomentInstant(moment) case None => None case Some(i) => Some(InstantOperand(i)))
    case _ => None
  }

  function ParseOperand(h: Host, kind: FieldType, leaf: Leaf, value: Literal): Result<Operand, EvaluationError>
  {
    match ParseLiteral(h, kind, value)
    case Some(operand) => Ok(operand)
    case None => Err(Incompatible(leaf.field, OperatorName(leaf.op), "invalid_literal_type_or_value"))
  }

  function ParseOperands(h: Host, kind: FieldType, leaf: Leaf, values: seq<Literal>)
    : (r: Result<seq<Operand>, EvaluationError>)
    ensures r.Ok? ==> |r.value| == |values|
  {
    if values == [] then Ok([])
    else
      match ParseOperand(h, kind, leaf, values[0])
      case Err(e) => Err(e)
      case Ok(first) =>
        match ParseOperands(h, kind, leaf, values[1..])
        case Err(e) => Err(e)
        case Ok(rest) => Ok([first] + rest)
  }

  predicate NeedsString(op: Operator)
  {
    op.Contains? || op.ContainsAny? || op.StartsWith? || op.EndsIn?
  }

  predicate OperatorFits(op: Operator, kind: FieldType)
  {
    && (NeedsString(op) ==> kind.StringType?)
    && (IsOrdering(op) ==> kind.IntegerType?)
    && (op.IpInCidr? ==> kind.IpType?)
  }

  /** Check the operator and every operand, whether or not a value is present. */
  function ValidatedOperands(h: Host, kind: FieldType, leaf: Leaf): (r: Result<seq<Operand>, EvaluationError>)
    ensures r.Ok? ==> (r.value == [] <==> IsExistence(leaf.op))
  {
    var refuse := (reason: string) => Err(Incompatible(leaf.field, OperatorName(leaf.op), reason));
    if IsExistence(leaf.op) then
      if leaf.value.Some? then refuse("unexpected_operand") else Ok([])
    else if !OperatorFits(leaf.op, kind) then refuse("incompatible_field_type")
    else if leaf.op.IpInCidr? then
      if leaf.value.Some? && leaf.value.value.TextLiteral? then
        match h.ipNetwork(leaf.value.value.text)
        case Some(network) => Ok([NetworkOperand(network)])
        case None => refuse("invalid_cidr")
      else refuse("invalid_cidr")
    else if TakesList(leaf.op) then
      if leaf.value.Some? && leaf.value.value.ListLiteral? && leaf.value.value.items != [] then
        ParseOperands(h, kind, leaf, leaf.value.value.items)
      else refuse("invalid_operand_list")
    else
      var value := if leaf.value.Some? then leaf.value.value else OtherLiteral;
      match ParseOperand(h, kind, leaf, value)
      case Err(e) => Err(e)
      case Ok(operand) => Ok([operand])
  }

  // ---- The static check of a rule ----

  /** The field's type in each category, in order; the first failure wins. */
  function FieldTypes(h: Host, field: string, categories: seq<EventCategory>)
    : Result<seq<FieldType>, EvaluationError>
  {
    if categories == [] then Ok([])
    else
      match FieldTypeOf(h, field, categories[0])
      case Err(e) => Err(e)
      case Ok(kind) =>
        match FieldTypes(h, field, categories[1..])
        case Err(e) => Err(e)
        case Ok(rest) => Ok([kind] + rest)
  }

  /** The failure found at one leaf, if any. */
  function LeafRejection(h: Host, leaf: Leaf, rule: Rule): Option<EvaluationError>
  {
    if "source_data." <= leaf.field && (rule.sources.None? || rule.sources.value == []) then
      Some(Incompatible(leaf.field, OperatorName(leaf.op), "sources_required"))
    else
      match FieldTypes(h, leaf.field, rule.categories)
      case Err(e) => Some(e)
      case Ok(kinds) =>
        if kinds == [] || exists kind | kind in kinds :: kind != kinds[0] then
          Some(Incompatible(leaf.field, OperatorName(leaf.op), "incompatible_category_types"))
        else
          match ValidatedOperands(h, kinds[0], leaf)
          case Err(e) => Some(e)
          case Ok(_) => None
  }

  /** The first failure below a node, depth first and left to right. */
  function NodeRejection(h: Host, node: Condition, rule: Rule): Option<EvaluationError>
    decreases node, 1
  {
    match node
    case Test(leaf) => LeafRejection(h, leaf, rule)
    case All(nodes) => NodesRejection(h, nodes, rule)
    case Any(nodes) => NodesRejection(h, nodes, rule)
    case Not(child) => NodeRejection(h, child, rule)
  }

  function NodesRejection(h: Host, nodes: seq<Condition>, rule: Rule): Option<EvaluationError>
    decreases nodes, 0
  {
    if nodes == [] then None
    else
      match NodeRejection(h, nodes[0], rule)
      case Some(e) => Some(e)
      case None => NodesRejection(h, nodes[1..], rule)
  }

  /** `validate_detection_rule_semantics`: None means the rule is accepted. */
  function RuleRejection(h: Host, rule: Rule): Option<EvaluationError>
  {
    NodeRejection(h, rule.condition, rule)
  }

  // ---- Facts about paths and field types ----

  lemma RetainedNameIsSegment(h: Host, name: string)
    ensures RetainedName(h, name) <==> IsSegment(name)
  {
    if name != "" {
      if RetainedName(h, name) {
        forall c | c in name ensures IsLetter(c) || IsDigit(c) || c == '_' {
          assert IsAscii(c);
        }
        assert name[0] in name;
      }
      if IsSegment(name) {
        forall c | c in name ensures IsAscii(c) && (h.isAlnum(c) || c == '_') {
        }
        assert name[0] in name;
      }
    }
  }

  lemma CommonFieldHasNoDot(field: string)
    requires field in COMMON_FIELDS
    ensures '.' !in field
  {
  }

  lemma CommonFieldsAgree()
    ensures COMMON_FIELDS.Keys == COMMON_NAMES
  {
  }

  /** How the prefix tests of the resolver see a path. */
  lemma PathPrefixes(field: string)
    ensures var parts := Split(field, '.');
      && ("context." <= field <==> |parts| > 1 && parts[0] == "context")
      && ("source_data." <= field <==> |parts| > 1 && parts[0] == "source_data")
      && (field in COMMON_FIELDS ==> parts == [field])
  {
    PrefixIsFirstPart(field, '.', "context");
    PrefixIsFirstPart(field, '.', "source_data");
    assert "context" + ['.'] == "context." && "source_data" + ['.'] == "source_data.";
    if field in COMMON_FIELDS {
      CommonFieldHasNoDot(field);
      SplitWithout(field, '.');
    }
  }

  /** The type every category gives to a context field of this name. */
  function ContextTypeByName(name: string): FieldType
  {
    if name in {"logon_type", "source_port", "destination_port", "process_id", "parent_process_id"} then IntegerType
    else if name in {"source_ip", "destination_ip"} then IpType
    else StringType
  }

  lemma ContextFieldsByName(category: EventCategory, name: string)
    requires name in ContextFields(category)
    ensures ContextFields(category)[name] == ContextTypeByName(name)
  {
  }

  /** A path has the same type in every category that accepts it. */
  lemma FieldTypeUnique(h: Host, field: string, a: EventCategory, b: EventCategory)
    requires FieldTypeOf(h, field, a).Ok? && FieldTypeOf(h, field, b).Ok?
    ensures FieldTypeOf(h, field, a) == FieldTypeOf(h, field, b)
  {
    if field !in COMMON_FIELDS {
      var parts := Split(field, '.');
      if parts[0] == "context" {
        ContextFieldsByName(a, parts[1]);
        ContextFieldsByName(b, parts[1]);
      }
    }
  }
}
