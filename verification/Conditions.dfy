/** Detection rules and their condition trees: backend/app/models/detection.py. */
module Conditions {
  import opened Wrappers
  import opened Text
  import opened Runtime
  import opened Events

  datatype Operator =
    | Equals | NotEquals | Contains | ContainsAny | StartsWith | EndsIn | In | NotIn
    | Exists | NotExists | GreaterThan | GreaterOrEqual | LessThan | LessOrEqual | IpInCidr

  function OperatorName(op: Operator): string
  {
    match op
    case Equals => "equals"
    case NotEquals => "not_equals"
    case Contains => "contains"
    case ContainsAny => "contains_any"
    case StartsWith => "starts_with"
    case EndsIn => "ends_with"
    case In => "in"
    case NotIn => "not_in"
    case Exists => "exists"
    case NotExists => "not_exists"
    case GreaterThan => "greater_than"
    case GreaterOrEqual => "greater_or_equal"
    case LessThan => "less_than"
    case LessOrEqual => "less_or_equal"
    case IpInCidr => "ip_in_cidr"
  }

  /** The operator that a rule document names. */
  function OperatorNamed(name: string): Option<Operator>
  {
    if name == "equals" then Some(Equals)
    else if name == "not_equals" then Some(NotEquals)
    else if name == "contains" then Some(Contains)
    else if name == "contains_any" then Some(ContainsAny)
    else if name == "starts_with" then Some(StartsWith)
    else if name == "ends_with" then Some(EndsIn)
    else if name == "in" then Some(In)
    else if name == "not_in" then Some(NotIn)
    else if name == "exists" then Some(Exists)
    else if name == "not_exists" then Some(NotExists)
    else if name == "greater_than" then Some(GreaterThan)
    else if name == "greater_or_equal" then Some(GreaterOrEqual)
    else if name == "less_than" then Some(LessThan)
    else if name == "less_or_equal" then Some(LessOrEqual)
    else if name == "ip_in_cidr" then Some(IpInCidr)
    else None
  }

  lemma NameIsRead(op: Operator)
    ensures OperatorNamed(OperatorName(op)) == Some(op)
  {
  }

  lemma ReadNameIsName(name: string)
    ensures OperatorNamed(name).Some? ==> OperatorName(OperatorNamed(name).value) == name
  {
  }

  /** Operators and their names correspond one to one. */
  lemma OperatorNamesReadBack(op: Operator, name: string)
    ensures OperatorNamed(name) == Some(op) <==> name == OperatorName(op)
  {
    hide OperatorName, OperatorNamed;
    NameIsRead(op);
    ReadNameIsName(name);
  }

  predicate IsExistence(op: Operator) { op.Exists? || op.NotExists? }

  predicate IsOrdering(op: Operator)
  {
    op.GreaterThan? || op.GreaterOrEqual? || op.LessThan? || op.LessOrEqual?
  }

  predicate TakesList(op: Operator) { op.ContainsAny? || op.In? || op.NotIn? }

  predicate TakesText(op: Operator) { op.Contains? || op.StartsWith? || op.EndsIn? || op.IpInCidr? }

  /** A YAML scalar or list; `OtherLiteral` is any value of another type,
      booleans included: the program never treats a bool as an int. */
  datatype Literal = TextLiteral(text: string) | IntLiteral(number: int) | ListLiteral(items: seq<Literal>) | OtherLiteral

  /** `value` is None when the document has no such key. */
  datatype Leaf = Leaf(field: string, op: Operator, value: Option<Literal>)

  datatype Condition =
    | Test(leaf: Leaf)
    | All(nodes: seq<Condition>)
    | Any(nodes: seq<Condition>)
    | Not(child: Condition)

  const COMMON_NAMES: set<string> :=
    {"source", "provider", "event_id", "channel", "timestamp", "computer", "record_id", "category"}

  predicate ValidPath(path: string)
  {
    || path in COMMON_NAMES
    || (var parts := Split(path, '.');
        |parts| == 2 && parts[0] in {"context", "source_data"} && IsSegment(parts[1]))
  }

  predicate SameScalarType(items: seq<Literal>)
  {
    (forall item | item in items :: item.TextLiteral?) || (forall item | item in items :: item.IntLiteral?)
  }

  predicate ValidOperand(op: Operator, value: Literal)
  {
    if TakesList(op) then
      && value.ListLiteral? && value.items != []
      && (if op.ContainsAny? then forall item | item in value.items :: item.TextLiteral?
          else SameScalarType(value.items))
    else if IsOrdering(op) then value.IntLiteral?
    else if TakesText(op) then value.TextLiteral?
    else value.TextLiteral? || value.IntLiteral?
  }

  predicate ValidLeaf(leaf: Leaf)
  {
    && ValidPath(leaf.field)
    && if IsExistence(leaf.op) then leaf.value.None?
       else leaf.value.Some? && ValidOperand(leaf.op, leaf.value.value)
  }

  predicate ValidCondition(c: Condition)
  {
    match c
    case Test(leaf) => ValidLeaf(leaf)
    case All(nodes) => nodes != [] && forall node | node in nodes :: ValidCondition(node)
    case Any(nodes) => nodes != [] && forall node | node in nodes :: ValidCondition(node)
    case Not(child) => ValidCondition(child)
  }

  function Max(a: nat, b: nat): nat { if a < b then b else a }

  datatype Measurement = Measurement(depth: nat, leaves: nat)

  /** Depth and leaf count of a condition tree. */
  function Measure(c: Condition): Measurement
    decreases c, 1
  {
    match c
    case Test(_) => Measurement(1, 1)
    case All(nodes) => var sizes := MeasureAll(nodes); Measurement(1 + sizes.depth, sizes.leaves)
    case Any(nodes) => var sizes := MeasureAll(nodes); Measurement(1 + sizes.depth, sizes.leaves)
    case Not(child) => var size := Measure(child); Measurement(1 + size.depth, size.leaves)
  }

  /** The largest depth and the total leaf count of a list. */
  function MeasureAll(nodes: seq<Condition>): Measurement
    decreases nodes, 0
  {
    if nodes == [] then Measurement(0, 0)
    else
      var first, rest := Measure(nodes[0]), MeasureAll(nodes[1..]);
      Measurement(Max(first.depth, rest.depth), first.leaves + rest.leaves)
  }

  predicate UsesSourceData(c: Condition)
  {
    match c
    case Test(leaf) => "source_data." <= leaf.field
    case All(nodes) => exists node | node in nodes :: UsesSourceData(node)
    case Any(nodes) => exists node | node in nodes :: UsesSourceData(node)
    case Not(child) => UsesSourceData(child)
  }

  const MAX_DEPTH := 8
  const MAX_LEAVES := 64

  datatype Rule = Rule(
    id: string,
    version: int,
    title: string,
    description: string,
    categories: seq<EventCategory>,
    sources: Option<seq<EventSource>>,
    condition: Condition)

  predicate Distinct<T(==)>(s: seq<T>)
  {
    forall i, j | 0 <= i < j < |s| :: s[i] != s[j]
  }

  predicate ValidRule(h: Host, r: Rule)
  {
    && IsSlug(r.id)
    && r.version > 0
    && Strip(h, r.title) != "" && Strip(h, r.description) != ""
    && r.categories != [] && Distinct(r.categories)
    && (r.sources.Some? ==> r.sources.value != [] && Distinct(r.sources.value))
    && ValidCondition(r.condition)
    && Measure(r.condition).depth <= MAX_DEPTH && Measure(r.condition).leaves <= MAX_LEAVES
    && (UsesSourceData(r.condition) ==> r.sources.Some?)
  }
}
