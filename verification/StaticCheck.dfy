/** The static rule check against the evaluator: no error is masked, the check
    accepts exactly the rules that the evaluator can always evaluate, and the one
    remaining evaluation failure has an exact cause. */
module StaticCheck {
  import opened Wrappers
  import opened Text
  import opened Runtime
  import opened Events
  import opened Conditions
  import opened Semantics
  import opened Evaluator
  import opened Verdicts
  import opened Certificates

  // ---- Field resolution always succeeds on accepted paths ----

  lemma CommonFieldResolves(e: Event, field: string)
    requires field in COMMON_FIELDS
    ensures field in EventFields(e)
    ensures Resolve(field, COMMON_FIELDS[field], EventFields(e)[field]).Ok?
  {
  }

  lemma ContextFieldResolves(category: EventCategory, context: EventContext, path: string, name: string)
    requires ContextAgrees(category, context) && name in ContextFields(category)
    ensures name in ContextValues(context)
    ensures Resolve(path, ContextFields(category)[name], ContextValues(context)[name]).Ok?
  {
  }

  /** How field resolution ends on any event: it fails for the path, or because the
      context is not that of the category, and for nothing else. */
  lemma ResolutionExact(h: Host, e: Event, path: string)
    ensures match FieldTypeOf(h, path, e.category)
      case Err(x) => ResolveEventField(h, e, path) == Err(x)
      case Ok(kind) =>
        if "context." <= path && !ContextAgrees(e.category, e.context) then
          ResolveEventField(h, e, path) == Err(EvaluationFailed("invalid_context_type"))
        else ResolveEventField(h, e, path).Ok? && ResolveEventField(h, e, path).value.kind == kind
  {
    PathPrefixes(path);
    if path in COMMON_FIELDS {
      CommonFieldResolves(e, path);
    } else if ContextAgrees(e.category, e.context) {
      var parts := Split(path, '.');
      if |parts| == 2 && parts[0] == "context" && parts[1] in ContextFields(e.category) {
        ContextFieldResolves(e.category, e.context, path, parts[1]);
      }
    }
  }

  /** On a valid event the only failure of field resolution is the static one. */
  lemma ResolutionIsStatic(h: Host, e: Event, path: string)
    requires ValidEvent(e)
    ensures match FieldTypeOf(h, path, e.category)
      case Err(x) => ResolveEventField(h, e, path) == Err(x)
      case Ok(kind) => ResolveEventField(h, e, path).Ok? && ResolveEventField(h, e, path).value.kind == kind
  {
    hide FieldTypeOf, ResolveEventField;
    ResolutionExact(h, e, path);
  }

  // ---- Validated operands always compare ----

  predicate OperandHasType(operand: Operand, kind: FieldType)
  {
    match kind
    case StringType => operand.TextOperand?
    case IntegerType => operand.NumberOperand?
    case TimestampType => operand.InstantOperand?
    case IpType => operand.AddressOperand?
  }

  lemma {:induction false} ParsedOperandsHaveType(h: Host, kind: FieldType, leaf: Leaf, values: seq<Literal>)
    requires ParseOperands(h, kind, leaf, values).Ok?
    ensures forall operand | operand in ParseOperands(h, kind, leaf, values).value :: OperandHasType(operand, kind)
  {
    if values != [] {
      ParsedOperandsHaveType(h, kind, leaf, values[1..]);
    }
  }

  lemma ValidatedOperandsHaveType(h: Host, kind: FieldType, leaf: Leaf)
    requires ValidatedOperands(h, kind, leaf).Ok? && !leaf.op.IpInCidr?
    ensures forall operand | operand in ValidatedOperands(h, kind, leaf).value :: OperandHasType(operand, kind)
  {
    if TakesList(leaf.op) {
      ParsedOperandsHaveType(h, kind, leaf, leaf.value.value.items);
    }
  }

  /** A comparison with validated operands fails only when the value has no UTC instant. */
  lemma ComparisonFailure(h: Host, kind: FieldType, leaf: Leaf, actual: Scalar)
    requires ValidatedOperands(h, kind, leaf).Ok? && !IsExistence(leaf.op) && HasType(actual, kind)
    ensures Compare(actual, leaf.op, ValidatedOperands(h, kind, leaf).value).Err? <==> Canonical(actual).None?
    ensures Canonical(actual).None? ==>
      Compare(actual, leaf.op, ValidatedOperands(h, kind, leaf).value) == Err(EvaluationFailed("invalid_evaluation_input"))
  {
    if !leaf.op.IpInCidr? {
      var operands := ValidatedOperands(h, kind, leaf).value;
      ValidatedOperandsHaveType(h, kind, leaf);
      assert operands[0] in operands;
    }
  }

  // ---- When one leaf fails ----

  /** The failure that the field and operands of a leaf cause in a category. */
  function StaticFailure(h: Host, leaf: Leaf, category: EventCategory): Option<EvaluationError>
  {
    match FieldTypeOf(h, leaf.field, category)
    case Err(e) => Some(e)
    case Ok(kind) =>
      match ValidatedOperands(h, kind, leaf)
      case Err(e) => Some(e)
      case Ok(_) => None
  }

  /** What the evaluator raises for a timestamp without UTC form. */
  const NO_UTC_FORM := EvaluationFailed("invalid_evaluation_input")

  /** The leaf compares the event's timestamp. */
  predicate ComparesTime(leaf: Leaf) { leaf.field == "timestamp" && !IsExistence(leaf.op) }

  lemma OnlyTimestampIsTime(h: Host, path: string, category: EventCategory)
    ensures FieldTypeOf(h, path, category) == Ok(TimestampType) <==> path == "timestamp"
  {
    if path !in COMMON_FIELDS {
      var parts := Split(path, '.');
      if |parts| == 2 && parts[1] in ContextFields(category) {
        ContextFieldsByName(category, parts[1]);
      }
    }
  }

  lemma TimestampResolves(h: Host, e: Event, path: string)
    requires ValidEvent(e) && path == "timestamp"
    ensures ResolveEventField(h, e, path) == Ok(ResolvedField(TimestampType, Present(TimeValue(e.timestamp))))
  {
    hide Split;
    PathPrefixes(path);
    assert path in COMMON_FIELDS;
  }

  /** A leaf fails on an event for a static reason, whether or not the field has a
      value, or because it compares a timestamp that has no UTC instant. */
  lemma LeafFailure(h: Host, e: Event, leaf: Leaf)
    requires ValidEvent(e)
    ensures match StaticFailure(h, leaf, e.category)
      case Some(x) => LeafVerdict(h, e, leaf) == Err(x)
      case None =>
        && (LeafVerdict(h, e, leaf).Err? <==> ComparesTime(leaf) && !Representable(e.timestamp))
        && (LeafVerdict(h, e, leaf).Err? ==> LeafVerdict(h, e, leaf).error == NO_UTC_FORM)
  {
    hide ResolveEventField, FieldTypeOf, ValidatedOperands, Compare;
    ResolutionIsStatic(h, e, leaf.field);
    OnlyTimestampIsTime(h, leaf.field, e.category);
    if StaticFailure(h, leaf, e.category).None? && !IsExistence(leaf.op) {
      var field := ResolveEventField(h, e, leaf.field).value;
      if leaf.field == "timestamp" { TimestampResolves(h, e, leaf.field); }
      if field.presence.Present? {
        ResolvedHasType(h, e, leaf.field);
        ComparisonFailure(h, field.kind, leaf, field.presence.value);
      }
    }
  }

  // ---- From leaves to trees ----

  /** The leaves of a tree, depth first and left to right. */
  function Leaves(c: Condition): seq<Leaf>
    decreases c, 1
  {
    match c
    case Test(leaf) => [leaf]
    case All(nodes) => LeavesAll(nodes)
    case Any(nodes) => LeavesAll(nodes)
    case Not(child) => Leaves(child)
  }

  function LeavesAll(nodes: seq<Condition>): seq<Leaf>
    decreases nodes, 0
  {
    if nodes == [] then [] else Leaves(nodes[0]) + LeavesAll(nodes[1..])
  }

  /** The first failure that a check reports along a list of leaves. */
  function FirstFailure(leaves: seq<Leaf>, check: Leaf -> Option<EvaluationError>): Option<EvaluationError>
  {
    if leaves == [] then None
    else if check(leaves[0]).Some? then check(leaves[0])
    else FirstFailure(leaves[1..], check)
  }

  lemma {:induction false} FirstFailureOfConcat(a: seq<Leaf>, b: seq<Leaf>, check: Leaf -> Option<EvaluationError>)
    ensures FirstFailure(a + b, check)
         == if FirstFailure(a, check).Some? then FirstFailure(a, check) else FirstFailure(b, check)
  {
    if a == [] {
      assert a + b == b;
    } else {
      assert (a + b)[1..] == a[1..] + b;
      FirstFailureOfConcat(a[1..], b, check);
    }
  }

  /** The first failure is at an index before which nothing fails. */
  lemma {:induction false} FirstFailureIndex(leaves: seq<Leaf>, check: Leaf -> Option<EvaluationError>) returns (k: nat)
    ensures FirstFailure(leaves, check).None? <==> k == |leaves|
    ensures k <= |leaves| && forall j | 0 <= j < k :: check(leaves[j]).None?
    ensures k < |leaves| ==> check(leaves[k]).Some? && FirstFailure(leaves, check) == check(leaves[k])
  {
    if leaves == [] || check(leaves[0]).Some? {
      k := 0;
    } else {
      k := FirstFailureIndex(leaves[1..], check);
      k := k + 1;
      assert forall j | 0 < j < k :: leaves[j] == leaves[1..][j - 1];
    }
  }

  function ErrorOf<T>(r: Result<T, EvaluationError>): Option<EvaluationError>
  {
    match r case Ok(_) => None case Err(e) => Some(e)
  }

  /** A tree fails on an event exactly as its first failing leaf does, whatever the
      outcomes of the leaves before it. */
  lemma {:induction false} VerdictFailure(h: Host, event: Event, c: Condition, check: Leaf -> Option<EvaluationError>)
    requires forall leaf :: check(leaf) == ErrorOf(LeafVerdict(h, event, leaf))
    ensures ErrorOf(Verdict(h, event, c)) == FirstFailure(Leaves(c), check)
    decreases c, 1
  {
    hide LeafVerdict;
    match c
    case Test(leaf) => assert FirstFailure([leaf][1..], check).None?;
    case All(nodes) => VerdictEachFailure(h, event, nodes, check);
    case Any(nodes) => VerdictEachFailure(h, event, nodes, check);
    case Not(child) => VerdictFailure(h, event, child, check);
  }

  lemma {:induction false} VerdictEachFailure(h: Host, event: Event, nodes: seq<Condition>, check: Leaf -> Option<EvaluationError>)
    requires forall leaf :: check(leaf) == ErrorOf(LeafVerdict(h, event, leaf))
    ensures ErrorOf(VerdictEach(h, event, nodes)) == FirstFailure(LeavesAll(nodes), check)
    decreases nodes, 0
  {
    hide LeafVerdict;
    if nodes != [] {
      VerdictFailure(h, event, nodes[0], check);
      VerdictEachFailure(h, event, nodes[1..], check);
      FirstFailureOfConcat(Leaves(nodes[0]), LeavesAll(nodes[1..]), check);
    }
  }

  lemma {:induction false} RejectionAtLeaf(h: Host, c: Condition, rule: Rule, check: Leaf -> Option<EvaluationError>)
    requires forall leaf :: check(leaf) == LeafRejection(h, leaf, rule)
    ensures NodeRejection(h, c, rule) == FirstFailure(Leaves(c), check)
    decreases c, 1
  {
    hide LeafRejection;
    match c
    case Test(leaf) => assert FirstFailure([leaf][1..], check).None?;
    case All(nodes) => RejectionAtLeaves(h, nodes, rule, check);
    case Any(nodes) => RejectionAtLeaves(h, nodes, rule, check);
    case Not(child) => RejectionAtLeaf(h, child, rule, check);
  }

  lemma {:induction false} RejectionAtLeaves(h: Host, nodes: seq<Condition>, rule: Rule, check: Leaf -> Option<EvaluationError>)
    requires forall leaf :: check(leaf) == LeafRejection(h, leaf, rule)
    ensures NodesRejection(h, nodes, rule) == FirstFailure(LeavesAll(nodes), check)
    decreases nodes, 0
  {
    hide LeafRejection;
    if nodes != [] {
      RejectionAtLeaf(h, nodes[0], rule, check);
      RejectionAtLeaves(h, nodes[1..], rule, check);
      FirstFailureOfConcat(Leaves(nodes[0]), LeavesAll(nodes[1..]), check);
    }
  }

  /** No error is masked: evaluation fails iff some leaf fails, with the error of
      the first failing leaf in depth-first order. */
  lemma NoErrorMasked(h: Host, event: Event, c: Condition)
    requires ValidCondition(c)
    ensures EvaluateCondition(h, event, c).Err? <==> exists leaf | leaf in Leaves(c) :: LeafVerdict(h, event, leaf).Err?
    ensures EvaluateCondition(h, event, c).Err? ==>
      exists k | 0 <= k < |Leaves(c)| ::
        && LeafVerdict(h, event, Leaves(c)[k]) == Err(EvaluateCondition(h, event, c).error)
        && forall j | 0 <= j < k :: LeafVerdict(h, event, Leaves(c)[j]).Ok?
  {
    hide LeafVerdict;
    EvaluationIsVerdict(h, event, c);
    var check := leaf => ErrorOf(LeafVerdict(h, event, leaf));
    VerdictFailure(h, event, c, check);
    var k := FirstFailureIndex(Leaves(c), check);
    if k < |Leaves(c)| {
      assert Leaves(c)[k] in Leaves(c);
      assert check(Leaves(c)[k]) == ErrorOf(LeafVerdict(h, event, Leaves(c)[k]));
      assert forall j | 0 <= j < k :: check(Leaves(c)[j]) == ErrorOf(LeafVerdict(h, event, Leaves(c)[j]));
    } else {
      forall leaf | leaf in Leaves(c) ensures LeafVerdict(h, event, leaf).Ok? {
        var j :| 0 <= j < k && Leaves(c)[j] == leaf;
        assert check(leaf).None?;
      }
    }
  }

  // ---- What the static check of a rule sees at a leaf ----

  lemma {:induction false} FieldTypesAgree(h: Host, field: string, categories: seq<EventCategory>)
    ensures match FieldTypes(h, field, categories)
      case Err(e) => exists category | category in categories :: FieldTypeOf(h, field, category) == Err(e)
      case Ok(kinds) =>
        && |kinds| == |categories|
        && forall i | 0 <= i < |kinds| :: FieldTypeOf(h, field, categories[i]) == Ok(kinds[i])
  {
    if categories != [] {
      FieldTypesAgree(h, field, categories[1..]);
    }
  }

  lemma {:induction false} SourceDataLeaf(c: Condition, leaf: Leaf)
    requires leaf in Leaves(c) && "source_data." <= leaf.field
    ensures UsesSourceData(c)
    decreases c, 1
  {
    match c
    case Test(_) =>
    case Not(child) => SourceDataLeaf(child, leaf);
    case All(nodes) => SourceDataLeaves(nodes, leaf);
    case Any(nodes) => SourceDataLeaves(nodes, leaf);
  }

  lemma {:induction false} SourceDataLeaves(nodes: seq<Condition>, leaf: Leaf)
    requires leaf in LeavesAll(nodes) && "source_data." <= leaf.field
    ensures exists node | node in nodes :: UsesSourceData(node)
    decreases nodes, 0
  {
    if leaf in Leaves(nodes[0]) {
      SourceDataLeaf(nodes[0], leaf);
      assert nodes[0] in nodes;
    } else {
      SourceDataLeaves(nodes[1..], leaf);
      var node :| node in nodes[1..] && UsesSourceData(node);
      assert node in nodes;
    }
  }

  /** At a leaf of a valid rule the check reports a failure of some target category,
      and reports nothing only when no target category fails. The guards on missing
      sources and on differing field types never fire. */
  lemma LeafRejectionIsStatic(h: Host, leaf: Leaf, rule: Rule)
    requires rule.categories != []
    requires "source_data." <= leaf.field ==> rule.sources.Some? && rule.sources.value != []
    ensures match LeafRejection(h, leaf, rule)
      case None => forall category | category in rule.categories :: StaticFailure(h, leaf, category).None?
      case Some(e) => exists category | category in rule.categories :: StaticFailure(h, leaf, category) == Some(e)
  {
    FieldTypesAgree(h, leaf.field, rule.categories);
    match FieldTypes(h, leaf.field, rule.categories)
    case Err(e) =>
      var category :| category in rule.categories && FieldTypeOf(h, leaf.field, category) == Err(e);
      assert StaticFailure(h, leaf, category) == Some(e);
    case Ok(kinds) =>
      forall i | 0 <= i < |kinds| ensures kinds[i] == kinds[0] {
        FieldTypeUnique(h, leaf.field, rule.categories[i], rule.categories[0]);
      }
      assert forall kind | kind in kinds :: kind == kinds[0];
      assert rule.categories[0] in rule.categories;
      forall category | category in rule.categories
        ensures FieldTypeOf(h, leaf.field, category) == Ok(kinds[0])
      {
        var i :| 0 <= i < |rule.categories| && rule.categories[i] == category;
      }
      assert StaticFailure(h, leaf, rule.categories[0]) == ErrorOf(ValidatedOperands(h, kinds[0], leaf));
  }

  // ---- The main results ----

  /** Some leaf of the tree compares the event's timestamp. */
  predicate ComparesTimestamp(c: Condition)
  {
    exists leaf | leaf in Leaves(c) :: ComparesTime(leaf)
  }

  /** An accepted rule evaluates on every event of its categories, with one exact
      exception: a timestamp comparison on an event whose instant has no UTC form. */
  lemma AcceptedRuleEvaluates(h: Host, rule: Rule, e: Event)
    requires ValidRule(h, rule) && RuleRejection(h, rule).None?
    requires ValidEvent(e) && e.category in rule.categories
    ensures EvaluateCondition(h, e, rule.condition).Ok? <==> Representable(e.timestamp) || !ComparesTimestamp(rule.condition)
  {
    hide LeafVerdict, LeafRejection, StaticFailure;
    NoErrorMasked(h, e, rule.condition);
    forall leaf | leaf in Leaves(rule.condition)
      ensures LeafVerdict(h, e, leaf).Err? <==> ComparesTime(leaf) && !Representable(e.timestamp)
    {
      AcceptedLeaf(h, rule, leaf);
      LeafFailure(h, e, leaf);
    }
  }

  lemma AcceptedLeaf(h: Host, rule: Rule, leaf: Leaf)
    requires ValidRule(h, rule) && RuleRejection(h, rule).None? && leaf in Leaves(rule.condition)
    ensures forall category | category in rule.categories :: StaticFailure(h, leaf, category).None?
  {
    hide LeafRejection, StaticFailure;
    var check := leaf => LeafRejection(h, leaf, rule);
    RejectionAtLeaf(h, rule.condition, rule, check);
    var k := FirstFailureIndex(Leaves(rule.condition), check);
    assert check(leaf).None?;
    LeafOfRule(h, rule, leaf);
    LeafRejectionIsStatic(h, leaf, rule);
  }

  lemma LeafOfRule(h: Host, rule: Rule, leaf: Leaf)
    requires ValidRule(h, rule) && leaf in Leaves(rule.condition)
    ensures "source_data." <= leaf.field ==> rule.sources.Some? && rule.sources.value != []
  {
    if "source_data." <= leaf.field {
      SourceDataLeaf(rule.condition, leaf);
    }
  }

  /** A timestamp comparison that comes no later than any leaf with a static failure. */
  ghost predicate OverflowsFirst(h: Host, c: Condition, category: EventCategory)
  {
    exists k | 0 <= k < |Leaves(c)| ::
      ComparesTime(Leaves(c)[k]) && forall j | 0 <= j <= k :: StaticFailure(h, Leaves(c)[j], category).None?
  }

  /** A rejected rule has a target category all of whose events make evaluation fail,
      and with exactly the reported error, unless the event's instant has no UTC form
      and a timestamp comparison comes first. */
  lemma RejectedRuleFails(h: Host, rule: Rule) returns (category: EventCategory)
    requires ValidRule(h, rule) && RuleRejection(h, rule).Some?
    ensures category in rule.categories
    ensures forall e | ValidEvent(e) && e.category == category :: EvaluateCondition(h, e, rule.condition).Err?
    ensures forall e | ValidEvent(e) && e.category == category ::
      EvaluateCondition(h, e, rule.condition).error ==
        if !Representable(e.timestamp) && OverflowsFirst(h, rule.condition, category) then NO_UTC_FORM
        else RuleRejection(h, rule).value
  {
    hide LeafVerdict, LeafRejection, StaticFailure, OverflowsFirst;
    var leaves := Leaves(rule.condition);
    var check := leaf => LeafRejection(h, leaf, rule);
    RejectionAtLeaf(h, rule.condition, rule, check);
    var k := FirstFailureIndex(leaves, check);
    assert check(leaves[k]) == LeafRejection(h, leaves[k], rule);
    LeafOfRule(h, rule, leaves[k]);
    LeafRejectionIsStatic(h, leaves[k], rule);
    category :| category in rule.categories && StaticFailure(h, leaves[k], category) == RuleRejection(h, rule);
    forall j | 0 <= j < k ensures StaticFailure(h, leaves[j], category).None? {
      assert check(leaves[j]) == LeafRejection(h, leaves[j], rule);
      LeafOfRule(h, rule, leaves[j]);
      LeafRejectionIsStatic(h, leaves[j], rule);
    }
    forall e | ValidEvent(e) && e.category == category
      ensures EvaluateCondition(h, e, rule.condition) ==
        Err(if !Representable(e.timestamp) && OverflowsFirst(h, rule.condition, category) then NO_UTC_FORM
            else RuleRejection(h, rule).value)
    {
      FirstStaticFailure(h, e, rule.condition, k, RuleRejection(h, rule).value);
    }
  }

  /** The first leaf with a static failure decides the error, unless an overflow
      comes before it. */
  lemma FirstStaticFailure(h: Host, e: Event, c: Condition, k: nat, error: EvaluationError)
    requires ValidEvent(e) && ValidCondition(c) && k < |Leaves(c)|
    requires StaticFailure(h, Leaves(c)[k], e.category) == Some(error)
    requires forall j | 0 <= j < k :: StaticFailure(h, Leaves(c)[j], e.category).None?
    ensures EvaluateCondition(h, e, c) ==
      Err(if !Representable(e.timestamp) && OverflowsFirst(h, c, e.category) then NO_UTC_FORM else error)
  {
    hide EvaluateCondition, LeafVerdict, StaticFailure;
    NoErrorMasked(h, e, c);
    LeafFailure(h, e, Leaves(c)[k]);
    assert Leaves(c)[k] in Leaves(c);
    var f :| 0 <= f < |Leaves(c)|
      && LeafVerdict(h, e, Leaves(c)[f]) == Err(EvaluateCondition(h, e, c).error)
      && forall j | 0 <= j < f :: LeafVerdict(h, e, Leaves(c)[j]).Ok?;
    assert f <= k;
    LeafFailure(h, e, Leaves(c)[f]);
    assert f < k ==> ComparesTime(Leaves(c)[f]);
    if !Representable(e.timestamp) && OverflowsFirst(h, c, e.category) {
      var t :| 0 <= t < |Leaves(c)| && ComparesTime(Leaves(c)[t])
        && forall j | 0 <= j <= t :: StaticFailure(h, Leaves(c)[j], e.category).None?;
      LeafFailure(h, e, Leaves(c)[t]);
      assert f <= t;
    }
  }

  /** An event of each category, at the first instant of the calendar. */
  function SampleEvent(category: EventCategory): (e: Event)
    ensures ValidEvent(e) && e.category == category && Representable(e.timestamp)
  {
    var context := match category
      case AuthenticationEvent => AuthenticationContext(Success, None, None, None, None, None, None)
      case ProcessEvent => ProcessContext("p", None, None, None, None, None)
      case NetworkEvent => NetworkContext(V4(0), 0, V4(0), 0, None, None, None)
      case FileEvent => FileContext("f", None, None)
      case DnsEvent => DnsContext("d", None, None, None, None);
    Event(Sysmon, "p", 1, "c", Timestamp(0, 0), "h", None, category, context, map[])
  }

  /** Soundness and completeness of the static check. */
  lemma StaticCheckExact(h: Host, rule: Rule)
    requires ValidRule(h, rule)
    ensures RuleRejection(h, rule).None? <==>
      forall e: Event | ValidEvent(e) && e.category in rule.categories && Representable(e.timestamp) ::
        EvaluateCondition(h, e, rule.condition).Ok?
  {
    hide EvaluateCondition, RuleRejection;
    if RuleRejection(h, rule).None? {
      forall e: Event | ValidEvent(e) && e.category in rule.categories && Representable(e.timestamp)
        ensures EvaluateCondition(h, e, rule.condition).Ok?
      {
        AcceptedRuleEvaluates(h, rule, e);
      }
    } else {
      var category := RejectedRuleFails(h, rule);
      var e := SampleEvent(category);
      assert EvaluateCondition(h, e, rule.condition).Err?;
    }
  }

  /** For a rule with one category the evaluator raises the very error of the check, on
      every event except those whose missing UTC form is met first. */
  lemma SingleCategoryError(h: Host, rule: Rule, e: Event)
    requires ValidRule(h, rule) && |rule.categories| == 1
    requires ValidEvent(e) && e.category == rule.categories[0]
    ensures ErrorOf(EvaluateCondition(h, e, rule.condition)) ==
      if !Representable(e.timestamp) && OverflowsFirst(h, rule.condition, e.category) then Some(NO_UTC_FORM)
      else RuleRejection(h, rule)
  {
    hide EvaluateCondition, RuleRejection, OverflowsFirst, ComparesTimestamp, ValidRule, ValidEvent;
    if RuleRejection(h, rule).None? {
      AcceptedRuleEvaluates(h, rule, e);
      AcceptedRuleError(h, rule, e);
    } else {
      var category := RejectedRuleFails(h, rule);
      assert category == rule.categories[0];
    }
  }

  lemma AcceptedRuleError(h: Host, rule: Rule, e: Event)
    requires ValidRule(h, rule) && RuleRejection(h, rule).None?
    requires ValidEvent(e) && e.category in rule.categories
    ensures OverflowsFirst(h, rule.condition, e.category) <==> ComparesTimestamp(rule.condition)
    ensures EvaluateCondition(h, e, rule.condition).Err? ==> EvaluateCondition(h, e, rule.condition).error == NO_UTC_FORM
  {
    hide EvaluateCondition, RuleRejection, LeafVerdict, StaticFailure;
    var leaves := Leaves(rule.condition);
    forall i | 0 <= i < |leaves| ensures StaticFailure(h, leaves[i], e.category).None? {
      assert leaves[i] in leaves;
      AcceptedLeaf(h, rule, leaves[i]);
    }
    if ComparesTimestamp(rule.condition) {
      var leaf :| leaf in leaves && ComparesTime(leaf);
      var k :| 0 <= k < |leaves| && leaves[k] == leaf;
    }
    NoErrorMasked(h, e, rule.condition);
    if EvaluateCondition(h, e, rule.condition).Err? {
      var k :| 0 <= k < |leaves| && LeafVerdict(h, e, leaves[k]) == Err(EvaluateCondition(h, e, rule.condition).error);
      LeafFailure(h, e, leaves[k]);
    }
  }

  /** A rule that compares the timestamp with one literal. */
  function TimestampRule(literal: string): Rule
  {
    Rule("t", 1, "t", "t", [DnsEvent], None, Test(Leaf("timestamp", Equals, Some(TextLiteral(literal)))))
  }

  lemma TimestampRuleValid(h: Host, literal: string)
    requires !h.isSpace('t')
    ensures ValidRule(h, TimestampRule(literal))
  {
    SplitWithout("t", '-');
    assert StripLeft(h, "t") == "t" && StripRight(h, "t") == "t";
    assert "timestamp" in COMMON_NAMES;
  }

  lemma TimestampRuleAccepted(h: Host, literal: string)
    requires h.isoDatetime(literal).Some? && MomentInstant(h.isoDatetime(literal).value).Some?
    ensures RuleRejection(h, TimestampRule(literal)).None?
  {
    hide FieldTypeOf;
    OnlyTimestampIsTime(h, "timestamp", DnsEvent);
    assert FieldTypes(h, "timestamp", [DnsEvent][1..]) == Ok([]);
  }

  /** Acceptance alone does not rule out failure: a timestamp comparison overflows on
      an event one hour ahead of UTC at the first instant of the calendar. */
  lemma TimestampComparisonCanOverflow(h: Host, literal: string)
    requires h.isoDatetime(literal).Some? && MomentInstant(h.isoDatetime(literal).value).Some?
    requires !h.isSpace('t')
    ensures
      var e := SampleEvent(DnsEvent).(timestamp := Timestamp(0, 3_600_000_000));
      && ValidRule(h, TimestampRule(literal)) && RuleRejection(h, TimestampRule(literal)).None?
      && ValidEvent(e) && e.category in TimestampRule(literal).categories
      && EvaluateCondition(h, e, TimestampRule(literal).condition).Err?
  {
    hide EvaluateCondition, RuleRejection, ValidRule;
    TimestampRuleValid(h, literal);
    TimestampRuleAccepted(h, literal);
    var rule := TimestampRule(literal);
    assert Leaves(rule.condition)[0] in Leaves(rule.condition);
    AcceptedRuleEvaluates(h, rule, SampleEvent(DnsEvent).(timestamp := Timestamp(0, 3_600_000_000)));
  }
}
