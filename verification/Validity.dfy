/** What makes a rule, an event, a trace and a match valid: rules by their leaves and the
    addresses in their condition trees, events by what conditions can read, traces and
    matches by what evaluation makes. */
module Validity {
  import opened Wrappers
  import opened Text
  import opened Runtime
  import opened Events
  import opened Conditions
  import opened Semantics
  import opened Traces
  import opened Evaluator
  import opened Certificates
  import opened StaticCheck
  import opened Engine
  import opened Readings
  import opened Literals
  import opened Alerts

  // ---- Field paths ----

  /** The structurally valid paths: eight names, and one identifier below `context` or
      `source_data`. */
  lemma ValidPathMeaning(path: string)
    ensures ValidPath(path) <==>
      || path in {"source", "provider", "event_id", "channel", "timestamp", "computer", "record_id", "category"}
      || exists name :: IsSegment(name) && (path == "context." + name || path == "source_data." + name)
  {
    hide Split, IsSegment;
    if path !in COMMON_NAMES && ValidPath(path) {
      var parts := Split(path, '.');
      JoinOfSplit(path, '.');
      assert Join(parts[1..], '.') == parts[1] && path == parts[0] + ['.'] + parts[1];
      assert parts[0] == "context" ==> path == "context." + parts[1];
      assert parts[0] == "source_data" ==> path == "source_data." + parts[1];
    }
    if name :| IsSegment(name) && (path == "context." + name || path == "source_data." + name) {
      SegmentHasNoDot(name);
      assert "context" + ['.'] == "context." && "source_data" + ['.'] == "source_data.";
      SplitPath(path, if path == "context." + name then "context" else "source_data", name);
    }
  }

  /** A leaf is valid exactly when its path is and some field type admits its operand,
      taking for granted that a network literal parses. */
  lemma LeafValidity(h: Host, leaf: Leaf)
    requires leaf.op.IpInCidr? && leaf.value.Some? && leaf.value.value.TextLiteral? ==> h.ipNetwork(leaf.value.value.text).Some?
    ensures ValidLeaf(leaf) <==> ValidPath(leaf.field) && exists kind :: Admits(h, leaf.op, kind, leaf.value)
  {
    hide ValidPath, ValidOperand, Admits;
    if IsExistence(leaf.op) {
      forall kind ensures Admits(h, leaf.op, kind, leaf.value) <==> leaf.value.None? {
        ExistenceAdmits(h, leaf, kind);
      }
      assert Admits(h, leaf.op, StringType, leaf.value) <==> leaf.value.None?;
    } else {
      forall kind | Admits(h, leaf.op, kind, leaf.value) ensures leaf.value.Some? && ValidOperand(leaf.op, leaf.value.value) {
        AdmittedHasOperand(h, leaf, kind);
        AdmittedOperandIsValid(h, leaf.op, kind, leaf.value.value);
      }
      if leaf.value.Some? && ValidOperand(leaf.op, leaf.value.value) {
        if leaf.op.IpInCidr? { NetworkOperandIsText(leaf.op, leaf.value.value); }
        var kind := ValidOperandIsAdmitted(h, leaf.op, leaf.value.value);
      }
    }
  }

  lemma ExistenceAdmits(h: Host, leaf: Leaf, kind: FieldType)
    requires IsExistence(leaf.op)
    ensures Admits(h, leaf.op, kind, leaf.value) <==> leaf.value.None?
  {
  }

  lemma AdmittedHasOperand(h: Host, leaf: Leaf, kind: FieldType)
    requires !IsExistence(leaf.op) && Admits(h, leaf.op, kind, leaf.value)
    ensures leaf.value.Some?
  {
  }

  lemma NetworkOperandIsText(op: Operator, value: Literal)
    requires op.IpInCidr? && ValidOperand(op, value)
    ensures value.TextLiteral?
  {
  }

  // ---- Size ----

  /** The measured leaf count is the number of leaves. */
  lemma {:induction false} MeasuredLeaves(c: Condition)
    ensures Measure(c).leaves == |Leaves(c)|
    decreases c, 1
  {
    match c
    case Test(_) =>
    case All(nodes) => MeasuredLeavesAll(nodes);
    case Any(nodes) => MeasuredLeavesAll(nodes);
    case Not(child) => MeasuredLeaves(child);
  }

  lemma {:induction false} MeasuredLeavesAll(nodes: seq<Condition>)
    ensures MeasureAll(nodes).leaves == |LeavesAll(nodes)|
    decreases nodes, 0
  {
    if nodes != [] {
      MeasuredLeaves(nodes[0]);
      MeasuredLeavesAll(nodes[1..]);
    }
  }

  /** The depth of a list is that of one of its members. */
  lemma {:induction false} MeasuredDepthAll(nodes: seq<Condition>)
    ensures nodes == [] ==> MeasureAll(nodes).depth == 0
    ensures nodes != [] ==> exists i | 0 <= i < |nodes| :: Measure(nodes[i]).depth == MeasureAll(nodes).depth
  {
    if nodes != [] {
      var rest := nodes[1..];
      MeasuredDepthAll(rest);
      assert forall i | 0 < i < |nodes| :: nodes[i] == rest[i - 1];
      if rest != [] && MeasureAll(rest).depth > Measure(nodes[0]).depth {
        var i :| 0 <= i < |rest| && Measure(rest[i]).depth == MeasureAll(rest).depth;
        assert nodes[i + 1] == rest[i];
      } else {
        assert Measure(nodes[0]).depth == MeasureAll(nodes).depth;
      }
    }
  }

  /** Some address is only one step short of the measured depth, which none reaches. */
  lemma {:induction false} DeepestAddress(c: Condition) returns (a: Position)
    ensures Walk(c, a).Some? && |a| + 1 == Measure(c).depth
    decreases c
  {
    match c
    case Test(_) => a := [];
    case Not(child) =>
      a := DeepestAddress(child);
      a := StepTo(c, Step(NotKind, 0), a);
    case All(nodes) =>
      MeasuredDepthAll(nodes);
      if nodes == [] {
        a := [];
      } else {
        var i :| 0 <= i < |nodes| && Measure(nodes[i]).depth == MeasureAll(nodes).depth;
        a := DeepestAddress(nodes[i]);
        a := StepTo(c, Step(AllKind, i), a);
      }
    case Any(nodes) =>
      MeasuredDepthAll(nodes);
      if nodes == [] {
        a := [];
      } else {
        var i :| 0 <= i < |nodes| && Measure(nodes[i]).depth == MeasureAll(nodes).depth;
        a := DeepestAddress(nodes[i]);
        a := StepTo(c, Step(AnyKind, i), a);
      }
  }

  lemma StepTo(c: Condition, step: Step, a: Position) returns (b: Position)
    requires ConditionStep(c, step).Some? && Walk(ConditionStep(c, step).value, a).Some?
    ensures Walk(c, b).Some? && |b| == |a| + 1
  {
    b := [step] + a;
    assert b[0] == step && b[1..] == a;
  }

  // ---- Parts ----

  lemma {:induction false} SourceDataUsed(c: Condition)
    ensures UsesSourceData(c) <==> exists leaf | leaf in Leaves(c) :: "source_data." <= leaf.field
    decreases c, 1
  {
    match c
    case Test(leaf) => assert Leaves(c) == [leaf];
    case All(nodes) => SourceDataUsedAll(nodes);
    case Any(nodes) => SourceDataUsedAll(nodes);
    case Not(child) => SourceDataUsed(child);
  }

  lemma {:induction false} SourceDataUsedAll(nodes: seq<Condition>)
    ensures (exists node | node in nodes :: UsesSourceData(node))
      <==> exists leaf | leaf in LeavesAll(nodes) :: "source_data." <= leaf.field
    decreases nodes, 0
  {
    if nodes != [] {
      SourceDataUsed(nodes[0]);
      SourceDataUsedAll(nodes[1..]);
      assert forall node :: node in nodes <==> node == nodes[0] || node in nodes[1..];
      assert forall leaf :: leaf in LeavesAll(nodes) <==> leaf in Leaves(nodes[0]) || leaf in LeavesAll(nodes[1..]);
    }
  }

  /** A part of the tree is a valid leaf, a negation, or a group that is not empty. */
  predicate ValidPart(part: Condition)
  {
    match part
    case Test(leaf) => ValidLeaf(leaf)
    case All(nodes) => nodes != []
    case Any(nodes) => nodes != []
    case Not(_) => true
  }

  lemma {:induction false} PartIsValid(c: Condition, a: Position)
    requires ValidCondition(c) && Walk(c, a).Some?
    ensures ValidPart(Walk(c, a).value)
    decreases |a|
  {
    hide ValidLeaf;
    if a != [] { PartIsValid(ConditionStep(c, a[0]).value, a[1..]); }
  }

  lemma {:induction false} ValidByParts(c: Condition)
    requires forall a: Position | Walk(c, a).Some? :: ValidPart(Walk(c, a).value)
    ensures ValidCondition(c)
    decreases c
  {
    hide ValidLeaf;
    assert Walk(c, []) == Some(c) && ValidPart(c);
    match c
    case Test(_) =>
    case Not(child) =>
      PartsOfChild(c, Step(NotKind, 0));
      ValidByParts(child);
    case All(nodes) =>
      forall node | node in nodes ensures ValidCondition(node) {
        var i :| 0 <= i < |nodes| && nodes[i] == node;
        PartsOfChild(c, Step(AllKind, i));
        ValidByParts(node);
      }
    case Any(nodes) =>
      forall node | node in nodes ensures ValidCondition(node) {
        var i :| 0 <= i < |nodes| && nodes[i] == node;
        PartsOfChild(c, Step(AnyKind, i));
        ValidByParts(node);
      }
  }

  lemma PartsOfChild(c: Condition, step: Step)
    requires ConditionStep(c, step).Some?
    requires forall a: Position | Walk(c, a).Some? :: ValidPart(Walk(c, a).value)
    ensures forall a: Position | Walk(ConditionStep(c, step).value, a).Some? ::
      ValidPart(Walk(ConditionStep(c, step).value, a).value)
  {
    hide ValidPart;
    forall a: Position | Walk(ConditionStep(c, step).value, a).Some?
      ensures ValidPart(Walk(ConditionStep(c, step).value, a).value)
    {
      var b := [step] + a;
      assert b[0] == step && b[1..] == a;
      assert Walk(c, b) == Walk(ConditionStep(c, step).value, a);
    }
  }

  lemma {:induction false} BlankMeaning(h: Host, s: string)
    ensures Strip(h, s) == "" <==> forall c | c in s :: h.isSpace(c)
  {
    StripLeftBlank(h, s);
    StripRightBlank(h, StripLeft(h, s));
  }

  lemma {:induction false} StripLeftBlank(h: Host, s: string)
    ensures (forall c | c in StripLeft(h, s) :: h.isSpace(c)) <==> forall c | c in s :: h.isSpace(c)
  {
    if s != "" && h.isSpace(s[0]) {
      StripLeftBlank(h, s[1..]);
      assert forall c :: c in s <==> c == s[0] || c in s[1..];
    }
  }

  lemma {:induction false} StripRightBlank(h: Host, s: string)
    ensures StripRight(h, s) == "" <==> forall c | c in s :: h.isSpace(c)
  {
    if s != "" {
      var (init, last) := (s[..|s| - 1], s[|s| - 1]);
      assert s == init + [last] && last in s;
      if h.isSpace(last) { StripRightBlank(h, init); }
    }
  }

  // ---- Rules ----

  /** A rule is valid exactly when its identifier is a slug, its version positive, title
      and description hold something other than white space, categories and sources are
      not empty and without repetition, every part of its condition is valid, no address
      in the condition has more than seven steps, it has at most 64 leaves, and sources
      are given if a leaf reads retained data. */
  lemma RuleValidity(h: Host, r: Rule)
    ensures ValidRule(h, r) <==>
      && IsSlug(r.id) && r.version > 0
      && (exists c | c in r.title :: !h.isSpace(c)) && (exists c | c in r.description :: !h.isSpace(c))
      && r.categories != [] && Distinct(r.categories)
      && (r.sources.Some? ==> r.sources.value != [] && Distinct(r.sources.value))
      && (forall a: Position | Walk(r.condition, a).Some? :: ValidPart(Walk(r.condition, a).value) && |a| <= 7)
      && |Leaves(r.condition)| <= 64
      && ((exists leaf | leaf in Leaves(r.condition) :: "source_data." <= leaf.field) ==> r.sources.Some?)
  {
    hide ValidPart, Strip, IsSlug, ValidCondition, Measure, Leaves, Distinct, UsesSourceData;
    var c := r.condition;
    BlankMeaning(h, r.title);
    BlankMeaning(h, r.description);
    MeasuredLeaves(c);
    SourceDataUsed(c);
    var deepest := DeepestAddress(c);
    forall a: Position | Walk(c, a).Some?
      ensures |a| < Measure(c).depth
      ensures ValidCondition(c) ==> ValidPart(Walk(c, a).value)
    {
      AddressWithinDepth(c, a);
      if ValidCondition(c) { PartIsValid(c, a); }
    }
    if forall a: Position | Walk(c, a).Some? :: ValidPart(Walk(c, a).value) { ValidByParts(c); }
  }

  // ---- Events ----

  /** What validity asks of a value of the event itself, by its name. */
  predicate ValidCommonDatum(name: string, value: Scalar)
  {
    match value
    case TextValue(text) => name == "provider" || name == "channel" || name == "computer" ==> text != ""
    case NumberValue(number) => if name == "event_id" then number > 0 else number >= 0
    case _ => true
  }

  /** What validity asks of a value of the context, by its name. */
  predicate ValidContextDatum(name: string, value: Scalar)
  {
    match value
    case TextValue(text) => name == "image" || name == "target_path" || name == "query_name" ==> text != ""
    case NumberValue(number) => number >= 0 && (name == "source_port" || name == "destination_port" ==> number <= 65_535)
    case _ => true
  }

  ghost predicate ValidCommonData(e: Event)
  {
    forall name | CommonDatum(e, name).Some? :: ValidCommonDatum(name, CommonDatum(e, name).value)
  }

  ghost predicate ValidContextData(context: EventContext)
  {
    forall name | ContextDatum(context, name).Some? :: ValidContextDatum(name, ContextDatum(context, name).value)
  }

  lemma CommonDataValidity(e: Event)
    ensures ValidCommonData(e) <==>
      e.provider != "" && e.eventId > 0 && e.channel != "" && e.computer != "" && NonNegative(e.recordId)
  {
    if ValidCommonData(e) {
      assert CommonDatum(e, "provider") == Some(TextValue(e.provider)) && CommonDatum(e, "channel") == Some(TextValue(e.channel));
      assert CommonDatum(e, "computer") == Some(TextValue(e.computer)) && CommonDatum(e, "event_id") == Some(NumberValue(e.eventId));
      assert CommonDatum(e, "record_id") == NumberIn(e.recordId);
    }
  }

  lemma AuthenticationValidity(c: EventContext)
    requires c.AuthenticationContext?
    ensures ValidContextData(c) <==> ValidContext(c)
  {
    if ValidContextData(c) {
      assert ContextDatum(c, "logon_type") == NumberIn(c.logonType) && ContextDatum(c, "source_port") == NumberIn(c.sourcePort);
    }
  }

  lemma ProcessValidity(c: EventContext)
    requires c.ProcessContext?
    ensures ValidContextData(c) <==> ValidContext(c)
  {
    if ValidContextData(c) {
      assert ContextDatum(c, "image") == Some(TextValue(c.image)) && ContextDatum(c, "process_id") == NumberIn(c.processId);
      assert ContextDatum(c, "parent_process_id") == NumberIn(c.parentProcessId);
    }
  }

  lemma NetworkValidity(c: EventContext)
    requires c.NetworkContext?
    ensures ValidContextData(c) <==> ValidContext(c)
  {
    if ValidContextData(c) {
      assert ContextDatum(c, "source_port") == Some(NumberValue(c.networkSourcePort));
      assert ContextDatum(c, "destination_port") == Some(NumberValue(c.destinationPort));
      assert ContextDatum(c, "process_id") == NumberIn(c.processId);
    }
  }

  lemma FileValidity(c: EventContext)
    requires c.FileContext?
    ensures ValidContextData(c) <==> ValidContext(c)
  {
    if ValidContextData(c) {
      assert ContextDatum(c, "target_path") == Some(TextValue(c.targetPath)) && ContextDatum(c, "process_id") == NumberIn(c.processId);
    }
  }

  lemma DnsValidity(c: EventContext)
    requires c.DnsContext?
    ensures ValidContextData(c) <==> ValidContext(c)
  {
    if ValidContextData(c) {
      assert ContextDatum(c, "query_name") == Some(TextValue(c.queryName)) && ContextDatum(c, "process_id") == NumberIn(c.processId);
    }
  }

  /** An event is valid exactly when its context is that of its category and the values
      that conditions can read are in order: the six mandatory texts are not empty, the
      event id is positive, and all other numbers are non-negative, ports at most 65535. */
  lemma EventValidity(e: Event)
    ensures ValidEvent(e) <==>
      && (match e.category
          case AuthenticationEvent => e.context.AuthenticationContext?
          case ProcessEvent => e.context.ProcessContext?
          case NetworkEvent => e.context.NetworkContext?
          case FileEvent => e.context.FileContext?
          case DnsEvent => e.context.DnsContext?)
      && ValidCommonData(e) && ValidContextData(e.context)
  {
    hide ValidCommonData, ValidContextData, ValidContext;
    CommonDataValidity(e);
    match e.context
    case AuthenticationContext(_, _, _, _, _, _, _) => AuthenticationValidity(e.context);
    case ProcessContext(_, _, _, _, _, _) => ProcessValidity(e.context);
    case NetworkContext(_, _, _, _, _, _, _) => NetworkValidity(e.context);
    case FileContext(_, _, _) => FileValidity(e.context);
    case DnsContext(_, _, _, _, _) => DnsValidity(e.context);
  }

  // ---- Traces ----

  /** A node that the evaluator's constructors make: a valid leaf with its evidence, or a
      group or negation over children at consecutive locations. */
  ghost predicate IsBuilt(t: Trace)
  {
    if t.kind.LeafKind? then
      exists leaf, presence :: ValidLeaf(leaf) && t == LeafNode(t.location, leaf, t.outcome, presence)
    else
      && t == LogicalNode(t.location, t.kind, t.outcome, t.children)
      && (if t.kind.NotKind? then |t.children| == 1 else |t.children| > 0)
      && forall i | 0 <= i < |t.children| :: t.children[i].location == t.location + Segment(t.kind, i)
  }

  /** A leaf whose value is replaced by a marker. */
  predicate IsRedaction(t: Trace, original: Trace, marker: string)
  {
    && original.kind.LeafKind? && marker != ""
    && t == original.(actual := None, redacted := true, redactionMarker := Some(marker))
  }

  /** Validation accepts, at a valid location, exactly the nodes that evaluation can make
      and the redactions of such leaves. */
  lemma TraceValidity(h: Host, t: Trace)
    ensures ValidTrace(h, t) <==>
      && ValidLocation(h, t.location)
      && (IsBuilt(t) || exists original, marker :: IsBuilt(original) && IsRedaction(t, original, marker))
  {
    hide ValidLocation, ValidPath, ValidOperand, Segment;
    if ValidTrace(h, t) {
      if t.kind.LeafKind? {
        LeafTraceIsBuilt(h, t);
      } else {
        assert IsBuilt(t);
      }
    }
  }

  lemma LeafTraceIsBuilt(h: Host, t: Trace)
    requires ValidTrace(h, t) && t.kind.LeafKind?
    ensures IsBuilt(t) || exists original, marker :: IsBuilt(original) && IsRedaction(t, original, marker)
  {
    hide ValidLocation, ValidPath, ValidOperand;
    var leaf := Leaf(t.field.value, t.op.value, t.expected);
    var presence :=
      if t.actual.Some? then Present(t.actual.value)
      else if t.absence.Some? then NotPresent(t.absence.value)
      else Present(NumberValue(0));
    var original := LeafNode(t.location, leaf, t.outcome, presence);
    assert ValidLeaf(leaf) && IsBuilt(original);
    if t.redacted {
      assert IsRedaction(t, original, t.redactionMarker.value);
    } else {
      assert t == original;
    }
  }

  // ---- Matches ----

  /** Validation accepts exactly the matches that some valid rule could make of a true
      root. */
  lemma MatchValidity(h: Host, m: Match)
    ensures ValidMatch(h, m) <==>
      && m.trace.location == "$" && m.trace.outcome.True?
      && exists rule :: ValidRule(h, rule) && m == MatchFor(rule, m.event, m.trace)
  {
    hide Strip, IsSlug;
    if ValidMatch(h, m) {
      var condition := Test(Leaf("record_id", NotExists, None));
      var rule := Rule(m.ruleId, m.ruleVersion, m.ruleTitle, m.ruleTitle, [DnsEvent], None, condition);
      assert ValidCondition(condition) && Measure(condition) == Measurement(1, 1);
      assert !UsesSourceData(condition);
      assert ValidRule(h, rule) && m == MatchFor(rule, m.event, m.trace);
    }
  }

  lemma TreeValidity(h: Host, t: Trace)
    ensures ValidTraceTree(h, t) <==> forall a: Position | NodeAt(t, a).Some? :: ValidTrace(h, NodeAt(t, a).value)
  {
    hide ValidTrace;
    if ValidTraceTree(h, t) {
      forall a: Position | NodeAt(t, a).Some? ensures ValidTrace(h, NodeAt(t, a).value) {
        NodeIsValid(h, t, a);
      }
    } else {
      var a := BadNode(h, t);
    }
  }

  lemma {:induction false} NodeIsValid(h: Host, t: Trace, a: Position)
    requires ValidTraceTree(h, t) && NodeAt(t, a).Some?
    ensures ValidTrace(h, NodeAt(t, a).value)
    decreases |a|
  {
    hide ValidTrace;
    if a != [] {
      var child := TraceStep(t, a[0]).value;
      assert child in t.children;
      NodeIsValid(h, child, a[1..]);
    }
  }

  lemma {:induction false} BadNode(h: Host, t: Trace) returns (a: Position)
    requires !ValidTraceTree(h, t)
    ensures NodeAt(t, a).Some? && !ValidTrace(h, NodeAt(t, a).value)
    decreases t
  {
    if !ValidTrace(h, t) {
      a := [];
    } else {
      var i :| 0 <= i < |t.children| && !ValidTraceTree(h, t.children[i]);
      var below := BadNode(h, t.children[i]);
      var step := Step(t.kind, i);
      a := [step] + below;
      assert a[0] == step && a[1..] == below;
    }
  }

  /** Evidence is accepted exactly when the match is one that a valid rule could make,
      its event is valid, and so is every node of its trace. */
  lemma EvidenceValidity(h: Host, m: Match)
    ensures ValidEvidence(h, m) <==>
      && ValidMatch(h, m) && ValidEvent(m.event)
      && forall a: Position | NodeAt(m.trace, a).Some? :: ValidTrace(h, NodeAt(m.trace, a).value)
  {
    hide ValidMatch, ValidTrace, ValidTraceTree, ValidEvent;
    TreeValidity(h, m.trace);
  }
}
