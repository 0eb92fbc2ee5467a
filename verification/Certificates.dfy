/** What a trace proves to its reader: it is valid, it is about exactly the given
    condition, its outcomes follow from the recorded leaf evidence, its locations
    are addresses, and its size is bounded. */
module Certificates {
  import opened Wrappers
  import opened Text
  import opened Runtime
  import opened Events
  import opened Conditions
  import opened Semantics
  import opened Traces
  import opened Evaluator
  import opened Verdicts

  /** A trace of a valid condition is valid at every node, starts at the root and
      erases to that condition: same fields, operators, operands and child order. */
  lemma TraceIsAboutCondition(h: Host, event: Event, c: Condition)
    requires ValidCondition(c) && EvaluateCondition(h, event, c).Ok?
    ensures
      var t := EvaluateCondition(h, event, c).value;
      && ValidTraceTree(h, t) && t.location == "$" && Erase(h, t) == c
      && Verdict(h, event, c) == Ok(t.outcome)
  {
    assert ValidLocation(h, "$") by { assert "$"[1..] == ""; }
    EvaluateCertified(h, event, c, "$");
  }

  /** Failures are those of the verdict, so no valid condition ever fails in trace
      construction, and outcomes agree. */
  lemma EvaluationIsVerdict(h: Host, event: Event, c: Condition)
    requires ValidCondition(c)
    ensures match (EvaluateCondition(h, event, c), Verdict(h, event, c))
      case (Ok(t), Ok(o)) => t.outcome == o
      case (Err(e), Err(e')) => e == e'
      case _ => false
  {
    assert ValidLocation(h, "$") by { assert "$"[1..] == ""; }
    EvaluateCertified(h, event, c, "$");
  }

  // ---- Replay ----

  function TypeOf(value: Scalar): FieldType
  {
    match value
    case TextValue(_) => StringType
    case NumberValue(_) => IntegerType
    case AddressValue(_) => IpType
    case TimeValue(_) => TimestampType
  }

  /** The outcome that the evidence of one leaf supports. No event is consulted. */
  function ReplayLeaf(h: Host, t: Trace): Outcome
  {
    if t.op.None? then Unknown
    else if t.op.value.Exists? then OutcomeOf(t.actual.Some?)
    else if t.op.value.NotExists? then OutcomeOf(t.actual.None?)
    else if t.actual.None? then Unknown
    else
      match ValidatedOperands(h, TypeOf(t.actual.value), Leaf("", t.op.value, t.expected))
      case Err(_) => Unknown
      case Ok(operands) =>
        match Compare(t.actual.value, t.op.value, operands)
        case Err(_) => Unknown
        case Ok(result) => OutcomeOf(result)
  }

  /** Recompute a node from the leaves below it, ignoring every recorded outcome. */
  function Replay(h: Host, t: Trace): Outcome
    decreases t, 1
  {
    match t.kind
    case LeafKind => ReplayLeaf(h, t)
    case NotKind => if t.children == [] then Unknown else Negate(Replay(h, t.children[0]))
    case _ => Combine(t.kind, ReplayEach(h, t.children))
  }

  function ReplayEach(h: Host, ts: seq<Trace>): seq<Outcome>
    decreases ts, 0
  {
    if ts == [] then [] else [Replay(h, ts[0])] + ReplayEach(h, ts[1..])
  }

  /** Replay reproduces the outcome recorded at every node. */
  ghost predicate Replays(h: Host, t: Trace)
  {
    t.outcome == Replay(h, t) && forall child | child in t.children :: Replays(h, child)
  }

  /** Parsing an operand depends on the field type and the literal, not on the path. */
  lemma {:induction false} OperandsIgnorePath(h: Host, kind: FieldType, a: Leaf, b: Leaf, values: seq<Literal>)
    requires a.op == b.op
    ensures ParseOperands(h, kind, a, values).Ok? == ParseOperands(h, kind, b, values).Ok?
    ensures ParseOperands(h, kind, a, values).Ok? ==> ParseOperands(h, kind, a, values) == ParseOperands(h, kind, b, values)
  {
    if values != [] {
      OperandsIgnorePath(h, kind, a, b, values[1..]);
    }
  }

  lemma ValidatedOperandsIgnorePath(h: Host, kind: FieldType, leaf: Leaf, path: string)
    requires ValidatedOperands(h, kind, leaf).Ok?
    ensures ValidatedOperands(h, kind, leaf.(field := path)) == ValidatedOperands(h, kind, leaf)
  {
    if TakesList(leaf.op) {
      OperandsIgnorePath(h, kind, leaf, leaf.(field := path), leaf.value.value.items);
    }
  }

  lemma ResolvedHasType(h: Host, event: Event, path: string)
    requires ResolveEventField(h, event, path).Ok?
    ensures var field := ResolveEventField(h, event, path).value;
      field.presence.Present? ==> TypeOf(field.presence.value) == field.kind
  {
  }

  lemma LeafNodeReplays(h: Host, field: ResolvedField, leaf: Leaf, location: string)
    requires field.presence.Present? ==> TypeOf(field.presence.value) == field.kind
    requires ValidatedOperands(h, field.kind, leaf).Ok?
    requires LeafOutcome(field, leaf, ValidatedOperands(h, field.kind, leaf).value).Ok?
    ensures
      var outcome := LeafOutcome(field, leaf, ValidatedOperands(h, field.kind, leaf).value).value;
      ReplayLeaf(h, LeafNode(location, leaf, outcome, field.presence)) == outcome
  {
    if field.presence.Present? && !IsExistence(leaf.op) {
      var outcome := LeafOutcome(field, leaf, ValidatedOperands(h, field.kind, leaf).value).value;
      var t := LeafNode(location, leaf, outcome, field.presence);
      assert leaf.value.Some? && leaf.(field := "") == Leaf("", leaf.op, t.expected);
      ValidatedOperandsIgnorePath(h, field.kind, leaf, "");
    }
  }

  lemma LeafReplays(h: Host, event: Event, leaf: Leaf, location: string)
    requires EvaluateLeaf(h, event, leaf, location).Ok?
    ensures Replays(h, EvaluateLeaf(h, event, leaf, location).value)
  {
    ResolvedHasType(h, event, leaf.field);
    LeafNodeReplays(h, ResolveEventField(h, event, leaf.field).value, leaf, location);
  }

  /** The trace is a replayable certificate at every node. */
  lemma {:induction false} EvaluateReplays(h: Host, event: Event, c: Condition, location: string)
    requires Evaluate(h, event, c, location).Ok?
    ensures Replays(h, Evaluate(h, event, c, location).value)
    decreases c, 1
  {
    match c
    case Test(leaf) => LeafReplays(h, event, leaf, location);
    case Not(child) => EvaluateReplays(h, event, child, ChildLocation(location, NotKind, 0));
    case All(nodes) =>
      EvaluateEachReplays(h, event, nodes, AllKind, location, 0);
      OutcomesReplay(h, EvaluateEach(h, event, nodes, AllKind, location, 0).value);
    case Any(nodes) =>
      EvaluateEachReplays(h, event, nodes, AnyKind, location, 0);
      OutcomesReplay(h, EvaluateEach(h, event, nodes, AnyKind, location, 0).value);
  }

  lemma {:induction false} OutcomesReplay(h: Host, ts: seq<Trace>)
    requires forall t | t in ts :: Replays(h, t)
    ensures Outcomes(ts) == ReplayEach(h, ts)
  {
    if ts != [] {
      OutcomesReplay(h, ts[1..]);
      assert Replays(h, ts[0]);
      assert Outcomes(ts) == [ts[0].outcome] + Outcomes(ts[1..]);
    }
  }

  lemma {:induction false} EvaluateEachReplays(h: Host, event: Event, nodes: seq<Condition>, kind: TraceKind,
                                               location: string, index: nat)
    requires EvaluateEach(h, event, nodes, kind, location, index).Ok?
    ensures forall t | t in EvaluateEach(h, event, nodes, kind, location, index).value :: Replays(h, t)
    decreases nodes, 0
  {
    if nodes != [] {
      EvaluateReplays(h, event, nodes[0], ChildLocation(location, kind, index));
      EvaluateEachReplays(h, event, nodes[1..], kind, location, index + 1);
    }
  }

  // ---- Locations are addresses ----

  /** A step into child `index` of a node of a given logical kind. */
  datatype RawStep = Step(kind: TraceKind, index: nat)
  type Step = s: RawStep | s.kind.AllKind? || s.kind.AnyKind? || s == Step(NotKind, 0) witness Step(NotKind, 0)
  type Position = seq<Step>

  function RenderStep(step: Step): string { Segment(step.kind, step.index) }

  function RenderSteps(a: Position): string
  {
    if a == [] then "" else RenderStep(a[0]) + RenderSteps(a[1..])
  }

  function Render(a: Position): string { "$" + RenderSteps(a) }

  /** The longest prefix of digits. */
  function LeadingDigits(s: string): (digits: string)
    ensures digits <= s && forall c | c in digits :: IsDigit(c)
  {
    if s != "" && IsDigit(s[0]) then [s[0]] + LeadingDigits(s[1..]) else ""
  }

  /** Read one step off the front of a location tail. */
  function DecodeStep(s: string): (r: Option<(Step, string)>)
    ensures r.Some? ==> |r.value.1| < |s|
  {
    if ".not" <= s then Some((Step(NotKind, 0), s[4..]))
    else if ".all[" <= s || ".any[" <= s then
      var digits := LeadingDigits(s[5..]);
      var after := s[5 + |digits|..];
      if digits == "" || after == "" || after[0] != ']' then None
      else Some((Step(if ".all[" <= s then AllKind else AnyKind, DecimalValue(digits)), after[1..]))
    else None
  }

  function DecodeSteps(s: string): Option<Position>
    decreases |s|
  {
    if s == "" then Some([])
    else
      match DecodeStep(s)
      case None => None
      case Some((step, tail)) =>
        match DecodeSteps(tail) case None => None case Some(rest) => Some([step] + rest)
  }

  function Decode(location: string): Option<Position>
  {
    if location != "" && location[0] == '$' then DecodeSteps(location[1..]) else None
  }

  lemma {:induction false} LeadingDigitsStop(digits: string, tail: string)
    requires forall c | c in digits :: IsDigit(c)
    requires tail != "" && !IsDigit(tail[0])
    ensures LeadingDigits(digits + tail) == digits
  {
    if digits == "" {
      assert digits + tail == tail;
    } else {
      assert (digits + tail)[1..] == digits[1..] + tail;
      LeadingDigitsStop(digits[1..], tail);
    }
  }

  lemma IndexParts(head: string, digits: string, tail: string, s: string)
    requires |head| == 5 && s == head + digits + "]" + tail
    ensures head <= s && s[5..] == digits + ("]" + tail) && s[5 + |digits|..] == "]" + tail
  {
  }

  lemma DecodeIndexed(head: string, digits: string, tail: string)
    requires head == ".all[" || head == ".any["
    requires digits != "" && forall c | c in digits :: IsDigit(c)
    ensures
      var kind := if head == ".all[" then AllKind else AnyKind;
      DecodeStep(head + digits + "]" + tail) == Some((Step(kind, DecimalValue(digits)), tail))
  {
    hide LeadingDigits, DecimalValue;
    var s := head + digits + "]" + tail;
    IndexParts(head, digits, tail, s);
    assert s[1] == 'a' && s[2] == head[2];
    LeadingDigitsStop(digits, "]" + tail);
    assert ("]" + tail)[1..] == tail;
  }

  lemma DecodeStepOfRender(step: Step, tail: string)
    ensures DecodeStep(RenderStep(step) + tail) == Some((step, tail))
  {
    hide Decimal, DecimalValue, LeadingDigits;
    if step.kind.NotKind? {
      assert (RenderStep(step) + tail)[4..] == tail;
    } else {
      DecimalRoundTrip(step.index);
      DecodeIndexed(if step.kind.AllKind? then ".all[" else ".any[", Decimal(step.index), tail);
    }
  }

  lemma {:induction false} DecodeOfRenderSteps(a: Position)
    ensures DecodeSteps(RenderSteps(a)) == Some(a)
  {
    if a != [] {
      DecodeOfRenderSteps(a[1..]);
      DecodeStepOfRender(a[0], RenderSteps(a[1..]));
      assert a == [a[0]] + a[1..];
    }
  }

  /** A rendered address decodes to itself, so different addresses render differently. */
  lemma DecodeOfRender(a: Position)
    ensures Decode(Render(a)) == Some(a)
  {
    DecodeOfRenderSteps(a);
    assert Render(a)[1..] == RenderSteps(a);
  }

  // ---- The language of locations ----

  /** No decimal digits but the ASCII ones. */
  predicate PlainDigits(h: Host, s: string)
  {
    forall c | c in s :: h.isDecimal(c) <==> IsDigit(c)
  }

  /** An indexed segment is a keyword, digits and a bracket. */
  lemma ValidIndexed(h: Host, s: string)
    requires ".all[" <= s || ".any[" <= s
    requires PlainDigits(h, s)
    ensures (|s| > 5 && h.isDecimal(s[5]) && ValidDigits(h, s[6..])) <==>
      var digits := LeadingDigits(s[5..]);
      var after := s[5 + |digits|..];
      digits != "" && after != "" && after[0] == ']' && ValidSteps(h, after[1..])
  {
    if |s| > 5 {
      assert s[5] in s && s[5..][0] == s[5] && s[5..][1..] == s[6..];
      assert forall c | c in s[6..] :: c in s;
      DigitsUpToBracket(h, s[6..]);
      if IsDigit(s[5]) {
        assert LeadingDigits(s[5..]) == [s[5]] + LeadingDigits(s[6..]);
        assert s[5 + |LeadingDigits(s[5..])|..] == s[6..][|LeadingDigits(s[6..])|..];
      }
    } else {
      assert s[5..] == "";
    }
  }

  lemma {:induction false} DigitsUpToBracket(h: Host, s: string)
    requires PlainDigits(h, s)
    ensures ValidDigits(h, s) <==>
      var after := s[|LeadingDigits(s)|..];
      after != "" && after[0] == ']' && ValidSteps(h, after[1..])
  {
    if s != "" {
      assert s[0] in s && forall c | c in s[1..] :: c in s;
      if IsDigit(s[0]) {
        DigitsUpToBracket(h, s[1..]);
        assert LeadingDigits(s) == [s[0]] + LeadingDigits(s[1..]);
        assert s[|LeadingDigits(s)|..] == s[1..][|LeadingDigits(s[1..])|..];
      } else {
        assert s[|LeadingDigits(s)|..] == s;
      }
    }
  }

  lemma {:induction false} StepLanguage(h: Host, s: string)
    requires PlainDigits(h, s)
    ensures ValidSteps(h, s) <==> DecodeSteps(s).Some?
    decreases |s|
  {
    if s != "" {
      if ".not" <= s {
        assert forall c | c in s[4..] :: c in s;
        assert s[1] == 'n';
        StepLanguage(h, s[4..]);
      } else if ".all[" <= s || ".any[" <= s {
        ValidIndexed(h, s);
        var after := s[5 + |LeadingDigits(s[5..])|..];
        if after != "" {
          assert forall c | c in after[1..] :: c in s;
          StepLanguage(h, after[1..]);
        }
      }
    }
  }

  /** The text with an ASCII digit in place of every other decimal digit. */
  function Plain(h: Host, s: string): (r: string)
    ensures |r| == |s|
    ensures forall i | 0 <= i < |s| :: r[i] == if h.isDecimal(s[i]) && !IsAscii(s[i]) then '0' else s[i]
  {
    if s == "" then ""
    else [if h.isDecimal(s[0]) && !IsAscii(s[0]) then '0' else s[0]] + Plain(h, s[1..])
  }

  lemma PlainTail(h: Host, s: string, k: nat)
    requires k <= |s|
    ensures Plain(h, s)[k..] == Plain(h, s[k..])
  {
  }

  lemma PlainHead(h: Host, s: string, head: string)
    requires forall c | c in head :: IsAscii(c) && !IsDigit(c)
    ensures head <= s <==> head <= Plain(h, s)
  {
    if |head| <= |s| {
      var plain := Plain(h, s);
      forall i | 0 <= i < |head| ensures head[i] == s[i] <==> head[i] == plain[i] {
        assert head[i] in head;
      }
      assert head <= s <==> forall i | 0 <= i < |head| :: head[i] == s[i];
      assert head <= plain <==> forall i | 0 <= i < |head| :: head[i] == plain[i];
    }
  }

  /** Which decimal digits an index is written with makes no difference. */
  lemma {:induction false} PlainSteps(h: Host, s: string)
    ensures ValidSteps(h, s) <==> ValidSteps(h, Plain(h, s))
    decreases |s|, 1
  {
    hide Plain;
    PlainHead(h, s, ".not");
    PlainHead(h, s, ".all[");
    PlainHead(h, s, ".any[");
    if |s| >= 4 {
      PlainTail(h, s, 4);
      PlainSteps(h, s[4..]);
    }
    if |s| > 5 {
      PlainTail(h, s, 6);
      PlainIndex(h, s[6..]);
    }
  }

  lemma {:induction false} PlainIndex(h: Host, s: string)
    ensures ValidDigits(h, s) <==> ValidDigits(h, Plain(h, s))
    decreases |s|, 0
  {
    hide Plain;
    if s != "" {
      PlainTail(h, s, 1);
      PlainSteps(h, s[1..]);
      PlainIndex(h, s[1..]);
    }
  }

  lemma PlainIsPlain(h: Host, s: string)
    ensures PlainDigits(h, Plain(h, s))
    ensures (forall c | c in s :: IsAscii(c)) ==> Plain(h, s) == s
  {
    forall c | c in Plain(h, s) ensures h.isDecimal(c) <==> IsDigit(c) {
      var i :| 0 <= i < |s| && Plain(h, s)[i] == c;
    }
    if forall c | c in s :: IsAscii(c) {
      forall i | 0 <= i < |s| ensures Plain(h, s)[i] == s[i] { assert s[i] in s; }
    }
  }

  /** The locations that validation accepts are exactly those that decode to an address,
      once every decimal digit is taken for an ASCII one. */
  lemma LocationLanguage(h: Host, s: string)
    ensures ValidLocation(h, s) <==> Decode(Plain(h, s)).Some?
    ensures (forall c | c in s :: IsAscii(c)) ==> (ValidLocation(h, s) <==> Decode(s).Some?)
  {
    PlainIsPlain(h, s);
    if s != "" {
      PlainHead(h, s, "$");
      PlainTail(h, s, 1);
      PlainSteps(h, s[1..]);
      PlainIsPlain(h, s[1..]);
      StepLanguage(h, Plain(h, s[1..]));
    }
  }

  /** The node a step leads to, if the step fits the kind of node it leaves. */
  function TraceStep(t: Trace, step: Step): Option<Trace>
  {
    if step.kind == t.kind && step.index < |t.children| then Some(t.children[step.index]) else None
  }

  function NodeAt(t: Trace, a: Position): Option<Trace>
  {
    if a == [] then Some(t)
    else match TraceStep(t, a[0]) case None => None case Some(child) => NodeAt(child, a[1..])
  }

  function ConditionStep(c: Condition, step: Step): Option<Condition>
  {
    match (step.kind, c)
    case (AllKind, All(nodes)) => if step.index < |nodes| then Some(nodes[step.index]) else None
    case (AnyKind, Any(nodes)) => if step.index < |nodes| then Some(nodes[step.index]) else None
    case (NotKind, Not(child)) => Some(child)
    case _ => None
  }

  function Walk(c: Condition, a: Position): Option<Condition>
  {
    if a == [] then Some(c)
    else match ConditionStep(c, a[0]) case None => None case Some(child) => Walk(child, a[1..])
  }

  /** A step through a valid trace mirrors the step through the erased condition. */
  lemma StepMirrors(h: Host, t: Trace, step: Step)
    requires ValidTraceTree(h, t)
    ensures TraceStep(t, step).Some? <==> ConditionStep(Erase(h, t), step).Some?
    ensures TraceStep(t, step).Some? ==>
      var child := TraceStep(t, step).value;
      && ValidTraceTree(h, child)
      && child.location == t.location + RenderStep(step)
      && ConditionStep(Erase(h, t), step) == Some(Erase(h, child))
  {
    if TraceStep(t, step).Some? {
      var child := t.children[step.index];
      assert child in t.children;
      assert child.location == ChildLocation(t.location, t.kind, step.index);
    }
  }

  ghost predicate Located(h: Host, n: Option<Trace>, part: Option<Condition>, location: string)
  {
    match (n, part)
    case (Some(node), Some(c)) => ValidTraceTree(h, node) && node.location == location && Erase(h, node) == c
    case (None, None) => true
    case _ => false
  }

  /** Inside a valid trace, the node at an address is located there, and the same
      address leads from the erased condition to the part that the node is about. */
  lemma {:induction false} NodeLocation(h: Host, t: Trace, c: Condition, a: Position)
    requires ValidTraceTree(h, t) && Erase(h, t) == c
    ensures Located(h, NodeAt(t, a), Walk(c, a), t.location + RenderSteps(a))
    decreases |a|
  {
    if a == [] {
      assert t.location + "" == t.location;
    } else {
      StepMirrors(h, t, a[0]);
      if TraceStep(t, a[0]).Some? {
        var child := TraceStep(t, a[0]).value;
        NodeLocation(h, child, Erase(h, child), a[1..]);
        AppendSteps(t.location, a);
      }
    }
  }

  lemma AppendSteps(location: string, a: Position)
    requires a != []
    ensures location + RenderSteps(a) == location + RenderStep(a[0]) + RenderSteps(a[1..])
  {
  }

  /** In a rooted valid trace tree, locations of different nodes are different
      strings, and decoding a location gives the address of its node. */
  lemma LocationsAreAddresses(h: Host, t: Trace, a: Position, b: Position)
    requires ValidTraceTree(h, t) && t.location == "$"
    requires NodeAt(t, a).Some? && NodeAt(t, b).Some?
    ensures Decode(NodeAt(t, a).value.location) == Some(a)
    ensures a != b ==> NodeAt(t, a).value.location != NodeAt(t, b).value.location
  {
    NodeLocation(h, t, Erase(h, t), a);
    NodeLocation(h, t, Erase(h, t), b);
    DecodeOfRender(a);
    DecodeOfRender(b);
  }

  /** Decoding a location that the evaluator produced walks the condition to exactly
      the part evaluated there, with the outcome that part has on the event. */
  lemma LocationLeadsToCondition(h: Host, event: Event, c: Condition, a: Position)
    requires ValidCondition(c) && EvaluateCondition(h, event, c).Ok?
    ensures NodeAt(EvaluateCondition(h, event, c).value, a).Some? <==> Walk(c, a).Some?
    ensures NodeAt(EvaluateCondition(h, event, c).value, a).Some? ==>
      var n := NodeAt(EvaluateCondition(h, event, c).value, a).value;
      && Decode(n.location) == Some(a)
      && ValidTraceTree(h, n)
      && Walk(c, a) == Some(Erase(h, n))
      && Verdict(h, event, Walk(c, a).value) == Ok(n.outcome)
  {
    TraceIsAboutCondition(h, event, c);
    var t := EvaluateCondition(h, event, c).value;
    NodeLocation(h, t, c, a);
    if NodeAt(t, a).Some? {
      DecodeOfRender(a);
      NodeOutcome(h, event, c, "$", a);
    }
  }

  /** The child a step leads to is the evaluation of the corresponding part. */
  lemma StepEvaluation(h: Host, event: Event, c: Condition, location: string, step: Step)
    requires Evaluate(h, event, c, location).Ok?
    requires ConditionStep(c, step).Some? && TraceStep(Evaluate(h, event, c, location).value, step).Some?
    ensures Evaluate(h, event, ConditionStep(c, step).value, ChildLocation(location, step.kind, step.index))
         == Ok(TraceStep(Evaluate(h, event, c, location).value, step).value)
  {
    hide EvaluateLeaf, ValidTrace, Combine, Outcomes, ChildLocation, Negate;
    match c
    case Not(child) =>
    case All(nodes) => EvaluateEachAt(h, event, nodes, AllKind, location, 0, step.index);
    case Any(nodes) => EvaluateEachAt(h, event, nodes, AnyKind, location, 0, step.index);
  }

  /** Every node of a trace is itself the evaluation of its part of the condition. */
  lemma {:induction false} NodeOutcome(h: Host, event: Event, c: Condition, location: string, a: Position)
    requires ValidCondition(c) && ValidLocation(h, location) && Evaluate(h, event, c, location).Ok?
    requires NodeAt(Evaluate(h, event, c, location).value, a).Some? && Walk(c, a).Some?
    ensures Verdict(h, event, Walk(c, a).value) == Ok(NodeAt(Evaluate(h, event, c, location).value, a).value.outcome)
    decreases |a|
  {
    hide EvaluateLeaf, LeafVerdict;
    if a == [] {
      EvaluateCertified(h, event, c, location);
    } else {
      StepEvaluation(h, event, c, location, a[0]);
      ChildLocationValid(h, location, a[0].kind, a[0].index);
      NodeOutcome(h, event, ConditionStep(c, a[0]).value, ChildLocation(location, a[0].kind, a[0].index), a[1..]);
    }
  }

  lemma {:induction false} EvaluateEachAt(h: Host, event: Event, nodes: seq<Condition>, kind: TraceKind,
                                          location: string, index: nat, i: nat)
    requires EvaluateEach(h, event, nodes, kind, location, index).Ok? && i < |nodes|
    ensures Evaluate(h, event, nodes[i], ChildLocation(location, kind, index + i))
         == Ok(EvaluateEach(h, event, nodes, kind, location, index).value[i])
    decreases i
  {
    hide Evaluate, EvaluateGroup, EvaluateLeaf, ChildLocation;
    if i > 0 {
      var ts := EvaluateEach(h, event, nodes, kind, location, index).value;
      var rest := EvaluateEach(h, event, nodes[1..], kind, location, index + 1).value;
      assert ts[1..] == rest;
      EvaluateEachAt(h, event, nodes[1..], kind, location, index + 1, i - 1);
      assert nodes[1..][i - 1] == nodes[i] && rest[i - 1] == ts[i] && index + 1 + (i - 1) == index + i;
    }
  }

  // ---- Size ----

  function TraceNodes(t: Trace): nat
    decreases t, 1
  {
    1 + TraceNodesAll(t.children)
  }

  function TraceNodesAll(ts: seq<Trace>): nat
    decreases ts, 0
  {
    if ts == [] then 0 else TraceNodes(ts[0]) + TraceNodesAll(ts[1..])
  }

  lemma {:induction false} LeavesPositive(c: Condition)
    requires ValidCondition(c)
    ensures Measure(c).leaves >= 1 && Measure(c).depth >= 1
    decreases c, 1
  {
    match c
    case Test(_) =>
    case All(nodes) => LeavesCoverList(nodes);
    case Any(nodes) => LeavesCoverList(nodes);
    case Not(child) => LeavesPositive(child);
  }

  lemma {:induction false} LeavesCoverList(nodes: seq<Condition>)
    requires forall node | node in nodes :: ValidCondition(node)
    ensures MeasureAll(nodes).leaves >= |nodes|
    ensures nodes != [] ==> MeasureAll(nodes).depth >= 1
    decreases nodes, 0
  {
    if nodes != [] {
      LeavesPositive(nodes[0]);
      LeavesCoverList(nodes[1..]);
    }
  }

  function ConditionNodes(c: Condition): nat
    decreases c, 1
  {
    match c
    case Test(_) => 1
    case All(nodes) => 1 + ConditionNodesAll(nodes)
    case Any(nodes) => 1 + ConditionNodesAll(nodes)
    case Not(child) => 1 + ConditionNodes(child)
  }

  function ConditionNodesAll(nodes: seq<Condition>): nat
    decreases nodes, 0
  {
    if nodes == [] then 0 else ConditionNodes(nodes[0]) + ConditionNodesAll(nodes[1..])
  }

  /** Erasing keeps the shape of the tree. */
  lemma {:induction false} ErasedSize(h: Host, t: Trace)
    requires ValidTraceTree(h, t)
    ensures TraceNodes(t) == ConditionNodes(Erase(h, t))
    decreases t, 1
  {
    if t.kind.NotKind? {
      ErasedSize(h, t.children[0]);
      assert t.children[1..] == [];
      assert TraceNodesAll(t.children) == TraceNodes(t.children[0]) + TraceNodesAll([]);
    } else {
      ErasedSizeAll(h, t.children);
    }
  }

  lemma {:induction false} ErasedSizeAll(h: Host, ts: seq<Trace>)
    requires forall t | t in ts :: ValidTraceTree(h, t)
    ensures TraceNodesAll(ts) == ConditionNodesAll(EraseEach(h, ts))
    decreases ts, 0
  {
    if ts != [] {
      ErasedSize(h, ts[0]);
      ErasedSizeAll(h, ts[1..]);
      assert EraseEach(h, ts)[1..] == EraseEach(h, ts[1..]);
    }
  }

  /** A condition has at most 1 + leaves * (depth - 1) nodes. */
  lemma {:induction false} ConditionSize(c: Condition)
    requires ValidCondition(c)
    ensures ConditionNodes(c) <= 1 + Measure(c).leaves * (Measure(c).depth - 1)
    decreases c, 1
  {
    LeavesPositive(c);
    match c
    case Test(_) =>
    case Not(child) =>
      ConditionSize(child);
      LeavesPositive(child);
      Unfold(Measure(child).leaves, Measure(child).depth);
    case All(nodes) => GroupSize(nodes);
    case Any(nodes) => GroupSize(nodes);
  }

  lemma {:induction false} GroupSize(nodes: seq<Condition>)
    requires nodes != [] && forall node | node in nodes :: ValidCondition(node)
    ensures ConditionNodesAll(nodes) <= MeasureAll(nodes).leaves * MeasureAll(nodes).depth
    decreases nodes, 2
  {
    LeavesCoverList(nodes);
    var m := MeasureAll(nodes);
    ListSize(nodes, m.depth);
    Unfold(m.leaves, m.depth);
  }

  lemma {:induction false} ListSize(nodes: seq<Condition>, depth: nat)
    requires forall node | node in nodes :: ValidCondition(node)
    requires depth >= 1 && MeasureAll(nodes).depth <= depth
    ensures ConditionNodesAll(nodes) <= |nodes| + MeasureAll(nodes).leaves * (depth - 1)
    decreases nodes, 0
  {
    if nodes != [] {
      ConditionSize(nodes[0]);
      LeavesPositive(nodes[0]);
      ListSize(nodes[1..], depth);
      var first, rest := Measure(nodes[0]), MeasureAll(nodes[1..]);
      ScaleUp(first.leaves, first.depth - 1, depth - 1);
      Distribute(first.leaves, rest.leaves, depth - 1);
    }
  }

  lemma Unfold(n: nat, d: nat)
    ensures n * d == n * (d - 1) + n
  {
  }

  lemma Distribute(a: nat, b: nat, k: int)
    ensures (a + b) * k == a * k + b * k
  {
  }

  /** The evidence size bound: nodes <= 1 + leaves * (depth - 1). */
  lemma TraceSize(h: Host, event: Event, c: Condition)
    requires ValidCondition(c) && EvaluateCondition(h, event, c).Ok?
    ensures TraceNodes(EvaluateCondition(h, event, c).value) <= 1 + Measure(c).leaves * (Measure(c).depth - 1)
  {
    TraceIsAboutCondition(h, event, c);
    ErasedSize(h, EvaluateCondition(h, event, c).value);
    ConditionSize(c);
  }

  lemma ScaleUp(n: nat, a: nat, b: nat)
    requires a <= b
    ensures n * a <= n * b
  {
    assert n * b == n * a + n * (b - a);
  }

  lemma {:induction false} AddressWithinDepth(c: Condition, a: Position)
    requires Walk(c, a).Some?
    ensures |a| < Measure(c).depth
  {
    if a != [] {
      AddressWithinDepth(ConditionStep(c, a[0]).value, a[1..]);
      match c
      case Not(_) =>
      case All(nodes) => MemberWithinDepth(nodes, a[0].index);
      case Any(nodes) => MemberWithinDepth(nodes, a[0].index);
    }
  }

  lemma {:induction false} MemberWithinDepth(nodes: seq<Condition>, i: nat)
    requires i < |nodes|
    ensures Measure(nodes[i]).depth <= MeasureAll(nodes).depth
  {
    if i > 0 {
      MemberWithinDepth(nodes[1..], i - 1);
    }
  }

  lemma AddressBounded(h: Host, event: Event, c: Condition, a: Position)
    requires ValidCondition(c) && EvaluateCondition(h, event, c).Ok?
    requires NodeAt(EvaluateCondition(h, event, c).value, a).Some?
    ensures |a| < Measure(c).depth
  {
    TraceIsAboutCondition(h, event, c);
    NodeLocation(h, EvaluateCondition(h, event, c).value, c, a);
    AddressWithinDepth(c, a);
  }

  lemma BoundedProduct(leaves: nat, depth: nat)
    requires leaves <= MAX_LEAVES && 1 <= depth <= MAX_DEPTH
    ensures leaves * (depth - 1) <= 448
  {
    ScaleUp(leaves, depth - 1, 7);
  }

  lemma NodesBounded(h: Host, event: Event, c: Condition)
    requires ValidCondition(c) && EvaluateCondition(h, event, c).Ok?
    requires Measure(c).depth <= MAX_DEPTH && Measure(c).leaves <= MAX_LEAVES
    ensures TraceNodes(EvaluateCondition(h, event, c).value) <= 449
  {
    TraceSize(h, event, c);
    LeavesPositive(c);
    BoundedProduct(Measure(c).leaves, Measure(c).depth);
  }

  /** A valid rule never yields more than 449 trace nodes, nor a location of more
      than seven segments. */
  lemma EvidenceBounded(h: Host, event: Event, rule: Rule)
    requires ValidRule(h, rule) && EvaluateCondition(h, event, rule.condition).Ok?
    ensures TraceNodes(EvaluateCondition(h, event, rule.condition).value) <= 449
    ensures forall a: Position | NodeAt(EvaluateCondition(h, event, rule.condition).value, a).Some? :: |a| <= 7
  {
    NodesBounded(h, event, rule.condition);
    forall a: Position | NodeAt(EvaluateCondition(h, event, rule.condition).value, a).Some? ensures |a| <= 7 {
      AddressBounded(h, event, rule.condition, a);
    }
  }

  /** A true trace of a valid rule always makes a valid match. */
  lemma TrueTraceMakesMatch(h: Host, event: Event, rule: Rule)
    requires ValidRule(h, rule) && EvaluateCondition(h, event, rule.condition).Ok?
    requires EvaluateCondition(h, event, rule.condition).value.outcome.True?
    ensures ValidMatch(h, Match(rule.id, rule.version, rule.title, event, True,
                                EvaluateCondition(h, event, rule.condition).value))
  {
    TraceIsAboutCondition(h, event, rule.condition);
  }
}
