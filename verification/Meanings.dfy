/** The operators and the logic against independent definitions, and the evidence in a
    trace against the event it was taken from. */
module Meanings {
  import opened Wrappers
  import opened Text
  import opened Runtime
  import opened Events
  import opened Conditions
  import opened Semantics
  import opened Traces
  import opened Evaluator
  import opened Verdicts
  import opened Certificates
  import opened StaticCheck
  import opened Readings
  import opened Literals

  // ---- Kleene's logic ----

  /** FALSE < UNKNOWN < TRUE. */
  function Level(o: Outcome): nat
  {
    match o case False => 0 case Unknown => 1 case True => 2
  }

  ghost predicate IsLeast(o: Outcome, os: seq<Outcome>)
  {
    o in os && forall other | other in os :: Level(o) <= Level(other)
  }

  ghost predicate IsGreatest(o: Outcome, os: seq<Outcome>)
  {
    o in os && forall other | other in os :: Level(other) <= Level(o)
  }

  /** `all` is the least and `any` the greatest outcome of the children, and `not`
      turns the order around. */
  lemma CombineIsKleene(os: seq<Outcome>)
    requires os != []
    ensures IsLeast(Combine(AllKind, os), os)
    ensures IsGreatest(Combine(AnyKind, os), os)
    ensures forall o: Outcome :: Level(Negate(o)) == 2 - Level(o)
  {
    assert os[0] in os;
    assert False !in os && Unknown !in os ==> os[0] == True;
    assert True !in os && Unknown !in os ==> os[0] == False;
  }

  // ---- Comparisons ----

  ghost predicate HasPrefix(s: string, p: string) { exists rest :: s == p + rest }
  ghost predicate HasSuffix(s: string, p: string) { exists rest :: s == rest + p }
  ghost predicate HasInfix(s: string, p: string) { exists left, right :: s == left + p + right }

  lemma PrefixMeaning(s: string, p: string)
    ensures p <= s <==> HasPrefix(s, p)
  {
    if p <= s { assert s == p + s[|p|..]; }
  }

  lemma SuffixMeaning(s: string, p: string)
    ensures EndsWith(s, p) <==> HasSuffix(s, p)
  {
    if EndsWith(s, p) { assert s == s[..|s| - |p|] + p; }
    if rest :| s == rest + p { assert s[|s| - |p|..] == p; }
  }

  lemma InfixMeaning(s: string, p: string)
    ensures IsSubstring(p, s) <==> HasInfix(s, p)
  {
    if IsSubstring(p, s) {
      var i: nat :| i <= |s| && OccursAt(p, s, i);
      assert s == s[..i] + p + s[i + |p|..];
    }
    if left, right :| s == left + p + right {
      assert OccursAt(p, s, |left|);
    }
  }

  /** What a comparison of a present value with validated operands says. */
  ghost predicate Holds(actual: Operand, op: Operator, operands: seq<Operand>)
    requires operands != []
  {
    var expected := operands[0];
    match op
    case Equals => actual == expected
    case NotEquals => actual != expected
    case In => exists operand | operand in operands :: actual == operand
    case NotIn => forall operand | operand in operands :: actual != operand
    case Contains => actual.TextOperand? && expected.TextOperand? && HasInfix(actual.text, expected.text)
    case ContainsAny =>
      actual.TextOperand? && exists operand | operand in operands :: operand.TextOperand? && HasInfix(actual.text, operand.text)
    case StartsWith => actual.TextOperand? && expected.TextOperand? && HasPrefix(actual.text, expected.text)
    case EndsIn => actual.TextOperand? && expected.TextOperand? && HasSuffix(actual.text, expected.text)
    case GreaterThan => actual.NumberOperand? && expected.NumberOperand? && actual.number > expected.number
    case GreaterOrEqual => actual.NumberOperand? && expected.NumberOperand? && actual.number >= expected.number
    case LessThan => actual.NumberOperand? && expected.NumberOperand? && actual.number < expected.number
    case LessOrEqual => actual.NumberOperand? && expected.NumberOperand? && actual.number <= expected.number
    case IpInCidr => actual.AddressOperand? && expected.NetworkOperand? && InBlock(actual.address, expected.network)
    case _ => false
  }

  /** The block of addresses a network stands for, within its own family. */
  predicate InBlock(a: Address, n: Network)
  {
    SameVersion(a, n) && n.base <= a.bits < n.base + Pow2(n.hostBits)
  }

  /** A defined comparison has its documented meaning, provided network literals are
      parsed strictly. */
  lemma ComparisonMeaning(actual: Operand, op: Operator, operands: seq<Operand>)
    requires operands != [] && Matches(actual, op, operands).Some?
    requires forall operand | operand in operands && operand.NetworkOperand? :: StrictNetwork(operand.network)
    ensures Matches(actual, op, operands).value <==> Holds(actual, op, operands)
  {
    hide HasPrefix, HasSuffix, HasInfix, EndsWith, IsSubstring, InNetwork, StrictNetwork;
    var expected := operands[0];
    assert expected in operands;
    match op
    case Contains => InfixMeaning(actual.text, expected.text);
    case ContainsAny =>
      forall operand | operand in operands ensures ContainsText(actual, operand) <==> HasInfix(actual.text, operand.text) {
        InfixMeaning(actual.text, operand.text);
      }
    case StartsWith => PrefixMeaning(actual.text, expected.text);
    case EndsIn => SuffixMeaning(actual.text, expected.text);
    case IpInCidr => MaskingIsBlockMembership(actual.address, expected.network);
    case _ =>
  }

  // ---- Leaves ----

  /** What an operator says about a value and the literal of the rule. */
  ghost predicate Relates(h: Host, value: Scalar, op: Operator, literal: Literal)
  {
    match op
    case Equals => StandsFor(h, literal, value)
    case NotEquals => !StandsFor(h, literal, value)
    case In => literal.ListLiteral? && exists item | item in literal.items :: StandsFor(h, item, value)
    case NotIn => literal.ListLiteral? && forall item | item in literal.items :: !StandsFor(h, item, value)
    case Contains => value.TextValue? && literal.TextLiteral? && HasInfix(value.text, literal.text)
    case ContainsAny =>
      && value.TextValue? && literal.ListLiteral?
      && exists item | item in literal.items :: item.TextLiteral? && HasInfix(value.text, item.text)
    case StartsWith => value.TextValue? && literal.TextLiteral? && HasPrefix(value.text, literal.text)
    case EndsIn => value.TextValue? && literal.TextLiteral? && HasSuffix(value.text, literal.text)
    case GreaterThan => value.NumberValue? && literal.IntLiteral? && value.number > literal.number
    case GreaterOrEqual => value.NumberValue? && literal.IntLiteral? && value.number >= literal.number
    case LessThan => value.NumberValue? && literal.IntLiteral? && value.number < literal.number
    case LessOrEqual => value.NumberValue? && literal.IntLiteral? && value.number <= literal.number
    case IpInCidr =>
      && value.AddressValue? && literal.TextLiteral? && h.ipNetwork(literal.text).Some?
      && InBlock(value.address, h.ipNetwork(literal.text).value)
    case _ => false
  }

  /** What a leaf says when its field has the given value, or none. */
  ghost predicate Says(h: Host, datum: Option<Scalar>, leaf: Leaf, o: Outcome)
  {
    match datum
    case None => o == if leaf.op.Exists? then False else if leaf.op.NotExists? then True else Unknown
    case Some(value) =>
      && !o.Unknown?
      && (o.True? <==>
            || leaf.op.Exists?
            || (!leaf.op.NotExists? && leaf.value.Some? && Relates(h, value, leaf.op, leaf.value.value)))
  }

  /** Without a value a comparison is unknown, `exists` is false and `not_exists` true;
      with one they are settled, and TRUE means that the operator relates the value in
      the event to the literal in the rule. */
  lemma LeafMeaning(h: Host, event: Event, leaf: Leaf)
    requires LeafVerdict(h, event, leaf).Ok?
    requires forall text: string | h.ipNetwork(text).Some? :: StrictNetwork(h.ipNetwork(text).value)
    ensures Says(h, Datum(event, leaf.field), leaf, LeafVerdict(h, event, leaf).value)
  {
    hide ResolveEventField, ValidatedOperands, Canonical, Matches, StrictNetwork, Holds, Relates, Datum, HasType;
    var field := ResolveEventField(h, event, leaf.field).value;
    var operands := ValidatedOperands(h, field.kind, leaf).value;
    PathReads(h, event, leaf.field);
    if field.presence.Present? && !IsExistence(leaf.op) {
      var value := field.presence.value;
      OperandNetworksAreStrict(h, field.kind, leaf);
      ComparisonMeaning(Canonical(value).value, leaf.op, operands);
      ValueHasType(h, event, leaf.field);
      HoldsRelates(h, field.kind, value, leaf);
    }
  }

  lemma ValueHasType(h: Host, event: Event, path: string)
    requires ResolveEventField(h, event, path).Ok?
    requires ResolveEventField(h, event, path).value.presence.Present?
    ensures var field := ResolveEventField(h, event, path).value; HasType(field.presence.value, field.kind)
  {
    hide FieldTypeOf, Split, ContextValues, EventFields;
  }

  /** A comparison with the parsed operands is the relation to the literal. */
  lemma HoldsRelates(h: Host, kind: FieldType, value: Scalar, leaf: Leaf)
    requires ValidatedOperands(h, kind, leaf).Ok? && !IsExistence(leaf.op)
    requires HasType(value, kind) && Canonical(value).Some?
    ensures leaf.value.Some?
    ensures Holds(Canonical(value).value, leaf.op, ValidatedOperands(h, kind, leaf).value)
      <==> Relates(h, value, leaf.op, leaf.value.value)
  {
    hide StandsFor, Canonical, HasType, Holds, Relates, ValidatedOperands;
    OperandsAccepted(h, kind, leaf);
    if TakesList(leaf.op) {
      ListRelates(h, kind, value, leaf);
    } else {
      ScalarRelates(h, kind, value, leaf);
    }
  }

  lemma ScalarRelates(h: Host, kind: FieldType, value: Scalar, leaf: Leaf)
    requires ValidatedOperands(h, kind, leaf).Ok? && !IsExistence(leaf.op) && !TakesList(leaf.op)
    requires HasType(value, kind) && Canonical(value).Some? && leaf.value.Some?
    ensures Holds(Canonical(value).value, leaf.op, ValidatedOperands(h, kind, leaf).value)
      <==> Relates(h, value, leaf.op, leaf.value.value)
  {
    hide StandsFor, HasInfix, HasPrefix, HasSuffix, InBlock;
    if !leaf.op.IpInCidr? { ParsedStandsFor(h, kind, leaf.value.value, value); }
  }

  lemma ListRelates(h: Host, kind: FieldType, value: Scalar, leaf: Leaf)
    requires ValidatedOperands(h, kind, leaf).Ok? && TakesList(leaf.op) && IsList(leaf.value)
    requires HasType(value, kind) && Canonical(value).Some?
    ensures Holds(Canonical(value).value, leaf.op, ValidatedOperands(h, kind, leaf).value)
      <==> Relates(h, value, leaf.op, leaf.value.value)
  {
    hide StandsFor, HasInfix, ParseLiteral, ParseOperands, HasType;
    var items, operands := leaf.value.value.items, ValidatedOperands(h, kind, leaf).value;
    ItemsParsed(h, kind, leaf, items);
    forall i | 0 <= i < |items| ensures Canonical(value).value == operands[i] <==> StandsFor(h, items[i], value) {
      ParsedStandsFor(h, kind, items[i], value);
    }
    if leaf.op.ContainsAny? {
      forall i | 0 <= i < |items|
        ensures items[i].TextLiteral? && operands[i] == TextOperand(items[i].text) && value.TextValue?
      {
        TextParsed(h, kind, items[i], value);
      }
    }
    ItemsCorrespond(items, operands);
  }

  lemma TextParsed(h: Host, kind: FieldType, literal: Literal, value: Scalar)
    requires kind.StringType? && HasType(value, kind) && ParseLiteral(h, kind, literal).Some?
    ensures literal.TextLiteral? && ParseLiteral(h, kind, literal) == Some(TextOperand(literal.text)) && value.TextValue?
  {
  }

  lemma ItemsCorrespond(items: seq<Literal>, operands: seq<Operand>)
    requires |items| == |operands|
    ensures forall i | 0 <= i < |items| :: items[i] in items && operands[i] in operands
  {
  }

  lemma OperandNetworksAreStrict(h: Host, kind: FieldType, leaf: Leaf)
    requires ValidatedOperands(h, kind, leaf).Ok?
    requires forall text: string | h.ipNetwork(text).Some? :: StrictNetwork(h.ipNetwork(text).value)
    ensures forall operand | operand in ValidatedOperands(h, kind, leaf).value && operand.NetworkOperand? ::
      StrictNetwork(operand.network)
  {
    hide StrictNetwork;
    if !leaf.op.IpInCidr? { ValidatedOperandsHaveType(h, kind, leaf); }
  }

  /** On a valid event a leaf is settled or unknown exactly when its path is accepted,
      its operand is admitted for the type of the path, and the timestamp, if it compares
      that, has a UTC form. */
  lemma LeafSettles(h: Host, event: Event, leaf: Leaf)
    requires ValidEvent(event)
    ensures LeafVerdict(h, event, leaf).Ok? <==>
      && FieldTypeOf(h, leaf.field, event.category).Ok?
      && Admits(h, leaf.op, FieldTypeOf(h, leaf.field, event.category).value, leaf.value)
      && (leaf.field == "timestamp" && !leaf.op.Exists? && !leaf.op.NotExists? ==>
            0 <= event.timestamp.local - event.timestamp.offset <= LAST_MOMENT)
  {
    hide LeafVerdict, FieldTypeOf, ValidatedOperands, Admits, ValidEvent;
    LeafFailure(h, event, leaf);
    if FieldTypeOf(h, leaf.field, event.category).Ok? {
      OperandsAccepted(h, FieldTypeOf(h, leaf.field, event.category).value, leaf);
    }
  }

  // ---- Whole conditions ----

  ghost predicate AnswersEach(h: Host, event: Event, nodes: seq<Condition>, os: seq<Outcome>)
    decreases nodes, 0
  {
    && |os| == |nodes|
    && forall i | 0 <= i < |nodes| :: Answers(h, event, nodes[i], os[i])
  }

  /** The documented answer of a condition: leaves say what they say, `all` is the least
      and `any` the greatest of the answers below, and `not` turns the order around. */
  ghost predicate Answers(h: Host, event: Event, c: Condition, o: Outcome)
    decreases c, 1
  {
    match c
    case Test(leaf) => Says(h, Datum(event, leaf.field), leaf, o)
    case Not(child) => exists below :: Answers(h, event, child, below) && Level(o) == 2 - Level(below)
    case All(nodes) => exists os :: AnswersEach(h, event, nodes, os) && IsLeast(o, os)
    case Any(nodes) => exists os :: AnswersEach(h, event, nodes, os) && IsGreatest(o, os)
  }

  /** Evaluation gives the documented answer. */
  lemma {:induction false} VerdictMeaning(h: Host, event: Event, c: Condition)
    requires ValidCondition(c) && Verdict(h, event, c).Ok?
    requires forall text: string | h.ipNetwork(text).Some? :: StrictNetwork(h.ipNetwork(text).value)
    ensures Answers(h, event, c, Verdict(h, event, c).value)
    decreases c, 1
  {
    hide LeafVerdict, Says, Datum, StrictNetwork, ValidLeaf, Combine, IsLeast, IsGreatest;
    match c
    case Test(leaf) => LeafMeaning(h, event, leaf);
    case Not(child) =>
      VerdictMeaning(h, event, child);
    case All(nodes) =>
      VerdictsMeaning(h, event, nodes);
      CombineIsKleene(VerdictEach(h, event, nodes).value);
    case Any(nodes) =>
      VerdictsMeaning(h, event, nodes);
      CombineIsKleene(VerdictEach(h, event, nodes).value);
  }

  lemma {:induction false} VerdictsMeaning(h: Host, event: Event, nodes: seq<Condition>)
    requires nodes != [] && forall node | node in nodes :: ValidCondition(node)
    requires VerdictEach(h, event, nodes).Ok?
    requires forall text: string | h.ipNetwork(text).Some? :: StrictNetwork(h.ipNetwork(text).value)
    ensures AnswersEach(h, event, nodes, VerdictEach(h, event, nodes).value)
    ensures VerdictEach(h, event, nodes).value != []
    decreases nodes, 0
  {
    hide LeafVerdict, Answers, StrictNetwork, ValidLeaf;
    VerdictEachAt(h, event, nodes);
    forall i | 0 <= i < |nodes| ensures Answers(h, event, nodes[i], VerdictEach(h, event, nodes).value[i]) {
      VerdictMeaning(h, event, nodes[i]);
    }
  }

  /** No condition has two answers. */
  lemma {:induction false} AnswerIsUnique(h: Host, event: Event, c: Condition, o: Outcome, p: Outcome)
    requires Answers(h, event, c, o) && Answers(h, event, c, p)
    ensures o == p
    decreases c, 1
  {
    hide Says, Datum, Relates;
    match c
    case Test(leaf) => SaysOne(h, Datum(event, leaf.field), leaf, o, p);
    case Not(child) =>
      var x :| Answers(h, event, child, x) && Level(o) == 2 - Level(x);
      var y :| Answers(h, event, child, y) && Level(p) == 2 - Level(y);
      AnswerIsUnique(h, event, child, x, y);
    case All(nodes) =>
      var os :| AnswersEach(h, event, nodes, os) && IsLeast(o, os);
      var ps :| AnswersEach(h, event, nodes, ps) && IsLeast(p, ps);
      AnswersAreUnique(h, event, nodes, os, ps);
    case Any(nodes) =>
      var os :| AnswersEach(h, event, nodes, os) && IsGreatest(o, os);
      var ps :| AnswersEach(h, event, nodes, ps) && IsGreatest(p, ps);
      AnswersAreUnique(h, event, nodes, os, ps);
  }

  lemma {:induction false} AnswersAreUnique(h: Host, event: Event, nodes: seq<Condition>, os: seq<Outcome>, ps: seq<Outcome>)
    requires AnswersEach(h, event, nodes, os) && AnswersEach(h, event, nodes, ps)
    ensures os == ps
    decreases nodes, 0
  {
    hide Answers;
    forall i | 0 <= i < |nodes| ensures os[i] == ps[i] {
      AnswerIsUnique(h, event, nodes[i], os[i], ps[i]);
    }
  }

  lemma SaysOne(h: Host, datum: Option<Scalar>, leaf: Leaf, o: Outcome, p: Outcome)
    requires Says(h, datum, leaf, o) && Says(h, datum, leaf, p)
    ensures o == p
  {
    hide Relates;
  }

  /** The outcome at the root of a trace is the one documented answer of the condition. */
  lemma ConditionMeaning(h: Host, event: Event, c: Condition, o: Outcome)
    requires ValidCondition(c) && EvaluateCondition(h, event, c).Ok?
    requires forall text: string | h.ipNetwork(text).Some? :: StrictNetwork(h.ipNetwork(text).value)
    ensures EvaluateCondition(h, event, c).value.outcome == o <==> Answers(h, event, c, o)
  {
    hide Answers, StrictNetwork, EvaluateCondition;
    EvaluationIsVerdict(h, event, c);
    VerdictMeaning(h, event, c);
    if Answers(h, event, c, o) { AnswerIsUnique(h, event, c, o, EvaluateCondition(h, event, c).value.outcome); }
  }

  // ---- Timestamps are instants ----

  /** Moving the clock and the offset together does not change the instant. */
  lemma ShiftedReading(t: Timestamp, u: Timestamp)
    requires t.local - u.local == t.offset - u.offset
    ensures UtcInstant(t) == UtcInstant(u)
  {
  }

  lemma ComparisonSeesInstant(t: Timestamp, u: Timestamp, leaf: Leaf, operands: seq<Operand>)
    requires t.local - u.local == t.offset - u.offset && (operands == [] ==> IsExistence(leaf.op))
    ensures LeafOutcome(ResolvedField(TimestampType, Present(TimeValue(t))), leaf, operands)
         == LeafOutcome(ResolvedField(TimestampType, Present(TimeValue(u))), leaf, operands)
  {
    hide Matches;
    ShiftedReading(t, u);
  }

  lemma LeafSeesInstant(h: Host, event: Event, t: Timestamp, leaf: Leaf)
    requires ValidEvent(event) && t.local - event.timestamp.local == t.offset - event.timestamp.offset
    ensures LeafVerdict(h, event.(timestamp := t), leaf) == LeafVerdict(h, event, leaf)
  {
    hide ResolveEventField, ValidatedOperands, LeafOutcome;
    var other := event.(timestamp := t);
    if leaf.field == "timestamp" {
      TimestampResolves(h, event, leaf.field);
      TimestampResolves(h, other, leaf.field);
      var operands := ValidatedOperands(h, TimestampType, leaf);
      if operands.Ok? { ComparisonSeesInstant(t, event.timestamp, leaf, operands.value); }
    } else {
      OtherFieldsIgnoreTime(h, event, t, leaf.field);
    }
  }

  lemma OtherFieldsIgnoreTime(h: Host, event: Event, t: Timestamp, path: string)
    requires path != "timestamp"
    ensures ResolveEventField(h, event.(timestamp := t), path) == ResolveEventField(h, event, path)
  {
    hide Split, FieldTypeOf, Resolve, ContextValues;
  }

  /** Conditions see a timestamp as its UTC instant: reading the same instant on another
      clock changes no outcome and no failure. */
  lemma {:induction false} ConditionSeesInstant(h: Host, event: Event, t: Timestamp, c: Condition)
    requires ValidEvent(event) && t.local - event.timestamp.local == t.offset - event.timestamp.offset
    ensures Verdict(h, event.(timestamp := t), c) == Verdict(h, event, c)
    decreases c, 1
  {
    hide LeafVerdict, ValidEvent;
    match c
    case Test(leaf) => LeafSeesInstant(h, event, t, leaf);
    case Not(child) => ConditionSeesInstant(h, event, t, child);
    case All(nodes) => ConditionsSeeInstant(h, event, t, nodes);
    case Any(nodes) => ConditionsSeeInstant(h, event, t, nodes);
  }

  lemma {:induction false} ConditionsSeeInstant(h: Host, event: Event, t: Timestamp, nodes: seq<Condition>)
    requires ValidEvent(event) && t.local - event.timestamp.local == t.offset - event.timestamp.offset
    ensures VerdictEach(h, event.(timestamp := t), nodes) == VerdictEach(h, event, nodes)
    decreases nodes, 0
  {
    hide LeafVerdict, ValidEvent;
    if nodes != [] {
      ConditionSeesInstant(h, event, t, nodes[0]);
      ConditionsSeeInstant(h, event, t, nodes[1..]);
    }
  }

  // ---- Evidence ----

  /** A leaf records what the event holds: the value behind its path, or why there is
      none, which is `missing` for an entry of the retained data and `absent` otherwise. */
  ghost predicate RecordsEvent(h: Host, event: Event, t: Trace)
  {
    && t.field.Some? && ResolveEventField(h, event, t.field.value).Ok?
    && t.actual == Datum(event, t.field.value)
    && t.absence ==
       if Datum(event, t.field.value).Some? then None
       else if "source_data." <= t.field.value then Some(Missing)
       else Some(Absent)
  }

  ghost predicate FaithfulEvidence(h: Host, event: Event, t: Trace)
  {
    && (t.kind.LeafKind? ==> RecordsEvent(h, event, t))
    && forall child | child in t.children :: FaithfulEvidence(h, event, child)
  }

  /** Every leaf of an evaluator's trace records the event it was evaluated on. */
  lemma {:induction false} EvidenceIsFaithful(h: Host, event: Event, c: Condition, location: string)
    requires Evaluate(h, event, c, location).Ok?
    ensures FaithfulEvidence(h, event, Evaluate(h, event, c, location).value)
    decreases c, 1
  {
    hide ResolveEventField, ValidatedOperands, LeafOutcome, Datum;
    match c
    case Test(leaf) =>
      PathReads(h, event, leaf.field);
      assert RecordsEvent(h, event, Evaluate(h, event, c, location).value);
    case Not(child) => EvidenceIsFaithful(h, event, child, ChildLocation(location, NotKind, 0));
    case All(nodes) => EachIsFaithful(h, event, nodes, AllKind, location, 0);
    case Any(nodes) => EachIsFaithful(h, event, nodes, AnyKind, location, 0);
  }

  lemma {:induction false} EachIsFaithful(h: Host, event: Event, nodes: seq<Condition>, kind: TraceKind,
                                          location: string, index: nat)
    requires EvaluateEach(h, event, nodes, kind, location, index).Ok?
    ensures forall t | t in EvaluateEach(h, event, nodes, kind, location, index).value :: FaithfulEvidence(h, event, t)
    decreases nodes, 0
  {
    hide EvaluateLeaf;
    if nodes != [] {
      EvidenceIsFaithful(h, event, nodes[0], ChildLocation(location, kind, index));
      EachIsFaithful(h, event, nodes[1..], kind, location, index + 1);
    }
  }

  /** The whole certificate: a valid tree about exactly this condition, whose leaves
      record this event and whose outcomes all follow from what the leaves record. */
  lemma TraceIsCertificate(h: Host, event: Event, c: Condition)
    requires ValidCondition(c) && EvaluateCondition(h, event, c).Ok?
    ensures
      var t := EvaluateCondition(h, event, c).value;
      ValidTraceTree(h, t) && Erase(h, t) == c && FaithfulEvidence(h, event, t) && Replays(h, t)
  {
    TraceIsAboutCondition(h, event, c);
    EvidenceIsFaithful(h, event, c, "$");
    EvaluateReplays(h, event, c, "$");
  }
}
