/** Laws of the three-valued language: list operators abbreviate groups of scalar
    tests, negation swaps complementary operators, and De Morgan's laws hold. */
module Desugaring {
  import opened Wrappers
  import opened Runtime
  import opened Events
  import opened Conditions
  import opened Semantics
  import opened Traces
  import opened Evaluator
  import opened Verdicts
  import opened StaticCheck

  /** Both fail, or both succeed with the same outcome. */
  predicate SameOutcome(a: Result<Outcome, EvaluationError>, b: Result<Outcome, EvaluationError>)
  {
    if a.Ok? then a == b else b.Err?
  }

  // ---- List operators ----

  function ScalarOperator(op: Operator): Operator
    requires TakesList(op)
  {
    match op case In => Equals case NotIn => NotEquals case ContainsAny => Contains
  }

  function GroupKind(op: Operator): TraceKind { if op.NotIn? then AllKind else AnyKind }

  /** One scalar test for each item of the list. */
  function Spread(field: string, op: Operator, items: seq<Literal>): seq<Condition>
    requires TakesList(op)
  {
    if items == [] then []
    else [Test(Leaf(field, ScalarOperator(op), Some(items[0])))] + Spread(field, op, items[1..])
  }

  /** The outcome of the scalar test on one parsed item. */
  function ItemOutcome(presence: Presence, op: Operator, operand: Operand): Result<Outcome, EvaluationError>
    requires TakesList(op)
  {
    if presence.NotPresent? then Ok(Unknown)
    else match Compare(presence.value, ScalarOperator(op), [operand])
      case Err(e) => Err(e)
      case Ok(result) => Ok(OutcomeOf(result))
  }

  lemma ItemVerdict(h: Host, event: Event, field: ResolvedField, path: string, op: Operator, item: Literal)
    requires TakesList(op) && ResolveEventField(h, event, path) == Ok(field)
    requires op.ContainsAny? ==> field.kind.StringType?
    ensures match ParseLiteral(h, field.kind, item)
      case None => LeafVerdict(h, event, Leaf(path, ScalarOperator(op), Some(item))).Err?
      case Some(operand) =>
        LeafVerdict(h, event, Leaf(path, ScalarOperator(op), Some(item))) == ItemOutcome(field.presence, op, operand)
  {
    hide ResolveEventField, Compare, ParseLiteral;
  }

  /** The spread tests succeed iff the list parses, item by item. */
  lemma {:induction false} SpreadVerdicts(h: Host, event: Event, field: ResolvedField, leaf: Leaf, items: seq<Literal>)
    requires TakesList(leaf.op) && ResolveEventField(h, event, leaf.field) == Ok(field)
    requires leaf.op.ContainsAny? ==> field.kind.StringType?
    requires field.presence.Present? ==> HasType(field.presence.value, field.kind) && Canonical(field.presence.value).Some?
    ensures match (ParseOperands(h, field.kind, leaf, items), VerdictEach(h, event, Spread(leaf.field, leaf.op, items)))
      case (Ok(operands), Ok(os)) =>
        && |os| == |operands|
        && forall i | 0 <= i < |os| :: ItemOutcome(field.presence, leaf.op, operands[i]) == Ok(os[i])
      case (Err(_), Err(_)) => true
      case _ => false
  {
    hide ResolveEventField, LeafVerdict, ParseLiteral, ItemOutcome;
    if items != [] {
      ItemVerdict(h, event, field, leaf.field, leaf.op, items[0]);
      SpreadVerdicts(h, event, field, leaf, items[1..]);
      LiteralHasType(h, field.kind, items[0]);
      var group := Spread(leaf.field, leaf.op, items);
      assert group[1..] == Spread(leaf.field, leaf.op, items[1..]);
      assert Verdict(h, event, group[0])
          == LeafVerdict(h, event, Leaf(leaf.field, ScalarOperator(leaf.op), Some(items[0])));
      match ParseLiteral(h, field.kind, items[0])
      case None =>
      case Some(operand) => ItemOutcomeDefined(field, leaf.op, operand);
    }
  }

  lemma ItemOutcomeDefined(field: ResolvedField, op: Operator, operand: Operand)
    requires TakesList(op) && OperandHasType(operand, field.kind)
    requires op.ContainsAny? ==> field.kind.StringType?
    requires field.presence.Present? ==> HasType(field.presence.value, field.kind) && Canonical(field.presence.value).Some?
    ensures ItemOutcome(field.presence, op, operand).Ok?
  {
  }

  lemma LiteralHasType(h: Host, kind: FieldType, item: Literal)
    ensures ParseLiteral(h, kind, item).Some? ==> OperandHasType(ParseLiteral(h, kind, item).value, kind)
  {
  }

  /** A timestamp without a UTC instant makes the list test and each scalar test fail. */
  lemma OverflowEverywhere(h: Host, event: Event, field: ResolvedField, leaf: Leaf)
    requires TakesList(leaf.op) && ResolveEventField(h, event, leaf.field) == Ok(field)
    requires field.presence.Present? && Canonical(field.presence.value).None?
    requires leaf.op.ContainsAny? ==> field.kind.StringType?
    requires leaf.value.Some? && leaf.value.value.ListLiteral? && leaf.value.value.items != []
    ensures LeafVerdict(h, event, leaf).Err?
    ensures VerdictEach(h, event, Spread(leaf.field, leaf.op, leaf.value.value.items)).Err?
  {
    hide ResolveEventField, ParseLiteral;
    ItemVerdict(h, event, field, leaf.field, leaf.op, leaf.value.value.items[0]);
  }

  /** Membership among the operands is the group of the scalar comparisons. */
  lemma ListOutcome(field: ResolvedField, leaf: Leaf, operands: seq<Operand>, os: seq<Outcome>)
    requires TakesList(leaf.op) && operands != [] && |os| == |operands|
    requires leaf.op.ContainsAny? ==> field.kind.StringType?
    requires field.presence.Present? ==> HasType(field.presence.value, field.kind) && Canonical(field.presence.value).Some?
    requires forall operand | operand in operands :: OperandHasType(operand, field.kind)
    requires forall i | 0 <= i < |os| :: ItemOutcome(field.presence, leaf.op, operands[i]) == Ok(os[i])
    ensures LeafOutcome(field, leaf, operands) == Ok(Combine(GroupKind(leaf.op), os))
  {
    if field.presence.NotPresent? {
      assert os[0] == Unknown;
      assert forall i | 0 <= i < |os| :: os[i] == Unknown;
    } else {
      var actual := Canonical(field.presence.value).value;
      forall i | 0 <= i < |os|
        ensures os[i] == OutcomeOf(match leaf.op
          case In => actual == operands[i]
          case NotIn => actual != operands[i]
          case ContainsAny => ContainsText(actual, operands[i]))
      {
        assert operands[i] in operands;
        assert ItemOutcome(field.presence, leaf.op, operands[i]) == Ok(os[i]);
      }
      var decisive := if leaf.op.NotIn? then False else True;
      if decisive in os {
        var i :| 0 <= i < |os| && os[i] == decisive;
        assert operands[i] in operands;
      } else {
        forall operand | operand in operands
          ensures match leaf.op
            case In => actual != operand
            case NotIn => actual != operand
            case ContainsAny => !ContainsText(actual, operand)
        {
          var i :| 0 <= i < |operands| && operands[i] == operand;
          assert os[i] in os;
        }
      }
    }
  }

  /** `in` is `any` of `equals`, `not_in` is `all` of `not_equals`, `contains_any` is
      `any` of `contains`: same failures, same outcomes, unknown included. */
  lemma ListOperatorIsGroup(h: Host, event: Event, field: string, op: Operator, items: seq<Literal>)
    requires TakesList(op) && items != []
    ensures
      var group := Spread(field, op, items);
      SameOutcome(Verdict(h, event, Test(Leaf(field, op, Some(ListLiteral(items))))),
                  Verdict(h, event, if op.NotIn? then All(group) else Any(group)))
  {
    hide ResolveEventField, LeafOutcome, ParseOperand;
    var leaf := Leaf(field, op, Some(ListLiteral(items)));
    var group := Spread(field, op, items);
    var resolved := ResolveEventField(h, event, field);
    assert Verdict(h, event, if op.NotIn? then All(group) else Any(group)) == GroupVerdict(h, event, group, GroupKind(op));
    if resolved.Err? || (op.ContainsAny? && !resolved.value.kind.StringType?) {
      FirstSpreadFails(h, event, field, op, items);
    } else {
      var f := resolved.value;
      ResolvedHasDeclaredType(h, event, field);
      if f.presence.Present? && Canonical(f.presence.value).None? {
        OverflowEverywhere(h, event, f, leaf);
      } else {
        SpreadVerdicts(h, event, f, leaf, items);
        if ParseOperands(h, f.kind, leaf, items).Ok? {
          ParsedOperandsHaveType(h, f.kind, leaf, items);
          ListOutcome(f, leaf, ParseOperands(h, f.kind, leaf, items).value, VerdictEach(h, event, group).value);
        }
      }
    }
  }

  lemma ResolvedHasDeclaredType(h: Host, event: Event, path: string)
    requires ResolveEventField(h, event, path).Ok?
    ensures var field := ResolveEventField(h, event, path).value;
      field.presence.Present? ==> HasType(field.presence.value, field.kind)
  {
  }

  lemma FirstSpreadFails(h: Host, event: Event, field: string, op: Operator, items: seq<Literal>)
    requires TakesList(op) && items != []
    requires ResolveEventField(h, event, field).Err?
      || (op.ContainsAny? && !ResolveEventField(h, event, field).value.kind.StringType?)
    ensures VerdictEach(h, event, Spread(field, op, items)).Err?
    ensures LeafVerdict(h, event, Leaf(field, op, Some(ListLiteral(items)))).Err?
  {
    hide ResolveEventField, LeafOutcome, ParseOperand, ParseOperands;
    var first := Test(Leaf(field, ScalarOperator(op), Some(items[0])));
    assert Spread(field, op, items)[0] == first;
    assert Verdict(h, event, first).Err?;
  }

  // ---- Negation of a leaf ----

  predicate HasComplement(op: Operator)
  {
    IsExistence(op) || IsOrdering(op) || op.Equals? || op.NotEquals? || op.In? || op.NotIn?
  }

  function Complement(op: Operator): Operator
    requires HasComplement(op)
  {
    match op
    case Equals => NotEquals
    case NotEquals => Equals
    case In => NotIn
    case NotIn => In
    case Exists => NotExists
    case NotExists => Exists
    case GreaterThan => LessOrEqual
    case LessOrEqual => GreaterThan
    case LessThan => GreaterOrEqual
    case GreaterOrEqual => LessThan
  }

  lemma {:induction false} OperandsForComplement(h: Host, kind: FieldType, leaf: Leaf, values: seq<Literal>)
    requires HasComplement(leaf.op)
    ensures
      var (a, b) := (ParseOperands(h, kind, leaf, values), ParseOperands(h, kind, leaf.(op := Complement(leaf.op)), values));
      if a.Ok? then a == b else b.Err?
  {
    hide ParseLiteral;
    if values != [] {
      OperandsForComplement(h, kind, leaf, values[1..]);
    }
  }

  lemma ValidatedForComplement(h: Host, kind: FieldType, leaf: Leaf)
    requires HasComplement(leaf.op)
    ensures
      var (a, b) := (ValidatedOperands(h, kind, leaf), ValidatedOperands(h, kind, leaf.(op := Complement(leaf.op))));
      if a.Ok? then a == b else b.Err?
  {
    hide ParseLiteral, OperatorName;
    if leaf.value.Some? && leaf.value.value.ListLiteral? {
      OperandsForComplement(h, kind, leaf, leaf.value.value.items);
    }
  }

  lemma CompareComplement(actual: Scalar, op: Operator, operands: seq<Operand>)
    requires HasComplement(op) && !IsExistence(op) && operands != []
    ensures
      var (a, b) := (Compare(actual, op, operands), Compare(actual, Complement(op), operands));
      if a.Ok? then b.Ok? && a.value == !b.value else b.Err?
  {
  }

  /** Negating a leaf is the same as using the complementary operator. */
  lemma NegationIsComplement(h: Host, event: Event, leaf: Leaf)
    requires HasComplement(leaf.op)
    ensures SameOutcome(Verdict(h, event, Not(Test(leaf))),
                        Verdict(h, event, Test(leaf.(op := Complement(leaf.op)))))
  {
    hide ResolveEventField, ValidatedOperands, Compare;
    var resolved := ResolveEventField(h, event, leaf.field);
    assert Verdict(h, event, Test(leaf)) == LeafVerdict(h, event, leaf);
    if resolved.Ok? {
      ValidatedForComplement(h, resolved.value.kind, leaf);
      var operands := ValidatedOperands(h, resolved.value.kind, leaf);
      if operands.Ok? && resolved.value.presence.Present? && !IsExistence(leaf.op) {
        CompareComplement(resolved.value.presence.value, leaf.op, operands.value);
      }
    }
  }

  // ---- De Morgan ----

  function Negations(nodes: seq<Condition>): seq<Condition>
  {
    if nodes == [] then [] else [Not(nodes[0])] + Negations(nodes[1..])
  }

  function NegateEach(os: seq<Outcome>): (r: seq<Outcome>)
    ensures |r| == |os| && forall i | 0 <= i < |os| :: r[i] == Negate(os[i])
  {
    if os == [] then [] else [Negate(os[0])] + NegateEach(os[1..])
  }

  lemma {:induction false} NegationsEach(h: Host, event: Event, nodes: seq<Condition>)
    ensures VerdictEach(h, event, Negations(nodes)) ==
      match VerdictEach(h, event, nodes) case Err(e) => Err(e) case Ok(os) => Ok(NegateEach(os))
  {
    hide LeafVerdict;
    if nodes != [] {
      NegationsEach(h, event, nodes[1..]);
      assert Verdict(h, event, Negations(nodes)[0]) == Verdict(h, event, Not(nodes[0]));
      assert Negations(nodes)[1..] == Negations(nodes[1..]);
    }
  }

  lemma CombineDual(os: seq<Outcome>)
    ensures Combine(AnyKind, NegateEach(os)) == Negate(Combine(AllKind, os))
    ensures Combine(AllKind, NegateEach(os)) == Negate(Combine(AnyKind, os))
  {
    var ns := NegateEach(os);
    forall o: Outcome ensures o in os <==> Negate(o) in ns {
      if o in os {
        var i :| 0 <= i < |os| && os[i] == o;
        assert ns[i] == Negate(o);
      }
      if Negate(o) in ns {
        var i :| 0 <= i < |ns| && ns[i] == Negate(o);
        assert os[i] == o;
      }
    }
    assert True in ns <==> False in os by { assert Negate(False) == True; }
    assert False in ns <==> True in os by { assert Negate(True) == False; }
    assert Unknown in ns <==> Unknown in os by { assert Negate(Unknown) == Unknown; }
  }

  /** De Morgan's laws, errors and unknown included. */
  lemma DeMorgan(h: Host, event: Event, nodes: seq<Condition>)
    ensures Verdict(h, event, Not(All(nodes))) == Verdict(h, event, Any(Negations(nodes)))
    ensures Verdict(h, event, Not(Any(nodes))) == Verdict(h, event, All(Negations(nodes)))
  {
    hide LeafVerdict;
    NegationsEach(h, event, nodes);
    assert Verdict(h, event, All(nodes)) == GroupVerdict(h, event, nodes, AllKind);
    assert Verdict(h, event, Any(nodes)) == GroupVerdict(h, event, nodes, AnyKind);
    if VerdictEach(h, event, nodes).Ok? {
      CombineDual(VerdictEach(h, event, nodes).value);
    }
  }
}
