/** What the literals of a rule stand for, and which of them an operator admits for a
    field of a given type. */
module Literals {
  import opened Wrappers
  import opened Text
  import opened Runtime
  import opened Events
  import opened Conditions
  import opened Semantics
  import opened Evaluator

  // ---- What a literal stands for ----

  /** Two clock readings of the same instant. */
  predicate SameInstant(t: Timestamp, u: Timestamp) { t.local - t.offset == u.local - u.offset }

  /** The literal stands for the value: text and numbers for themselves, an address or a
      timestamp for what its text reads as, timestamps being compared as instants. */
  predicate StandsFor(h: Host, literal: Literal, value: Scalar)
  {
    match value
    case TextValue(text) => literal == TextLiteral(text)
    case NumberValue(number) => literal == IntLiteral(number)
    case AddressValue(address) => literal.TextLiteral? && h.ipAddress(literal.text) == Some(address)
    case TimeValue(t) =>
      literal.TextLiteral? && match h.isoDatetime(literal.text) case Some(Aware(u)) => SameInstant(t, u) case _ => false
  }

  /** The literal stands for some value of the type. A timestamp needs an offset and an
      instant between the first and the last of the calendar in UTC. */
  predicate Denotes(h: Host, literal: Literal, kind: FieldType)
  {
    match kind
    case StringType => literal.TextLiteral?
    case IntegerType => literal.IntLiteral?
    case IpType => literal.TextLiteral? && h.ipAddress(literal.text).Some?
    case TimestampType =>
      literal.TextLiteral?
      && match h.isoDatetime(literal.text) case Some(Aware(u)) => 0 <= u.local - u.offset <= LAST_MOMENT case _ => false
  }

  lemma ParsedStandsFor(h: Host, kind: FieldType, literal: Literal, value: Scalar)
    requires ParseLiteral(h, kind, literal).Some? && HasType(value, kind) && Canonical(value).Some?
    ensures Canonical(value) == ParseLiteral(h, kind, literal) <==> StandsFor(h, literal, value)
  {
  }

  lemma ParsedDenotes(h: Host, kind: FieldType, literal: Literal)
    ensures ParseLiteral(h, kind, literal).Some? <==> Denotes(h, literal, kind)
  {
  }

  // ---- Which literals an operator admits ----

  predicate IsList(value: Option<Literal>) { value.Some? && value.value.ListLiteral? && value.value.items != [] }

  /** The operators, the field types and the operands that go together. */
  predicate Admits(h: Host, op: Operator, kind: FieldType, value: Option<Literal>)
  {
    match op
    case Exists => value.None?
    case NotExists => value.None?
    case Equals => value.Some? && Denotes(h, value.value, kind)
    case NotEquals => value.Some? && Denotes(h, value.value, kind)
    case In => IsList(value) && forall item | item in value.value.items :: Denotes(h, item, kind)
    case NotIn => IsList(value) && forall item | item in value.value.items :: Denotes(h, item, kind)
    case Contains => kind.StringType? && value.Some? && value.value.TextLiteral?
    case StartsWith => kind.StringType? && value.Some? && value.value.TextLiteral?
    case EndsIn => kind.StringType? && value.Some? && value.value.TextLiteral?
    case ContainsAny => kind.StringType? && IsList(value) && forall item | item in value.value.items :: item.TextLiteral?
    case GreaterThan => kind.IntegerType? && value.Some? && value.value.IntLiteral?
    case GreaterOrEqual => kind.IntegerType? && value.Some? && value.value.IntLiteral?
    case LessThan => kind.IntegerType? && value.Some? && value.value.IntLiteral?
    case LessOrEqual => kind.IntegerType? && value.Some? && value.value.IntLiteral?
    case IpInCidr => kind.IpType? && value.Some? && value.value.TextLiteral? && h.ipNetwork(value.value.text).Some?
  }

  /** Why an operand is refused: an operand of an existence test, an operator foreign to
      the type of the field, then whatever is wrong with the operand. */
  function Refusal(op: Operator, kind: FieldType, value: Option<Literal>): string
  {
    if op in {Exists, NotExists} then "unexpected_operand"
    else if op in {Contains, ContainsAny, StartsWith, EndsIn} && !kind.StringType? then "incompatible_field_type"
    else if op in {GreaterThan, GreaterOrEqual, LessThan, LessOrEqual} && !kind.IntegerType? then "incompatible_field_type"
    else if op.IpInCidr? then if kind.IpType? then "invalid_cidr" else "incompatible_field_type"
    else if op in {ContainsAny, In, NotIn} && !IsList(value) then "invalid_operand_list"
    else "invalid_literal_type_or_value"
  }

  /** A list of operands is parsed item by item. */
  lemma {:induction false} ItemsParsed(h: Host, kind: FieldType, leaf: Leaf, items: seq<Literal>)
    ensures ParseOperands(h, kind, leaf, items).Ok? <==> forall item | item in items :: ParseLiteral(h, kind, item).Some?
    ensures ParseOperands(h, kind, leaf, items).Ok? ==>
      forall i | 0 <= i < |items| :: ParseLiteral(h, kind, items[i]) == Some(ParseOperands(h, kind, leaf, items).value[i])
    ensures ParseOperands(h, kind, leaf, items).Err? ==>
      ParseOperands(h, kind, leaf, items).error == Incompatible(leaf.field, OperatorName(leaf.op), "invalid_literal_type_or_value")
  {
    hide ParseLiteral, OperatorName;
    if items != [] {
      ItemsParsed(h, kind, leaf, items[1..]);
      assert forall item | item in items :: item == items[0] || item in items[1..];
      assert items[0] in items && forall item | item in items[1..] :: item in items;
    }
  }

  lemma ListAccepted(h: Host, kind: FieldType, leaf: Leaf)
    requires TakesList(leaf.op) && OperatorFits(leaf.op, kind)
    ensures ValidatedOperands(h, kind, leaf).Ok? <==> Admits(h, leaf.op, kind, leaf.value)
    ensures ValidatedOperands(h, kind, leaf).Err? ==>
      ValidatedOperands(h, kind, leaf) ==
        Err(Incompatible(leaf.field, OperatorName(leaf.op), Refusal(leaf.op, kind, leaf.value)))
  {
    hide ParseLiteral, OperatorName, Denotes, ParseOperands;
    if IsList(leaf.value) {
      var items := leaf.value.value.items;
      ItemsParsed(h, kind, leaf, items);
      forall item | item in items
        ensures ParseLiteral(h, kind, item).Some? <==> Denotes(h, item, kind)
        ensures kind.StringType? ==> (Denotes(h, item, kind) <==> item.TextLiteral?)
      {
        ParsedDenotes(h, kind, item);
        ScalarsDenote(h, kind, item);
      }
    }
  }

  lemma ScalarAccepted(h: Host, kind: FieldType, leaf: Leaf)
    requires !TakesList(leaf.op) || !OperatorFits(leaf.op, kind)
    ensures ValidatedOperands(h, kind, leaf).Ok? <==> Admits(h, leaf.op, kind, leaf.value)
    ensures ValidatedOperands(h, kind, leaf).Err? ==>
      ValidatedOperands(h, kind, leaf) ==
        Err(Incompatible(leaf.field, OperatorName(leaf.op), Refusal(leaf.op, kind, leaf.value)))
  {
    hide ParseLiteral, OperatorName, Denotes, ParseOperands;
    var value := if leaf.value.Some? then leaf.value.value else OtherLiteral;
    ParsedDenotes(h, kind, value);
    ScalarsDenote(h, kind, value);
  }

  /** The operands of a leaf are accepted exactly when the table admits them, and
      otherwise refused for the reason given. */
  lemma OperandsAccepted(h: Host, kind: FieldType, leaf: Leaf)
    ensures ValidatedOperands(h, kind, leaf).Ok? <==> Admits(h, leaf.op, kind, leaf.value)
    ensures ValidatedOperands(h, kind, leaf).Err? ==>
      ValidatedOperands(h, kind, leaf) ==
        Err(Incompatible(leaf.field, OperatorName(leaf.op), Refusal(leaf.op, kind, leaf.value)))
  {
    hide *;
    if TakesList(leaf.op) && OperatorFits(leaf.op, kind) {
      ListAccepted(h, kind, leaf);
    } else {
      ScalarAccepted(h, kind, leaf);
    }
  }

  lemma ScalarsDenote(h: Host, kind: FieldType, literal: Literal)
    ensures kind.StringType? ==> (Denotes(h, literal, kind) <==> literal.TextLiteral?)
    ensures kind.IntegerType? ==> (Denotes(h, literal, kind) <==> literal.IntLiteral?)
    ensures literal.OtherLiteral? || literal.ListLiteral? ==> !Denotes(h, literal, kind)
  {
  }

  // ---- The static check at a leaf ----

  lemma {:induction false} FieldTypesMeaning(h: Host, field: string, categories: seq<EventCategory>)
    ensures FieldTypes(h, field, categories).Ok? <==> forall category | category in categories :: FieldTypeOf(h, field, category).Ok?
    ensures FieldTypes(h, field, categories).Ok? ==>
      && |FieldTypes(h, field, categories).value| == |categories|
      && forall i | 0 <= i < |categories| :: FieldTypeOf(h, field, categories[i]) == Ok(FieldTypes(h, field, categories).value[i])
    ensures FieldTypes(h, field, categories).Err? ==> FieldTypes(h, field, categories).error == InvalidField(field)
  {
    hide FieldTypeOf;
    if categories != [] {
      FieldTypesMeaning(h, field, categories[1..]);
      PathRefused(h, field, categories[0]);
      assert forall category :: category in categories <==> category == categories[0] || category in categories[1..];
    }
  }

  lemma PathRefused(h: Host, field: string, category: EventCategory)
    ensures FieldTypeOf(h, field, category).Err? ==> FieldTypeOf(h, field, category).error == InvalidField(field)
  {
    hide Split;
  }

  /** What the static check says of a leaf, for any rule at all: sources are needed for
      retained data, then every category must accept the path, then there must be a
      category, then the operand must be admitted. */
  lemma LeafRejectionExact(h: Host, leaf: Leaf, rule: Rule)
    ensures LeafRejection(h, leaf, rule) ==
      if "source_data." <= leaf.field && (rule.sources.None? || rule.sources.value == []) then
        Some(Incompatible(leaf.field, OperatorName(leaf.op), "sources_required"))
      else if exists category | category in rule.categories :: FieldTypeOf(h, leaf.field, category).Err? then
        Some(InvalidField(leaf.field))
      else if rule.categories == [] then
        Some(Incompatible(leaf.field, OperatorName(leaf.op), "incompatible_category_types"))
      else
        var kind := FieldTypeOf(h, leaf.field, rule.categories[0]).value;
        if Admits(h, leaf.op, kind, leaf.value) then None
        else Some(Incompatible(leaf.field, OperatorName(leaf.op), Refusal(leaf.op, kind, leaf.value)))
  {
    hide FieldTypeOf, ValidatedOperands, Admits, Refusal, OperatorName;
    FieldTypesMeaning(h, leaf.field, rule.categories);
    var kinds := FieldTypes(h, leaf.field, rule.categories);
    if kinds.Ok? && kinds.value != [] {
      forall i | 0 <= i < |kinds.value| ensures kinds.value[i] == kinds.value[0] {
        FieldTypeUnique(h, leaf.field, rule.categories[i], rule.categories[0]);
      }
      OperandsAccepted(h, kinds.value[0], leaf);
    }
  }

  // ---- Structural validity of operands ----

  /** What any type admits passes the structural operand check of a leaf. */
  lemma AdmittedOperandIsValid(h: Host, op: Operator, kind: FieldType, value: Literal)
    requires !IsExistence(op) && Admits(h, op, kind, Some(value))
    ensures ValidOperand(op, value)
  {
  }

  /** And the check refuses nothing that some type could admit. */
  lemma ValidOperandIsAdmitted(h: Host, op: Operator, value: Literal) returns (kind: FieldType)
    requires ValidOperand(op, value) && !IsExistence(op)
    requires op.IpInCidr? ==> h.ipNetwork(value.text).Some?
    ensures Admits(h, op, kind, Some(value))
  {
    kind :=
      if op.IpInCidr? then IpType
      else if value.IntLiteral? || (value.ListLiteral? && value.items[0].IntLiteral?) then IntegerType
      else StringType;
    if value.ListLiteral? { assert value.items[0] in value.items; }
  }
}
