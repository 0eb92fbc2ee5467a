/** Evidence of an evaluation: `ConditionTrace` and `DetectionMatch` of
    backend/app/models/detection.py. An optional field is None when it is unset. */
module Traces {
  import opened Wrappers
  import opened Text
  import opened Runtime
  import opened Events
  import opened Conditions

  datatype Outcome = True | False | Unknown

  datatype TraceKind = LeafKind | AllKind | AnyKind | NotKind

  datatype Absence = Missing | Absent

  datatype Trace = Trace(
    location: string,
    kind: TraceKind,
    outcome: Outcome,
    children: seq<Trace>,
    field: Option<string>,
    op: Option<Operator>,
    expected: Option<Literal>,
    actual: Option<Scalar>,
    absence: Option<Absence>,
    redacted: bool,
    redactionMarker: Option<string>)

  /** The segment that a location gains on the way to child `index` of a node. */
  function Segment(kind: TraceKind, index: nat): string
  {
    match kind
    case AllKind => ".all[" + Decimal(index) + "]"
    case AnyKind => ".any[" + Decimal(index) + "]"
    case _ => ".not"
  }

  function ChildLocation(location: string, kind: TraceKind, index: nat): string
  {
    location + Segment(kind, index)
  }

  /** The regular expression \$(?:\.(?:all|any)\[\d+\]|\.not)* on a whole string. */
  predicate ValidLocation(h: Host, s: string)
  {
    s != "" && s[0] == '$' && ValidSteps(h, s[1..])
  }

  predicate ValidSteps(h: Host, s: string)
    decreases |s|, 1
  {
    || s == ""
    || (".not" <= s && ValidSteps(h, s[4..]))
    || ((".all[" <= s || ".any[" <= s) && |s| > 5 && h.isDecimal(s[5]) && ValidDigits(h, s[6..]))
  }

  /** The digits of an index after its first, the closing bracket, and what follows. */
  predicate ValidDigits(h: Host, s: string)
    decreases |s|, 0
  {
    s != "" && if s[0] == ']' then ValidSteps(h, s[1..]) else h.isDecimal(s[0]) && ValidDigits(h, s[1..])
  }

  predicate ConsistentLocations(t: Trace)
  {
    !t.kind.LeafKind? ==>
      forall i | 0 <= i < |t.children| :: t.children[i].location == ChildLocation(t.location, t.kind, i)
  }

  predicate ValidLeafEvidence(t: Trace)
  {
    && t.children == [] && t.field.Some? && t.op.Some? && ValidPath(t.field.value)
    && (if IsExistence(t.op.value) then t.expected.None?
        else t.expected.Some? && ValidOperand(t.op.value, t.expected.value))
    && (t.actual.Some? || t.absence.Some? || t.redacted)
  }

  predicate ValidLogicalShape(t: Trace)
  {
    && t.field.None? && t.op.None? && t.expected.None? && t.actual.None? && t.absence.None?
    && (if t.kind.NotKind? then |t.children| == 1 else t.children != [])
    && !t.redacted
  }

  /** `validate_trace`, which looks at one node and its immediate children. */
  predicate ValidTrace(h: Host, t: Trace)
  {
    && ValidLocation(h, t.location)
    && (if t.kind.LeafKind? then ValidLeafEvidence(t) else ValidLogicalShape(t))
    && ConsistentLocations(t)
    && t.redacted == t.redactionMarker.Some?
    && (t.redactionMarker.Some? ==> t.redactionMarker.value != "")
    && !(t.redacted && t.actual.Some?)
    && !(t.absence.Some? && t.actual.Some?)
  }

  /** Every node of the tree passes `validate_trace`. */
  predicate ValidTraceTree(h: Host, t: Trace)
  {
    ValidTrace(h, t) && forall child | child in t.children :: ValidTraceTree(h, child)
  }

  datatype Match = Match(
    ruleId: string,
    ruleVersion: int,
    ruleTitle: string,
    event: Event,
    rootOutcome: Outcome,
    trace: Trace)

  /** `validate_match`. */
  predicate ValidMatch(h: Host, m: Match)
  {
    && m.ruleVersion > 0
    && IsSlug(m.ruleId) && Strip(h, m.ruleTitle) != ""
    && m.rootOutcome.True? && m.trace.outcome.True?
    && m.trace.location == "$"
  }
}
