/** The meaning of a condition on an event, without any trace, and the proof that
    the evaluator computes it: outcome for outcome and error for error. */
module Verdicts {
  import opened Wrappers
  import opened Text
  import opened Runtime
  import opened Events
  import opened Conditions
  import opened Semantics
  import opened Traces
  import opened Evaluator

  function LeafVerdict(h: Host, event: Event, leaf: Leaf): Result<Outcome, EvaluationError>
  {
    match ResolveEventField(h, event, leaf.field)
    case Err(e) => Err(e)
    case Ok(field) =>
      match ValidatedOperands(h, field.kind, leaf)
      case Err(e) => Err(e)
      case Ok(operands) => LeafOutcome(field, leaf, operands)
  }

  function Verdict(h: Host, event: Event, c: Condition): Result<Outcome, EvaluationError>
    decreases c, 1
  {
    match c
    case Test(leaf) => LeafVerdict(h, event, leaf)
    case Not(child) =>
      (match Verdict(h, event, child) case Err(e) => Err(e) case Ok(o) => Ok(Negate(o)))
    case All(nodes) => GroupVerdict(h, event, nodes, AllKind)
    case Any(nodes) => GroupVerdict(h, event, nodes, AnyKind)
  }

  function GroupVerdict(h: Host, event: Event, nodes: seq<Condition>, kind: TraceKind): Result<Outcome, EvaluationError>
    decreases nodes, 2
  {
    match VerdictEach(h, event, nodes)
    case Err(e) => Err(e)
    case Ok(os) => Ok(Combine(kind, os))
  }

  function VerdictEach(h: Host, event: Event, nodes: seq<Condition>): Result<seq<Outcome>, EvaluationError>
    decreases nodes, 0
  {
    if nodes == [] then Ok([])
    else
      match Verdict(h, event, nodes[0])
      case Err(e) => Err(e)
      case Ok(first) =>
        match VerdictEach(h, event, nodes[1..])
        case Err(e) => Err(e)
        case Ok(rest) => Ok([first] + rest)
  }

  /** A list of verdicts succeeds member by member. */
  lemma {:induction false} VerdictEachAt(h: Host, event: Event, nodes: seq<Condition>)
    ensures VerdictEach(h, event, nodes).Ok? <==> forall i | 0 <= i < |nodes| :: Verdict(h, event, nodes[i]).Ok?
    ensures VerdictEach(h, event, nodes).Ok? ==>
      var os := VerdictEach(h, event, nodes).value;
      |os| == |nodes| && forall i | 0 <= i < |nodes| :: Verdict(h, event, nodes[i]) == Ok(os[i])
  {
    if nodes != [] {
      VerdictEachAt(h, event, nodes[1..]);
      forall i | 0 <= i < |nodes[1..]| ensures nodes[1..][i] == nodes[i + 1] {
      }
      assert forall i | 0 < i < |nodes| :: nodes[i] == nodes[1..][i - 1];
    }
  }

  // ---- Locations ----

  lemma TailOfConcat(s: string, t: string, k: nat)
    requires k <= |s|
    ensures (s + t)[k..] == s[k..] + t
    ensures forall i | 0 <= i < |s| :: (s + t)[i] == s[i]
  {
  }

  lemma HeadOfConcat(head: string, s: string, t: string)
    requires head <= s
    ensures head <= s + t
  {
  }

  lemma {:induction false} StepsAppend(h: Host, s: string, t: string)
    requires ValidSteps(h, s) && ValidSteps(h, t)
    ensures ValidSteps(h, s + t)
    decreases |s|, 1
  {
    if s == "" {
      assert s + t == t;
    } else if ".not" <= s && ValidSteps(h, s[4..]) {
      StepsAppend(h, s[4..], t);
      TailOfConcat(s, t, 4);
      HeadOfConcat(".not", s, t);
    } else {
      DigitsAppend(h, s[6..], t);
      TailOfConcat(s, t, 6);
      HeadOfConcat(if ".all[" <= s then ".all[" else ".any[", s, t);
    }
  }

  lemma {:induction false} DigitsAppend(h: Host, s: string, t: string)
    requires ValidDigits(h, s) && ValidSteps(h, t)
    ensures ValidDigits(h, s + t)
    decreases |s|, 0
  {
    TailOfConcat(s, t, 1);
    if s[0] == ']' {
      StepsAppend(h, s[1..], t);
    } else {
      DigitsAppend(h, s[1..], t);
    }
  }

  lemma {:induction false} DigitsClosed(h: Host, digits: string)
    requires forall c | c in digits :: IsDigit(c)
    ensures ValidDigits(h, digits + "]")
  {
    var s := digits + "]";
    if digits == "" {
      assert s[1..] == "";
    } else {
      assert IsDigit(digits[0]) && IsAscii(digits[0]);
      assert s[1..] == digits[1..] + "]";
      DigitsClosed(h, digits[1..]);
    }
  }

  lemma SegmentValid(h: Host, kind: TraceKind, index: nat)
    ensures ValidSteps(h, Segment(kind, index))
  {
    var segment := Segment(kind, index);
    if kind.AllKind? || kind.AnyKind? {
      var digits := Decimal(index);
      assert segment[..5] == if kind.AllKind? then ".all[" else ".any[";
      assert segment[5] == digits[0] && IsDigit(digits[0]) && IsAscii(digits[0]);
      assert segment[6..] == digits[1..] + "]";
      DigitsClosed(h, digits[1..]);
    } else {
      assert segment[4..] == "";
    }
  }

  lemma ChildLocationValid(h: Host, location: string, kind: TraceKind, index: nat)
    requires ValidLocation(h, location)
    ensures ValidLocation(h, ChildLocation(location, kind, index))
  {
    hide ValidSteps, Segment;
    SegmentValid(h, kind, index);
    StepsAppend(h, location[1..], Segment(kind, index));
    TailOfConcat(location, Segment(kind, index), 1);
  }

  // ---- The evaluator computes the verdict and a valid trace ----

  /** The condition that a valid trace is about. */
  function Erase(h: Host, t: Trace): Condition
    requires ValidTraceTree(h, t)
    decreases t, 1
  {
    match t.kind
    case LeafKind => Test(Leaf(t.field.value, t.op.value, t.expected))
    case AllKind => All(EraseEach(h, t.children))
    case AnyKind => Any(EraseEach(h, t.children))
    case NotKind => Not(Erase(h, t.children[0]))
  }

  function EraseEach(h: Host, ts: seq<Trace>): (cs: seq<Condition>)
    requires forall t | t in ts :: ValidTraceTree(h, t)
    ensures |cs| == |ts| && forall i | 0 <= i < |ts| :: cs[i] == Erase(h, ts[i])
    decreases ts, 0
  {
    if ts == [] then [] else [Erase(h, ts[0])] + EraseEach(h, ts[1..])
  }

  /** `r` carries verdict `v` of condition `c` as a valid trace at `location`. */
  ghost predicate Certifies(h: Host, r: Result<Trace, EvaluationError>, v: Result<Outcome, EvaluationError>,
                            c: Condition, location: string)
  {
    match (r, v)
    case (Ok(t), Ok(o)) => CertifiesOutcome(h, t, o, c, location)
    case (Err(e), Err(e')) => e == e'
    case _ => false
  }

  ghost predicate CertifiesOutcome(h: Host, t: Trace, o: Outcome, c: Condition, location: string)
  {
    t.outcome == o && t.location == location && ValidTraceTree(h, t) && Erase(h, t) == c
  }

  lemma LeafCertified(h: Host, event: Event, leaf: Leaf, location: string)
    requires ValidLeaf(leaf) && ValidLocation(h, location)
    ensures Certifies(h, EvaluateLeaf(h, event, leaf, location), LeafVerdict(h, event, leaf), Test(leaf), location)
  {
    var v := LeafVerdict(h, event, leaf);
    if v.Ok? {
      var t := LeafNode(location, leaf, v.value, ResolveEventField(h, event, leaf.field).value.presence);
      assert ValidTrace(h, t);
      assert ValidTraceTree(h, t);
      assert Erase(h, t) == Test(Leaf(leaf.field, leaf.op, leaf.value));
    }
  }

  /** The evaluator refines the verdict at every node. */
  lemma {:induction false} EvaluateCertified(h: Host, event: Event, c: Condition, location: string)
    requires ValidCondition(c) && ValidLocation(h, location)
    ensures Certifies(h, Evaluate(h, event, c, location), Verdict(h, event, c), c, location)
    decreases c, 1
  {
    match c
    case Test(leaf) => LeafCertified(h, event, leaf, location);
    case Not(child) =>
      ChildLocationValid(h, location, NotKind, 0);
      EvaluateCertified(h, event, child, ChildLocation(location, NotKind, 0));
      if Verdict(h, event, child).Ok? {
        var t := Evaluate(h, event, child, ChildLocation(location, NotKind, 0)).value;
        var node := LogicalNode(location, NotKind, Negate(t.outcome), [t]);
        assert ValidTrace(h, node);
        assert ValidTraceTree(h, node);
      }
    case All(nodes) => GroupCertified(h, event, nodes, AllKind, location);
    case Any(nodes) => GroupCertified(h, event, nodes, AnyKind, location);
  }

  lemma {:induction false} GroupCertified(h: Host, event: Event, nodes: seq<Condition>, kind: TraceKind, location: string)
    requires ValidLocation(h, location) && nodes != [] && (kind.AllKind? || kind.AnyKind?)
    requires forall node | node in nodes :: ValidCondition(node)
    ensures Certifies(h, EvaluateGroup(h, event, nodes, kind, location), GroupVerdict(h, event, nodes, kind),
                      if kind.AllKind? then All(nodes) else Any(nodes), location)
    decreases nodes, 2
  {
    EvaluateEachCertified(h, event, nodes, kind, location, 0);
    if VerdictEach(h, event, nodes).Ok? {
      var ts := EvaluateEach(h, event, nodes, kind, location, 0).value;
      var os := VerdictEach(h, event, nodes).value;
      assert Outcomes(ts) == os;
      GroupNodeValid(h, ts, os, nodes, kind, location);
    }
  }

  /** Parent of certified children: its node is valid and erases to the group. */
  lemma GroupNodeValid(h: Host, ts: seq<Trace>, os: seq<Outcome>, nodes: seq<Condition>, kind: TraceKind, location: string)
    requires ValidLocation(h, location) && nodes != [] && (kind.AllKind? || kind.AnyKind?)
    requires EachCertified(h, ts, os, nodes, kind, location, 0)
    ensures
      var node := LogicalNode(location, kind, Combine(kind, os), ts);
      && ValidTraceTree(h, node)
      && Erase(h, node) == if kind.AllKind? then All(nodes) else Any(nodes)
  {
    var node := LogicalNode(location, kind, Combine(kind, os), ts);
    forall i | 0 <= i < |ts| ensures ts[i].location == ChildLocation(location, kind, i) && ValidTraceTree(h, ts[i]) {
      assert CertifiesOutcome(h, ts[i], os[i], nodes[i], ChildLocation(location, kind, 0 + i));
    }
    assert ValidTrace(h, node);
    assert ValidTraceTree(h, node);
    assert EraseEach(h, ts) == nodes;
  }

  ghost predicate EachCertified(h: Host, ts: seq<Trace>, os: seq<Outcome>, nodes: seq<Condition>, kind: TraceKind,
                                location: string, index: nat)
  {
    && |ts| == |os| == |nodes|
    && forall i | 0 <= i < |nodes| ::
         CertifiesOutcome(h, ts[i], os[i], nodes[i], ChildLocation(location, kind, index + i))
  }

  lemma {:induction false} EvaluateEachCertified(h: Host, event: Event, nodes: seq<Condition>, kind: TraceKind,
                                                 location: string, index: nat)
    requires ValidLocation(h, location) && forall node | node in nodes :: ValidCondition(node)
    ensures match (EvaluateEach(h, event, nodes, kind, location, index), VerdictEach(h, event, nodes))
      case (Ok(ts), Ok(os)) => EachCertified(h, ts, os, nodes, kind, location, index)
      case (Err(e), Err(e')) => e == e'
      case _ => false
    decreases nodes, 0
  {
    if nodes != [] {
      ChildLocationValid(h, location, kind, index);
      EvaluateCertified(h, event, nodes[0], ChildLocation(location, kind, index));
      EvaluateEachCertified(h, event, nodes[1..], kind, location, index + 1);
      if VerdictEach(h, event, nodes).Ok? {
        EachCertifiedCons(h, Evaluate(h, event, nodes[0], ChildLocation(location, kind, index)).value,
          Verdict(h, event, nodes[0]).value,
          EvaluateEach(h, event, nodes[1..], kind, location, index + 1).value,
          VerdictEach(h, event, nodes[1..]).value, nodes, kind, location, index);
      }
    }
  }

  lemma EachCertifiedCons(h: Host, t: Trace, o: Outcome, ts: seq<Trace>, os: seq<Outcome>, nodes: seq<Condition>,
                          kind: TraceKind, location: string, index: nat)
    requires nodes != [] && CertifiesOutcome(h, t, o, nodes[0], ChildLocation(location, kind, index))
    requires EachCertified(h, ts, os, nodes[1..], kind, location, index + 1)
    ensures EachCertified(h, [t] + ts, [o] + os, nodes, kind, location, index)
  {
    hide CertifiesOutcome, ChildLocation;
    forall i | 0 <= i < |nodes|
      ensures CertifiesOutcome(h, ([t] + ts)[i], ([o] + os)[i], nodes[i], ChildLocation(location, kind, index + i))
    {
      if i > 0 {
        var j := i - 1;
        assert CertifiesOutcome(h, ts[j], os[j], nodes[1..][j], ChildLocation(location, kind, index + 1 + j));
      }
    }
  }
}
