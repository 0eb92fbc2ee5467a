/** Filling in missing data never takes back a definite answer. */
module Completion {
  import opened Wrappers
  import opened Text
  import opened Runtime
  import opened Events
  import opened Conditions
  import opened Semantics
  import opened Traces
  import opened Evaluator
  import opened Verdicts
  import opened Certificates
  import opened StaticCheck

  predicate Fills<T(==)>(before: Option<T>, after: Option<T>) { before.None? || before == after }

  predicate FillsContext(a: EventContext, b: EventContext)
  {
    match (a, b)
    case (AuthenticationContext(o, u, d, l, i, p, w), AuthenticationContext(o', u', d', l', i', p', w')) =>
      o == o' && Fills(u, u') && Fills(d, d') && Fills(l, l') && Fills(i, i') && Fills(p, p') && Fills(w, w')
    case (ProcessContext(i, p, c, pp, pi, u), ProcessContext(i', p', c', pp', pi', u')) =>
      i == i' && Fills(p, p') && Fills(c, c') && Fills(pp, pp') && Fills(pi, pi') && Fills(u, u')
    case (NetworkContext(s, sp, d, dp, pr, p, i), NetworkContext(s', sp', d', dp', pr', p', i')) =>
      s == s' && sp == sp' && d == d' && dp == dp' && Fills(pr, pr') && Fills(p, p') && Fills(i, i')
    case (FileContext(t, p, i), FileContext(t', p', i')) => t == t' && Fills(p, p') && Fills(i, i')
    case (DnsContext(n, s, r, p, i), DnsContext(n', s', r', p', i')) =>
      n == n' && Fills(s, s') && Fills(r, r') && Fills(p, p') && Fills(i, i')
    case _ => false
  }

  /** `b` agrees with `a` on everything present in `a` and may add what is missing. */
  ghost predicate Completes(a: Event, b: Event)
  {
    && b.(recordId := a.recordId, context := a.context, sourceData := a.sourceData) == a
    && Fills(a.recordId, b.recordId)
    && FillsContext(a.context, b.context)
    && forall name | name in a.sourceData :: name in b.sourceData && b.sourceData[name] == a.sourceData[name]
  }

  lemma ContextValueKept(a: EventContext, b: EventContext, name: string)
    requires FillsContext(a, b) && name in ContextValues(a)
    ensures name in ContextValues(b)
    ensures ContextValues(a)[name].Unset? || ContextValues(b)[name] == ContextValues(a)[name]
  {
  }

  lemma EventValueKept(a: Event, b: Event, name: string)
    requires Completes(a, b) && name in EventFields(a)
    ensures name in EventFields(b)
    ensures EventFields(a)[name].Unset? || EventFields(b)[name] == EventFields(a)[name]
  {
  }

  /** A present value stays, with its type. */
  lemma PresentValueKept(h: Host, a: Event, b: Event, path: string)
    requires Completes(a, b) && ValidEvent(a) && ValidEvent(b)
    requires ResolveEventField(h, a, path).Ok?
    ensures ResolveEventField(h, b, path).Ok?
    ensures ResolveEventField(h, b, path).value.kind == ResolveEventField(h, a, path).value.kind
    ensures ResolveEventField(h, a, path).value.presence.Present? ==>
      ResolveEventField(h, b, path) == ResolveEventField(h, a, path)
  {
    hide FieldTypeOf, Split;
    ResolutionIsStatic(h, a, path);
    ResolutionIsStatic(h, b, path);
    var parts := Split(path, '.');
    var name := if |parts| > 1 then parts[1] else path;
    if "source_data." <= path {
    } else if "context." <= path {
      if name in ContextValues(a.context) { ContextValueKept(a.context, b.context, name); }
    } else if path in EventFields(a) {
      EventValueKept(a, b, path);
    }
  }

  /** The tree can be relied on to keep `outcome` when data is filled in: under an
      even number of negations no test that a TRUE outcome rests on absence, under
      an odd number no test that a FALSE outcome does. */
  predicate Keeps(c: Condition, outcome: bool)
  {
    match c
    case Test(leaf) => if outcome then !leaf.op.NotExists? else !leaf.op.Exists?
    case All(nodes) => forall node | node in nodes :: Keeps(node, outcome)
    case Any(nodes) => forall node | node in nodes :: Keeps(node, outcome)
    case Not(child) => Keeps(child, !outcome)
  }

  predicate NoExistenceTest(c: Condition)
  {
    match c
    case Test(leaf) => !IsExistence(leaf.op)
    case All(nodes) => forall node | node in nodes :: NoExistenceTest(node)
    case Any(nodes) => forall node | node in nodes :: NoExistenceTest(node)
    case Not(child) => NoExistenceTest(child)
  }

  lemma {:induction false} NoExistenceKeeps(c: Condition, outcome: bool)
    requires NoExistenceTest(c)
    ensures Keeps(c, outcome)
  {
    match c
    case Test(_) =>
    case All(nodes) => forall node | node in nodes ensures Keeps(node, outcome) { NoExistenceKeeps(node, outcome); }
    case Any(nodes) => forall node | node in nodes ensures Keeps(node, outcome) { NoExistenceKeeps(node, outcome); }
    case Not(child) => NoExistenceKeeps(child, !outcome);
  }

  /** `before` is refined by `after`: TRUE and FALSE stay where `c` keeps them. */
  predicate Refined(c: Condition, before: Result<Outcome, EvaluationError>, after: Result<Outcome, EvaluationError>)
  {
    && before.Ok? && after.Ok?
    && (before.value.True? && Keeps(c, true) ==> after.value.True?)
    && (before.value.False? && Keeps(c, false) ==> after.value.False?)
  }

  lemma LeafRefined(h: Host, a: Event, b: Event, leaf: Leaf)
    requires Completes(a, b) && ValidEvent(a) && ValidEvent(b)
    requires LeafVerdict(h, a, leaf).Ok?
    ensures Refined(Test(leaf), LeafVerdict(h, a, leaf), LeafVerdict(h, b, leaf))
  {
    hide ResolveEventField, ValidatedOperands, StaticFailure, Compare;
    LeafFailure(h, a, leaf);
    LeafFailure(h, b, leaf);
    PresentValueKept(h, a, b, leaf.field);
  }

  /** Completion of the event refines the verdict of every tree. */
  lemma {:induction false} CompletionRefines(h: Host, a: Event, b: Event, c: Condition)
    requires Completes(a, b) && ValidEvent(a) && ValidEvent(b)
    requires Verdict(h, a, c).Ok?
    ensures Refined(c, Verdict(h, a, c), Verdict(h, b, c))
    decreases c, 1
  {
    hide LeafVerdict;
    match c
    case Test(leaf) => LeafRefined(h, a, b, leaf);
    case Not(child) => CompletionRefines(h, a, b, child);
    case All(nodes) => GroupRefined(h, a, b, nodes, AllKind);
    case Any(nodes) => GroupRefined(h, a, b, nodes, AnyKind);
  }

  lemma {:induction false} GroupRefined(h: Host, a: Event, b: Event, nodes: seq<Condition>, kind: TraceKind)
    requires Completes(a, b) && ValidEvent(a) && ValidEvent(b)
    requires kind.AllKind? || kind.AnyKind?
    requires VerdictEach(h, a, nodes).Ok?
    ensures Refined(if kind.AllKind? then All(nodes) else Any(nodes),
                    GroupVerdict(h, a, nodes, kind), GroupVerdict(h, b, nodes, kind))
    decreases nodes, 0
  {
    hide LeafVerdict;
    VerdictEachAt(h, a, nodes);
    VerdictEachAt(h, b, nodes);
    forall i | 0 <= i < |nodes| ensures Refined(nodes[i], Verdict(h, a, nodes[i]), Verdict(h, b, nodes[i])) {
      CompletionRefines(h, a, b, nodes[i]);
    }
    CombineRefined(nodes, kind, VerdictEach(h, a, nodes).value, VerdictEach(h, b, nodes).value);
  }

  lemma CombineRefined(nodes: seq<Condition>, kind: TraceKind, before: seq<Outcome>, after: seq<Outcome>)
    requires |before| == |after| == |nodes| && (kind.AllKind? || kind.AnyKind?)
    requires forall i | 0 <= i < |nodes| :: Refined(nodes[i], Ok(before[i]), Ok(after[i]))
    ensures Refined(if kind.AllKind? then All(nodes) else Any(nodes), Ok(Combine(kind, before)), Ok(Combine(kind, after)))
  {
    var decisive := if kind.AllKind? then False else True;
    if decisive in before {
      var i :| 0 <= i < |before| && before[i] == decisive;
      if forall node | node in nodes :: Keeps(node, decisive.True?) {
        assert Keeps(nodes[i], decisive.True?);
        assert after[i] == decisive;
      }
    } else if Unknown !in before && forall node | node in nodes :: Keeps(node, decisive.False?) {
      forall i | 0 <= i < |after| ensures after[i] == Negate(decisive) {
        assert before[i] in before;
        assert Keeps(nodes[i], decisive.False?);
      }
    }
  }

  /** Without existence tests, a TRUE or FALSE root is unchanged in every completion. */
  lemma DefiniteOutcomeKept(h: Host, a: Event, b: Event, c: Condition)
    requires Completes(a, b) && ValidEvent(a) && ValidEvent(b)
    requires ValidCondition(c) && NoExistenceTest(c)
    requires EvaluateCondition(h, a, c).Ok? && !EvaluateCondition(h, a, c).value.outcome.Unknown?
    ensures EvaluateCondition(h, b, c).Ok?
    ensures EvaluateCondition(h, b, c).value.outcome == EvaluateCondition(h, a, c).value.outcome
  {
    hide EvaluateCondition;
    EvaluationIsVerdict(h, a, c);
    EvaluationIsVerdict(h, b, c);
    CompletionRefines(h, a, b, c);
    NoExistenceKeeps(c, true);
    NoExistenceKeeps(c, false);
  }

  /** With existence tests, TRUE is kept by every condition in which `not_exists`
      stands under an odd and `exists` under an even number of negations. */
  lemma TrueOutcomeKept(h: Host, a: Event, b: Event, c: Condition)
    requires Completes(a, b) && ValidEvent(a) && ValidEvent(b)
    requires ValidCondition(c) && Keeps(c, true)
    requires EvaluateCondition(h, a, c).Ok? && EvaluateCondition(h, a, c).value.outcome.True?
    ensures EvaluateCondition(h, b, c).Ok? && EvaluateCondition(h, b, c).value.outcome.True?
  {
    hide EvaluateCondition;
    EvaluationIsVerdict(h, a, c);
    EvaluationIsVerdict(h, b, c);
    CompletionRefines(h, a, b, c);
  }

  // ---- What completion takes back ----

  function Fill<T>(value: Option<T>, default: T): Option<T> { if value.None? then Some(default) else value }

  function FilledContext(context: EventContext): EventContext
  {
    match context
    case AuthenticationContext(o, u, d, l, i, p, w) =>
      AuthenticationContext(o, Fill(u, ""), Fill(d, ""), Fill(l, 0), Fill(i, V4(0)), Fill(p, 0), Fill(w, ""))
    case ProcessContext(i, p, c, pp, pi, u) =>
      ProcessContext(i, Fill(p, 0), Fill(c, ""), Fill(pp, 0), Fill(pi, ""), Fill(u, ""))
    case NetworkContext(s, sp, d, dp, pr, p, i) => NetworkContext(s, sp, d, dp, Fill(pr, ""), Fill(p, 0), Fill(i, ""))
    case FileContext(t, p, i) => FileContext(t, Fill(p, 0), Fill(i, ""))
    case DnsContext(n, s, r, p, i) => DnsContext(n, Fill(s, ""), Fill(r, ""), Fill(p, 0), Fill(i, ""))
  }

  /** A completion of the event with a value in every field and retained entry that
      the path could name. */
  function Filled(e: Event, path: string): Event
  {
    var parts := Split(path, '.');
    var name := if |parts| > 1 then parts[1] else path;
    e.(recordId := Fill(e.recordId, 0),
       context := FilledContext(e.context),
       sourceData := if name in e.sourceData then e.sourceData else e.sourceData[name := ""])
  }

  lemma FilledContextFills(context: EventContext)
    ensures FillsContext(context, FilledContext(context))
    ensures ValidContext(context) ==> ValidContext(FilledContext(context))
  {
  }

  lemma FilledContextHasAll(context: EventContext, name: string)
    requires name in ContextValues(FilledContext(context))
    ensures !ContextValues(FilledContext(context))[name].Unset?
  {
  }

  lemma FilledCompletes(a: Event, path: string)
    requires ValidEvent(a)
    ensures Completes(a, Filled(a, path)) && ValidEvent(Filled(a, path)) && Filled(a, path).category == a.category
  {
    hide Split, FilledContext, FillsContext, ValidContext;
    FilledContextFills(a.context);
    FilledContextAgrees(a.context, a.category);
  }

  /** Whatever field a path names can be present in some completion. */
  lemma FieldCanBeFilled(h: Host, a: Event, path: string)
    requires ValidEvent(a) && ResolveEventField(h, a, path).Ok?
    ensures Completes(a, Filled(a, path)) && ValidEvent(Filled(a, path))
    ensures ResolveEventField(h, Filled(a, path), path).Ok?
    ensures ResolveEventField(h, Filled(a, path), path).value.presence.Present?
  {
    hide FieldTypeOf, Split, ContextValues, FilledContext, Completes, ValidEvent, ContextAgrees, EventFields;
    FilledCompletes(a, path);
    ResolutionIsStatic(h, a, path);
    ResolutionIsStatic(h, Filled(a, path), path);
    var parts := Split(path, '.');
    var name := if |parts| > 1 then parts[1] else path;
    if name in ContextValues(FilledContext(a.context)) { FilledContextHasAll(a.context, name); }
    if path in EventFields(Filled(a, path)) { FilledEventHasAll(a, path); }
  }

  lemma FilledEventHasAll(a: Event, path: string)
    requires path in EventFields(Filled(a, path))
    ensures !EventFields(Filled(a, path))[path].Unset?
  {
    hide Split, FilledContext;
  }

  lemma FilledContextAgrees(context: EventContext, category: EventCategory)
    ensures ContextAgrees(category, FilledContext(context)) <==> ContextAgrees(category, context)
  {
  }

  /** The restriction matters: on every valid event, an absence test that is TRUE and
      an existence test that is FALSE are taken back by some completion. */
  lemma AbsenceTestTakenBack(h: Host, a: Event, leaf: Leaf) returns (b: Event)
    requires ValidEvent(a)
    requires LeafVerdict(h, a, leaf) == Ok(if leaf.op.NotExists? then True else False) && IsExistence(leaf.op)
    ensures Completes(a, b) && ValidEvent(b)
    ensures LeafVerdict(h, b, leaf) == Ok(if leaf.op.NotExists? then False else True)
  {
    hide ResolveEventField, ValidatedOperands, Filled, Completes, ValidEvent;
    b := Filled(a, leaf.field);
    FieldCanBeFilled(h, a, leaf.field);
    PresentValueKept(h, a, b, leaf.field);
  }

  /** At a leaf the criterion is exact: a definite outcome survives every completion of
      the event iff `Keeps` says so. */
  lemma LeafKeptExactly(h: Host, a: Event, leaf: Leaf)
    requires ValidEvent(a) && LeafVerdict(h, a, leaf).Ok? && !LeafVerdict(h, a, leaf).value.Unknown?
    ensures
      (forall b | Completes(a, b) && ValidEvent(b) :: LeafVerdict(h, b, leaf) == LeafVerdict(h, a, leaf))
      <==> Keeps(Test(leaf), LeafVerdict(h, a, leaf).value.True?)
  {
    hide LeafVerdict, Completes, ValidEvent;
    var o := LeafVerdict(h, a, leaf).value;
    if Keeps(Test(leaf), o.True?) {
      forall b | Completes(a, b) && ValidEvent(b) ensures LeafVerdict(h, b, leaf) == LeafVerdict(h, a, leaf) {
        LeafRefined(h, a, b, leaf);
      }
    } else {
      var b := AbsenceTestTakenBack(h, a, leaf);
    }
  }
}
