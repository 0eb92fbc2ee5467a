/** Matches as graphs of mutable objects. Every model instance, list and dictionary
    below a match is a cell: its scalar content and its references to other cells. */
module MatchGraph {
  import opened Wrappers
  import opened Runtime
  import opened Events
  import opened Conditions
  import opened Traces

  /** What a cell holds besides references. */
  datatype Content =
    | MatchLabel(ruleId: string, ruleVersion: int, ruleTitle: string, rootOutcome: Outcome)
    | EventLabel(
        source: EventSource, provider: string, eventId: int, channel: string, timestamp: Timestamp,
        computer: string, recordId: Option<int>, category: EventCategory)
    | ContextLabel(context: EventContext)
    | DataLabel(entries: map<string, string>)
    | TraceLabel(
        location: string, kind: TraceKind, outcome: Outcome, field: Option<string>, op: Option<Operator>,
        expected: Option<Literal>, actual: Option<Scalar>, absence: Option<Absence>, redacted: bool,
        redactionMarker: Option<string>)
    | TraceListLabel
    | OperandsLabel(items: seq<Literal>)

  /** The value of a graph without cycles. */
  datatype Tree = Tree(content: Content, parts: seq<Tree>)

  // ---- Matches as trees ----

  /** A list operand is an object of its own; a scalar one is part of the node. */
  function EncodeTrace(t: Trace): Tree
    decreases t, 1
  {
    var children := Tree(TraceListLabel, EncodeTraces(t.children));
    var isList := t.expected.Some? && t.expected.value.ListLiteral?;
    Tree(TraceLabel(t.location, t.kind, t.outcome, t.field, t.op, if isList then None else t.expected,
                    t.actual, t.absence, t.redacted, t.redactionMarker),
         if isList then [children, Tree(OperandsLabel(t.expected.value.items), [])] else [children])
  }

  function EncodeTraces(ts: seq<Trace>): seq<Tree>
    decreases ts, 0
  {
    if ts == [] then [] else [EncodeTrace(ts[0])] + EncodeTraces(ts[1..])
  }

  function EncodeEvent(e: Event): Tree
  {
    Tree(EventLabel(e.source, e.provider, e.eventId, e.channel, e.timestamp, e.computer, e.recordId, e.category),
         [Tree(ContextLabel(e.context), []), Tree(DataLabel(e.sourceData), [])])
  }

  function Encode(m: Match): Tree
  {
    Tree(MatchLabel(m.ruleId, m.ruleVersion, m.ruleTitle, m.rootOutcome), [EncodeEvent(m.event), EncodeTrace(m.trace)])
  }

  function DecodeTrace(t: Tree): Option<Trace>
    decreases t, 1
  {
    if !t.content.TraceLabel? || |t.parts| == 0 || t.parts[0].content != TraceListLabel then None
    else
      var l := t.content;
      match DecodeTraces(t.parts[0].parts)
      case None => None
      case Some(children) =>
        var node := (expected: Option<Literal>) =>
          Some(Trace(l.location, l.kind, l.outcome, children, l.field, l.op, expected, l.actual, l.absence,
                     l.redacted, l.redactionMarker));
        if |t.parts| == 1 && (l.expected.None? || !l.expected.value.ListLiteral?) then node(l.expected)
        else if |t.parts| == 2 && l.expected.None? && t.parts[1].content.OperandsLabel? && t.parts[1].parts == [] then
          node(Some(ListLiteral(t.parts[1].content.items)))
        else None
  }

  function DecodeTraces(ts: seq<Tree>): Option<seq<Trace>>
    decreases ts, 0
  {
    if ts == [] then Some([])
    else
      match (DecodeTrace(ts[0]), DecodeTraces(ts[1..]))
      case (Some(first), Some(rest)) => Some([first] + rest)
      case _ => None
  }

  function DecodeEvent(t: Tree): Option<Event>
  {
    if !t.content.EventLabel? || |t.parts| != 2 then None
    else
      var (l, context, data) := (t.content, t.parts[0], t.parts[1]);
      if context.content.ContextLabel? && context.parts == [] && data.content.DataLabel? && data.parts == [] then
        Some(Event(l.source, l.provider, l.eventId, l.channel, l.timestamp, l.computer, l.recordId, l.category,
                   context.content.context, data.content.entries))
      else None
  }

  function Decode(t: Tree): Option<Match>
  {
    if !t.content.MatchLabel? || |t.parts| != 2 then None
    else
      match (DecodeEvent(t.parts[0]), DecodeTrace(t.parts[1]))
      case (Some(event), Some(trace)) =>
        Some(Match(t.content.ruleId, t.content.ruleVersion, t.content.ruleTitle, event, t.content.rootOutcome, trace))
      case _ => None
  }

  lemma {:induction false} DecodeOfEncodeTrace(t: Trace)
    ensures DecodeTrace(EncodeTrace(t)) == Some(t)
    decreases t, 1
  {
    DecodeOfEncodeTraces(t.children);
  }

  lemma {:induction false} DecodeOfEncodeTraces(ts: seq<Trace>)
    ensures DecodeTraces(EncodeTraces(ts)) == Some(ts)
    decreases ts, 0
  {
    if ts != [] {
      DecodeOfEncodeTrace(ts[0]);
      DecodeOfEncodeTraces(ts[1..]);
      assert EncodeTraces(ts)[1..] == EncodeTraces(ts[1..]);
      assert ts == [ts[0]] + ts[1..];
    }
  }

  lemma {:induction false} EncodeOfDecodeTrace(t: Tree)
    requires DecodeTrace(t).Some?
    ensures EncodeTrace(DecodeTrace(t).value) == t
    decreases t, 1
  {
    EncodeOfDecodeTraces(t.parts[0].parts);
    var again := EncodeTrace(DecodeTrace(t).value);
    assert again.parts[0] == t.parts[0];
    assert again.parts == t.parts;
  }

  lemma {:induction false} EncodeOfDecodeTraces(ts: seq<Tree>)
    requires DecodeTraces(ts).Some?
    ensures EncodeTraces(DecodeTraces(ts).value) == ts
    decreases ts, 0
  {
    if ts != [] {
      EncodeOfDecodeTrace(ts[0]);
      EncodeOfDecodeTraces(ts[1..]);
      var first, rest := DecodeTrace(ts[0]).value, DecodeTraces(ts[1..]).value;
      assert ([first] + rest)[1..] == rest;
      assert ts == [ts[0]] + ts[1..];
    }
  }

  /** Encoding loses nothing. */
  lemma DecodeOfEncode(m: Match)
    ensures Decode(Encode(m)) == Some(m)
  {
    DecodeOfEncodeTrace(m.trace);
  }

  /** Exactly the encodings decode. */
  lemma EncodeOfDecode(t: Tree)
    requires Decode(t).Some?
    ensures Encode(Decode(t).value) == t
  {
    EncodeOfDecodeTrace(t.parts[1]);
    var again := Encode(Decode(t).value);
    assert again.parts[0].parts == t.parts[0].parts;
    assert again.parts == t.parts;
  }

  // ---- The heap ----

  class Cell {
    var content: Content
    var parts: seq<Cell>

    constructor (content: Content, parts: seq<Cell>)
      ensures this.content == content && this.parts == parts
    {
      this.content := content;
      this.parts := parts;
    }
  }

  /** References never leave the set. */
  ghost predicate SelfContained(cells: set<Cell>)
    reads cells
  {
    forall c | c in cells :: forall p | p in c.parts :: p in cells
  }

  /** The graph below `c` lies in `cells` and has value `t`. */
  ghost predicate Represents(c: Cell, t: Tree, cells: set<Cell>)
    reads cells
    decreases t
  {
    && c in cells && c.content == t.content && |c.parts| == |t.parts|
    && forall i | 0 <= i < |t.parts| :: Represents(c.parts[i], t.parts[i], cells)
  }

  lemma {:induction false} RepresentsInMore(c: Cell, t: Tree, cells: set<Cell>, more: set<Cell>)
    requires Represents(c, t, cells) && cells <= more
    ensures Represents(c, t, more)
    decreases t
  {
    forall i | 0 <= i < |t.parts| ensures Represents(c.parts[i], t.parts[i], more) {
      RepresentsInMore(c.parts[i], t.parts[i], cells, more);
    }
  }

  lemma {:induction false} RepresentsOne(c: Cell, t: Tree, t': Tree, cells: set<Cell>)
    requires Represents(c, t, cells) && Represents(c, t', cells)
    ensures t == t'
    decreases t
  {
    forall i | 0 <= i < |t.parts| ensures t.parts[i] == t'.parts[i] {
      RepresentsOne(c.parts[i], t.parts[i], t'.parts[i], cells);
    }
  }

  // ---- Building a graph ----

  /** A new graph with the given value, made of new cells only. */
  method Build(t: Tree) returns (c: Cell, ghost cells: set<Cell>)
    ensures fresh(cells) && SelfContained(cells) && Represents(c, t, cells)
    decreases t
  {
    var parts: seq<Cell> := [];
    cells := {};
    for i := 0 to |t.parts|
      invariant |parts| == i && fresh(cells) && SelfContained(cells)
      invariant forall j | 0 <= j < i :: Represents(parts[j], t.parts[j], cells)
    {
      var part, below := Build(t.parts[i]);
      forall j | 0 <= j < i ensures Represents(parts[j], t.parts[j], cells + below) {
        RepresentsInMore(parts[j], t.parts[j], cells, cells + below);
      }
      RepresentsInMore(part, t.parts[i], below, cells + below);
      cells := cells + below;
      parts := parts + [part];
    }
    c := new Cell(t.content, parts);
    forall j | 0 <= j < |parts| ensures Represents(parts[j], t.parts[j], cells + {c}) && parts[j] in cells {
      RepresentsInMore(parts[j], t.parts[j], cells, cells + {c});
    }
    cells := cells + {c};
  }

  // ---- Reading a graph ----

  function TreeSize(t: Tree): nat
    decreases t, 1
  {
    1 + TreeSizes(t.parts)
  }

  function TreeSizes(ts: seq<Tree>): nat
    decreases ts, 0
  {
    if ts == [] then 0 else TreeSize(ts[0]) + TreeSizes(ts[1..])
  }

  lemma {:induction false} PartIsSmaller(ts: seq<Tree>, i: nat)
    requires i < |ts|
    ensures TreeSize(ts[i]) <= TreeSizes(ts)
  {
    if i > 0 { PartIsSmaller(ts[1..], i - 1); }
  }

  /** Every cell on the path leads down to `c`: where it has a value, `c` has a
      strictly smaller one. */
  ghost predicate LeadsTo(path: set<Cell>, c: Cell, cells: set<Cell>)
    reads cells
  {
    forall a, v | a in path && Represents(a, v, cells) :: exists w :: Represents(c, w, cells) && TreeSize(w) < TreeSize(v)
  }

  lemma SmallerBelow(path: set<Cell>, c: Cell, cells: set<Cell>, a: Cell, v: Tree) returns (w: Tree)
    requires LeadsTo(path, c, cells) && a in path && Represents(a, v, cells)
    ensures Represents(c, w, cells) && TreeSize(w) < TreeSize(v)
  {
    w :| Represents(c, w, cells) && TreeSize(w) < TreeSize(v);
  }

  lemma ValueOfPart(c: Cell, v: Tree, i: nat, cells: set<Cell>)
    requires Represents(c, v, cells) && i < |c.parts|
    ensures i < |v.parts| && Represents(c.parts[i], v.parts[i], cells)
    ensures TreeSize(v.parts[i]) < TreeSize(v)
  {
    PartIsSmaller(v.parts, i);
  }

  lemma LeadsToPart(path: set<Cell>, c: Cell, i: nat, cells: set<Cell>)
    requires c in cells && i < |c.parts| && LeadsTo(path, c, cells)
    ensures LeadsTo(path + {c}, c.parts[i], cells)
  {
    forall a, v | a in path + {c} && Represents(a, v, cells)
      ensures exists w :: Represents(c.parts[i], w, cells) && TreeSize(w) < TreeSize(v)
    {
      var u := v;
      if a != c { u := SmallerBelow(path, c, cells, a, v); }
      ValueOfPart(c, u, i, cells);
    }
  }

  lemma CycleHasNoValue(path: set<Cell>, c: Cell, cells: set<Cell>)
    requires c in path && LeadsTo(path, c, cells)
    ensures forall v :: !Represents(c, v, cells)
  {
    hide LeadsTo;
    forall v ensures !Represents(c, v, cells) {
      if Represents(c, v, cells) {
        var w := SmallerBelow(path, c, cells, c, v);
        RepresentsOne(c, v, w, cells);
      }
    }
  }

  /** Read the value of a graph. The cells being read are remembered, so that a cycle
      is refused: reading fails exactly when the graph has no value. */
  method Dump(c: Cell, ghost cells: set<Cell>, path: set<Cell>) returns (t: Option<Tree>)
    requires SelfContained(cells) && c in cells && path <= cells && LeadsTo(path, c, cells)
    ensures match t
      case Some(v) => Represents(c, v, cells)
      case None => forall v :: !Represents(c, v, cells)
    decreases cells - path
  {
    if c in path {
      CycleHasNoValue(path, c, cells);
      return None;
    }
    var parts: seq<Tree> := [];
    for i := 0 to |c.parts|
      invariant |parts| == i && forall j | 0 <= j < i :: Represents(c.parts[j], parts[j], cells)
    {
      LeadsToPart(path, c, i, cells);
      var part := Dump(c.parts[i], cells, path + {c});
      if part.None? {
        assert forall v :: Represents(c, v, cells) ==> Represents(c.parts[i], v.parts[i], cells);
        return None;
      }
      parts := parts + [part.value];
    }
    t := Some(Tree(c.content, parts));
  }

  /** The match that a graph is, if it is one. */
  ghost function MatchOf(c: Cell, cells: set<Cell>): Option<Match>
    reads cells
  {
    if exists m :: Represents(c, Encode(m), cells) then
      var m :| Represents(c, Encode(m), cells); Some(m)
    else None
  }

  lemma MatchOfRepresented(c: Cell, m: Match, cells: set<Cell>)
    requires Represents(c, Encode(m), cells)
    ensures MatchOf(c, cells) == Some(m)
  {
    var other := MatchOf(c, cells).value;
    RepresentsOne(c, Encode(m), Encode(other), cells);
    DecodeOfEncode(m);
    DecodeOfEncode(other);
  }

  method ReadMatch(c: Cell, ghost cells: set<Cell>) returns (m: Option<Match>)
    requires SelfContained(cells) && c in cells
    ensures m == MatchOf(c, cells)
  {
    var t := Dump(c, cells, {});
    if t.None? { return None; }
    m := Decode(t.value);
    if m.Some? {
      EncodeOfDecode(t.value);
      MatchOfRepresented(c, m.value, cells);
    } else if other :| Represents(c, Encode(other), cells) {
      RepresentsOne(c, t.value, Encode(other), cells);
      DecodeOfEncode(other);
    }
  }
}
