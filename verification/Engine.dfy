/** One event against a collection of rules: backend/app/detection/engine.py. */
module Engine {
  import opened Wrappers
  import opened Text
  import opened Sorting
  import opened Runtime
  import opened Events
  import opened Conditions
  import opened Semantics
  import opened Traces
  import opened Evaluator
  import opened Certificates
  import opened StaticCheck
  import opened Completion

  datatype EngineError =
    | DuplicateRuleId(ruleId: string)
    | InvalidMatch(ruleId: string)
    | EvaluationRaised(error: EvaluationError)

  predicate RuleBefore(a: Rule, b: Rule) { StringLess(a.id, b.id) }

  function Ids(rules: seq<Rule>): (ids: seq<string>)
    ensures |ids| == |rules| && forall i | 0 <= i < |rules| :: ids[i] == rules[i].id
  {
    if rules == [] then [] else [rules[0].id] + Ids(rules[1..])
  }

  /** The first identifier that was already seen. */
  function FirstRepeat(ids: seq<string>, seen: set<string>): Option<string>
  {
    if ids == [] then None
    else if ids[0] in seen then Some(ids[0])
    else FirstRepeat(ids[1..], seen + {ids[0]})
  }

  function OrderRules(rules: seq<Rule>): Result<seq<Rule>, EngineError>
  {
    var ordered := Sort(rules, RuleBefore);
    match FirstRepeat(Ids(ordered), {})
    case Some(id) => Err(DuplicateRuleId(id))
    case None => Ok(ordered)
  }

  predicate Targets(rule: Rule, event: Event)
  {
    event.category in rule.categories && (rule.sources.Some? ==> event.source in rule.sources.value)
  }

  function MatchFor(rule: Rule, event: Event, trace: Trace): Match
  {
    Match(rule.id, rule.version, rule.title, event, True, trace)
  }

  /** What one rule contributes: a failure, a match, or nothing. */
  function ApplyRule(h: Host, event: Event, rule: Rule): Result<Option<Match>, EngineError>
  {
    if !Targets(rule, event) then Ok(None)
    else
      match EvaluateCondition(h, event, rule.condition)
      case Err(e) => Err(EvaluationRaised(e))
      case Ok(trace) =>
        if !trace.outcome.True? then Ok(None)
        else if ValidMatch(h, MatchFor(rule, event, trace)) then Ok(Some(MatchFor(rule, event, trace)))
        else Err(InvalidMatch(rule.id))
  }

  /** Earlier matches in front of a later result; a failure drops them. */
  function Prepend(matches: seq<Match>, r: Result<seq<Match>, EngineError>): Result<seq<Match>, EngineError>
  {
    match r case Err(e) => Err(e) case Ok(rest) => Ok(matches + rest)
  }

  function ApplyRules(h: Host, event: Event, rules: seq<Rule>): Result<seq<Match>, EngineError>
  {
    if rules == [] then Ok([])
    else
      match ApplyRule(h, event, rules[0])
      case Err(e) => Err(e)
      case Ok(None) => ApplyRules(h, event, rules[1..])
      case Ok(Some(m)) => Prepend([m], ApplyRules(h, event, rules[1..]))
  }

  function EngineResult(h: Host, event: Event, rules: seq<Rule>): Result<seq<Match>, EngineError>
  {
    match OrderRules(rules)
    case Err(e) => Err(e)
    case Ok(ordered) => ApplyRules(h, event, ordered)
  }

  // ---- The engine as written ----

  method OrderedRules(rules: seq<Rule>) returns (r: Result<seq<Rule>, EngineError>)
    ensures r == OrderRules(rules)
  {
    var ordered := Sort(rules, RuleBefore);
    ghost var ids := Ids(ordered);
    var seen: set<string> := {};
    for i := 0 to |ordered|
      invariant FirstRepeat(ids, {}) == FirstRepeat(ids[i..], seen)
    {
      if ordered[i].id in seen {
        return Err(DuplicateRuleId(ordered[i].id));
      }
      seen := seen + {ordered[i].id};
    }
    r := Ok(ordered);
  }

  method EvaluateEvent(h: Host, event: Event, rules: seq<Rule>) returns (r: Result<seq<Match>, EngineError>)
    ensures r == EngineResult(h, event, rules)
  {
    hide EvaluateCondition, Targets, ValidMatch;
    var ordered := OrderedRules(rules);
    if ordered.Err? { return Err(ordered.error); }
    var pending := ordered.value;
    var matches: seq<Match> := [];
    PrependNothing(ApplyRules(h, event, pending));
    assert pending[0..] == pending;
    for i := 0 to |pending|
      invariant ApplyRules(h, event, pending) == Prepend(matches, ApplyRules(h, event, pending[i..]))
    {
      var rule := pending[i];
      assert pending[i..][0] == rule && pending[i..][1..] == pending[i + 1..];
      if !Targets(rule, event) { continue; }
      var trace := EvaluateCondition(h, event, rule.condition);
      if trace.Err? { return Err(EvaluationRaised(trace.error)); }
      if !trace.value.outcome.True? { continue; }
      var m := MatchFor(rule, event, trace.value);
      if !ValidMatch(h, m) { return Err(InvalidMatch(rule.id)); }
      PrependTwice(matches, [m], ApplyRules(h, event, pending[i + 1..]));
      matches := matches + [m];
    }
    assert matches + [] == matches;
    r := Ok(matches);
  }

  lemma PrependNothing(r: Result<seq<Match>, EngineError>)
    ensures Prepend([], r) == r
  {
    if r.Ok? { assert [] + r.value == r.value; }
  }

  lemma PrependTwice(a: seq<Match>, b: seq<Match>, r: Result<seq<Match>, EngineError>)
    ensures Prepend(a, Prepend(b, r)) == Prepend(a + b, r)
  {
    if r.Ok? { assert a + (b + r.value) == a + b + r.value; }
  }

  // ---- Identifiers ----

  ghost predicate DistinctIds(rules: seq<Rule>)
  {
    forall i, j | 0 <= i < j < |rules| :: rules[i].id != rules[j].id
  }

  /** The identifier occurs at two positions. */
  ghost predicate Repeated(rules: seq<Rule>, id: string)
  {
    exists i, j | 0 <= i < j < |rules| :: rules[i].id == id && rules[j].id == id
  }

  lemma RuleOrder()
    ensures KeyOrder(RuleBefore)
  {
    StringOrder();
  }

  ghost predicate DistinctUpTo(ids: seq<string>, k: nat)
    requires k <= |ids|
  {
    forall i, j | 0 <= i < j < k :: ids[i] != ids[j]
  }

  /** The reported position: its entry was seen before, and nothing earlier was. */
  ghost predicate FirstRepeatAt(ids: seq<string>, seen: set<string>, k: nat)
    requires k < |ids|
  {
    && (ids[k] in seen || exists j | 0 <= j < k :: ids[j] == ids[k])
    && DistinctUpTo(ids, k)
    && forall j | 0 <= j < k :: ids[j] !in seen
  }

  lemma {:induction false} RepeatIsFirst(ids: seq<string>, seen: set<string>) returns (k: nat)
    ensures match FirstRepeat(ids, seen)
      case None => DistinctUpTo(ids, |ids|) && forall id | id in ids :: id !in seen
      case Some(id) => k < |ids| && ids[k] == id && FirstRepeatAt(ids, seen, k)
  {
    k := 0;
    if ids != [] && ids[0] !in seen {
      var rest := ids[1..];
      k := RepeatIsFirst(rest, seen + {ids[0]});
      var last := if FirstRepeat(ids, seen).None? then |rest| else k;
      forall j | 0 < j <= last && j < |ids| ensures ids[j] == rest[j - 1] {
      }
      assert forall i | 0 <= i < last :: rest[i] in rest && rest[i] != ids[0] && rest[i] !in seen;
      forall i, j | 0 <= i < j < last + 1 ensures ids[i] != ids[j] {
        assert i > 0 ==> ids[i] == rest[i - 1];
      }
      if FirstRepeat(ids, seen).Some? {
        k := k + 1;
        assert ids[k] == rest[k - 1];
        if rest[k - 1] !in seen + {ids[0]} {
          var j :| 0 <= j < k - 1 && rest[j] == rest[k - 1];
          assert ids[j + 1] == ids[k];
        }
      }
    }
  }

  /** Repetition of identifiers survives a permutation. */
  lemma RepeatedAfterPermutation(a: seq<Rule>, b: seq<Rule>, id: string)
    requires multiset(a) == multiset(b) && Repeated(a, id)
    ensures Repeated(b, id)
  {
    var i, j :| 0 <= i < j < |a| && a[i].id == id && a[j].id == id;
    if a[i] == a[j] {
      TwiceInMultiset(a, i, j);
      var k, l := TwoPositions(b, a[i]);
    } else {
      var k := Locate(a[i], a, b);
      var l := Locate(a[j], a, b);
      assert k != l;
    }
  }

  /** In a list ordered by identifier whose first k entries are distinct, a repeated
      identifier does not come before the one at k. */
  lemma RepeatsFromHere(rules: seq<Rule>, k: nat, other: string)
    requires Ordered(rules, RuleBefore) && k < |rules| && DistinctUpTo(Ids(rules), k) && Repeated(rules, other)
    ensures !StringLess(other, rules[k].id)
  {
    var i, j :| 0 <= i < j < |rules| && rules[i].id == other && rules[j].id == other;
    assert Ids(rules)[i] == Ids(rules)[j];
    assert j >= k;
    if j == k {
      StringLessAsymmetric(other, other);
    } else {
      assert !RuleBefore(rules[j], rules[k]);
    }
  }

  /** Rules are accepted iff their identifiers differ; otherwise the smallest
      repeated identifier is reported. */
  lemma DuplicatesReported(rules: seq<Rule>)
    ensures match OrderRules(rules)
      case Ok(ordered) =>
        && DistinctIds(rules) && multiset(ordered) == multiset(rules)
        && StrictlyOrdered(ordered, RuleBefore)
      case Err(DuplicateRuleId(id)) =>
        && Repeated(rules, id)
        && forall other | Repeated(rules, other) :: !StringLess(other, id)
      case _ => false
  {
    var ordered := Sort(rules, RuleBefore);
    var ids := Ids(ordered);
    RuleOrder();
    SortOrdered(rules, RuleBefore);
    var k := RepeatIsFirst(ids, {});
    match FirstRepeat(ids, {})
    case None =>
      forall i, j | 0 <= i < j < |ordered| ensures RuleBefore(ordered[i], ordered[j]) {
        assert ids[i] != ids[j] && !RuleBefore(ordered[j], ordered[i]);
        StringLessTotal(ids[i], ids[j]);
      }
      forall i, j | 0 <= i < j < |rules| ensures rules[i].id != rules[j].id {
        if rules[i].id == rules[j].id {
          RepeatedAfterPermutation(rules, ordered, rules[i].id);
          assert false;
        }
      }
    case Some(id) =>
      var j :| 0 <= j < k && ids[j] == id;
      assert ordered[j].id == id && ordered[k].id == id;
      RepeatedAfterPermutation(ordered, rules, id);
      forall other | Repeated(rules, other) ensures !StringLess(other, id) {
        RepeatedAfterPermutation(rules, ordered, other);
        RepeatsFromHere(ordered, k, other);
      }
  }

  // ---- Order independence ----

  lemma DistinctIdsDiffer(rules: seq<Rule>)
    requires DistinctIds(rules)
    ensures KeysDiffer(rules, RuleBefore)
  {
    StringOrder();
  }

  lemma OrderingIndependent(a: seq<Rule>, b: seq<Rule>)
    requires multiset(a) == multiset(b)
    ensures OrderRules(a) == OrderRules(b)
  {
    hide FirstRepeat;
    RuleOrder();
    DuplicatesReported(a);
    DuplicatesReported(b);
    match (OrderRules(a), OrderRules(b))
    case (Ok(_), Ok(_)) =>
      DistinctIdsDiffer(a);
      SortCanonical(a, b, RuleBefore);
    case (Err(DuplicateRuleId(x)), Err(DuplicateRuleId(y))) =>
      RepeatedAfterPermutation(a, b, x);
      RepeatedAfterPermutation(b, a, y);
      if x != y { StringLessTotal(x, y); }
    case (Err(DuplicateRuleId(x)), Ok(_)) => RepeatedAfterPermutation(a, b, x);
    case (Ok(_), Err(DuplicateRuleId(y))) => RepeatedAfterPermutation(b, a, y);
  }

  /** The result, failures included, does not depend on the order of the collection. */
  lemma EngineOrderIndependent(h: Host, event: Event, a: seq<Rule>, b: seq<Rule>)
    requires multiset(a) == multiset(b)
    ensures EngineResult(h, event, a) == EngineResult(h, event, b)
  {
    hide ApplyRules, OrderRules;
    OrderingIndependent(a, b);
  }

  // ---- What the result contains ----

  /** The rule names the event's category, names its source if it names any, and its
      root is TRUE. */
  predicate Fires(h: Host, event: Event, rule: Rule)
  {
    && event.category in rule.categories
    && (rule.sources == None || event.source in rule.sources.value)
    && EvaluateCondition(h, event, rule.condition).Ok?
    && EvaluateCondition(h, event, rule.condition).value.outcome.True?
  }

  function FiringMatch(h: Host, event: Event, rule: Rule): Match
    requires Fires(h, event, rule)
  {
    MatchFor(rule, event, EvaluateCondition(h, event, rule.condition).value)
  }

  ghost predicate MatchedBy(h: Host, event: Event, m: Match, rule: Rule)
  {
    Fires(h, event, rule) && m == FiringMatch(h, event, rule)
  }

  /** One match for exactly the rules that fire, in strictly ascending rule ID. */
  ghost predicate ExactMatches(h: Host, event: Event, rules: seq<Rule>, matches: seq<Match>)
  {
    && (forall i, j | 0 <= i < j < |matches| :: StringLess(matches[i].ruleId, matches[j].ruleId))
    && (forall m | m in matches :: exists rule | rule in rules :: MatchedBy(h, event, m, rule))
    && (forall rule | rule in rules && Fires(h, event, rule) :: FiringMatch(h, event, rule) in matches)
  }

  lemma RuleApplied(h: Host, event: Event, rule: Rule)
    requires ValidRule(h, rule)
    ensures ApplyRule(h, event, rule).Ok? ==>
      ApplyRule(h, event, rule).value == if Fires(h, event, rule) then Some(FiringMatch(h, event, rule)) else None
    ensures ApplyRule(h, event, rule).Err? <==> Targets(rule, event) && EvaluateCondition(h, event, rule.condition).Err?
    ensures ApplyRule(h, event, rule).Err? ==>
      ApplyRule(h, event, rule) == Err(EvaluationRaised(EvaluateCondition(h, event, rule.condition).error))
  {
    hide EvaluateCondition, ValidMatch, ValidRule;
    assert Targets(rule, event) <==> event.category in rule.categories && (rule.sources == None || event.source in rule.sources.value);
    if Fires(h, event, rule) {
      TrueTraceMakesMatch(h, event, rule);
    }
  }

  lemma {:induction false} RulesApplied(h: Host, event: Event, rules: seq<Rule>)
    requires forall rule | rule in rules :: ValidRule(h, rule)
    requires StrictlyOrdered(rules, RuleBefore)
    requires ApplyRules(h, event, rules).Ok?
    ensures ExactMatches(h, event, rules, ApplyRules(h, event, rules).value)
  {
    hide EvaluateCondition, ApplyRule, ValidRule, Targets, Fires, ExactMatches;
    if rules == [] {
      NoMatches(h, event);
    } else {
      RuleApplied(h, event, rules[0]);
      var rest := ApplyRules(h, event, rules[1..]).value;
      RulesApplied(h, event, rules[1..]);
      MatchesTogether(h, event, rules, rest);
    }
  }

  lemma NoMatches(h: Host, event: Event)
    ensures ExactMatches(h, event, [], [])
  {
  }

  /** The matches of the later rules, and before them that of the first one if it fires. */
  function Joined(h: Host, event: Event, rule: Rule, rest: seq<Match>): seq<Match>
  {
    if Fires(h, event, rule) then [FiringMatch(h, event, rule)] + rest else rest
  }

  lemma MatchesTogether(h: Host, event: Event, rules: seq<Rule>, rest: seq<Match>)
    requires rules != [] && StrictlyOrdered(rules, RuleBefore)
    requires ExactMatches(h, event, rules[1..], rest)
    ensures ExactMatches(h, event, rules, Joined(h, event, rules[0], rest))
  {
    hide EvaluateCondition, Fires, FiringMatch, MatchedBy, StringLess, Joined;
    forall m | m in rest ensures LaterMatch(h, event, rules, m) {
      LaterRuleMatches(h, event, rules, rest, m);
    }
    MatchesAscend(h, event, rules, rest);
    MatchesSound(h, event, rules, rest);
    MatchesComplete(h, event, rules, rest);
  }

  lemma MatchesAscend(h: Host, event: Event, rules: seq<Rule>, rest: seq<Match>)
    requires rules != [] && forall m | m in rest :: LaterMatch(h, event, rules, m)
    requires forall i, j | 0 <= i < j < |rest| :: StringLess(rest[i].ruleId, rest[j].ruleId)
    ensures var matches := Joined(h, event, rules[0], rest);
      forall i, j | 0 <= i < j < |matches| :: StringLess(matches[i].ruleId, matches[j].ruleId)
  {
    hide Fires, MatchedBy, StringLess, FiringMatch;
    MatchedByItself(h, event, rules[0]);
    var matches := Joined(h, event, rules[0], rest);
    forall i, j | 0 <= i < j < |matches| ensures StringLess(matches[i].ruleId, matches[j].ruleId) {
      assert matches[j] in rest;
    }
  }

  lemma MatchesSound(h: Host, event: Event, rules: seq<Rule>, rest: seq<Match>)
    requires rules != [] && forall m | m in rest :: LaterMatch(h, event, rules, m)
    ensures forall m | m in Joined(h, event, rules[0], rest) :: exists rule | rule in rules :: MatchedBy(h, event, m, rule)
  {
    hide Fires, MatchedBy, StringLess, FiringMatch;
    MatchedByItself(h, event, rules[0]);
    assert rules[0] in rules;
    forall m | m in Joined(h, event, rules[0], rest) ensures exists rule | rule in rules :: MatchedBy(h, event, m, rule) {
      assert m in rest ==> LaterMatch(h, event, rules, m);
    }
  }

  lemma MatchesComplete(h: Host, event: Event, rules: seq<Rule>, rest: seq<Match>)
    requires rules != []
    requires forall rule | rule in rules[1..] && Fires(h, event, rule) :: FiringMatch(h, event, rule) in rest
    ensures forall rule | rule in rules && Fires(h, event, rule) ::
      FiringMatch(h, event, rule) in Joined(h, event, rules[0], rest)
  {
    hide Fires, FiringMatch;
    assert forall rule | rule in rules :: rule == rules[0] || rule in rules[1..];
  }

  /** A match of some rule, behind that of the first one. */
  ghost predicate LaterMatch(h: Host, event: Event, rules: seq<Rule>, m: Match)
    requires rules != []
  {
    StringLess(rules[0].id, m.ruleId) && exists rule | rule in rules :: MatchedBy(h, event, m, rule)
  }

  lemma LaterRuleMatches(h: Host, event: Event, rules: seq<Rule>, rest: seq<Match>, m: Match)
    requires rules != [] && StrictlyOrdered(rules, RuleBefore)
    requires ExactMatches(h, event, rules[1..], rest) && m in rest
    ensures LaterMatch(h, event, rules, m)
  {
    hide EvaluateCondition, Fires, StringLess;
    var rule :| rule in rules[1..] && MatchedBy(h, event, m, rule);
    var k :| 0 <= k < |rules[1..]| && rules[1..][k] == rule;
    assert rules[k + 1] == rule && RuleBefore(rules[0], rules[k + 1]);
  }

  lemma MatchedByItself(h: Host, event: Event, rule: Rule)
    ensures Fires(h, event, rule) ==>
      MatchedBy(h, event, FiringMatch(h, event, rule), rule) && FiringMatch(h, event, rule).ruleId == rule.id
  {
    hide Fires;
  }

  /** A successful result has one match for exactly the rules that fire, ascending. */
  lemma EngineExact(h: Host, event: Event, rules: seq<Rule>)
    requires forall rule | rule in rules :: ValidRule(h, rule)
    requires EngineResult(h, event, rules).Ok?
    ensures ExactMatches(h, event, rules, EngineResult(h, event, rules).value)
  {
    hide EvaluateCondition, ApplyRule, ValidRule, Targets;
    DuplicatesReported(rules);
    var ordered := OrderRules(rules).value;
    forall rule ensures rule in ordered <==> rule in rules {
      assert rule in ordered <==> rule in multiset(ordered);
      assert rule in rules <==> rule in multiset(rules);
    }
    RulesApplied(h, event, ordered);
    SameRulesSameMatches(h, event, ordered, rules, EngineResult(h, event, rules).value);
  }

  lemma SameRulesSameMatches(h: Host, event: Event, a: seq<Rule>, b: seq<Rule>, matches: seq<Match>)
    requires ExactMatches(h, event, a, matches)
    requires forall rule :: rule in a <==> rule in b
    ensures ExactMatches(h, event, b, matches)
  {
    hide Fires, FiringMatch;
    forall m | m in matches ensures exists rule | rule in b :: MatchedBy(h, event, m, rule) {
      var rule :| rule in a && MatchedBy(h, event, m, rule);
      assert rule in b;
    }
  }

  /** Evaluation stops at rule k, with the error of its condition. */
  ghost predicate StopsAt(h: Host, event: Event, rules: seq<Rule>, k: nat)
  {
    && k < |rules|
    && Targets(rules[k], event)
    && EvaluateCondition(h, event, rules[k].condition).Err?
    && ApplyRules(h, event, rules) == Err(EvaluationRaised(EvaluateCondition(h, event, rules[k].condition).error))
    && forall j | 0 <= j < k :: ApplyRule(h, event, rules[j]).Ok?
  }

  /** The reported failure is that of the first failing rule; construction of a match
      never fails. */
  lemma {:induction false} FirstFailingRule(h: Host, event: Event, rules: seq<Rule>)
    requires forall rule | rule in rules :: ValidRule(h, rule)
    ensures ApplyRules(h, event, rules).Err? <==> exists rule | rule in rules :: ApplyRule(h, event, rule).Err?
    ensures ApplyRules(h, event, rules).Err? ==> exists k :: StopsAt(h, event, rules, k)
  {
    hide EvaluateCondition, ApplyRule, ValidRule, Targets;
    if rules != [] {
      RuleApplied(h, event, rules[0]);
      FirstFailingRule(h, event, rules[1..]);
      assert rules[0] in rules;
      assert forall rule | rule in rules :: rule == rules[0] || rule in rules[1..];
      if ApplyRule(h, event, rules[0]).Err? {
        assert StopsAt(h, event, rules, 0);
      } else if k: nat :| StopsAt(h, event, rules[1..], k) {
        assert rules[k + 1] == rules[1..][k];
        assert forall j | 0 < j < k + 1 :: rules[j] == rules[1..][j - 1];
        assert StopsAt(h, event, rules, k + 1);
      }
    }
  }

  /** No targeted rule with a smaller ID fails. */
  ghost predicate SmallestFailure(h: Host, event: Event, rules: seq<Rule>, rule: Rule)
  {
    && rule in rules && Targets(rule, event) && EvaluateCondition(h, event, rule.condition).Err?
    && forall other | other in rules && StringLess(other.id, rule.id) && Targets(other, event) ::
         EvaluateCondition(h, event, other.condition).Ok?
  }

  lemma StopIsSmallest(h: Host, event: Event, ordered: seq<Rule>, k: nat)
    requires forall rule | rule in ordered :: ValidRule(h, rule)
    requires StrictlyOrdered(ordered, RuleBefore) && StopsAt(h, event, ordered, k)
    ensures SmallestFailure(h, event, ordered, ordered[k])
  {
    hide EvaluateCondition, ApplyRule, ApplyRules, ValidRule, Targets, StringLess;
    forall other | other in ordered && StringLess(other.id, ordered[k].id) && Targets(other, event)
      ensures EvaluateCondition(h, event, other.condition).Ok?
    {
      var j := EarlierPosition(ordered, k, other);
      RuleApplied(h, event, other);
    }
  }

  /** The failure of a collection without duplicates names the smallest failing rule. */
  lemma EngineErrorIsFirst(h: Host, event: Event, rules: seq<Rule>) returns (rule: Rule)
    requires forall rule | rule in rules :: ValidRule(h, rule)
    requires DistinctIds(rules) && EngineResult(h, event, rules).Err?
    ensures SmallestFailure(h, event, rules, rule)
    ensures EngineResult(h, event, rules) == Err(EvaluationRaised(EvaluateCondition(h, event, rule.condition).error))
  {
    hide EvaluateCondition, ApplyRule, ApplyRules, ValidRule, Targets, StringLess;
    DuplicatesReported(rules);
    var ordered := OrderRules(rules).value;
    forall rule ensures rule in ordered <==> rule in rules {
      assert rule in ordered <==> rule in multiset(ordered);
      assert rule in rules <==> rule in multiset(rules);
    }
    FirstFailingRule(h, event, ordered);
    var k: nat :| StopsAt(h, event, ordered, k);
    StopIsSmallest(h, event, ordered, k);
    rule := ordered[k];
  }

  /** A smaller identifier stands earlier. */
  lemma EarlierPosition(ordered: seq<Rule>, k: nat, other: Rule) returns (j: nat)
    requires StrictlyOrdered(ordered, RuleBefore) && k < |ordered|
    requires other in ordered && StringLess(other.id, ordered[k].id)
    ensures j < k && ordered[j] == other
  {
    j :| 0 <= j < |ordered| && ordered[j] == other;
    StringLessAsymmetric(other.id, ordered[k].id);
  }

  /** For accepted rules with distinct IDs the engine fails on an event exactly when
      some targeted rule compares a timestamp that has no UTC instant. */
  lemma EngineFailure(h: Host, event: Event, rules: seq<Rule>)
    requires ValidEvent(event) && DistinctIds(rules)
    requires forall rule | rule in rules :: ValidRule(h, rule) && RuleRejection(h, rule).None?
    ensures EngineResult(h, event, rules).Err? <==>
      && !Representable(event.timestamp)
      && exists rule | rule in rules :: Targets(rule, event) && ComparesTimestamp(rule.condition)
  {
    hide EvaluateCondition, ApplyRule, ValidRule, RuleRejection, ComparesTimestamp;
    DuplicatesReported(rules);
    var ordered := OrderRules(rules).value;
    forall rule ensures rule in ordered <==> rule in rules {
      assert rule in ordered <==> rule in multiset(ordered);
      assert rule in rules <==> rule in multiset(rules);
    }
    FirstFailingRule(h, event, ordered);
    forall rule | rule in rules
      ensures ApplyRule(h, event, rule).Err? <==>
        Targets(rule, event) && !Representable(event.timestamp) && ComparesTimestamp(rule.condition)
    {
      RuleApplied(h, event, rule);
      if Targets(rule, event) { AcceptedRuleEvaluates(h, rule, event); }
    }
  }

  /** Completing the event never makes the engine fail. */
  lemma EngineSurvivesCompletion(h: Host, a: Event, b: Event, rules: seq<Rule>)
    requires Completes(a, b) && ValidEvent(a) && ValidEvent(b)
    requires forall r | r in rules :: ValidRule(h, r)
    requires EngineResult(h, a, rules).Ok?
    ensures EngineResult(h, b, rules).Ok?
  {
    hide EvaluateCondition, ApplyRule, ApplyRules, ValidRule;
    DuplicatesReported(rules);
    var ordered := OrderRules(rules).value;
    forall r | r in ordered ensures r in rules {
      assert r in multiset(ordered) && r in multiset(rules);
    }
    FirstFailingRule(h, a, ordered);
    FirstFailingRule(h, b, ordered);
    forall r | r in ordered ensures ApplyRule(h, b, r).Ok? {
      RuleApplied(h, a, r);
      RuleApplied(h, b, r);
      if Targets(r, a) { EvaluationSurvives(h, a, b, r); }
    }
  }

  lemma EvaluationSurvives(h: Host, a: Event, b: Event, rule: Rule)
    requires Completes(a, b) && ValidEvent(a) && ValidEvent(b) && ValidRule(h, rule)
    requires EvaluateCondition(h, a, rule.condition).Ok?
    ensures EvaluateCondition(h, b, rule.condition).Ok?
  {
    hide EvaluateCondition;
    RuleHasValidCondition(h, rule);
    EvaluationIsVerdict(h, a, rule.condition);
    EvaluationIsVerdict(h, b, rule.condition);
    CompletionRefines(h, a, b, rule.condition);
  }

  /** A rule that matched an event, and whose TRUE does not rest on absence, matches
      every completion of it, and the engine returns that match. */
  lemma MatchSurvivesCompletion(h: Host, a: Event, b: Event, rules: seq<Rule>, rule: Rule)
    requires Completes(a, b) && ValidEvent(a) && ValidEvent(b)
    requires forall r | r in rules :: ValidRule(h, r)
    requires rule in rules && (NoExistenceTest(rule.condition) || Keeps(rule.condition, true))
    requires EngineResult(h, a, rules).Ok?
    requires Fires(h, a, rule)
    ensures EngineResult(h, b, rules).Ok?
    ensures Fires(h, b, rule) && FiringMatch(h, b, rule) in EngineResult(h, b, rules).value
  {
    hide EvaluateCondition, EngineResult, ValidRule;
    if NoExistenceTest(rule.condition) { NoExistenceKeeps(rule.condition, true); }
    TrueOutcomeKept(h, a, b, rule.condition) by { RuleHasValidCondition(h, rule); }
    EngineSurvivesCompletion(h, a, b, rules);
    EngineExact(h, b, rules);
  }

  lemma RuleHasValidCondition(h: Host, rule: Rule)
    requires ValidRule(h, rule)
    ensures ValidCondition(rule.condition)
  {
  }
}
