/** From a rule library and a raw event to an alert, and everything that happens to it:
    the parts of the backend joined. */
module Pipeline {
  import opened Wrappers
  import opened Runtime
  import opened Events
  import opened Conditions
  import opened Traces
  import opened Evaluator
  import opened Verdicts
  import opened Certificates
  import opened Engine
  import opened FileTree
  import opened Library
  import opened Normalization
  import opened Alerts
  import opened Runs

  /** The match records the rule and the event, and its trace is what evaluating the
      rule on the event gives: a valid tree that spells out the rule's condition. */
  ghost predicate Explains(h: Host, m: Match, event: Event, rule: Rule)
  {
    && m.event == event && Targets(rule, event)
    && m.ruleId == rule.id && m.ruleVersion == rule.version && m.ruleTitle == rule.title
    && EvaluateCondition(h, event, rule.condition) == Ok(m.trace)
    && m.trace.outcome.True?
    && ValidTraceTree(h, m.trace) && Erase(h, m.trace) == rule.condition
  }

  /** Every match that the engine returns is explained by one of the rules and passes
      the revalidation of evidence. */
  lemma MatchIsEvidence(h: Host, event: Event, rules: seq<Rule>, m: Match) returns (rule: Rule)
    requires ValidEvent(event) && forall r | r in rules :: ValidRule(h, r)
    requires EngineResult(h, event, rules).Ok? && m in EngineResult(h, event, rules).value
    ensures rule in rules && Explains(h, m, event, rule)
    ensures ValidEvidence(h, m)
  {
    hide EngineResult, EvaluateCondition, ValidRule, ValidMatch, ValidTraceTree, Erase;
    EngineExact(h, event, rules);
    rule :| rule in rules && MatchedBy(h, event, m, rule);
    RuleHasValidCondition(h, rule);
    TraceIsAboutCondition(h, event, rule.condition);
    TrueTraceMakesMatch(h, event, rule);
  }

  /** So an alert on such a match is refused only for its identifier, its instant or
      its policy values. */
  lemma MatchMakesAlert(h: Host, event: Event, rules: seq<Rule>, m: Match, id: string, at: Moment,
                        severity: PolicyValue, priority: PolicyValue)
    requires ValidEvent(event) && forall r | r in rules :: ValidRule(h, r)
    requires EngineResult(h, event, rules).Ok? && m in EngineResult(h, event, rules).value
    ensures CreateAlert(h, Some(m), id, at, severity, priority).Ok? <==>
      severity.SeverityValue? && priority.PriorityValue? && MomentInstant(at).Some? && ValidAlertId(id)
  {
    hide EngineResult, ValidEvidence, ValidAlertId, ValidRule;
    var rule := MatchIsEvidence(h, event, rules, m);
    CreationExact(h, Some(m), id, at, severity, priority);
  }

  /** Whatever is requested of an alert, its evidence stays explained by a rule of the
      loaded library and the event that was normalized. */
  lemma AlertStaysExplained(h: Host, parse: Parser, root: RootPath, raw: RawEvent, m: Match, id: string, at: Moment,
                            severity: PolicyValue, priority: PolicyValue, rs: seq<Request>)
    returns (rule: Rule)
    requires root.target.Some? ==> ValidTree(root.target.value)
    requires LoadResult(h, parse, root).Ok?
    requires ValidRawEvent(raw) && Normalize(h, raw).Ok?
    requires EngineResult(h, Normalize(h, raw).value, LoadResult(h, parse, root).value).Ok?
    requires m in EngineResult(h, Normalize(h, raw).value, LoadResult(h, parse, root).value).value
    requires CreateAlert(h, Some(m), id, at, severity, priority).Ok?
    ensures rule in LoadResult(h, parse, root).value
    ensures Explains(h, Run(h, CreateAlert(h, Some(m), id, at, severity, priority).value, rs).sourceMatch,
                     Normalize(h, raw).value, rule)
  {
    hide LoadResult, Normalize, EngineResult, CreateAlert, Run, Explains, ValidRule, ValidTree;
    NormalizedEventIsValid(h, raw);
    LoadedRulesAreSound(h, parse, root);
    rule := MatchIsEvidence(h, Normalize(h, raw).value, LoadResult(h, parse, root).value, m);
    CreatedRunInvariant(h, m, id, at, severity, priority, rs);
  }
}
