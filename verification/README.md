# SOC Investigation Lab: a verified model

A Dafny model of the backend of the SOC Investigation Lab and proofs of what its
documentation promises. It follows the code's own layers.

- **Conditions, static check, evaluator** (`Conditions`, `Semantics`, `Traces`, `Evaluator`).
  A typed condition language with 15 operators, its static rule check, and a three-valued
  evaluator that returns a trace of the whole tree. `Verdicts`, `Certificates`, `StaticCheck`,
  `Readings`, `Literals`, `Meanings`, `Validity`, `Completion` and `Desugaring` hold the proofs:
  what a path reads and a literal stands for, what an operator and a tree say, and which rules,
  events, traces and matches are valid.
- **Engine and library loader** (`Engine`, `FileTree`, `Discovery`, `DiscoveryLaws`, `Library`). Ordering,
  duplicate rejection, targeting and collection of matches for one event; discovery of rule
  files with an explicit stack over a finite file tree; loading all or nothing.
- **Normalizers** (`Normalization`, `NormalizationLaws`). Sysmon 1, 3, 11, 22 and Security 4624, 4625, 4688 from a
  raw event with a string map.
- **Alerts and queue** (`Alerts`, `Runs`, `Queue`, `QueueLaws`). Creation, lifecycle and policy
  requests as steps on an immutable value, whole runs of requests, the analyst queue.
- **Evidence ownership** (`MatchGraph`, `Ownership`). Matches as graphs of mutable heap cells,
  alerts that own copies of them, and sessions of arbitrary caller actions.

`Pipeline` joins them, from a rule library and a raw event to an alert and all that happens to it.
`Wrappers`, `Text`, `Sorting`, `Runtime` and `Events` hold what these share.

## How to read it

- Library functions whose code is elsewhere (`ip_address`, `ip_network`, `datetime.fromisoformat`,
  `int`, the Unicode character classes) are the fields of a `Host`: arbitrary functions, constrained
  only to treat ASCII characters as ASCII. Every result holds for all of them.
- A timestamp is a wall-clock reading with its UTC offset, so the overflow of `astimezone` at the
  edges of the calendar is part of the model. The documentation presents the semantic check as what
  makes a rule evaluable; the code still raises on a timestamp comparison for an event whose instant
  has no UTC form.
  `StaticCheck.AcceptedRuleEvaluates`, `Engine.EngineFailure` and `Library.LoadedLibraryEvaluates`
  give the exact condition, `StaticCheck.TimestampComparisonCanOverflow` an instance.
- Python's `sorted` is a stable insertion sort; where keys are distinct `Sorting.SortCanonical`
  makes the algorithm irrelevant.
- Functions are the code's expressions and recursion; loops and stateful code are methods proved
  equal to such functions, and the laws are lemmas about the functions.

## Model

| member | source | states |
|---|---|---|
| StaticCheck.StaticCheckExact | backend/app/detection/semantics.py:191-221 | the static check accepts a structurally valid rule iff evaluation returns a trace on every valid event of every target category whose instant has a UTC form |
| StaticCheck.AcceptedRuleEvaluates | backend/app/detection/semantics.py:214-221 | an accepted rule fails on an event of its categories exactly when it compares the timestamp and the event's instant has no UTC form |
| StaticCheck.RejectedRuleFails | backend/app/detection/semantics.py:191-211 | a rejected rule has one target category all of whose events make evaluation fail, with the very error the check reported, unless the instant has no UTC form and a timestamp comparison comes before the rejected leaf |
| StaticCheck.SingleCategoryError | backend/app/detection/semantics.py:191-211 | for a single-category rule the evaluator's error on any valid event is the check's error, except that a missing UTC form is reported instead when a timestamp comparison meets it before any rejected leaf |
| StaticCheck.NoErrorMasked | backend/app/detection/evaluator.py:170-197 | evaluation fails iff some leaf fails, with the error of the first failing leaf in depth-first order, whatever decisive siblings precede it |
| StaticCheck.LeafFailure | backend/app/detection/evaluator.py:147-156 | a leaf fails for a static reason whether or not a value is present, or with a plain evaluation error because it compares a timestamp without UTC form, and for no other reason |
| StaticCheck.LeafRejectionIsStatic | backend/app/detection/semantics.py:191-201 | at a leaf of a valid rule the check reports a failure of some target category, and none iff no category fails; the guards on missing sources and differing types never fire |
| StaticCheck.ResolutionIsStatic | backend/app/detection/evaluator.py:78-104 | on a valid event field resolution fails exactly when the path is refused statically; the type, context and key guards never fire |
| StaticCheck.ResolutionExact | backend/app/detection/evaluator.py:78-104 | on any event at all resolution fails only for the path or because the context is not that of the category |
| StaticCheck.ComparisonFailure | backend/app/detection/evaluator.py:107-140 | with validated operands a comparison fails only on a value without UTC form; the unsupported-comparison branch is dead |
| StaticCheck.TimestampComparisonCanOverflow | backend/app/detection/evaluator.py:108-109 | a concrete accepted rule and valid event on which evaluation fails |
| Semantics.FieldTypeUnique | backend/app/detection/semantics.py:53-92 | a path has the same type in all categories that accept it, so incompatible_category_types cannot occur |
| Semantics.RetainedNameIsSegment | backend/app/detection/semantics.py:116-122 | the hand-written name test accepts exactly the strings of the segment regular expression, for any Unicode classes that agree with ASCII |
| Readings.AcceptedPaths | backend/app/detection/semantics.py:107-124 | the accepted paths are exactly the common names, the context fields of the category and one identifier below source_data |
| Readings.AcceptedPathIsValid | backend/app/models/detection.py:78-86 | every path the semantics accepts passes the structural path test |
| Readings.ContextPathReads | backend/app/detection/evaluator.py:93-104 | a context path reads the field of that name in the context, for each of the 28 context fields by name, enum values as their documented strings |
| Readings.RetainedPathReads | backend/app/detection/evaluator.py:86-90 | a source_data path reads the entry of its name as text, or reports it missing |
| Readings.CommonPathReads | backend/app/detection/evaluator.py:92-104 | each of the eight common names reads the event's own field of that name, record_id possibly absent, source and category as their documented strings |
| Readings.PathReads | backend/app/detection/evaluator.py:78-104 | whatever path resolves reads the value behind it; an entry of the retained data can be missing, any other value absent |
| Literals.OperandsAccepted | backend/app/detection/semantics.py:162-188 | an operand is accepted iff a table over operator, field type and literal admits it, and otherwise refused for the reason the checks give in their order |
| Literals.LeafRejectionExact | backend/app/detection/semantics.py:191-201 | what the static check reports at a leaf of any rule: missing sources, then a refused path, then no category, then the operand |
| Literals.ParsedStandsFor | backend/app/detection/semantics.py:143-159 | a literal equals a value iff it stands for it: text and integers for themselves, addresses by what they parse to, timestamps by their instant |
| Conditions.OperatorNamesReadBack | backend/app/models/detection.py:20-37 | the fifteen operators and their names correspond one to one |
| Readings.ContextValuesDetermineContext | backend/app/models/normalized_event.py:53-103 | the field table of a category covers its context: contexts with equal field values are equal |
| Meanings.ComparisonMeaning | backend/app/detection/evaluator.py:107-140 | each operator against an independent definition: prefixes, suffixes and infixes by concatenation, membership by quantifiers, CIDR by address blocks |
| Runtime.MaskingIsBlockMembership | backend/app/detection/evaluator.py:136-139 | masking an address gives the network base iff the address lies in the network's block |
| Meanings.LeafMeaning | backend/app/detection/evaluator.py:147-156 | a leaf is unknown exactly when it compares an absent value, existence tests are always settled, and TRUE means that the operator relates the event's own value to the rule's literal |
| Meanings.LeafSettles | backend/app/detection/evaluator.py:147-156 | on a valid event a leaf evaluates iff its path is accepted, its operand admitted, and a compared timestamp has a UTC form |
| Meanings.ConditionMeaning | backend/app/detection/evaluator.py:170-197 | the outcome of a whole condition is the one answer that an independent semantics over the event's values and the rule's literals gives |
| Meanings.ConditionSeesInstant | backend/app/detection/evaluator.py:107-109 | conditions see a timestamp as its UTC instant: the same instant on another clock changes no outcome and no failure |
| Meanings.CombineIsKleene | backend/app/detection/evaluator.py:173-196 | all is the least and any the greatest child outcome in FALSE < UNKNOWN < TRUE, and not reverses that order |
| Meanings.TraceIsCertificate | backend/app/detection/evaluator.py:147-197 | a trace is valid at every node, erases to exactly the condition, its leaves record the event, and every outcome is recomputed from leaf evidence alone |
| Meanings.EvidenceIsFaithful | backend/app/detection/evaluator.py:157-167 | every leaf of a trace records the event's own value behind its path, or that there is none: missing for retained data, absent otherwise |
| Evaluator.EvaluateLeafStepwise | backend/app/detection/evaluator.py:147-167 | gathering the evidence key by key in a dictionary builds the trace of the leaf function |
| Certificates.EvaluateReplays | backend/app/detection/evaluator.py:147-197 | replay without the event reproduces the recorded outcome at every node of every trace |
| Certificates.TraceIsAboutCondition | backend/app/models/detection.py:233-287 | a trace of a valid condition passes validate_trace at every node, starts at the root and erases to the condition |
| Certificates.EvaluationIsVerdict | backend/app/detection/evaluator.py:201-215 | evaluation agrees with the trace-free verdict, error for error, so trace construction never fails on a valid condition |
| Verdicts.EvaluateCertified | backend/app/detection/evaluator.py:170-197 | at any valid location the evaluator refines the verdict with a valid trace of the condition |
| Certificates.LocationsAreAddresses | backend/app/models/detection.py:233-270 | in any rooted tree that is valid at every node, locations decode to the addresses of their nodes and differ between nodes |
| Certificates.LocationLeadsToCondition | backend/app/detection/evaluator.py:170-197 | decoding an evaluator's location walks the condition to the part evaluated there, with the outcome that part has by itself |
| Certificates.DecodeOfRender | backend/app/models/detection.py:264-270 | locations, decimal indices included, can be read back |
| Certificates.LocationLanguage | backend/app/models/detection.py:235 | the location pattern accepts exactly the strings that decode to an address once every decimal digit is read as an ASCII one, hence among ASCII strings exactly those that decode |
| Certificates.TraceSize | backend/app/models/detection.py:159-171 | a trace has at most 1 + leaves * (depth - 1) nodes, with depth and leaves as measured |
| Certificates.EvidenceBounded | backend/app/models/detection.py:210-212 | a valid rule never produces more than 449 trace nodes or a location of more than seven segments |
| Certificates.TrueTraceMakesMatch | backend/app/models/detection.py:303-314 | a true trace of a valid rule always makes a valid match |
| Validity.RuleValidity | backend/app/models/detection.py:187-215 | a rule is valid iff its id is a slug, its texts are not blank, its lists are not empty and without repetition, every part of its condition is valid, no address in it has more than seven steps, it has at most 64 leaves, and sources are given if a leaf reads retained data |
| Validity.LeafValidity | backend/app/models/detection.py:115-132 | the structural check of a leaf accepts exactly the operands that some field type admits |
| Validity.ValidPathMeaning | backend/app/models/detection.py:78-86 | the structurally valid paths are eight names and one identifier below context or source_data |
| Validity.EventValidity | backend/app/models/normalized_event.py:53-138 | an event is valid iff its context is that of its category and each value that conditions can read is in order |
| Validity.TraceValidity | backend/app/models/detection.py:233-287 | validate_trace accepts, at a valid location, exactly the nodes evaluation can make and the redactions of such leaves |
| Validity.MatchValidity | backend/app/models/detection.py:303-314 | validate_match accepts exactly the matches that some valid rule could make of a true root |
| Validity.EvidenceValidity | backend/app/models/alert.py:78-90 | evidence is accepted iff the match, its event and the node at every address of its trace are valid |
| Text.SlugMeaning | backend/app/models/detection.py:52 | the slug test accepts exactly non-empty lists of alphanumeric groups joined by hyphens |
| Text.StringLessMeaning | backend/app/detection/engine.py:20 | the order of identifiers, names and paths: a proper prefix first, otherwise the first differing character decides |
| Completion.DefiniteOutcomeKept | backend/app/detection/evaluator.py:151-196 | without existence tests a TRUE or FALSE root is unchanged when missing data is filled in, under any nesting of not |
| Completion.TrueOutcomeKept | backend/app/detection/evaluator.py:151-196 | with existence tests TRUE is still kept where not_exists stands under odd and exists under even negation |
| Completion.CompletionRefines | backend/app/detection/evaluator.py:151-196 | filling in data keeps each polarity that the condition can be relied on to keep, and never makes evaluation fail |
| Completion.AbsenceTestTakenBack | backend/app/detection/evaluator.py:151-152 | on every valid event and any field, a TRUE not_exists and a FALSE exists are taken back by some valid completion |
| Completion.LeafKeptExactly | backend/app/detection/evaluator.py:147-156 | at a leaf the polarity condition is exact: a definite outcome survives every valid completion iff it holds |
| Desugaring.ListOperatorIsGroup | backend/app/detection/evaluator.py:116-123 | in is any of equals, not_in is all of not_equals, contains_any is any of contains: same failures, same outcomes, unknown included |
| Desugaring.NegationIsComplement | backend/app/detection/evaluator.py:112-135 | not over a leaf equals its complementary operator |
| Desugaring.DeMorgan | backend/app/detection/evaluator.py:173-196 | De Morgan's laws, errors and unknown included |
| Engine.OrderedRules | backend/app/detection/engine.py:13-26 | the loop with its set of seen identifiers computes the ordering function |
| Engine.EvaluateEvent | backend/app/detection/engine.py:29-69 | the collecting loop computes the engine function; a failure drops earlier matches |
| Engine.DuplicatesReported | backend/app/detection/engine.py:20-26 | rules are accepted iff identifiers differ, otherwise the smallest repeated identifier is reported |
| Engine.EngineExact | backend/app/detection/engine.py:47-69 | a result holds one match for exactly the rules that target the event and are TRUE, in strictly ascending rule ID |
| Engine.EngineOrderIndependent | backend/app/detection/engine.py:13-69 | any permutation of the collection gives the identical result or the identical error |
| Engine.EngineErrorIsFirst | backend/app/detection/engine.py:49-54 | an evaluation failure is that of the failing targeted rule with the smallest ID |
| Engine.EngineFailure | backend/app/detection/engine.py:47-69 | for accepted rules with distinct IDs the engine fails iff a targeted rule compares a timestamp without UTC form |
| Engine.RuleApplied | backend/app/detection/engine.py:57-67 | for a valid rule the invalid_match branch is unreachable |
| Engine.EngineSurvivesCompletion | backend/app/detection/engine.py:47-69 | completing an event never makes the engine fail |
| Engine.MatchSurvivesCompletion | backend/app/detection/engine.py:29-69 | on every completion of the event the engine succeeds again and still returns the match of each rule whose TRUE does not rest on absence |
| Discovery.YamlNames | backend/app/detection/loader.py:94 | the suffix rule accepts exactly non-empty stems with a rule-file ending; a bare dotfile has no suffix |
| FileTree.CheckedPath | backend/app/detection/loader.py:49-72 | the component-by-component walk computes the path check |
| FileTree.CheckPathExact | backend/app/detection/loader.py:49-72 | a path is accepted iff it holds no parent escape, leads somewhere and no prefix of it leads to a link; each refusal has its own category, a link before a missing component |
| FileTree.BelowExact | backend/app/detection/loader.py:75-99 | the depth-first enumeration of a finite tree holds every path below its root exactly once |
| Discovery.ListDirectory | backend/app/detection/loader.py:81-97 | the entry loop of one directory computes its listing, with the first error in name order, and checks each entry once and in order up to that error |
| Discovery.Discover | backend/app/detection/loader.py:75-99 | the stack loop terminates, computes the recursive depth-first scan, never checks an entry twice, and on success has checked exactly everything below the root |
| Discovery.PushDirectories | backend/app/detection/loader.py:98 | pushing subdirectories in reverse keeps depth-first order, and pending work shrinks by the directory just visited |
| DiscoveryLaws.DiscoveryExact | backend/app/detection/loader.py:75-99 | discovery succeeds iff the tree holds no link and no irregular rule-file name, and returns exactly the rule files, once each, in strict relative-path order |
| DiscoveryLaws.DiscoveryErrorIsFirst | backend/app/detection/loader.py:75-99 | a failing discovery reports the first hazard in depth-first order, by its path and kind |
| DiscoveryLaws.DiscoveryOrderIndependent | backend/app/detection/loader.py:82 | trees that differ only in enumeration order give the same files or the same error |
| Library.LoadDetectionRules | backend/app/detection/loader.py:142-168 | the loading loop with its identity map computes the load function |
| Library.LoadExact | backend/app/detection/loader.py:142-168 | loading succeeds iff the root is an absolute hazard-free directory, the content of every rule file parses to a valid and accepted rule, and all identities differ; the result is exactly the declared rules in path order |
| Library.LoadFileExact | backend/app/detection/loader.py:102-139 | a path loads as a rule iff it leads without escape or link to a file whose content parses to exactly that rule, valid and accepted; every failure has its path and category |
| Library.LoadErrorIsFirst | backend/app/detection/loader.py:159-168 | a failing load of a hazard-free tree reports the first bad file in path order: its own failure, or the identity it repeats with the paths of both files |
| Library.RootRefused | backend/app/detection/loader.py:142-158 | a relative root and one that is no directory are refused by name before discovery, and a hazard is reported as discovery reports it |
| Library.LoadedRulesAreSound | backend/app/detection/loader.py:134-168 | every loaded rule is structurally valid and statically accepted, and identities differ |
| Library.LoadedLibraryEvaluates | backend/app/detection/loader.py:142-168 | a loaded library fails on a valid event only through a timestamp comparison without UTC form, and otherwise yields exactly the firing rules |
| Library.LoadOrderIndependent | backend/app/detection/loader.py:159-168 | loading, errors included, does not depend on enumeration order |
| Normalization.NormalizedEventIsValid | backend/app/models/normalized_event.py:117-138 | a normalized event is valid iff its raw event is |
| NormalizationLaws.HeaderCopied | backend/app/parsers/sysmon.py:136-149 | a normalized event has the provider, event id, channel, timestamp, computer and record id of the raw event, and the source and category of its identity |
| NormalizationLaws.NormalizeExact | backend/app/parsers/windows_security.py:101-145 | any identity but the seven supported ones is unsupported; a supported event fails iff a required entry says nothing, a number does not parse or is negative, an address does not parse or a port is out of range, with the failure of the first entry in reading order |
| NormalizationLaws.StripMeaning | backend/app/parsers/windows_security.py:34-38 | stripping takes the white space off both ends of an entry and nothing else |
| Normalization.FieldsComeFromEntries | backend/app/parsers/windows_security.py:73-98 | each context field holds the text, address or non-negative number in its own event-data entry, for all seven supported events; numbers are decimal, or hexadecimal behind 0x in the process identifiers of Security 4688 |
| Normalization.EveryFieldHasEntry | backend/app/parsers/sysmon.py:63-103 | every context field except the logon outcome has an entry |
| Normalization.LogonOutcome | backend/app/parsers/windows_security.py:119-126 | the outcome of a normalized logon is success for event 4624 and failure for 4625, the only authentication events |
| Normalization.ConsumedEntriesHaveFields | backend/app/parsers/sysmon.py:20-27 | every consumed entry ends up in a field |
| Normalization.ContextReadsConsumed | backend/app/parsers/sysmon.py:63-103 | a context depends on the consumed entries only |
| Normalization.EventDataPartition | backend/app/parsers/sysmon.py:146-148 | event data is the disjoint union of consumed entries and source data |
| Normalization.UnconsumedEntryIsRetained | backend/app/parsers/windows_security.py:139-141 | setting an unconsumed entry changes source data at that name and nothing else, failures included |
| Normalization.TraceIgnoresEntry | backend/app/detection/evaluator.py:85-104 | changing a retained entry leaves the full trace of every condition that does not read it unchanged |
| Normalization.UnreadEntryHasNoInfluence | backend/app/parsers/sysmon.py:119-149 | from raw event to trace, an unconsumed and unread entry has no influence |
| Runs.CreationExact | backend/app/alerts/creation.py:27-63 | creation succeeds iff identifier, evidence, instant and policy values are all acceptable, and gives a valid NEW alert with exactly these and one common time |
| Runs.CreationRefused | backend/app/alerts/creation.py:36-63 | the field a refused creation names, in the order of the checks |
| Runs.EffectiveRequest | backend/app/alerts/lifecycle.py:29-51 | an effective request advances the state by one step or changes one policy value of an open alert, stamps the times, and changes nothing else |
| Runs.EffectiveExactly | backend/app/alerts/policy.py:30-60 | a request changes an alert iff the guards admit it, and then succeeds with the documented change; any other request fails or returns the alert as it was |
| Runs.FailsExactly | backend/app/alerts/policy.py:36-51 | exactly which requests on a valid alert fail |
| Runs.RequestExact | backend/app/alerts/lifecycle.py:34-51 | every outcome of a request on any alert: refused with the reason and field of the first failing guard, the documented change, or no effect |
| Runs.RunContinues | backend/app/models/alert.py:99-105 | every run keeps identity, evidence, creation time and validity; times only advance and the state never goes back |
| Runs.CreatedRunInvariant | backend/app/alerts/creation.py:41-51 | after any run from creation the evidence is the created one and created <= state changed <= updated |
| Runs.StateChangesBounded | backend/app/alerts/lifecycle.py:19-26 | the state's rank counts the lifecycle changes of a run, at most two |
| Runs.ClosedIsFinal | backend/app/alerts/lifecycle.py:42-45 | a closed alert never changes again |
| Runs.TrimmedRun | backend/app/alerts/lifecycle.py:37-45 | keeping only the requests that the guards admit, judged by instants, states and values alone, leaves a run with the same final alert in which every request succeeds and changes the alert |
| Runs.RunRecords | backend/app/alerts/lifecycle.py:47 | updated_at is the time of the last admitted request, state_changed_at of the last admitted lifecycle request, and each policy value the last admitted one |
| Queue.SnapshotCollection | backend/app/alerts/queue.py:75-89 | exactly the declared number of items is accepted, a size or an iterator that raises is refused, and at most one item more is drawn |
| Queue.ListAlerts | backend/app/alerts/queue.py:38-72 | the validating loop and the filters compute the queue function |
| QueueLaws.QueueExact | backend/app/alerts/queue.py:50-72 | listing succeeds iff all alerts are valid, identifiers differ and filters are well formed; the result is exactly the alerts with a selected state, or an active one where none is selected, and a selected or any severity and priority, strictly ordered |
| QueueLaws.QueueErrorIsFirst | backend/app/alerts/queue.py:52-63 | a failing listing reports its first bad alert, invalid or repeating an identifier, and only then the first malformed filter: states, severities, priorities |
| QueueLaws.QueuePresentation | backend/app/alerts/queue.py:105-111 | alerts appear by documented urgency, then significance, then age, then identifier |
| QueueLaws.QueueOrderIndependent | backend/app/alerts/queue.py:50-72 | success and result are the same for every permutation of the collection |
| QueueLaws.FailureOrderExact | backend/app/alerts/queue.py:50-60 | the failure met is the same for every permutation of the collection iff it does not hold both an invalid alert and two valid ones with the same identifier |
| QueueLaws.QueueErrorOrderExact | backend/app/alerts/queue.py:38-72 | the same condition decides, for any filters, whether the whole outcome of a listing is independent of iteration order |
| QueueLaws.QueueErrorDependsOnOrder | backend/app/alerts/queue.py:52-60 | an instance with two orders of the same three alerts and different failures |
| QueueLaws.QueueIdempotent | backend/app/alerts/queue.py:62-72 | listing a listing again with the same filters gives it back |
| QueueLaws.AcknowledgeInPlace | backend/app/alerts/lifecycle.py:19-21 | acknowledging replaces the alert in place in the default queue |
| QueueLaws.CloseRemoves | backend/app/alerts/lifecycle.py:24-26 | closing removes the alert and keeps all other relative positions |
| QueueLaws.MoreUrgentMovesUp | backend/app/alerts/policy.py:25-27 | a more urgent priority never puts more alerts ahead |
| MatchGraph.DecodeOfEncode | backend/app/models/alert.py:83-84 | dumping a match to its object tree and validating it again loses nothing |
| MatchGraph.Build | backend/app/models/alert.py:83-84 | a validated copy consists of new cells only and has the given value |
| MatchGraph.Dump | backend/app/models/alert.py:83 | dumping a graph yields its value and is refused exactly when the graph has none because of a cycle |
| MatchGraph.ReadMatch | backend/app/models/alert.py:78-90 | evidence is accepted as a match exactly when the graph is that of one |
| Ownership.AlertObject.constructor | backend/app/models/alert.py:76-90 | construction copies the evidence into cells of its own |
| Ownership.AlertObject.SourceMatch | backend/app/models/alert.py:107-112 | every read hands out a new graph with the original value |
| Ownership.AlertObject.Snapshot | backend/app/alerts/_validation.py:27-49 | a snapshot is the alert's value, with detached evidence |
| Ownership.CreateAlertObject | backend/app/alerts/creation.py:27-63 | creation from a graph does what creation from its value does, over new cells |
| Ownership.TransitionObject | backend/app/alerts/lifecycle.py:29-51 | updating snapshot fields one by one and revalidating does what the lifecycle function says, over new cells |
| Ownership.SetPolicyObject | backend/app/alerts/policy.py:30-60 | the same for policy changes |
| Ownership.ListObjects | backend/app/alerts/queue.py:38-72 | a listing holds new alerts with evidence of their own and the values of the queue function |
| Ownership.Session.ListChosen | backend/app/alerts/queue.py:38-72 | listing any collection of the alerts a caller holds adds to them exactly the queue of their values |
| Ownership.Session.EvidenceUnreachable | backend/app/models/alert.py:107-117 | no chain of references from anything the caller holds meets a chain from an alert's evidence |
| Ownership.Session.Perform | backend/app/models/alert.py:76-117 | making, rewriting and following cells, creating, reading, requesting and listing any chosen collection of alerts each keep evidence isolated and every alert's value unchanged |
| Ownership.Session.PerformAll | backend/app/models/alert.py:76-117 | so does every finite sequence of such actions |
| Pipeline.MatchIsEvidence | backend/app/alerts/creation.py:36-60 | every match the engine returns for valid rules on a valid event is explained by one of the rules and passes the revalidation of evidence |
| Pipeline.MatchMakesAlert | backend/app/alerts/creation.py:27-63 | creating an alert from such a match fails only through the identifier, the instant or the policy values |
| Pipeline.AlertStaysExplained | backend/app/models/alert.py:76-117 | after any run of requests an alert's evidence is still the evaluation of a rule of the loaded library on the normalized event |

## Left out

- XML ingestion and the parser registry: the model starts from a raw event with a string map.
- YAML scanning and structural parsing: a file's content goes to an arbitrary function giving a rule that is not yet validated, or an error category.
- Pydantic coercion, serializer warnings and values built by bypassing validation: validated objects are predicates, and stored alert times are UTC instants by type.
- Dynamic type tests on arguments: non-rule items, non-collections and non-event arguments are excluded by typing; foreign policy values, filters and moments are modelled.
- The scalar test on a recorded actual value: recorded values have the scalar type of the model, so it always holds.
- Real file-system calls, their failures and races: the tree is finite and immutable, and names in a directory are distinct and well formed.
- Infinite iterators: a cursor yields a finite sequence; that at most one item beyond the declared size is drawn is proved.
- Exception chaining and message texts: an error keeps its kind, path, operator, field and reason.
- Time zones whose lookup raises: a caller's moment is aware, naive or a foreign object.
- Redaction of traces: the fields and their validation are modelled, no operation sets them.
- Planned features (investigation, enrichment, API, persistence): not implemented in the repository.
