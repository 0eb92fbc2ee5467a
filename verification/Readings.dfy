/** The language of field paths, and what each path reads on an event, spelled out field
    by field. */
module Readings {
  import opened Wrappers
  import opened Text
  import opened Runtime
  import opened Events
  import opened Conditions
  import opened Semantics
  import opened Traces
  import opened Evaluator
  import opened StaticCheck

  // ---- Paths ----

  predicate IsContextPath(path: string, name: string, category: EventCategory)
  {
    path == "context." + name && name in ContextFields(category)
  }

  predicate IsRetainedPath(path: string, name: string)
  {
    path == "source_data." + name && IsSegment(name)
  }

  lemma SegmentHasNoDot(name: string)
    requires IsSegment(name)
    ensures '.' !in name
  {
    forall c | c in name ensures c != '.' { }
  }

  lemma HostContextNames(category: EventCategory, name: string)
    requires name in ContextFields(category) && (category.AuthenticationEvent? || category.ProcessEvent?)
    ensures IsSegment(name)
  {
  }

  lemma ObjectContextNames(category: EventCategory, name: string)
    requires name in ContextFields(category) && (category.NetworkEvent? || category.FileEvent?)
    ensures IsSegment(name)
  {
  }

  lemma DnsContextNames(name: string)
    requires name in ContextFields(DnsEvent)
    ensures IsSegment(name)
  {
  }

  lemma ContextNameIsSegment(category: EventCategory, name: string)
    requires name in ContextFields(category)
    ensures IsSegment(name)
  {
    hide ContextFields, IsSegment;
    match category
    case DnsEvent => DnsContextNames(name);
    case NetworkEvent => ObjectContextNames(category, name);
    case FileEvent => ObjectContextNames(category, name);
    case _ => HostContextNames(category, name);
  }

  lemma ContextNameHasNoDot(category: EventCategory, name: string)
    requires name in ContextFields(category)
    ensures '.' !in name
  {
    ContextNameIsSegment(category, name);
    SegmentHasNoDot(name);
  }

  lemma SplitPath(path: string, head: string, name: string)
    requires path == head + ['.'] + name && '.' !in head && '.' !in name
    ensures Split(path, '.') == [head, name] && path !in COMMON_FIELDS
  {
    SplitFirst(head, '.', name);
    SplitWithout(name, '.');
    PathPrefixes(path);
  }

  lemma SplitContextPath(path: string, name: string, category: EventCategory)
    requires IsContextPath(path, name, category)
    ensures Split(path, '.') == ["context", name] && path !in COMMON_FIELDS
  {
    hide Split;
    ContextNameHasNoDot(category, name);
    assert "context" + ['.'] == "context.";
    SplitPath(path, "context", name);
  }

  lemma SplitRetainedPath(path: string, name: string)
    requires IsRetainedPath(path, name)
    ensures Split(path, '.') == ["source_data", name] && path !in COMMON_FIELDS
  {
    hide Split;
    SegmentHasNoDot(name);
    assert "source_data" + ['.'] == "source_data.";
    SplitPath(path, "source_data", name);
  }

  /** The closed language of paths: the common names, the context fields of the
      category, and one identifier below source_data. */
  lemma AcceptedPaths(h: Host, path: string, category: EventCategory)
    ensures FieldTypeOf(h, path, category).Ok? <==>
      || path in COMMON_FIELDS
      || (exists name :: IsContextPath(path, name, category))
      || (exists name :: IsRetainedPath(path, name))
  {
    hide IsSegment, RetainedName, Split, ContextFields;
    var parts := Split(path, '.');
    JoinOfSplit(path, '.');
    if path !in COMMON_FIELDS && FieldTypeOf(h, path, category).Ok? {
      assert Join(parts[1..], '.') == parts[1] && path == parts[0] + ['.'] + parts[1];
      RetainedNameIsSegment(h, parts[1]);
      assert parts[0] == "context" ==> path == "context." + parts[1];
      assert parts[0] == "source_data" ==> path == "source_data." + parts[1];
      assert IsContextPath(path, parts[1], category) || IsRetainedPath(path, parts[1]);
    }
    if name :| IsContextPath(path, name, category) {
      SplitContextPath(path, name, category);
    }
    if name :| IsRetainedPath(path, name) {
      SplitRetainedPath(path, name);
      RetainedNameIsSegment(h, name);
    }
  }

  /** Whatever the semantics accepts, the structural path test accepts too. */
  lemma AcceptedPathIsValid(h: Host, path: string, category: EventCategory)
    requires FieldTypeOf(h, path, category).Ok?
    ensures ValidPath(path)
  {
    hide IsSegment, RetainedName, Split;
    CommonFieldsAgree();
    if path !in COMMON_FIELDS {
      var name := Split(path, '.')[1];
      RetainedNameIsSegment(h, name);
      if Split(path, '.')[0] == "context" { ContextNameIsSegment(category, name); }
    }
  }

  // ---- What an event says ----

  function TextIn(s: Option<string>): Option<Scalar> { match s case None => None case Some(text) => Some(TextValue(text)) }

  function NumberIn(n: Option<int>): Option<Scalar> { match n case None => None case Some(number) => Some(NumberValue(number)) }

  function AddressIn(a: Option<Address>): Option<Scalar> { match a case None => None case Some(address) => Some(AddressValue(address)) }

  /** The value behind a common name. */
  function CommonDatum(e: Event, name: string): Option<Scalar>
  {
    if name == "source" then Some(TextValue(match e.source case WindowsSecurity => "windows_security" case Sysmon => "sysmon"))
    else if name == "provider" then Some(TextValue(e.provider))
    else if name == "event_id" then Some(NumberValue(e.eventId))
    else if name == "channel" then Some(TextValue(e.channel))
    else if name == "timestamp" then Some(TimeValue(e.timestamp))
    else if name == "computer" then Some(TextValue(e.computer))
    else if name == "record_id" then NumberIn(e.recordId)
    else if name == "category" then
      Some(TextValue(match e.category
        case AuthenticationEvent => "authentication"
        case ProcessEvent => "process"
        case NetworkEvent => "network"
        case FileEvent => "file"
        case DnsEvent => "dns"))
    else None
  }

  /** The value behind a name in a context. */
  function ContextDatum(context: EventContext, name: string): Option<Scalar>
  {
    match context
    case AuthenticationContext(outcome, user, domain, logonType, sourceIp, sourcePort, workstation) =>
      if name == "outcome" then Some(TextValue(match outcome case Success => "success" case Failure => "failure"))
      else if name == "user" then TextIn(user)
      else if name == "domain" then TextIn(domain)
      else if name == "logon_type" then NumberIn(logonType)
      else if name == "source_ip" then AddressIn(sourceIp)
      else if name == "source_port" then NumberIn(sourcePort)
      else if name == "workstation" then TextIn(workstation)
      else None
    case ProcessContext(image, processId, commandLine, parentProcessId, parentImage, user) =>
      if name == "image" then Some(TextValue(image))
      else if name == "process_id" then NumberIn(processId)
      else if name == "command_line" then TextIn(commandLine)
      else if name == "parent_process_id" then NumberIn(parentProcessId)
      else if name == "parent_image" then TextIn(parentImage)
      else if name == "user" then TextIn(user)
      else None
    case NetworkContext(sourceIp, sourcePort, destinationIp, destinationPort, protocol, processId, processImage) =>
      if name == "source_ip" then Some(AddressValue(sourceIp))
      else if name == "source_port" then Some(NumberValue(sourcePort))
      else if name == "destination_ip" then Some(AddressValue(destinationIp))
      else if name == "destination_port" then Some(NumberValue(destinationPort))
      else if name == "protocol" then TextIn(protocol)
      else if name == "process_id" then NumberIn(processId)
      else if name == "process_image" then TextIn(processImage)
      else None
    case FileContext(targetPath, processId, processImage) =>
      if name == "target_path" then Some(TextValue(targetPath))
      else if name == "process_id" then NumberIn(processId)
      else if name == "process_image" then TextIn(processImage)
      else None
    case DnsContext(queryName, queryStatus, queryResults, processId, processImage) =>
      if name == "query_name" then Some(TextValue(queryName))
      else if name == "query_status" then TextIn(queryStatus)
      else if name == "query_results" then TextIn(queryResults)
      else if name == "process_id" then NumberIn(processId)
      else if name == "process_image" then TextIn(processImage)
      else None
  }

  /** The value behind a path: an entry of the retained data, a field of the context, or
      a field of the event itself. */
  function Datum(e: Event, path: string): Option<Scalar>
  {
    if "source_data." <= path then
      if path[12..] in e.sourceData then Some(TextValue(e.sourceData[path[12..]])) else None
    else if "context." <= path then ContextDatum(e.context, path[8..])
    else CommonDatum(e, path)
  }

  function Reading(value: Option<Scalar>, reason: Absence): Presence
  {
    match value case Some(v) => Present(v) case None => NotPresent(reason)
  }

  // ---- What a path reads ----

  /** The value in a raw field. */
  function ValueIn(raw: RawField): Option<Scalar>
  {
    match raw case Unset => None case EnumField(name) => Some(TextValue(name)) case ScalarField(value) => Some(value)
  }

  lemma CommonFieldValue(e: Event, name: string)
    requires name in COMMON_FIELDS
    ensures name in EventFields(e) && ValueIn(EventFields(e)[name]) == CommonDatum(e, name)
  {
  }

  lemma AuthenticationValue(c: EventContext, name: string)
    requires c.AuthenticationContext? && name in ContextValues(c)
    ensures ValueIn(ContextValues(c)[name]) == ContextDatum(c, name)
  {
  }

  lemma ProcessValue(c: EventContext, name: string)
    requires c.ProcessContext? && name in ContextValues(c)
    ensures ValueIn(ContextValues(c)[name]) == ContextDatum(c, name)
  {
  }

  lemma NetworkValue(c: EventContext, name: string)
    requires c.NetworkContext? && name in ContextValues(c)
    ensures ValueIn(ContextValues(c)[name]) == ContextDatum(c, name)
  {
  }

  lemma FileValue(c: EventContext, name: string)
    requires c.FileContext? && name in ContextValues(c)
    ensures ValueIn(ContextValues(c)[name]) == ContextDatum(c, name)
  {
  }

  lemma DnsValue(c: EventContext, name: string)
    requires c.DnsContext? && name in ContextValues(c)
    ensures ValueIn(ContextValues(c)[name]) == ContextDatum(c, name)
  {
  }

  lemma ContextFieldValue(c: EventContext, name: string)
    requires name in ContextValues(c)
    ensures ValueIn(ContextValues(c)[name]) == ContextDatum(c, name)
  {
    hide ContextValues, ContextDatum, ValueIn;
    match c
    case AuthenticationContext(_, _, _, _, _, _, _) => AuthenticationValue(c, name);
    case ProcessContext(_, _, _, _, _, _) => ProcessValue(c, name);
    case NetworkContext(_, _, _, _, _, _, _) => NetworkValue(c, name);
    case FileContext(_, _, _) => FileValue(c, name);
    case DnsContext(_, _, _, _, _) => DnsValue(c, name);
  }

  lemma ResolveReads(path: string, kind: FieldType, raw: RawField)
    requires Resolve(path, kind, raw).Ok?
    ensures Resolve(path, kind, raw) == Ok(ResolvedField(kind, Reading(ValueIn(raw), Absent)))
  {
  }

  /** A common path reads the field of the event of that name. */
  lemma CommonPathReads(h: Host, event: Event, path: string)
    requires path in
      {"source", "provider", "event_id", "channel", "timestamp", "computer", "record_id", "category"}
    ensures path in COMMON_FIELDS
    ensures ResolveEventField(h, event, path) ==
      Ok(ResolvedField(COMMON_FIELDS[path], Reading(CommonDatum(event, path), Absent)))
  {
    assert path in COMMON_FIELDS;
    hide Split, Resolve, EventFields, CommonDatum, ValueIn;
    PathPrefixes(path);
    CommonFieldResolves(event, path);
    CommonFieldValue(event, path);
    ResolveReads(path, COMMON_FIELDS[path], EventFields(event)[path]);
  }

  /** A context path reads the field of the context of that name. */
  lemma ContextPathReads(h: Host, event: Event, path: string, name: string)
    requires ContextAgrees(event.category, event.context) && IsContextPath(path, name, event.category)
    ensures name in ContextValues(event.context)
    ensures ResolveEventField(h, event, path) ==
      Ok(ResolvedField(ContextFields(event.category)[name], Reading(ContextDatum(event.context, name), Absent)))
  {
    hide Split, Resolve, ContextFields, ContextValues, ContextDatum, ValueIn;
    SplitContextPath(path, name, event.category);
    PathPrefixes(path);
    ContextFieldResolves(event.category, event.context, path, name);
    ContextFieldValue(event.context, name);
    ResolveReads(path, ContextFields(event.category)[name], ContextValues(event.context)[name]);
  }

  /** A retained path reads the entry of its name as text, or finds it missing. */
  lemma RetainedPathReads(h: Host, event: Event, path: string, name: string)
    requires IsRetainedPath(path, name)
    ensures ResolveEventField(h, event, path) == Ok(ResolvedField(StringType,
      if name in event.sourceData then Present(TextValue(event.sourceData[name])) else NotPresent(Missing)))
  {
    hide Split, RetainedName, IsSegment;
    SplitRetainedPath(path, name);
    PathPrefixes(path);
    RetainedNameIsSegment(h, name);
  }

  /** Whatever path resolves reads the value behind it. */
  lemma PathReads(h: Host, event: Event, path: string)
    requires ResolveEventField(h, event, path).Ok?
    ensures ResolveEventField(h, event, path).value.presence ==
      Reading(Datum(event, path), if "source_data." <= path then Missing else Absent)
  {
    hide Split, ContextFields, ContextValues, CommonDatum, ContextDatum, Resolve, IsSegment, Reading;
    AcceptedPaths(h, path, event.category);
    PathPrefixes(path);
    if path in COMMON_FIELDS {
      CommonFieldsAgree();
      CommonPathReads(h, event, path);
    } else if name :| IsContextPath(path, name, event.category) {
      assert "context." <= path && path[8..] == name;
      SplitContextPath(path, name, event.category);
      ContextPathReads(h, event, path, name);
    } else {
      var name :| IsRetainedPath(path, name);
      assert "source_data." <= path && path[12..] == name;
      RetainedPathReads(h, event, path, name);
      RetainedReading(event, path, name);
    }
  }

  lemma RetainedReading(event: Event, path: string, name: string)
    requires "source_data." <= path && path[12..] == name
    ensures Reading(Datum(event, path), Missing) ==
      if name in event.sourceData then Present(TextValue(event.sourceData[name])) else NotPresent(Missing)
  {
  }

  // ---- The fields of a context ----

  lemma AuthenticationDetermined(a: EventContext, b: EventContext)
    requires a.AuthenticationContext? && b.AuthenticationContext? && ContextValues(a) == ContextValues(b)
    ensures a == b
  {
    var x, y := ContextValues(a), ContextValues(b);
    assert x["outcome"] == y["outcome"] && x["user"] == y["user"] && x["domain"] == y["domain"];
    assert x["logon_type"] == y["logon_type"] && x["source_ip"] == y["source_ip"] && x["source_port"] == y["source_port"];
    assert x["workstation"] == y["workstation"];
  }

  lemma ProcessDetermined(a: EventContext, b: EventContext)
    requires a.ProcessContext? && b.ProcessContext? && ContextValues(a) == ContextValues(b)
    ensures a == b
  {
    var x, y := ContextValues(a), ContextValues(b);
    assert x["image"] == y["image"] && x["process_id"] == y["process_id"] && x["command_line"] == y["command_line"];
    assert x["parent_process_id"] == y["parent_process_id"] && x["parent_image"] == y["parent_image"] && x["user"] == y["user"];
  }

  lemma NetworkDetermined(a: EventContext, b: EventContext)
    requires a.NetworkContext? && b.NetworkContext? && ContextValues(a) == ContextValues(b)
    ensures a == b
  {
    var x, y := ContextValues(a), ContextValues(b);
    assert x["source_ip"] == y["source_ip"] && x["source_port"] == y["source_port"] && x["destination_ip"] == y["destination_ip"];
    assert x["destination_port"] == y["destination_port"] && x["protocol"] == y["protocol"] && x["process_id"] == y["process_id"];
    assert x["process_image"] == y["process_image"];
  }

  lemma FileDetermined(a: EventContext, b: EventContext)
    requires a.FileContext? && b.FileContext? && ContextValues(a) == ContextValues(b)
    ensures a == b
  {
    var x, y := ContextValues(a), ContextValues(b);
    assert x["target_path"] == y["target_path"] && x["process_id"] == y["process_id"] && x["process_image"] == y["process_image"];
  }

  lemma DnsDetermined(a: EventContext, b: EventContext)
    requires a.DnsContext? && b.DnsContext? && ContextValues(a) == ContextValues(b)
    ensures a == b
  {
    var x, y := ContextValues(a), ContextValues(b);
    assert x["query_name"] == y["query_name"] && x["query_status"] == y["query_status"] && x["query_results"] == y["query_results"];
    assert x["process_id"] == y["process_id"] && x["process_image"] == y["process_image"];
  }

  /** Conditions can see all of a context: two contexts of a category whose fields have
      the same values are the same context. */
  lemma ContextValuesDetermineContext(category: EventCategory, a: EventContext, b: EventContext)
    requires ContextAgrees(category, a) && ContextAgrees(category, b) && ContextValues(a) == ContextValues(b)
    ensures a == b
    ensures ContextValues(a).Keys == ContextFields(category).Keys
  {
    match category
    case AuthenticationEvent => AuthenticationDetermined(a, b);
    case ProcessEvent => ProcessDetermined(a, b);
    case NetworkEvent => NetworkDetermined(a, b);
    case FileEvent => FileDetermined(a, b);
    case DnsEvent => DnsDetermined(a, b);
  }
}
