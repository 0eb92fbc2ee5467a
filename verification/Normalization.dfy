/** From raw Windows events to normalized events: backend/app/parsers/sysmon.py and
    backend/app/parsers/windows_security.py. What a normalizer reads, and what it
    retains as source data, never overlap. */
module Normalization {
  import opened Wrappers
  import opened Text
  import opened Runtime
  import opened Events
  import opened Conditions
  import opened Semantics
  import opened Traces
  import opened Evaluator
  import opened StaticCheck

  datatype RawEvent = RawEvent(
    provider: string,
    eventId: int,
    channel: string,
    timestamp: Timestamp,
    computer: string,
    recordId: Option<int>,
    eventData: map<string, string>)

  predicate ValidRawEvent(raw: RawEvent)
  {
    raw.provider != "" && raw.eventId > 0 && raw.channel != "" && raw.computer != "" && NonNegative(raw.recordId)
  }

  datatype NormalizationError =
    | Unsupported
    | Required(field: string)
    | NotAnInteger(field: string)
    | NegativeInteger(field: string)
    | InvalidModel

  type Data = map<string, string>

  // ---- Reading entries ----

  /** Blank and "-" count as absent. */
  function OptionalEntry(h: Host, data: Data, field: string): Option<string>
  {
    if field !in data then None
    else
      var stripped := Strip(h, data[field]);
      if stripped in {"", "-"} then None else Some(stripped)
  }

  function RequiredEntry(h: Host, data: Data, field: string): (r: Result<string, NormalizationError>)
    ensures r.Ok? ==> r.value != ""
  {
    match OptionalEntry(h, data, field)
    case None => Err(Required(field))
    case Some(text) => Ok(text)
  }

  function ParseInteger(h: Host, value: string, field: string, base: nat): (r: Result<int, NormalizationError>)
    ensures r.Ok? ==> r.value >= 0
  {
    match h.integer(value, base)
    case None => Err(NotAnInteger(field))
    case Some(n) => if n < 0 then Err(NegativeInteger(field)) else Ok(n)
  }

  function WindowsBase(value: string): nat { if "0x" <= value || "0X" <= value then 16 else 10 }

  function OptionalInteger(h: Host, data: Data, field: string, windows: bool): (r: Result<Option<int>, NormalizationError>)
    ensures r.Ok? ==> NonNegative(r.value)
  {
    match OptionalEntry(h, data, field)
    case None => Ok(None)
    case Some(text) =>
      var n :- ParseInteger(h, text, field, if windows then WindowsBase(text) else 10);
      Ok(Some(n))
  }

  function RequiredInteger(h: Host, data: Data, field: string, windows: bool): (r: Result<int, NormalizationError>)
    ensures r.Ok? ==> r.value >= 0
  {
    var text :- RequiredEntry(h, data, field);
    ParseInteger(h, text, field, if windows then WindowsBase(text) else 10)
  }

  /** Model validation of an address given as text. */
  function ParseAddress(h: Host, text: string): Result<Address, NormalizationError>
  {
    match h.ipAddress(text) case None => Err(InvalidModel) case Some(a) => Ok(a)
  }

  // ---- Sysmon ----

  const SYSMON_PROCESS: set<string> := {"Image", "ProcessId", "CommandLine", "ParentProcessId", "ParentImage", "User"}
  const SYSMON_NETWORK: set<string> :=
    {"SourceIp", "SourcePort", "DestinationIp", "DestinationPort", "Protocol", "ProcessId", "Image"}
  const SYSMON_FILE: set<string> := {"TargetFilename", "ProcessId", "Image"}
  const SYSMON_DNS: set<string> := {"QueryName", "QueryStatus", "QueryResults", "ProcessId", "Image"}

  function SysmonProcess(h: Host, data: Data): Result<EventContext, NormalizationError>
  {
    var image :- RequiredEntry(h, data, "Image");
    var processId :- RequiredInteger(h, data, "ProcessId", false);
    var parentProcessId :- OptionalInteger(h, data, "ParentProcessId", false);
    Ok(ProcessContext(image, Some(processId), OptionalEntry(h, data, "CommandLine"), parentProcessId,
                      OptionalEntry(h, data, "ParentImage"), OptionalEntry(h, data, "User")))
  }

  function SysmonNetwork(h: Host, data: Data): Result<EventContext, NormalizationError>
  {
    var sourceIp :- RequiredEntry(h, data, "SourceIp");
    var sourcePort :- RequiredInteger(h, data, "SourcePort", false);
    var destinationIp :- RequiredEntry(h, data, "DestinationIp");
    var destinationPort :- RequiredInteger(h, data, "DestinationPort", false);
    var processId :- OptionalInteger(h, data, "ProcessId", false);
    var source :- ParseAddress(h, sourceIp);
    var destination :- ParseAddress(h, destinationIp);
    if !IsPort(sourcePort) || !IsPort(destinationPort) then Err(InvalidModel)
    else
      Ok(NetworkContext(source, sourcePort, destination, destinationPort, OptionalEntry(h, data, "Protocol"),
                        processId, OptionalEntry(h, data, "Image")))
  }

  function SysmonFile(h: Host, data: Data): Result<EventContext, NormalizationError>
  {
    var targetPath :- RequiredEntry(h, data, "TargetFilename");
    var processId :- OptionalInteger(h, data, "ProcessId", false);
    Ok(FileContext(targetPath, processId, OptionalEntry(h, data, "Image")))
  }

  function SysmonDns(h: Host, data: Data): Result<EventContext, NormalizationError>
  {
    var queryName :- RequiredEntry(h, data, "QueryName");
    var processId :- OptionalInteger(h, data, "ProcessId", false);
    Ok(DnsContext(queryName, OptionalEntry(h, data, "QueryStatus"), OptionalEntry(h, data, "QueryResults"),
                  processId, OptionalEntry(h, data, "Image")))
  }

  // ---- Windows Security ----

  const SECURITY_AUTHENTICATION: set<string> :=
    {"TargetUserName", "TargetDomainName", "LogonType", "IpAddress", "IpPort", "WorkstationName"}
  const SECURITY_PROCESS: set<string> :=
    {"NewProcessName", "NewProcessId", "CommandLine", "ProcessId", "ParentProcessName", "SubjectUserName"}

  function SecurityAuthentication(h: Host, data: Data, outcome: AuthenticationOutcome): Result<EventContext, NormalizationError>
  {
    var logonType :- OptionalInteger(h, data, "LogonType", false);
    var sourcePort :- OptionalInteger(h, data, "IpPort", false);
    var sourceIp :- OptionalAddressEntry(h, data, "IpAddress");
    if sourcePort.Some? && !IsPort(sourcePort.value) then Err(InvalidModel)
    else
      Ok(AuthenticationContext(outcome, OptionalEntry(h, data, "TargetUserName"),
                               OptionalEntry(h, data, "TargetDomainName"), logonType, sourceIp, sourcePort,
                               OptionalEntry(h, data, "WorkstationName")))
  }

  function OptionalAddressEntry(h: Host, data: Data, field: string): Result<Option<Address>, NormalizationError>
  {
    match OptionalEntry(h, data, field)
    case None => Ok(None)
    case Some(text) =>
      var address :- ParseAddress(h, text);
      Ok(Some(address))
  }

  function SecurityProcess(h: Host, data: Data): Result<EventContext, NormalizationError>
  {
    var image :- RequiredEntry(h, data, "NewProcessName");
    var processId :- RequiredInteger(h, data, "NewProcessId", true);
    var parentProcessId :- OptionalInteger(h, data, "ProcessId", true);
    Ok(ProcessContext(image, Some(processId), OptionalEntry(h, data, "CommandLine"), parentProcessId,
                      OptionalEntry(h, data, "ParentProcessName"), OptionalEntry(h, data, "SubjectUserName")))
  }

  // ---- Normalizers ----

  /** The supported event kinds. */
  datatype EventKind =
    | SysmonProcessKind | SysmonNetworkKind | SysmonFileKind | SysmonDnsKind
    | LogonKind | FailedLogonKind | SecurityProcessKind

  /** The identity test of both normalizers. */
  function KindOf(raw: RawEvent): Option<EventKind>
  {
    if raw.provider == "Microsoft-Windows-Sysmon" && raw.channel == "Microsoft-Windows-Sysmon/Operational" then
      match raw.eventId
      case 1 => Some(SysmonProcessKind)
      case 3 => Some(SysmonNetworkKind)
      case 11 => Some(SysmonFileKind)
      case 22 => Some(SysmonDnsKind)
      case _ => None
    else if raw.provider == "Microsoft-Windows-Security-Auditing" && raw.channel == "Security" then
      match raw.eventId
      case 4624 => Some(LogonKind)
      case 4625 => Some(FailedLogonKind)
      case 4688 => Some(SecurityProcessKind)
      case _ => None
    else None
  }

  function Consumed(kind: EventKind): set<string>
  {
    match kind
    case SysmonProcessKind => SYSMON_PROCESS
    case SysmonNetworkKind => SYSMON_NETWORK
    case SysmonFileKind => SYSMON_FILE
    case SysmonDnsKind => SYSMON_DNS
    case LogonKind => SECURITY_AUTHENTICATION
    case FailedLogonKind => SECURITY_AUTHENTICATION
    case SecurityProcessKind => SECURITY_PROCESS
  }

  function CategoryOf(kind: EventKind): EventCategory
  {
    match kind
    case SysmonProcessKind => ProcessEvent
    case SysmonNetworkKind => NetworkEvent
    case SysmonFileKind => FileEvent
    case SysmonDnsKind => DnsEvent
    case LogonKind => AuthenticationEvent
    case FailedLogonKind => AuthenticationEvent
    case SecurityProcessKind => ProcessEvent
  }

  function SourceOf(kind: EventKind): EventSource
  {
    if kind.LogonKind? || kind.FailedLogonKind? || kind.SecurityProcessKind? then WindowsSecurity else Sysmon
  }

  function BuildContext(h: Host, kind: EventKind, data: Data): Result<EventContext, NormalizationError>
  {
    match kind
    case SysmonProcessKind => SysmonProcess(h, data)
    case SysmonNetworkKind => SysmonNetwork(h, data)
    case SysmonFileKind => SysmonFile(h, data)
    case SysmonDnsKind => SysmonDns(h, data)
    case LogonKind => SecurityAuthentication(h, data, Success)
    case FailedLogonKind => SecurityAuthentication(h, data, Failure)
    case SecurityProcessKind => SecurityProcess(h, data)
  }

  /** The entries that no context field was built from. */
  function Retained(kind: EventKind, data: Data): Data
  {
    map name | name in data && name !in Consumed(kind) :: data[name]
  }

  /** `normalize_sysmon_event` and `normalize_windows_security_event` */
  function Normalize(h: Host, raw: RawEvent): Result<Event, NormalizationError>
  {
    match KindOf(raw)
    case None => Err(Unsupported)
    case Some(kind) =>
      var context :- BuildContext(h, kind, raw.eventData);
      Ok(Event(SourceOf(kind), raw.provider, raw.eventId, raw.channel, raw.timestamp, raw.computer, raw.recordId,
               CategoryOf(kind), context, Retained(kind, raw.eventData)))
  }

  // ---- What a normalizer guarantees ----

  lemma BuiltContextIsValid(h: Host, kind: EventKind, data: Data)
    requires BuildContext(h, kind, data).Ok?
    ensures ValidContext(BuildContext(h, kind, data).value)
    ensures ContextAgrees(CategoryOf(kind), BuildContext(h, kind, data).value)
  {
    hide OptionalEntry, ParseInteger, Strip;
  }

  /** A normalized event is valid exactly when its raw event is. */
  lemma NormalizedEventIsValid(h: Host, raw: RawEvent)
    requires Normalize(h, raw).Ok?
    ensures ValidEvent(Normalize(h, raw).value) <==> ValidRawEvent(raw)
  {
    hide BuildContext;
    BuiltContextIsValid(h, KindOf(raw).value, raw.eventData);
  }

  ghost predicate SameEntry(h: Host, a: Data, b: Data, name: string)
  {
    OptionalEntry(h, a, name) == OptionalEntry(h, b, name)
  }

  /** Every way of reading an entry goes through its optional text. */
  lemma SameReadings(h: Host, a: Data, b: Data, name: string)
    requires SameEntry(h, a, b, name)
    ensures OptionalEntry(h, a, name) == OptionalEntry(h, b, name)
    ensures RequiredEntry(h, a, name) == RequiredEntry(h, b, name)
    ensures forall windows :: OptionalInteger(h, a, name, windows) == OptionalInteger(h, b, name, windows)
    ensures forall windows :: RequiredInteger(h, a, name, windows) == RequiredInteger(h, b, name, windows)
    ensures OptionalAddressEntry(h, a, name) == OptionalAddressEntry(h, b, name)
  {
    hide OptionalEntry, ParseInteger, Strip, WindowsBase;
  }

  /** A context depends on the consumed entries only. */
  lemma ContextReadsConsumed(h: Host, kind: EventKind, a: Data, b: Data)
    requires forall name | name in Consumed(kind) :: SameEntry(h, a, b, name)
    ensures BuildContext(h, kind, a) == BuildContext(h, kind, b)
  {
    hide SameEntry, SysmonProcess, SysmonNetwork, SysmonFile, SysmonDns, SecurityAuthentication, SecurityProcess;
    match kind
    case SysmonProcessKind => SysmonProcessReads(h, a, b);
    case SysmonNetworkKind => SysmonNetworkReads(h, a, b);
    case SysmonFileKind => SysmonFileReads(h, a, b);
    case SysmonDnsKind => SysmonDnsReads(h, a, b);
    case LogonKind => SecurityAuthenticationReads(h, a, b, Success);
    case FailedLogonKind => SecurityAuthenticationReads(h, a, b, Failure);
    case SecurityProcessKind => SecurityProcessReads(h, a, b);
  }

  lemma SysmonProcessReads(h: Host, a: Data, b: Data)
    requires forall name | name in SYSMON_PROCESS :: SameEntry(h, a, b, name)
    ensures SysmonProcess(h, a) == SysmonProcess(h, b)
  {
    hide SameEntry, OptionalEntry, RequiredEntry, OptionalInteger, RequiredInteger, OptionalAddressEntry, ParseAddress;
    SameReadings(h, a, b, "Image");
    SameReadings(h, a, b, "ProcessId");
    SameReadings(h, a, b, "CommandLine");
    SameReadings(h, a, b, "ParentProcessId");
    SameReadings(h, a, b, "ParentImage");
    SameReadings(h, a, b, "User");
  }

  lemma SysmonNetworkReads(h: Host, a: Data, b: Data)
    requires forall name | name in SYSMON_NETWORK :: SameEntry(h, a, b, name)
    ensures SysmonNetwork(h, a) == SysmonNetwork(h, b)
  {
    hide SameEntry, OptionalEntry, RequiredEntry, OptionalInteger, RequiredInteger, OptionalAddressEntry, ParseAddress;
    SameReadings(h, a, b, "SourceIp");
    SameReadings(h, a, b, "SourcePort");
    SameReadings(h, a, b, "DestinationIp");
    SameReadings(h, a, b, "DestinationPort");
    SameReadings(h, a, b, "Protocol");
    SameReadings(h, a, b, "ProcessId");
    SameReadings(h, a, b, "Image");
  }

  lemma SysmonFileReads(h: Host, a: Data, b: Data)
    requires forall name | name in SYSMON_FILE :: SameEntry(h, a, b, name)
    ensures SysmonFile(h, a) == SysmonFile(h, b)
  {
    hide SameEntry, OptionalEntry, RequiredEntry, OptionalInteger, RequiredInteger, OptionalAddressEntry, ParseAddress;
    SameReadings(h, a, b, "TargetFilename");
    SameReadings(h, a, b, "ProcessId");
    SameReadings(h, a, b, "Image");
  }

  lemma SysmonDnsReads(h: Host, a: Data, b: Data)
    requires forall name | name in SYSMON_DNS :: SameEntry(h, a, b, name)
    ensures SysmonDns(h, a) == SysmonDns(h, b)
  {
    hide SameEntry, OptionalEntry, RequiredEntry, OptionalInteger, RequiredInteger, OptionalAddressEntry, ParseAddress;
    SameReadings(h, a, b, "QueryName");
    SameReadings(h, a, b, "QueryStatus");
    SameReadings(h, a, b, "QueryResults");
    SameReadings(h, a, b, "ProcessId");
    SameReadings(h, a, b, "Image");
  }

  lemma SecurityAuthenticationReads(h: Host, a: Data, b: Data, outcome: AuthenticationOutcome)
    requires forall name | name in SECURITY_AUTHENTICATION :: SameEntry(h, a, b, name)
    ensures SecurityAuthentication(h, a, outcome) == SecurityAuthentication(h, b, outcome)
  {
    hide SameEntry, OptionalEntry, RequiredEntry, OptionalInteger, RequiredInteger, OptionalAddressEntry, ParseAddress;
    SameReadings(h, a, b, "TargetUserName");
    SameReadings(h, a, b, "TargetDomainName");
    SameReadings(h, a, b, "LogonType");
    SameReadings(h, a, b, "IpAddress");
    SameReadings(h, a, b, "IpPort");
    SameReadings(h, a, b, "WorkstationName");
  }

  lemma SecurityProcessReads(h: Host, a: Data, b: Data)
    requires forall name | name in SECURITY_PROCESS :: SameEntry(h, a, b, name)
    ensures SecurityProcess(h, a) == SecurityProcess(h, b)
  {
    hide SameEntry, OptionalEntry, RequiredEntry, OptionalInteger, RequiredInteger, OptionalAddressEntry, ParseAddress;
    SameReadings(h, a, b, "NewProcessName");
    SameReadings(h, a, b, "NewProcessId");
    SameReadings(h, a, b, "CommandLine");
    SameReadings(h, a, b, "ProcessId");
    SameReadings(h, a, b, "ParentProcessName");
    SameReadings(h, a, b, "SubjectUserName");
  }

  // ---- Where the fields come from ----

  /** The entry of the event data behind each context field. */
  function EntryFor(kind: EventKind): map<string, string>
  {
    match kind
    case SysmonProcessKind => map[
      "image" := "Image", "process_id" := "ProcessId", "command_line" := "CommandLine",
      "parent_process_id" := "ParentProcessId", "parent_image" := "ParentImage", "user" := "User"]
    case SysmonNetworkKind => map[
      "source_ip" := "SourceIp", "source_port" := "SourcePort", "destination_ip" := "DestinationIp",
      "destination_port" := "DestinationPort", "protocol" := "Protocol", "process_id" := "ProcessId",
      "process_image" := "Image"]
    case SysmonFileKind => map[
      "target_path" := "TargetFilename", "process_id" := "ProcessId", "process_image" := "Image"]
    case SysmonDnsKind => map[
      "query_name" := "QueryName", "query_status" := "QueryStatus", "query_results" := "QueryResults",
      "process_id" := "ProcessId", "process_image" := "Image"]
    case SecurityProcessKind => map[
      "image" := "NewProcessName", "process_id" := "NewProcessId", "command_line" := "CommandLine",
      "parent_process_id" := "ProcessId", "parent_image" := "ParentProcessName", "user" := "SubjectUserName"]
    case _ => map[
      "user" := "TargetUserName", "domain" := "TargetDomainName", "logon_type" := "LogonType",
      "source_ip" := "IpAddress", "source_port" := "IpPort", "workstation" := "WorkstationName"]
  }

  /** A field holds what its entry says: absent, or the text, number or address in it.
      Numbers are decimal, unless `windows` admits the prefix 0x for hexadecimal. */
  ghost predicate ReadFrom(h: Host, raw: RawField, kind: FieldType, windows: bool, entry: Option<string>)
  {
    match (entry, kind)
    case (None, _) => raw == Unset
    case (Some(text), IntegerType) =>
      var number := h.integer(text, if windows then WindowsBase(text) else 10);
      number.Some? && number.value >= 0 && raw == ScalarField(NumberValue(number.value))
    case (Some(text), IpType) => h.ipAddress(text).Some? && raw == ScalarField(AddressValue(h.ipAddress(text).value))
    case (Some(text), _) => raw == ScalarField(TextValue(text))
  }

  /** Each way of reading an entry yields what the entry says. */
  lemma EntryReadings(h: Host, data: Data, entry: string, windows: bool)
    ensures var said := OptionalEntry(h, data, entry);
      && ReadFrom(h, OptionalText(said), StringType, windows, said)
      && (RequiredEntry(h, data, entry).Ok? ==>
            && ReadFrom(h, ScalarField(TextValue(RequiredEntry(h, data, entry).value)), StringType, windows, said)
            && (ParseAddress(h, RequiredEntry(h, data, entry).value).Ok? ==>
                  ReadFrom(h, ScalarField(AddressValue(ParseAddress(h, RequiredEntry(h, data, entry).value).value)),
                           IpType, windows, said)))
      && (OptionalAddressEntry(h, data, entry).Ok? ==>
            ReadFrom(h, OptionalAddress(OptionalAddressEntry(h, data, entry).value), IpType, windows, said))
      && (OptionalInteger(h, data, entry, windows).Ok? ==>
            ReadFrom(h, OptionalNumber(OptionalInteger(h, data, entry, windows).value), IntegerType, windows, said))
      && (RequiredInteger(h, data, entry, windows).Ok? ==>
            ReadFrom(h, ScalarField(NumberValue(RequiredInteger(h, data, entry, windows).value)), IntegerType, windows, said))
  {
    hide OptionalEntry, Strip, WindowsBase;
  }

  ghost predicate FieldComesFrom(h: Host, kind: EventKind, data: Data, context: EventContext, name: string)
    requires name in EntryFor(kind)
  {
    && EntryFor(kind)[name] in Consumed(kind)
    && name in ContextFields(CategoryOf(kind)) && name in ContextValues(context)
    && ReadFrom(h, ContextValues(context)[name], ContextFields(CategoryOf(kind))[name],
                kind.SecurityProcessKind?, OptionalEntry(h, data, EntryFor(kind)[name]))
  }

  lemma SysmonProcessFields(h: Host, data: Data, name: string)
    requires SysmonProcess(h, data).Ok? && name in EntryFor(SysmonProcessKind)
    ensures FieldComesFrom(h, SysmonProcessKind, data, SysmonProcess(h, data).value, name)
  {
    hide OptionalEntry, RequiredEntry, OptionalInteger, RequiredInteger, OptionalAddressEntry, ParseAddress, ReadFrom;
    EntryReadings(h, data, EntryFor(SysmonProcessKind)[name], false);
  }

  lemma SysmonNetworkFields(h: Host, data: Data, name: string)
    requires SysmonNetwork(h, data).Ok? && name in EntryFor(SysmonNetworkKind)
    ensures FieldComesFrom(h, SysmonNetworkKind, data, SysmonNetwork(h, data).value, name)
  {
    hide OptionalEntry, RequiredEntry, OptionalInteger, RequiredInteger, OptionalAddressEntry, ParseAddress, ReadFrom;
    EntryReadings(h, data, EntryFor(SysmonNetworkKind)[name], false);
  }

  lemma SysmonFileFields(h: Host, data: Data, name: string)
    requires SysmonFile(h, data).Ok? && name in EntryFor(SysmonFileKind)
    ensures FieldComesFrom(h, SysmonFileKind, data, SysmonFile(h, data).value, name)
  {
    hide OptionalEntry, RequiredEntry, OptionalInteger, RequiredInteger, OptionalAddressEntry, ParseAddress, ReadFrom;
    EntryReadings(h, data, EntryFor(SysmonFileKind)[name], false);
  }

  lemma SysmonDnsFields(h: Host, data: Data, name: string)
    requires SysmonDns(h, data).Ok? && name in EntryFor(SysmonDnsKind)
    ensures FieldComesFrom(h, SysmonDnsKind, data, SysmonDns(h, data).value, name)
  {
    hide OptionalEntry, RequiredEntry, OptionalInteger, RequiredInteger, OptionalAddressEntry, ParseAddress, ReadFrom;
    EntryReadings(h, data, EntryFor(SysmonDnsKind)[name], false);
  }

  lemma SecurityProcessFields(h: Host, data: Data, name: string)
    requires SecurityProcess(h, data).Ok? && name in EntryFor(SecurityProcessKind)
    ensures FieldComesFrom(h, SecurityProcessKind, data, SecurityProcess(h, data).value, name)
  {
    hide OptionalEntry, RequiredEntry, OptionalInteger, RequiredInteger, OptionalAddressEntry, ParseAddress, ReadFrom;
    EntryReadings(h, data, EntryFor(SecurityProcessKind)[name], true);
  }

  lemma SecurityAuthenticationFields(h: Host, kind: EventKind, data: Data, outcome: AuthenticationOutcome, name: string)
    requires kind.LogonKind? || kind.FailedLogonKind?
    requires SecurityAuthentication(h, data, outcome).Ok? && name in EntryFor(kind)
    ensures FieldComesFrom(h, kind, data, SecurityAuthentication(h, data, outcome).value, name)
  {
    hide OptionalEntry, RequiredEntry, OptionalInteger, RequiredInteger, OptionalAddressEntry, ParseAddress, ReadFrom;
    EntryReadings(h, data, EntryFor(kind)[name], false);
  }

  /** Every context field except the logon outcome has an entry, that entry is consumed,
      and the field holds what the entry says. */
  lemma FieldsComeFromEntries(h: Host, kind: EventKind, data: Data, name: string)
    requires BuildContext(h, kind, data).Ok? && name in EntryFor(kind)
    ensures FieldComesFrom(h, kind, data, BuildContext(h, kind, data).value, name)
  {
    hide FieldComesFrom, EntryFor, SysmonProcess, SysmonNetwork, SysmonFile, SysmonDns, SecurityAuthentication, SecurityProcess;
    match kind
    case SysmonProcessKind => SysmonProcessFields(h, data, name);
    case SysmonNetworkKind => SysmonNetworkFields(h, data, name);
    case SysmonFileKind => SysmonFileFields(h, data, name);
    case SysmonDnsKind => SysmonDnsFields(h, data, name);
    case LogonKind => SecurityAuthenticationFields(h, kind, data, Success, name);
    case FailedLogonKind => SecurityAuthenticationFields(h, kind, data, Failure, name);
    case SecurityProcessKind => SecurityProcessFields(h, data, name);
  }

  /** The fields with an entry are all the context fields, except the logon outcome. */
  lemma EveryFieldHasEntry(kind: EventKind, name: string)
    ensures name in EntryFor(kind) <==> name in ContextFields(CategoryOf(kind)) && name != "outcome"
  {
  }

  /** The one context field without an entry: it tells a logon from a failed logon. */
  lemma LogonOutcome(h: Host, raw: RawEvent)
    requires Normalize(h, raw).Ok? && Normalize(h, raw).value.category.AuthenticationEvent?
    ensures raw.eventId in {4624, 4625}
    ensures ContextAgrees(AuthenticationEvent, Normalize(h, raw).value.context)
    ensures Normalize(h, raw).value.context.outcome == if raw.eventId == 4624 then Success else Failure
  {
    hide OptionalEntry, OptionalInteger, OptionalAddressEntry;
  }

  ghost predicate HasField(kind: EventKind, entry: string)
  {
    exists name | name in EntryFor(kind) :: EntryFor(kind)[name] == entry
  }

  lemma SysmonProcessEntries(kind: EventKind, entry: string)
    requires entry in Consumed(kind) && (kind.SysmonProcessKind? || kind.SysmonFileKind?)
    ensures HasField(kind, entry)
  {
    var m := EntryFor(kind);
    if kind.SysmonProcessKind? {
      assert m["image"] == "Image" && m["process_id"] == "ProcessId";
      assert m["command_line"] == "CommandLine" && m["parent_process_id"] == "ParentProcessId";
      assert m["parent_image"] == "ParentImage" && m["user"] == "User";
    } else {
      assert m["target_path"] == "TargetFilename" && m["process_id"] == "ProcessId";
      assert m["process_image"] == "Image";
    }
  }

  lemma SysmonNetworkEntries(kind: EventKind, entry: string)
    requires entry in Consumed(kind) && (kind.SysmonNetworkKind? || kind.SysmonDnsKind?)
    ensures HasField(kind, entry)
  {
    var m := EntryFor(kind);
    if kind.SysmonNetworkKind? {
      assert m["source_ip"] == "SourceIp" && m["source_port"] == "SourcePort";
      assert m["destination_ip"] == "DestinationIp" && m["destination_port"] == "DestinationPort";
      assert m["protocol"] == "Protocol" && m["process_id"] == "ProcessId";
      assert m["process_image"] == "Image";
    } else {
      assert m["query_name"] == "QueryName" && m["query_status"] == "QueryStatus";
      assert m["query_results"] == "QueryResults" && m["process_id"] == "ProcessId";
      assert m["process_image"] == "Image";
    }
  }

  lemma SecurityEntries(kind: EventKind, entry: string)
    requires entry in Consumed(kind) && (kind.SecurityProcessKind? || kind.LogonKind? || kind.FailedLogonKind?)
    ensures HasField(kind, entry)
  {
    var m := EntryFor(kind);
    if kind.SecurityProcessKind? {
      assert m["image"] == "NewProcessName" && m["process_id"] == "NewProcessId";
      assert m["command_line"] == "CommandLine" && m["parent_process_id"] == "ProcessId";
      assert m["parent_image"] == "ParentProcessName" && m["user"] == "SubjectUserName";
    } else {
      assert m["user"] == "TargetUserName" && m["domain"] == "TargetDomainName";
      assert m["logon_type"] == "LogonType" && m["source_ip"] == "IpAddress";
      assert m["source_port"] == "IpPort" && m["workstation"] == "WorkstationName";
    }
  }

  /** Nothing is consumed without ending up in a field. */
  lemma ConsumedEntriesHaveFields(kind: EventKind, entry: string)
    requires entry in Consumed(kind)
    ensures exists name | name in EntryFor(kind) :: EntryFor(kind)[name] == entry
  {
    hide EntryFor, Consumed;
    match kind
    case SysmonProcessKind => SysmonProcessEntries(kind, entry);
    case SysmonFileKind => SysmonProcessEntries(kind, entry);
    case SysmonNetworkKind => SysmonNetworkEntries(kind, entry);
    case SysmonDnsKind => SysmonNetworkEntries(kind, entry);
    case _ => SecurityEntries(kind, entry);
  }

  /** The event data is the disjoint union of the consumed entries and source data. */
  lemma EventDataPartition(h: Host, raw: RawEvent)
    requires Normalize(h, raw).Ok?
    ensures
      var (consumed, retained) := (Consumed(KindOf(raw).value), Normalize(h, raw).value.sourceData);
      && retained.Keys !! consumed
      && (map name | name in raw.eventData && name in consumed :: raw.eventData[name]) + retained == raw.eventData
  {
    hide BuildContext, Consumed;
  }

  /** Setting an entry that is not consumed sets source data and nothing else: the
      context, every other field and any failure are unchanged. */
  lemma UnconsumedEntryIsRetained(h: Host, raw: RawEvent, name: string, value: string)
    requires KindOf(raw).Some? && name !in Consumed(KindOf(raw).value)
    ensures Normalize(h, raw.(eventData := raw.eventData[name := value])) ==
      match Normalize(h, raw)
      case Err(e) => Err(e)
      case Ok(event) => Ok(event.(sourceData := event.sourceData[name := value]))
  {
    hide BuildContext, Consumed, Strip;
    var kind := KindOf(raw).value;
    var data := raw.eventData[name := value];
    ContextReadsConsumed(h, kind, raw.eventData, data);
    assert Retained(kind, data) == Retained(kind, raw.eventData)[name := value];
  }

  // ---- The frame of an evaluation ----

  /** No leaf of the condition reads the retained entry. */
  predicate IgnoresEntry(c: Condition, name: string)
  {
    forall leaf | leaf in Leaves(c) :: leaf.field != "source_data." + name
  }

  lemma OtherFieldUnchanged(h: Host, event: Event, name: string, value: string, path: string)
    requires path != "source_data." + name
    ensures ResolveEventField(h, event.(sourceData := event.sourceData[name := value]), path)
         == ResolveEventField(h, event, path)
  {
    hide RetainedName, Resolve, ContextValues;
    var parts := Split(path, '.');
    PathPrefixes(path);
    if FieldTypeOf(h, path, event.category).Ok? && "source_data." <= path {
      JoinOfSplit(path, '.');
      assert Join(parts[1..], '.') == parts[1];
      assert path == parts[0] + ['.'] + parts[1];
      assert path == "source_data." + parts[1];
      assert parts[1] != name;
    }
  }

  /** Changing one retained entry leaves the full trace of every condition that does
      not read it unchanged. */
  lemma {:induction false} TraceIgnoresEntry(h: Host, event: Event, name: string, value: string, c: Condition, location: string)
    requires IgnoresEntry(c, name)
    ensures Evaluate(h, event.(sourceData := event.sourceData[name := value]), c, location) == Evaluate(h, event, c, location)
    decreases c, 1
  {
    hide ResolveEventField, ValidTrace;
    match c
    case Test(leaf) =>
      assert leaf in Leaves(c);
      OtherFieldUnchanged(h, event, name, value, leaf.field);
    case Not(child) => TraceIgnoresEntry(h, event, name, value, child, ChildLocation(location, NotKind, 0));
    case All(nodes) => TracesIgnoreEntry(h, event, name, value, nodes, AllKind, location, 0);
    case Any(nodes) => TracesIgnoreEntry(h, event, name, value, nodes, AnyKind, location, 0);
  }

  lemma {:induction false} TracesIgnoreEntry(h: Host, event: Event, name: string, value: string, nodes: seq<Condition>,
                                             kind: TraceKind, location: string, index: nat)
    requires forall leaf | leaf in LeavesAll(nodes) :: leaf.field != "source_data." + name
    ensures EvaluateEach(h, event.(sourceData := event.sourceData[name := value]), nodes, kind, location, index)
         == EvaluateEach(h, event, nodes, kind, location, index)
    decreases nodes, 0
  {
    hide EvaluateLeaf;
    if nodes != [] {
      assert forall leaf | leaf in Leaves(nodes[0]) :: leaf in LeavesAll(nodes);
      assert forall leaf | leaf in LeavesAll(nodes[1..]) :: leaf in LeavesAll(nodes);
      TraceIgnoresEntry(h, event, name, value, nodes[0], ChildLocation(location, kind, index));
      TracesIgnoreEntry(h, event, name, value, nodes[1..], kind, location, index + 1);
    }
  }

  /** From raw event to trace: an unconsumed entry that the condition does not read
      has no influence on the evaluation. */
  lemma UnreadEntryHasNoInfluence(h: Host, raw: RawEvent, name: string, value: string, c: Condition)
    requires KindOf(raw).Some? && name !in Consumed(KindOf(raw).value) && IgnoresEntry(c, name)
    requires Normalize(h, raw).Ok?
    ensures
      var changed := Normalize(h, raw.(eventData := raw.eventData[name := value]));
      && changed.Ok?
      && EvaluateCondition(h, changed.value, c) == EvaluateCondition(h, Normalize(h, raw).value, c)
  {
    hide Normalize, Evaluate, Consumed, IgnoresEntry;
    UnconsumedEntryIsRetained(h, raw, name, value);
    TraceIgnoresEntry(h, Normalize(h, raw).value, name, value, c, "$");
  }
}
