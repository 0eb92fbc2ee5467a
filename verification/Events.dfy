/** Normalized security events: backend/app/models/normalized_event.py. */
module Events {
  import opened Wrappers
  import opened Runtime

  datatype EventSource = WindowsSecurity | Sysmon
  datatype EventCategory = AuthenticationEvent | ProcessEvent | NetworkEvent | FileEvent | DnsEvent
  datatype AuthenticationOutcome = Success | Failure

  datatype EventContext =
    | AuthenticationContext(
        outcome: AuthenticationOutcome, user: Option<string>, domain: Option<string>,
        logonType: Option<int>, sourceIp: Option<Address>, sourcePort: Option<int>,
        workstation: Option<string>)
    | ProcessContext(
        image: string, processId: Option<int>, commandLine: Option<string>,
        parentProcessId: Option<int>, parentImage: Option<string>, user: Option<string>)
    | NetworkContext(
        networkSourceIp: Address, networkSourcePort: int, destinationIp: Address,
        destinationPort: int, protocol: Option<string>, processId: Option<int>,
        processImage: Option<string>)
    | FileContext(targetPath: string, processId: Option<int>, processImage: Option<string>)
    | DnsContext(
        queryName: string, queryStatus: Option<string>, queryResults: Option<string>,
        processId: Option<int>, processImage: Option<string>)

  datatype Event = Event(
    source: EventSource,
    provider: string,
    eventId: int,
    channel: string,
    timestamp: Timestamp,
    computer: string,
    recordId: Option<int>,
    category: EventCategory,
    context: EventContext,
    sourceData: map<string, string>)

  /** The scalars a field of an event can hold. */
  datatype Scalar =
    | TextValue(text: string)
    | NumberValue(number: int)
    | AddressValue(address: Address)
    | TimeValue(at: Timestamp)

  function SourceName(s: EventSource): string
  {
    match s
    case WindowsSecurity => "windows_security"
    case Sysmon => "sysmon"
  }

  function CategoryName(c: EventCategory): string
  {
    match c
    case AuthenticationEvent => "authentication"
    case ProcessEvent => "process"
    case NetworkEvent => "network"
    case FileEvent => "file"
    case DnsEvent => "dns"
  }

  function OutcomeName(o: AuthenticationOutcome): string
  {
    match o
    case Success => "success"
    case Failure => "failure"
  }

  /** The context must have the type that the category announces. */
  predicate ContextAgrees(category: EventCategory, context: EventContext)
  {
    match category
    case AuthenticationEvent => context.AuthenticationContext?
    case ProcessEvent => context.ProcessContext?
    case NetworkEvent => context.NetworkContext?
    case FileEvent => context.FileContext?
    case DnsEvent => context.DnsContext?
  }

  predicate NonNegative(n: Option<int>) { n.Some? ==> n.value >= 0 }

  predicate IsPort(n: int) { 0 <= n <= 65_535 }

  predicate ValidContext(context: EventContext)
  {
    match context
    case AuthenticationContext(_, _, _, logonType, _, sourcePort, _) =>
      NonNegative(logonType) && (sourcePort.Some? ==> IsPort(sourcePort.value))
    case ProcessContext(image, processId, _, parentProcessId, _, _) =>
      image != "" && NonNegative(processId) && NonNegative(parentProcessId)
    case NetworkContext(_, sourcePort, _, destinationPort, _, processId, _) =>
      IsPort(sourcePort) && IsPort(destinationPort) && NonNegative(processId)
    case FileContext(targetPath, processId, _) =>
      targetPath != "" && NonNegative(processId)
    case DnsContext(queryName, _, _, processId, _) =>
      queryName != "" && NonNegative(processId)
  }

  predicate ValidEvent(e: Event)
  {
    && e.provider != "" && e.eventId > 0 && e.channel != "" && e.computer != ""
    && NonNegative(e.recordId)
    && ValidContext(e.context)
    && ContextAgrees(e.category, e.context)
  }
}
