/** Which raw events normalize, with what header, and why the others are refused, stated
    on the raw event and the stripped text of its entries. */
module NormalizationLaws {
  import opened Wrappers
  import opened Runtime
  import opened Events
  import opened Normalization

  // ---- Identities ----

  predicate FromSysmon(raw: RawEvent)
  {
    raw.provider == "Microsoft-Windows-Sysmon" && raw.channel == "Microsoft-Windows-Sysmon/Operational"
  }

  predicate FromSecurity(raw: RawEvent)
  {
    raw.provider == "Microsoft-Windows-Security-Auditing" && raw.channel == "Security"
  }

  /** The seven supported identities. */
  predicate IsKind(raw: RawEvent, kind: EventKind)
  {
    match kind
    case SysmonProcessKind => FromSysmon(raw) && raw.eventId == 1
    case SysmonNetworkKind => FromSysmon(raw) && raw.eventId == 3
    case SysmonFileKind => FromSysmon(raw) && raw.eventId == 11
    case SysmonDnsKind => FromSysmon(raw) && raw.eventId == 22
    case LogonKind => FromSecurity(raw) && raw.eventId == 4624
    case FailedLogonKind => FromSecurity(raw) && raw.eventId == 4625
    case SecurityProcessKind => FromSecurity(raw) && raw.eventId == 4688
  }

  lemma KindIsIdentity(raw: RawEvent, kind: EventKind)
    ensures KindOf(raw) == Some(kind) <==> IsKind(raw, kind)
  {
  }

  /** The header of a normalized event is the raw header, and its source and category
      are those of the identity. */
  lemma HeaderCopied(h: Host, raw: RawEvent)
    requires Normalize(h, raw).Ok?
    ensures var e := Normalize(h, raw).value;
      && e.provider == raw.provider && e.eventId == raw.eventId && e.channel == raw.channel
      && e.timestamp == raw.timestamp && e.computer == raw.computer && e.recordId == raw.recordId
      && (e.source.Sysmon? <==> FromSysmon(raw)) && (e.source.WindowsSecurity? <==> FromSecurity(raw))
      && (e.category.ProcessEvent? <==> raw.eventId == 1 || raw.eventId == 4688)
      && (e.category.NetworkEvent? <==> raw.eventId == 3)
      && (e.category.FileEvent? <==> raw.eventId == 11)
      && (e.category.DnsEvent? <==> raw.eventId == 22)
      && (e.category.AuthenticationEvent? <==> raw.eventId == 4624 || raw.eventId == 4625)
  {
    hide BuildContext, IsKind, FromSysmon, FromSecurity;
    KindIsIdentity(raw, KindOf(raw).value);
    IdentityParts(raw, KindOf(raw).value);
  }

  lemma IdentityParts(raw: RawEvent, kind: EventKind)
    requires IsKind(raw, kind)
    ensures FromSysmon(raw) <==> kind.SysmonProcessKind? || kind.SysmonNetworkKind? || kind.SysmonFileKind? || kind.SysmonDnsKind?
    ensures FromSecurity(raw) <==> kind.LogonKind? || kind.FailedLogonKind? || kind.SecurityProcessKind?
    ensures raw.eventId ==
      match kind
      case SysmonProcessKind => 1
      case SysmonNetworkKind => 3
      case SysmonFileKind => 11
      case SysmonDnsKind => 22
      case LogonKind => 4624
      case FailedLogonKind => 4625
      case SecurityProcessKind => 4688
  {
    KindIsIdentity(raw, kind);
  }

  // ---- Entries ----

  /** The text without the white space around it. */
  ghost predicate StrippedTo(h: Host, s: string, t: string)
  {
    exists left, right :: Surrounded(h, s, left, t, right)
  }

  predicate Surrounded(h: Host, s: string, left: string, t: string, right: string)
  {
    && s == left + t + right
    && (forall c | c in left :: h.isSpace(c)) && (forall c | c in right :: h.isSpace(c))
    && (t != "" ==> !h.isSpace(t[0]) && !h.isSpace(t[|t| - 1]))
  }

  lemma {:induction false} StripLeftParts(h: Host, s: string) returns (left: string)
    ensures s == left + StripLeft(h, s) && forall c | c in left :: h.isSpace(c)
    ensures StripLeft(h, s) != "" ==> !h.isSpace(StripLeft(h, s)[0])
  {
    if s != "" && h.isSpace(s[0]) {
      left := StripLeftParts(h, s[1..]);
      assert s == [s[0]] + s[1..];
      left := [s[0]] + left;
    } else {
      left := "";
    }
  }

  lemma {:induction false} StripRightParts(h: Host, s: string) returns (right: string)
    ensures s == StripRight(h, s) + right && forall c | c in right :: h.isSpace(c)
    ensures StripRight(h, s) != "" ==> !h.isSpace(StripRight(h, s)[|StripRight(h, s)| - 1])
  {
    if s != "" && h.isSpace(s[|s| - 1]) {
      right := StripRightParts(h, s[..|s| - 1]);
      assert s == s[..|s| - 1] + [s[|s| - 1]];
      right := right + [s[|s| - 1]];
    } else {
      right := "";
    }
  }

  lemma {:induction false} StripLeftOf(h: Host, left: string, rest: string)
    requires forall c | c in left :: h.isSpace(c)
    ensures StripLeft(h, left + rest) == StripLeft(h, rest)
  {
    if left == "" {
      assert left + rest == rest;
    } else {
      assert left[0] in left && (left + rest)[1..] == left[1..] + rest;
      StripLeftOf(h, left[1..], rest);
    }
  }

  lemma {:induction false} StripRightOf(h: Host, rest: string, right: string)
    requires forall c | c in right :: h.isSpace(c)
    ensures StripRight(h, rest + right) == StripRight(h, rest)
  {
    if right == "" {
      assert rest + right == rest;
    } else {
      var s := rest + right;
      assert s[|s| - 1] == right[|right| - 1] && right[|right| - 1] in right;
      assert s[..|s| - 1] == rest + right[..|right| - 1];
      StripRightOf(h, rest, right[..|right| - 1]);
    }
  }

  /** Stripping takes the white space off both ends, and nothing else. */
  lemma StripMeaning(h: Host, s: string, t: string)
    ensures Strip(h, s) == t <==> StrippedTo(h, s, t)
  {
    hide StripLeft, StripRight;
    if Strip(h, s) == t {
      var left := StripLeftParts(h, s);
      var right := StripRightParts(h, StripLeft(h, s));
      assert t != "" ==> t[0] == StripLeft(h, s)[0];
      assert s == left + t + right;
      assert Surrounded(h, s, left, t, right);
    }
    if left, right :| Surrounded(h, s, left, t, right) {
      assert left + t + right == left + (t + right);
      StripLeftOf(h, left, t + right);
      StripOfCore(h, t, right);
    }
  }

  lemma StripOfCore(h: Host, t: string, right: string)
    requires forall c | c in right :: h.isSpace(c)
    requires t != "" ==> !h.isSpace(t[0]) && !h.isSpace(t[|t| - 1])
    ensures StripRight(h, StripLeft(h, t + right)) == t
  {
    if t == "" {
      assert t + right == right + "";
      StripLeftOf(h, right, "");
    } else {
      assert (t + right)[0] == t[0];
      StripRightOf(h, t, right);
    }
  }

  /** The entry is there and says something: text that is neither blank nor "-". */
  ghost predicate EntrySays(h: Host, data: Data, name: string, text: string)
  {
    name in data && StrippedTo(h, data[name], text) && text != "" && text != "-"
  }

  lemma EntryMeaning(h: Host, data: Data, name: string)
    ensures forall text :: OptionalEntry(h, data, name) == Some(text) <==> EntrySays(h, data, name, text)
  {
    hide StrippedTo, Strip;
    if name in data {
      forall text ensures Strip(h, data[name]) == text <==> StrippedTo(h, data[name], text) {
        StripMeaning(h, data[name], text);
      }
    }
  }

  // ---- What each event needs of its entries ----

  /** The entries that can fail by themselves, in the order they are read. */
  function ReadingOrder(kind: EventKind): seq<string>
  {
    match kind
    case SysmonProcessKind => ["Image", "ProcessId", "ParentProcessId"]
    case SysmonNetworkKind => ["SourceIp", "SourcePort", "DestinationIp", "DestinationPort", "ProcessId"]
    case SysmonFileKind => ["TargetFilename", "ProcessId"]
    case SysmonDnsKind => ["QueryName", "ProcessId"]
    case SecurityProcessKind => ["NewProcessName", "NewProcessId", "ProcessId"]
    case _ => ["LogonType", "IpPort"]
  }

  predicate IsRequired(kind: EventKind, name: string)
  {
    match kind
    case SysmonProcessKind => name == "Image" || name == "ProcessId"
    case SysmonNetworkKind => name == "SourceIp" || name == "SourcePort" || name == "DestinationIp" || name == "DestinationPort"
    case SysmonFileKind => name == "TargetFilename"
    case SysmonDnsKind => name == "QueryName"
    case SecurityProcessKind => name == "NewProcessName" || name == "NewProcessId"
    case _ => false
  }

  predicate IsNumber(kind: EventKind, name: string)
  {
    match kind
    case SysmonProcessKind => name == "ProcessId" || name == "ParentProcessId"
    case SysmonNetworkKind => name == "SourcePort" || name == "DestinationPort" || name == "ProcessId"
    case SysmonFileKind => name == "ProcessId"
    case SysmonDnsKind => name == "ProcessId"
    case SecurityProcessKind => name == "NewProcessId" || name == "ProcessId"
    case _ => name == "LogonType" || name == "IpPort"
  }

  predicate IsAddress(kind: EventKind, name: string)
  {
    match kind
    case SysmonNetworkKind => name == "SourceIp" || name == "DestinationIp"
    case LogonKind => name == "IpAddress"
    case FailedLogonKind => name == "IpAddress"
    case _ => false
  }

  predicate IsPortEntry(kind: EventKind, name: string)
  {
    match kind
    case SysmonNetworkKind => name == "SourcePort" || name == "DestinationPort"
    case LogonKind => name == "IpPort"
    case FailedLogonKind => name == "IpPort"
    case _ => false
  }

  /** The base a number is written in: 16 behind 0x for process identifiers of the
      security log, 10 otherwise. */
  function BaseOf(kind: EventKind, text: string): nat
  {
    if kind.SecurityProcessKind? && |text| >= 2 && text[0] == '0' && (text[1] == 'x' || text[1] == 'X') then 16 else 10
  }

  /** An entry fails by itself: it is required and says nothing, or it is no number, or
      a negative one. */
  ghost predicate EntryFails(h: Host, kind: EventKind, data: Data, name: string, error: NormalizationError)
  {
    || (IsRequired(kind, name) && (forall text :: !EntrySays(h, data, name, text)) && error == Required(name))
    || (IsNumber(kind, name) && exists text :: EntrySays(h, data, name, text) && NumberFails(h, kind, name, text, error))
  }

  predicate NumberFails(h: Host, kind: EventKind, name: string, text: string, error: NormalizationError)
  {
    match h.integer(text, BaseOf(kind, text))
    case None => error == NotAnInteger(name)
    case Some(number) => number < 0 && error == NegativeInteger(name)
  }

  /** An address does not parse, or a port is out of range. */
  ghost predicate ModelFails(h: Host, kind: EventKind, data: Data)
  {
    exists name, text :: EntrySays(h, data, name, text) && ValueFails(h, kind, name, text)
  }

  predicate ValueFails(h: Host, kind: EventKind, name: string, text: string)
  {
    || (IsAddress(kind, name) && h.ipAddress(text).None?)
    || (IsPortEntry(kind, name) && h.integer(text, 10).Some? && h.integer(text, 10).value > 65_535)
  }

  /** The failure of the event data: that of the first entry that fails by itself, and
      when none does, that of a bad address or port. */
  ghost predicate DataFails(h: Host, kind: EventKind, data: Data, error: NormalizationError)
  {
    || (exists k :: FailsFirst(h, kind, data, k, error))
    || (error == InvalidModel && NoneFails(h, kind, data, |ReadingOrder(kind)|) && ModelFails(h, kind, data))
  }

  ghost predicate NoneFails(h: Host, kind: EventKind, data: Data, k: int)
    requires 0 <= k <= |ReadingOrder(kind)|
  {
    forall j, e | 0 <= j < k :: !EntryFails(h, kind, data, ReadingOrder(kind)[j], e)
  }

  ghost predicate FailsFirst(h: Host, kind: EventKind, data: Data, k: int, error: NormalizationError)
  {
    0 <= k < |ReadingOrder(kind)| && NoneFails(h, kind, data, k) && EntryFails(h, kind, data, ReadingOrder(kind)[k], error)
  }

  // ---- The code agrees ----

  /** The failure of one entry, computed. */
  function StepFailure(h: Host, kind: EventKind, data: Data, name: string): Option<NormalizationError>
  {
    match OptionalEntry(h, data, name)
    case None => if IsRequired(kind, name) then Some(Required(name)) else None
    case Some(text) =>
      if !IsNumber(kind, name) then None
      else
        match h.integer(text, BaseOf(kind, text))
        case None => Some(NotAnInteger(name))
        case Some(number) => if number < 0 then Some(NegativeInteger(name)) else None
  }

  lemma StepFailureMeaning(h: Host, kind: EventKind, data: Data, name: string)
    ensures forall e :: EntryFails(h, kind, data, name, e) <==> StepFailure(h, kind, data, name) == Some(e)
  {
    hide EntrySays, OptionalEntry, IsRequired, IsNumber, BaseOf;
    EntryMeaning(h, data, name);
    if OptionalEntry(h, data, name).Some? {
      assert EntrySays(h, data, name, OptionalEntry(h, data, name).value);
    }
  }

  lemma BasesAgree(kind: EventKind, text: string)
    ensures BaseOf(kind, text) == if kind.SecurityProcessKind? then WindowsBase(text) else 10
  {
  }

  /** How each way of reading an entry fails. */
  lemma ReadingFails(h: Host, kind: EventKind, data: Data, name: string)
    ensures var w := kind.SecurityProcessKind?; var failure := StepFailure(h, kind, data, name);
      && (IsRequired(kind, name) && !IsNumber(kind, name) ==>
            ErrorIn(RequiredEntry(h, data, name)) == failure)
      && (IsRequired(kind, name) && IsNumber(kind, name) ==>
            ErrorIn(RequiredInteger(h, data, name, w)) == failure)
      && (!IsRequired(kind, name) && IsNumber(kind, name) ==>
            ErrorIn(OptionalInteger(h, data, name, w)) == failure)
  {
    hide OptionalEntry, IsRequired, IsNumber, BaseOf, WindowsBase;
    if OptionalEntry(h, data, name).Some? { BasesAgree(kind, OptionalEntry(h, data, name).value); }
  }

  function ErrorIn<T>(r: Result<T, NormalizationError>): Option<NormalizationError>
  {
    match r case Ok(_) => None case Err(e) => Some(e)
  }

  /** The first failure of an entry, from a position of the reading order on. */
  function FirstStep(h: Host, kind: EventKind, data: Data, k: nat): Option<NormalizationError>
    requires k <= |ReadingOrder(kind)|
    decreases |ReadingOrder(kind)| - k
  {
    if k == |ReadingOrder(kind)| then None
    else if StepFailure(h, kind, data, ReadingOrder(kind)[k]).Some? then StepFailure(h, kind, data, ReadingOrder(kind)[k])
    else FirstStep(h, kind, data, k + 1)
  }

  lemma {:induction false} FirstStepMeaning(h: Host, kind: EventKind, data: Data, k: nat)
    requires k <= |ReadingOrder(kind)| && NoneFails(h, kind, data, k)
    ensures FirstStep(h, kind, data, k).None? <==> NoneFails(h, kind, data, |ReadingOrder(kind)|)
    ensures forall e :: FirstStep(h, kind, data, k) == Some(e) <==> exists j :: FailsFirst(h, kind, data, j, e)
    decreases |ReadingOrder(kind)| - k
  {
    hide EntryFails, StepFailure, ReadingOrder;
    var order := ReadingOrder(kind);
    if k < |order| {
      StepFailureMeaning(h, kind, data, order[k]);
      var failure := StepFailure(h, kind, data, order[k]);
      if failure.Some? {
        assert EntryFails(h, kind, data, order[k], failure.value);
        assert FailsFirst(h, kind, data, k, failure.value);
      } else {
        assert NoneFails(h, kind, data, k + 1);
        FirstStepMeaning(h, kind, data, k + 1);
      }
    }
  }

  lemma ValueFailsAt(h: Host, kind: EventKind, data: Data, name: string)
    ensures (exists text :: EntrySays(h, data, name, text) && ValueFails(h, kind, name, text))
      <==> OptionalEntry(h, data, name).Some? && ValueFails(h, kind, name, OptionalEntry(h, data, name).value)
  {
    hide EntrySays, OptionalEntry, ValueFails;
    EntryMeaning(h, data, name);
  }

  /** The failure of the event data, computed from the failures of its entries. */
  ghost function DataFailure(h: Host, kind: EventKind, data: Data): Option<NormalizationError>
  {
    if FirstStep(h, kind, data, 0).Some? then FirstStep(h, kind, data, 0)
    else if ModelFails(h, kind, data) then Some(InvalidModel)
    else None
  }

  lemma SysmonProcessFails(h: Host, data: Data)
    ensures ErrorIn(SysmonProcess(h, data)) == DataFailure(h, SysmonProcessKind, data)
  {
    hide StepFailure, OptionalEntry, RequiredEntry, RequiredInteger, OptionalInteger, EntrySays;
    var kind := SysmonProcessKind;
    ReadingFails(h, kind, data, "Image");
    ReadingFails(h, kind, data, "ProcessId");
    ReadingFails(h, kind, data, "ParentProcessId");
    StepsOfThree(h, kind, data);
  }

  lemma SysmonFileFails(h: Host, data: Data)
    ensures ErrorIn(SysmonFile(h, data)) == DataFailure(h, SysmonFileKind, data)
  {
    hide StepFailure, OptionalEntry, RequiredEntry, RequiredInteger, OptionalInteger, EntrySays;
    ReadingFails(h, SysmonFileKind, data, "TargetFilename");
    ReadingFails(h, SysmonFileKind, data, "ProcessId");
    StepsOfTwo(h, SysmonFileKind, data);
  }

  lemma SysmonDnsFails(h: Host, data: Data)
    ensures ErrorIn(SysmonDns(h, data)) == DataFailure(h, SysmonDnsKind, data)
  {
    hide StepFailure, OptionalEntry, RequiredEntry, RequiredInteger, OptionalInteger, EntrySays;
    ReadingFails(h, SysmonDnsKind, data, "QueryName");
    ReadingFails(h, SysmonDnsKind, data, "ProcessId");
    StepsOfTwo(h, SysmonDnsKind, data);
  }

  lemma SecurityProcessFails(h: Host, data: Data)
    ensures ErrorIn(SecurityProcess(h, data)) == DataFailure(h, SecurityProcessKind, data)
  {
    hide StepFailure, OptionalEntry, RequiredEntry, RequiredInteger, OptionalInteger, EntrySays;
    var kind := SecurityProcessKind;
    ReadingFails(h, kind, data, "NewProcessName");
    ReadingFails(h, kind, data, "NewProcessId");
    ReadingFails(h, kind, data, "ProcessId");
    StepsOfThree(h, kind, data);
  }

  function FirstOf(a: Option<NormalizationError>, b: Option<NormalizationError>): Option<NormalizationError>
  {
    if a.Some? then a else b
  }

  lemma StepsOfTwo(h: Host, kind: EventKind, data: Data)
    requires |ReadingOrder(kind)| == 2
    ensures var order := ReadingOrder(kind);
      FirstStep(h, kind, data, 0) == FirstOf(StepFailure(h, kind, data, order[0]), StepFailure(h, kind, data, order[1]))
  {
    hide StepFailure, ReadingOrder;
    assert FirstStep(h, kind, data, 2) == None;
    assert FirstStep(h, kind, data, 1) == StepFailure(h, kind, data, ReadingOrder(kind)[1]);
  }

  lemma StepsOfThree(h: Host, kind: EventKind, data: Data)
    requires |ReadingOrder(kind)| == 3
    ensures var order := ReadingOrder(kind);
      FirstStep(h, kind, data, 0) == FirstOf(StepFailure(h, kind, data, order[0]),
        FirstOf(StepFailure(h, kind, data, order[1]), StepFailure(h, kind, data, order[2])))
  {
    hide StepFailure, ReadingOrder;
    assert FirstStep(h, kind, data, 3) == None;
    assert FirstStep(h, kind, data, 2) == StepFailure(h, kind, data, ReadingOrder(kind)[2]);
    assert FirstStep(h, kind, data, 1) ==
      FirstOf(StepFailure(h, kind, data, ReadingOrder(kind)[1]), StepFailure(h, kind, data, ReadingOrder(kind)[2]));
  }

  lemma StepsOfFive(h: Host, kind: EventKind, data: Data)
    requires |ReadingOrder(kind)| == 5
    ensures var order := ReadingOrder(kind);
      FirstStep(h, kind, data, 0) == FirstOf(StepFailure(h, kind, data, order[0]),
        FirstOf(StepFailure(h, kind, data, order[1]), FirstOf(StepFailure(h, kind, data, order[2]),
          FirstOf(StepFailure(h, kind, data, order[3]), StepFailure(h, kind, data, order[4])))))
  {
    hide StepFailure, ReadingOrder;
    assert FirstStep(h, kind, data, 5) == None;
    assert FirstStep(h, kind, data, 4) == StepFailure(h, kind, data, ReadingOrder(kind)[4]);
    assert FirstStep(h, kind, data, 3) ==
      FirstOf(StepFailure(h, kind, data, ReadingOrder(kind)[3]), StepFailure(h, kind, data, ReadingOrder(kind)[4]));
    assert FirstStep(h, kind, data, 2) == FirstOf(StepFailure(h, kind, data, ReadingOrder(kind)[2]), FirstStep(h, kind, data, 3));
    assert FirstStep(h, kind, data, 1) == FirstOf(StepFailure(h, kind, data, ReadingOrder(kind)[1]), FirstStep(h, kind, data, 2));
  }

  /** An entry of a network or logon event that the model can refuse. */
  ghost predicate BadEntry(h: Host, kind: EventKind, data: Data, name: string)
  {
    OptionalEntry(h, data, name).Some? && ValueFails(h, kind, name, OptionalEntry(h, data, name).value)
  }

  lemma ModelFailsAt(h: Host, kind: EventKind, data: Data)
    ensures ModelFails(h, kind, data) <==> exists name :: BadEntry(h, kind, data, name)
  {
    hide EntrySays, OptionalEntry, ValueFails;
    if name, text :| EntrySays(h, data, name, text) && ValueFails(h, kind, name, text) {
      ValueFailsAt(h, kind, data, name);
      assert BadEntry(h, kind, data, name);
    }
    if name :| BadEntry(h, kind, data, name) {
      ValueFailsAt(h, kind, data, name);
    }
  }

  lemma SysmonNetworkFails(h: Host, data: Data)
    ensures ErrorIn(SysmonNetwork(h, data)) == DataFailure(h, SysmonNetworkKind, data)
  {
    hide StepFailure, OptionalEntry, RequiredEntry, RequiredInteger, OptionalInteger, EntrySays, ModelFails, FirstStep, ParseAddress;
    var kind := SysmonNetworkKind;
    ReadingFails(h, kind, data, "SourceIp");
    ReadingFails(h, kind, data, "SourcePort");
    ReadingFails(h, kind, data, "DestinationIp");
    ReadingFails(h, kind, data, "DestinationPort");
    ReadingFails(h, kind, data, "ProcessId");
    StepsOfFive(h, kind, data);
    if FirstStep(h, kind, data, 0).None? { SysmonNetworkModel(h, data); }
  }

  lemma SysmonNetworkModel(h: Host, data: Data)
    requires RequiredEntry(h, data, "SourceIp").Ok? && RequiredInteger(h, data, "SourcePort", false).Ok?
    requires RequiredEntry(h, data, "DestinationIp").Ok? && RequiredInteger(h, data, "DestinationPort", false).Ok?
    ensures ModelFails(h, SysmonNetworkKind, data) <==>
      || ParseAddress(h, RequiredEntry(h, data, "SourceIp").value).Err?
      || ParseAddress(h, RequiredEntry(h, data, "DestinationIp").value).Err?
      || !IsPort(RequiredInteger(h, data, "SourcePort", false).value)
      || !IsPort(RequiredInteger(h, data, "DestinationPort", false).value)
    ensures ModelFails(h, SysmonNetworkKind, data) ==>
      && (ParseAddress(h, RequiredEntry(h, data, "SourceIp").value).Err? ==>
            ParseAddress(h, RequiredEntry(h, data, "SourceIp").value).error == InvalidModel)
      && (ParseAddress(h, RequiredEntry(h, data, "DestinationIp").value).Err? ==>
            ParseAddress(h, RequiredEntry(h, data, "DestinationIp").value).error == InvalidModel)
  {
    hide OptionalEntry, ModelFails;
    var kind := SysmonNetworkKind;
    ModelFailsAt(h, kind, data);
    assert BadEntry(h, kind, data, "SourceIp") <==> ParseAddress(h, RequiredEntry(h, data, "SourceIp").value).Err?;
    assert BadEntry(h, kind, data, "DestinationIp") <==> ParseAddress(h, RequiredEntry(h, data, "DestinationIp").value).Err?;
    assert BadEntry(h, kind, data, "SourcePort") <==> !IsPort(RequiredInteger(h, data, "SourcePort", false).value);
    assert BadEntry(h, kind, data, "DestinationPort") <==> !IsPort(RequiredInteger(h, data, "DestinationPort", false).value);
  }

  lemma SecurityAuthenticationFails(h: Host, kind: EventKind, data: Data, outcome: AuthenticationOutcome)
    requires kind.LogonKind? || kind.FailedLogonKind?
    ensures ErrorIn(SecurityAuthentication(h, data, outcome)) == DataFailure(h, kind, data)
  {
    hide StepFailure, OptionalEntry, RequiredEntry, RequiredInteger, OptionalInteger, EntrySays, ModelFails, FirstStep,
         OptionalAddressEntry;
    ReadingFails(h, kind, data, "LogonType");
    ReadingFails(h, kind, data, "IpPort");
    StepsOfTwo(h, kind, data);
    if FirstStep(h, kind, data, 0).None? { SecurityAuthenticationModel(h, kind, data); }
  }

  lemma SecurityAuthenticationModel(h: Host, kind: EventKind, data: Data)
    requires kind.LogonKind? || kind.FailedLogonKind?
    requires OptionalInteger(h, data, "IpPort", false).Ok?
    ensures var (port, address) := (OptionalInteger(h, data, "IpPort", false).value, OptionalAddressEntry(h, data, "IpAddress"));
      && (ModelFails(h, kind, data) <==> address.Err? || (port.Some? && !IsPort(port.value)))
      && (address.Err? ==> address.error == InvalidModel)
  {
    hide OptionalEntry, ModelFails;
    ModelFailsAt(h, kind, data);
    var (port, address) := (OptionalInteger(h, data, "IpPort", false).value, OptionalAddressEntry(h, data, "IpAddress"));
    assert BadEntry(h, kind, data, "IpAddress") <==> address.Err?;
    assert BadEntry(h, kind, data, "IpPort") <==> port.Some? && !IsPort(port.value);
  }

  lemma BuildContextFails(h: Host, kind: EventKind, data: Data)
    ensures ErrorIn(BuildContext(h, kind, data)) == DataFailure(h, kind, data)
  {
    hide DataFailure, SysmonProcess, SysmonNetwork, SysmonFile, SysmonDns, SecurityAuthentication, SecurityProcess;
    match kind
    case SysmonProcessKind => SysmonProcessFails(h, data);
    case SysmonNetworkKind => SysmonNetworkFails(h, data);
    case SysmonFileKind => SysmonFileFails(h, data);
    case SysmonDnsKind => SysmonDnsFails(h, data);
    case LogonKind => SecurityAuthenticationFails(h, kind, data, Success);
    case FailedLogonKind => SecurityAuthenticationFails(h, kind, data, Failure);
    case SecurityProcessKind => SecurityProcessFails(h, data);
  }

  lemma DataFailureMeaning(h: Host, kind: EventKind, data: Data)
    ensures forall e :: DataFailure(h, kind, data) == Some(e) <==> DataFails(h, kind, data, e)
  {
    hide ModelFails, FirstStep, FailsFirst;
    assert NoneFails(h, kind, data, 0);
    FirstStepMeaning(h, kind, data, 0);
    NoFirstFailure(h, kind, data);
  }

  lemma NoFirstFailure(h: Host, kind: EventKind, data: Data)
    ensures NoneFails(h, kind, data, |ReadingOrder(kind)|) ==> forall k, e :: !FailsFirst(h, kind, data, k, e)
  {
    hide EntryFails, ReadingOrder;
  }

  /** A raw event of no supported identity is refused as unsupported; one of a supported
      identity fails exactly as its entries say, and otherwise normalizes. */
  lemma NormalizeExact(h: Host, raw: RawEvent)
    ensures (forall kind :: !IsKind(raw, kind)) ==> Normalize(h, raw) == Err(Unsupported)
    ensures forall kind, e | IsKind(raw, kind) :: Normalize(h, raw) == Err(e) <==> DataFails(h, kind, raw.eventData, e)
    ensures Normalize(h, raw).Ok? <==>
      exists kind :: IsKind(raw, kind) && forall e :: !DataFails(h, kind, raw.eventData, e)
  {
    hide BuildContext, DataFails, DataFailure, KindOf, IsKind;
    forall kind ensures KindOf(raw) == Some(kind) <==> IsKind(raw, kind) { KindIsIdentity(raw, kind); }
    if KindOf(raw).Some? {
      var kind := KindOf(raw).value;
      BuildContextFails(h, kind, raw.eventData);
      DataFailureMeaning(h, kind, raw.eventData);
    }
  }
}
