/** The finding contract every other module shares: core/finding.go and core/collector.go. */
module Core {

  datatype Option<+T> = None | Some(value: T)

  /** A point in time, in nanoseconds since the Unix epoch. */
  type Time = int

  /** Evidence is a JSON-like tree. `Strings` is Go's typed string slice, which is not the same
      dynamic type as a list of arbitrary values. */
  datatype Json =
    | Null
    | Bool(b: bool)
    | Number(digits: string)
    | Text(text: string)
    | Object(fields: map<string, Json>)
    | List(items: seq<Json>)
    | Strings(texts: seq<string>)

  /** The Go type is a string; anything outside the five known names is `Unlisted`. */
  datatype Severity = Critical | High | Medium | Low | Info | Unlisted(name: UnlistedName)

  type UnlistedName = s: string | s !in {"critical", "high", "medium", "low", "info"} witness ""

  function Rank(s: Severity): int {
    match s
    case Critical => 4
    case High => 3
    case Medium => 2
    case Low => 1
    case Info => 0
    case Unlisted(_) => -1
  }

  /** A collector leaves the status empty, so the four lifecycle states are not the whole type. */
  datatype Status = Open | Resolved | Acknowledged | Suppressed | OtherStatus(name: StatusName)

  type StatusName = s: string | s !in {"open", "resolved", "acknowledged", "suppressed"} witness ""

  datatype Finding = Finding(
    fingerprint: string,
    target: string,
    check: string,
    title: string,
    severity: Severity,
    remediation: string,
    evidence: Json,
    id: string,
    moduleId: string,
    status: Status,
    groupId: Option<string>,
    firstSeen: Time,
    lastSeen: Time,
    resolvedAt: Option<Time>)

  datatype IngestError = IngestError(field: string, reason: string)

  function ValidateForIngest(f: Finding): Option<IngestError> {
    if f.fingerprint == "" then Some(IngestError("fingerprint", "empty"))
    else if f.target == "" then Some(IngestError("target", "empty"))
    else if f.check == "" then Some(IngestError("check", "empty"))
    else if f.title == "" then Some(IngestError("title", "empty"))
    else if f.remediation == "" then
      Some(IngestError("remediation", "empty (every finding must tell the user what to do)"))
    else if Rank(f.severity) < 0 then
      Some(IngestError("severity", "unknown value: " + f.severity.name))
    else None
  }

  /** A finding is accepted iff it names itself, its target, its check, its title and a remedy, and its
      severity is one of the five. */
  lemma AcceptedFindings(f: Finding)
    ensures ValidateForIngest(f).None? <==>
            f.fingerprint != "" && f.target != "" && f.check != "" && f.title != "" && f.remediation != ""
            && f.severity in {Critical, High, Medium, Low, Info}
  {
  }

  /** A rejection names the first thing that is wrong. */
  lemma RejectedField(f: Finding)
    requires ValidateForIngest(f).Some?
    ensures ValidateForIngest(f).value.field
         == if f.fingerprint == "" then "fingerprint"
            else if f.target == "" then "target"
            else if f.check == "" then "check"
            else if f.title == "" then "title"
            else if f.remediation == "" then "remediation"
            else "severity"
  {
  }

  datatype ModuleInfo = ModuleInfo(id: string, resolveAfter: int)

  /** The auto-resolve threshold, 1 when the module leaves it unset. */
  function ResolveAfterOrDefault(m: ModuleInfo): (n: int)
    ensures 1 <= n
    ensures 1 <= m.resolveAfter ==> n == m.resolveAfter
    ensures m.resolveAfter < 1 ==> n == 1
  {
    if m.resolveAfter < 1 then 1 else m.resolveAfter
  }

  /** Why a finding is announced. The Go type is a string, and the queue accepts any value. */
  datatype EventKind = Opened | Closed | OtherKind(name: KindName)

  type KindName = s: string | s !in {"opened", "resolved"} witness ""

  /** One finding transition worth announcing. */
  datatype Event = Event(kind: EventKind, moduleId: string, finding: Finding)
}
