/**
 * The shared record shapes of the fleet tracker: workstation statuses, the
 * workstation record and its partial update, the response view, the audit
 * event and the error codes.
 *
 * Timestamps are integer milliseconds since the epoch; the source stores ISO
 * 8601 text and compares them through `Date.getTime()`.
 */
module Types {
  import opened Wrappers

  type Timestamp = int

  /** Lifecycle status of a workstation. */
  datatype Status = Starting | Online | Unknown | DnsFailed | Terminated

  /** Kinds of audit event. */
  datatype EventType = Registered | StatusChanged | HealthChecked | DnsUpdated | DnsFailed

  /** The error codes an API error response may carry. */
  datatype ErrorCode =
    | InvalidInput
    | NotFound
    | Duplicate
    | DnsRegistrationFailed
    | RateLimitExceeded
    | InternalError

  /** A stored workstation; the nullable columns are `Option`s. */
  datatype Workstation = Workstation(
    id: string,
    name: string,
    ipAddress: string,
    domainName: Option<string>,
    status: Status,
    createdAt: Timestamp,
    lastCheck: Option<Timestamp>,
    stateChangedAt: Timestamp,
    dnsError: Option<string>,
    startedAt: Option<Timestamp>,
    unknownSince: Option<Timestamp>,
    terminatedAt: Option<Timestamp>)

  /** A workstation as handed to the store for insertion: every field but `id`. */
  datatype NewWorkstation = NewWorkstation(
    name: string,
    ipAddress: string,
    domainName: Option<string>,
    status: Status,
    createdAt: Timestamp,
    lastCheck: Option<Timestamp>,
    stateChangedAt: Timestamp,
    dnsError: Option<string>,
    startedAt: Option<Timestamp>,
    unknownSince: Option<Timestamp>,
    terminatedAt: Option<Timestamp>)

  /**
   * A partial workstation (`Partial<Workstation>`): `None` means the key is
   * absent; for a nullable column `Some(None)` means the key is present with
   * value `null`.
   */
  datatype Patch = Patch(
    id: Option<string>,
    name: Option<string>,
    ipAddress: Option<string>,
    domainName: Option<Option<string>>,
    status: Option<Status>,
    createdAt: Option<Timestamp>,
    lastCheck: Option<Option<Timestamp>>,
    stateChangedAt: Option<Timestamp>,
    dnsError: Option<Option<string>>,
    startedAt: Option<Option<Timestamp>>,
    unknownSince: Option<Option<Timestamp>>,
    terminatedAt: Option<Option<Timestamp>>)

  /** The patch with no keys at all. */
  const EmptyPatch: Patch :=
    Patch(None, None, None, None, None, None, None, None, None, None, None, None)

  /** A workstation record extended with its terminal URL, as the API returns it. */
  datatype WorkstationView = WorkstationView(workstation: Workstation, ttydUrl: string)

  /**
   * An audit event. The source also gives each event a random text id; ids
   * are not modelled.
   */
  datatype Event = Event(
    workstationId: string,
    eventType: EventType,
    oldStatus: Option<Status>,
    newStatus: Option<Status>,
    details: Option<string>,
    timestamp: Timestamp)

  /** An API reply: the success envelope with its data, or the error envelope. */
  datatype ApiResponse<T> =
    | Success(statusCode: int, data: T)
    | Error(statusCode: int, message: string, code: ErrorCode, details: Option<string>)
}
