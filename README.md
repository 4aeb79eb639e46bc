# Workstation fleet tracker — lifecycle, registration and store model

This project is a Dafny model of the core of a small fleet tracker for remote workstations.

Workstations register themselves by name and IPv4 address. The tracker then does four things:

- It gives each workstation a DNS name under a base domain.
- It keeps the record in a table keyed by name, with an append-only log of audit events.
- It runs a periodic reconciliation tick. Each tick:
  - prunes records that have been terminated for more than 50 minutes;
  - probes every remaining workstation that has a domain over HTTPS;
  - moves each remaining record through the lifecycle STARTING → ONLINE → UNKNOWN → TERMINATED.
- It serves the records with their terminal URL, and checks whether a record's domain has propagated in DNS.

Time is modelled as integer milliseconds, and `now` is a parameter wherever the source reads the clock. The network is an input:

- the health probe is a map from URL to what `fetch` produced;
- the DNS upsert is a success or failure outcome;
- the DNS resolver is a map from domain to the number of addresses it returned.

Modules, one per source file:

- `Wrappers`: the `Option` standing for nullable fields.
- `Types`: the records and enumerations of `src/shared/types.ts`.
- `Validation`: the input validators.
- `StateMachine`: the rule table and the pruning predicate. The table is kept as data, and `ApplyStateMachine` is a first-match search over it. `Decide` is an independent per-status statement of the same rules, and a lemma proves the two agree.
- `Db`: the record store, a class with a map of records and a sequence of events. Its invariant `Valid` says two things:
  - every record is keyed by its name and its id is its name;
  - every event refers to a stored record, which is the event table's foreign key.
- `HealthCheck`: one reconciliation tick. It is a module method that takes the store and changes it, specified by the functions `Reconcile` and `EventsFor` over the record snapshot taken at the start of the tick.
- `Workstations`: the HTTP handlers. Registration is a method that takes the store, proved equal to the function `Registration` over the store's contents. The single read and the propagation check are functions; the list read is a method.

## Model

| member | source | states |
|---|---|---|
| StateMachine.TimeDiff | src/server/services/stateMachine.ts:7-10 | elapsed time is absent exactly for a null timestamp, and otherwise adds to the timestamp to give `now` |
| StateMachine.FindRule | src/server/services/stateMachine.ts:119-121 | `find`: the index found is an applicable rule and no earlier rule applies; no result means no rule applies |
| StateMachine.ApplyStateMachine | src/server/services/stateMachine.ts:114-141 | only STARTING, ONLINE and UNKNOWN get a result; a result leads to ONLINE iff the probe succeeded; a status change writes the new status and stamps `state_changed_at`; no rule writes id, name, address, domain, creation time, DNS error or start time |
| StateMachine.AtMostOneRuleApplies | src/server/services/stateMachine.ts:25-109 | for any record, probe result and time, at most one rule of the table is applicable, so first-match is deterministic |
| StateMachine.TableAgreesWithDecide | src/server/services/stateMachine.ts:25-141 | the first-match search over the rule table gives exactly the per-status decision `Decide`, for every input |
| StateMachine.PatchOfTable | src/server/services/stateMachine.ts:25-109 | each rule's update object has exactly the keys the source's closures return, with every timestamp set to `now` |
| StateMachine.StartingProbeSucceeds | src/server/services/stateMachine.ts:27-37 | STARTING with a successful probe goes ONLINE with `last_check` and `state_changed_at` set to now and `unknown_since` cleared |
| StateMachine.StartingProbeFails | src/server/services/stateMachine.ts:40-53 | STARTING with a failed probe goes UNKNOWN, stamping `unknown_since` and `state_changed_at`, exactly when `started_at` is set and more than 10 minutes old; otherwise there is no result |
| StateMachine.OnlineProbeSucceeds | src/server/services/stateMachine.ts:56-63 | ONLINE with a successful probe stays ONLINE and the only key written is `last_check` |
| StateMachine.OnlineProbeFails | src/server/services/stateMachine.ts:66-79 | ONLINE with a failed probe goes UNKNOWN exactly when `last_check` is set and more than one minute old; a null `last_check` never transitions |
| StateMachine.UnknownRules | src/server/services/stateMachine.ts:82-108 | UNKNOWN goes ONLINE on success (clearing `unknown_since`); on failure it goes TERMINATED with `terminated_at` set exactly when `unknown_since` is more than 10 minutes old, leaving `unknown_since` unwritten |
| StateMachine.TerminalStatuses | src/server/services/stateMachine.ts:114-126 | DNS_FAILED and TERMINATED records get no result whatever the probe says |
| StateMachine.StatusKeptOnlyByHeartbeat | src/server/services/stateMachine.ts:25-109 | a result keeps the status if and only if it is the ONLINE heartbeat (ONLINE with a successful probe) |
| StateMachine.ThresholdsAreStrict | src/server/services/stateMachine.ts:39-102 | at exactly 10 minutes, 1 minute and 10 minutes the failure rules do not fire; one millisecond later they do |
| StateMachine.ShouldRemove | src/server/services/stateMachine.ts:146-153 | a record is removable iff it is TERMINATED and its `terminated_at` is set and earlier than now minus 50 minutes |
| StateMachine.RemovalCriterion | src/server/services/stateMachine.ts:146-153 | a record is pruned iff it is TERMINATED with a `terminated_at` more than 50 minutes old; exactly 50 minutes is not enough |
| StateMachine.RemovalIsStable | src/server/services/stateMachine.ts:146-153 | once a record qualifies for pruning it keeps qualifying at every later time |
| Db.ApplyPatch | src/server/db/index.ts:132-151 | an update writes exactly the keys present in the patch and never changes `id` or `name` |
| Db.PatchWithoutWritableKeys | src/server/db/index.ts:136-145 | a patch with no key besides `id` and `name` leaves the record unchanged |
| Db.WithId | src/server/db/index.ts:60-89 | a created record has its name as its id, and keeps its name and status |
| Db.EventsWithout | src/server/db/index.ts:170-172 | the events kept after a cascade are exactly those of other workstations |
| Db.EventsWithoutUnreferenced | src/server/db/index.ts:170-172 | removing the events of workstations no event refers to keeps the log unchanged |
| Db.EventsWithoutGrows | src/server/db/index.ts:170-172 | deleting one more workstation's events composes with the previous deletions |
| Db.EventsWithoutAppend | src/server/db/index.ts:170-172 | the cascade distributes over concatenation of logs |
| Db.EventsOf | src/server/db/index.ts:216-224 | the events selected for a workstation are exactly the logged events with that id, each as often as it is logged |
| Db.Reverse | src/server/db/index.ts:220 | `ORDER BY timestamp DESC` over a chronological log is the log read backwards, element by element |
| Db.ReverseKeepsMembers | src/server/db/index.ts:220 | reading backwards invents no element, and every element is still there |
| Db.EventsOfChronological | src/server/db/index.ts:216-224 | when the log is chronological, the events of one workstation picked from it are in chronological order |
| Db.LatestOf | src/server/db/index.ts:219-221 | the first `n` of a sequence read backwards are its last `n` elements, latest first, and invent nothing; over a chronological sequence they are newest first and no element left out is newer than one of them |
| Db.Store.constructor | src/server/db/index.ts:17-51 | a fresh store is empty and valid |
| Db.Store.CreateWorkstation | src/server/db/index.ts:60-90 | inserts the record under its name with `id = name`, storing a null `started_at` as now; returns the input plus `id`; an existing name changes nothing; the log is untouched |
| Db.Store.GetWorkstationByName | src/server/db/index.ts:95-99 | finds a record iff the name is stored, and returns the stored record |
| Db.Store.GetAllWorkstations | src/server/db/index.ts:104-127 | returns every stored record that matches the status filter, once each, and nothing else |
| Db.Store.UpdateWorkstation | src/server/db/index.ts:132-156 | returns true iff the patch has a writable key and the name is stored; it then writes the patch over that record only; otherwise nothing changes |
| Db.Store.DeleteWorkstation | src/server/db/index.ts:161-181 | an unknown name returns false and changes nothing; a stored one loses its record and every event with its id, and the remaining events keep their order |
| Db.Store.CreateEvent | src/server/db/index.ts:190-211 | appends exactly one event stamped now for a stored workstation and leaves the earlier events as they are |
| Db.Store.GetWorkstationEvents | src/server/db/index.ts:216-225 | `limit` defaults to 50. The result is the workstation's latest `limit` logged events (all of them for a negative limit), latest first, each as often as logged. Over a chronological log it is newest first, and no event of that workstation left out is newer than one returned |
| HealthCheck.ProbeAll | src/server/jobs/healthCheck.ts:65-76 | one result per record to check, in order, each carrying the record and its own probe outcome |
| HealthCheck.CheckWorkstationHealth | src/server/jobs/healthCheck.ts:10-34 | a probe succeeds only on a 200 response; any other status, an exception or an abort fails |
| HealthCheck.ProbeSucceeded | src/server/jobs/healthCheck.ts:66-71 | a record with a null or empty domain fails without a request; a record with a non-empty domain succeeds iff `https://<domain>/` answered 200 |
| HealthCheck.Checked | src/server/jobs/healthCheck.ts:79 | the records a result list is about, in order |
| HealthCheck.ProbedUrls | src/server/jobs/healthCheck.ts:66-71 | a request is made for every checked record with a non-null, non-empty domain, at `https://<domain>/`, and for no other record |
| HealthCheck.SuccessfulProbesWereRequested | src/server/jobs/healthCheck.ts:10-71 | every successful probe result comes from a URL the tick requested: no request, no success |
| HealthCheck.KeptRowsMembers | src/server/jobs/healthCheck.ts:50-56 | the `filter` keeps exactly the rows that do not qualify for pruning |
| HealthCheck.ExpiredNamesMembers | src/server/jobs/healthCheck.ts:49-56 | the names pushed are exactly those of the rows that qualify, and every row lands on exactly one side |
| HealthCheck.KeptRowsDistinct | src/server/jobs/healthCheck.ts:50-56 | rows with distinct names keep distinct names through the `filter` |
| HealthCheck.PartitionExpired | src/server/jobs/healthCheck.ts:49-56 | the rows split into names to remove and records to check: sizes add up, each side has exactly its members, and names stay distinct |
| HealthCheck.RemoveWorkstations | src/server/jobs/healthCheck.ts:59-62 | deleting the names removes exactly those records and exactly their events, keeping the store valid |
| HealthCheck.ApplyResult | src/server/jobs/healthCheck.ts:80-106 | one result runs the rule search, writes the reconciled record and appends the STATUS_CHANGED event only for a changed status |
| HealthCheck.AppliedRecordsMiss | src/server/jobs/healthCheck.ts:79-107 | a name no result is about keeps its record through the loop |
| HealthCheck.AppliedRecordsFacts | src/server/jobs/healthCheck.ts:79-107 | applying results about distinct stored names keeps the key set and leaves each name holding its reconciled record |
| HealthCheck.ApplyResults | src/server/jobs/healthCheck.ts:79-107 | the loop over the results leaves the records of the application order and appends the events of the results in order |
| HealthCheck.RemovedAreExpired | src/server/jobs/healthCheck.ts:46-56 | the names collected for removal are exactly the stored names that qualify for pruning |
| HealthCheck.CheckedAreKept | src/server/jobs/healthCheck.ts:46-56 | the records kept for checking are exactly the stored records that do not qualify |
| HealthCheck.TickRecordsByApplication | src/server/jobs/healthCheck.ts:59-107 | after pruning and applying, the surviving names are the unexpired ones, each holding its own snapshot reconciled with its own probe |
| HealthCheck.PruneExpired | src/server/jobs/healthCheck.ts:46-62 | first half of a tick: the store loses exactly the expired records and their events, and the rest are handed on to be probed |
| HealthCheck.RunHealthCheckJob | src/server/jobs/healthCheck.ts:39-121 | a whole tick keeps the store valid and prunes exactly the expired records with their events. Every other record is reconciled from its own snapshot and probe. The log gains the tick's STATUS_CHANGED events in processing order. Each unexpired record is checked exactly once and no pruned record is probed |
| HealthCheck.ReconcileStatus | src/server/jobs/healthCheck.ts:80-87 | the status after a tick is the rule search's new status, or the old one when no rule applies |
| HealthCheck.Reconcile | src/server/jobs/healthCheck.ts:80-87 | a tick never changes id, name, address, domain, creation time, DNS error or start time; a status change is stamped now; DNS_FAILED and TERMINATED records stay as they are |
| HealthCheck.ReconcileAppliesTable | src/server/jobs/healthCheck.ts:80-87 | the record a tick writes is the stored one with the update object of the rule the table search finds, or the stored one unchanged when no rule applies |
| HealthCheck.EventsFor | src/server/jobs/healthCheck.ts:89-98 | a record's result logs at most one event, exactly when its status changes, a STATUS_CHANGED event about that record stamped now |
| HealthCheck.ReconcileMonotone | src/server/jobs/healthCheck.ts:80-87 | when the stored `last_check` and `state_changed_at` are not in the future, a tick never moves them backwards |
| HealthCheck.StatusChangeIsLogged | src/server/jobs/healthCheck.ts:89-105 | a changed status is stamped now and logged by exactly one STATUS_CHANGED event from old to new with the probe outcome; an unchanged status logs nothing |
| HealthCheck.HeartbeatLogsNothing | src/server/jobs/healthCheck.ts:86-90 | the ONLINE heartbeat still writes `last_check` but appends no event |
| HealthCheck.TerminalRecordsUntouched | src/server/jobs/healthCheck.ts:80-82 | DNS_FAILED and TERMINATED records are neither written nor logged by a tick |
| HealthCheck.TerminationKeepsUnknownSince | src/server/services/stateMachine.ts:95-108 | termination stamps `terminated_at` and `state_changed_at` and keeps `unknown_since` set |
| HealthCheck.OnlineNeedsSuccessfulProbe | src/server/jobs/healthCheck.ts:25-71 | a record reaches ONLINE only with a non-empty domain whose URL answered 200 |
| HealthCheck.TickEventsAreStatusChanges | src/server/jobs/healthCheck.ts:90-97 | the tick appends no more events than it checked records, each a STATUS_CHANGED stamped now between two different statuses about a checked record |
| HealthCheck.OneEventPerRecord | src/server/jobs/healthCheck.ts:79-107 | when the checked records have distinct ids, no two events of the tick are about the same record: at most one event per checked record |
| Validation.Split | src/server/utils/validation.ts:36 | splitting at a separator always yields at least one piece |
| Validation.JoinSplit | src/server/utils/validation.ts:36 | joining the pieces of a split gives back the text |
| Validation.SplitJoin | src/server/utils/validation.ts:36 | splitting separator-free pieces joined by the separator gives back the pieces |
| Validation.ValidateWorkstationName | src/server/utils/validation.ts:7-26 | a missing or empty name gets the required-name message; a name of the wrong length gets the length message; a name of the right length is accepted iff it is a host label (letters, digits and hyphens, starting and ending with a letter or digit) and otherwise gets the format message |
| Validation.PatternIsHostLabel | src/server/utils/validation.ts:16-18 | for 1 to 63 characters, the name pattern matches exactly the host labels |
| Validation.NameIsHostLabel | src/server/utils/validation.ts:7-26 | a name is accepted iff it is a host-name label (section 2.3.1 of RFC 1035 as relaxed by section 2.1 of RFC 1123) of at least 3 characters |
| Validation.HyphenAtEitherEndRejected | src/server/utils/validation.ts:17 | a name starting or ending with a hyphen is rejected |
| Validation.ForeignCharacterRejected | src/server/utils/validation.ts:17 | a name containing an underscore, dot, space or `@` anywhere is rejected |
| Validation.DottedQuadGroups | src/server/utils/validation.ts:36-41 | a match has four 1-3 digit groups that join back with dots to the input |
| Validation.DigitGroupsMatch | src/server/utils/validation.ts:36-41 | conversely, any four 1-3 digit groups joined by dots match the pattern, and the match yields those groups |
| Validation.ValidateIpv4 | src/server/utils/validation.ts:31-52 | a missing or empty address gets the required-address message; a present address gets the format message iff it does not match the dotted-quad pattern, and, when it matches, the range message iff some octet is over 255; every rejection carries one of the three address messages; an accepted address is 7 to 15 characters long |
| Validation.Ipv4Characterization | src/server/utils/validation.ts:31-52 | an address is accepted iff it is four octet texts (1-3 digits, value at most 255, leading zeros allowed) joined by dots |
| Validation.AcceptedAddressIsDottedQuad | src/server/utils/validation.ts:36-51 | an accepted address splits into four octet texts that join back to it |
| Validation.DottedQuadIsAccepted | src/server/utils/validation.ts:31-51 | four octet texts joined by dots are accepted |
| Validation.ValidateRegistrationRequest | src/server/utils/validation.ts:57-83 | a request is accepted iff name and address both are; the name is checked first, the first failure's message is returned, and every failure carries INVALID_INPUT |
| Validation.AcceptedNameIsFirstLabel | src/server/services/spaceship.ts:67-68 | an accepted name is exactly the first label of the domain derived from it |
| Workstations.TtydUrl | src/server/routes/workstations.ts:210-213 | the terminal URL is `https://` followed by the domain, or by the text `null` when the domain is null |
| Workstations.ViewOf | src/shared/types.ts:45-47 | a view is the record itself plus its terminal URL |
| Workstations.Registration | src/server/routes/workstations.ts:28-163 | the DNS provider is called iff the request is valid and the name is new or its address changed; the reply is a success iff the request is valid and no DNS call failed |
| Workstations.Register | src/server/routes/workstations.ts:28-163 | the handler keeps the store valid. Its new store, reply and DNS call are exactly those `Registration` gives for the store as it was |
| Workstations.RejectedRequestChangesNothing | src/server/routes/workstations.ts:34-37 | an invalid request gets 400 with the validator's message and INVALID_INPUT; nothing is read, written or registered |
| Workstations.SameAddressIsIdempotent | src/server/routes/workstations.ts:45-54 | a known name with its stored address, in any status including DNS_FAILED, returns the stored record with 200; there is no DNS call, no write and no event |
| Workstations.AddressChangeRestarts | src/server/routes/workstations.ts:57-86 | a new address with DNS success gives the new address and derived domain, STARTING, `started_at` and `state_changed_at` set to now, and error and silence times cleared. It logs one REGISTERED event from the old status to STARTING and replies 200 with the stored record |
| Workstations.AddressChangeDnsFailure | src/server/routes/workstations.ts:87-102 | a new address with DNS failure sets only status DNS_FAILED, the error and `state_changed_at`; address, domain and start time stay, no event, reply 500 with the error |
| Workstations.NewNameRegistered | src/server/routes/workstations.ts:106-137 | a new name with DNS success is stored STARTING under the derived domain with `last_check` null and `started_at` now, logs a REGISTERED event with no old status, and replies 201 |
| Workstations.NewNameDnsFailure | src/server/routes/workstations.ts:138-160 | a new name with DNS failure is still stored, DNS_FAILED with the error and the derived domain; no event; reply 500 |
| Workstations.RegistrationKeepsInvariants | src/server/routes/workstations.ts:28-163 | registration keeps records keyed by name and every event pointing at a stored record |
| Workstations.RegistrationIsLocal | src/server/routes/workstations.ts:28-163 | registration only adds the requested name, changes no other record, and appends at most one event, about that name |
| Workstations.SuccessShowsStoredRecord | src/server/routes/workstations.ts:45-137 | every success reply shows the registered record as it is now stored, with its terminal URL |
| Workstations.RepeatedRegistrationConfirms | src/server/routes/workstations.ts:45-54 | sending the same request again after a registration that stored its address is a 200 confirmation with no DNS call and no change, including after a new name's DNS failure |
| Workstations.FailedAddressChangeIsRetried | src/server/routes/workstations.ts:57-102 | after a DNS failure while changing address, the stored address is still the old one, so the same request calls DNS again |
| Workstations.GetWorkstation | src/server/routes/workstations.ts:223-241 | a stored name gets 200 with its view; an unknown name gets 404 NOT_FOUND |
| Workstations.ListWorkstations | src/server/routes/workstations.ts:199-217 | the list is the views of exactly the stored records matching the status filter, each once |
| Workstations.CheckPropagation | src/server/routes/workstations.ts:169-193 | an unknown name gets 404, and a record with a null or empty domain gets 400 INVALID_INPUT. The reply is a success iff the record exists and has a non-empty domain; it is then 200 with the domain and `propagated` iff the domain resolved to at least one address; the store is only read |

## Left out

- The scheduler in `src/server/jobs/scheduler.ts` is not part of this model. One tick is one call of `RunHealthCheckJob`, and overlapping ticks are not modelled.
- The probe's `fetch`, its timeout abort and its TLS options are replaced by the input map of outcomes. A missing URL counts as an exception.
- The concurrent `Promise.all` fan-out becomes a sequence in the order of the records. Each result depends only on its record's snapshot, so the order does not change any record.
- HealthCheck.RunHealthCheckJob: the tick is modelled as running without interruption. In the program, other requests can run while the tick awaits the probes (`healthCheck.ts:76`). A registration served in that window is then overwritten by the tick's updates, which were computed from the snapshot read before the probes. For example, a record re-registered to STARTING can still get the UNKNOWN to TERMINATED update. The model does not capture this lost update.
- HealthCheck.RunHealthCheckJob: one `now` serves the whole tick. The program reads the clock for pruning (`healthCheck.ts:51`) before the probes, and again for the rules, the stamps and the events after the `await` (`healthCheck.ts:76-105`). A threshold crossed while the probes are awaited fires in the program; the model does not capture that.
- Logging is left out, and so is the tick's `catch`. The model's store operations cannot fail, so the `catch` has nothing to catch.
- The DNS provider's HTTP calls are replaced by the `DnsOutcome` input. Its message stands for the `Error` that `registerDnsRecord` throws; that function always throws an `Error`, so the 500 reply always carries the message. `String(error)` for a non-`Error` throw is not modelled.
- The DNS resolver is replaced by the input map from domain to the number of addresses it resolved to. A missing domain failed to resolve.
- Every `new Date()` inside one update object is taken to read the same instant `now`; the source may stamp the fields of one update a millisecond apart.
- Clock reading and ISO-8601 text are left out. Timestamps are integer milliseconds and `now` is a parameter, so an unparsable or empty timestamp text (`!timestamp` in `timeDiff`) cannot be expressed.
- `createWorkstation` replaces a falsy `created_at` or `state_changed_at` with now. Every caller passes now for both, and both are plain timestamps here, so this defaulting is left out. The defaulting of a null `started_at` is modelled.
- Event ids (`evt_` plus time and `Math.random`) are left out: events are compared by content.
- SQL text building, connection setup, WAL and `initializeDatabase` are left out. The schema file is not part of this model. The store assumes what the code relies on:
  - a record is keyed by its name;
  - an insert under an existing name, or of an event for a missing workstation, is refused and changes nothing.
- `getAllWorkstations` with `sort` and `order` (`ORDER BY`) is left out. The rows come back in an order the store chooses, and the model proves nothing about their order. `GET /` therefore ignores the `sort` and `order` query parameters.
- Db.Store.GetWorkstationEvents: the result is the latest logged events read backwards. That equals `ORDER BY timestamp DESC` only for a chronological log (timestamps that never decrease), which appending events stamped with the current time produces. SQLite's order among equal timestamps is not modelled.
- Workstations.Register: the registration is modelled as running without interruption, with the DNS outcome as a parameter. In the program, other requests and the health-check tick can run while the DNS call is awaited (`workstations.ts:58` and `:107`). If a tick prunes the record during that wait, `updateWorkstation` changes no row and `createEvent(existing.id)` fails its foreign key; the catch at `workstations.ts:87` then marks nothing and answers 500 with the DNS failure message, although DNS succeeded. Two concurrent registrations of one new name both pass the existence check; the second insert throws, and the catch at `workstations.ts:138` inserts again, which throws again. The model also stamps the REGISTERED event with the `now` read at `workstations.ts:40`, while the program stamps it with the clock that `createEvent` reads after the await (`db/index.ts:192`).
- Workstations.ListWorkstations: the status filter is an `Option<Status>`. The program passes the query text through as is (`workstations.ts:202`), so an unknown status text yields an empty list there; the model cannot express that request.
- Validation.ValidateWorkstationName: a name that is present but not a JSON string (a number, say) gets the required-name message in the program (`typeof name !== 'string'`, `validation.ts:8`); the model's `Option<string>` cannot express such a value. The same holds for the address in Validation.ValidateIpv4 (`validation.ts:32`).
- Validation.ValidateWorkstationName: `|name|` counts characters (code points), while `name.length` counts UTF-16 code units. For a name with characters outside the Basic Multilingual Plane the two lengths differ. Such a name is rejected either way, because the pattern allows only ASCII, but the error message can differ.
- Express middleware, the response-envelope helpers, the configuration parsing, the UI and the build files are not part of this model.

Behaviour of the code that the model keeps as it is:

- A DNS failure on registration logs no event (`workstations.ts:87-102` and `workstations.ts:138-160`); only a successful registration logs one.
- An UNKNOWN record that is terminated keeps its `unknown_since` (`stateMachine.ts:95-108`, `HealthCheck.TerminationKeepsUnknownSince`), so a TERMINATED record still carries the time it went silent.
- Whether sending the same registration again retries DNS depends on the earlier failure.
  - After a new name's DNS failure, the stored address is the requested one, so the same request is a confirmation and DNS is not retried (`Workstations.RepeatedRegistrationConfirms`).
  - After a failed address change, the old address is kept, so the same request calls DNS again (`Workstations.FailedAddressChangeIsRetried`).
- A null domain renders as `https://null` in the terminal URL.
- An empty domain counts as no domain. The propagation check rejects it and the probe is not made, because both test `!domain_name`.
