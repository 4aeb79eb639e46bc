/**
 * One reconciliation tick: read every record, remove the expired terminated
 * ones with their events, probe the rest, apply the lifecycle rules and
 * persist the result, logging a STATUS_CHANGED event only when the status
 * actually changes.
 *
 * The network is an input: `probes` maps each probed URL to what `fetch`
 * produced. Each record's result depends only on its own snapshot taken at
 * the start of the tick, so the concurrent fan-out is modelled as a sequence.
 * The tick runs without interruption and reads the clock once, as `now`.
 */
module HealthCheck {
  import opened Wrappers
  import opened Types
  import opened StateMachine
  import opened Db

  /** What a `fetch` produced: a response with its HTTP status, or an exception (network error, TLS error, timeout abort). */
  datatype ProbeOutcome = Responded(httpStatus: int) | Threw

  /** The URL a workstation is probed at. */
  function ProbeUrl(domain: string): string {
    "https://" + domain + "/"
  }

  /** `checkWorkstationHealth`: success is a 200 response; any other status, and any exception, is failure. */
  function CheckWorkstationHealth(url: string, probes: map<string, ProbeOutcome>): (ok: bool)
    ensures url !in probes ==> !ok
    ensures url in probes && probes[url].Threw? ==> !ok
    ensures url in probes && probes[url].Responded? ==> (ok <==> probes[url].httpStatus == 200)
  {
    url in probes && probes[url] == Responded(200)
  }

  /** The probe result of a record: a record whose domain is null or empty fails without a request. */
  function ProbeSucceeded(ws: Workstation, probes: map<string, ProbeOutcome>): (ok: bool)
    ensures ws.domainName.None? || ws.domainName.value == "" ==> !ok
    ensures ok ==> ProbeUrl(ws.domainName.value) in probes && probes[ProbeUrl(ws.domainName.value)] == Responded(200)
    ensures ws.domainName.Some? && ws.domainName.value != "" ==> (ok <==> CheckWorkstationHealth(ProbeUrl(ws.domainName.value), probes))
  {
    ws.domainName.Some? && ws.domainName.value != "" && CheckWorkstationHealth(ProbeUrl(ws.domainName.value), probes)
  }

  /** What the fan-out yields for one record: the record as read and its probe result. */
  datatype ProbeResult = ProbeResult(ws: Workstation, success: bool)

  /** The fan-out over the records to check, in their order. */
  function ProbeAll(toCheck: seq<Workstation>, probes: map<string, ProbeOutcome>): (results: seq<ProbeResult>)
    ensures |results| == |toCheck|
    ensures forall k :: 0 <= k < |toCheck| ==> results[k] == ProbeResult(toCheck[k], ProbeSucceeded(toCheck[k], probes))
  {
    seq(|toCheck|, k requires 0 <= k < |toCheck| => ProbeResult(toCheck[k], ProbeSucceeded(toCheck[k], probes)))
  }

  /** The records a sequence of probe results is about, in order. */
  function Checked(results: seq<ProbeResult>): (checked: seq<Workstation>)
    ensures |checked| == |results|
    ensures forall k :: 0 <= k < |results| ==> checked[k] == results[k].ws
  {
    seq(|results|, k requires 0 <= k < |results| => results[k].ws)
  }

  /** The URLs a tick requests: one per checked record with a non-empty domain. */
  function ProbedUrls(checked: seq<Workstation>): (urls: seq<string>)
    ensures |urls| <= |checked|
    ensures forall u :: u in urls ==> exists k :: 0 <= k < |checked| && checked[k].domainName.Some? &&
                                                    checked[k].domainName.value != "" &&
                                                    u == ProbeUrl(checked[k].domainName.value)
    ensures forall k :: 0 <= k < |checked| && checked[k].domainName.Some? && checked[k].domainName.value != "" ==>
              ProbeUrl(checked[k].domainName.value) in urls
    decreases |checked|
  {
    if checked == [] then []
    else
      var rest := ProbedUrls(checked[..|checked| - 1]);
      var ws := checked[|checked| - 1];
      if ws.domainName.Some? && ws.domainName.value != "" then rest + [ProbeUrl(ws.domainName.value)] else rest
  }

  /**
   * A record after the tick: the rules' updates written over it, or unchanged
   * when no rule applies. A tick never changes a record's identity, address,
   * domain, creation time, DNS error or start time; a status change is
   * stamped with the tick's time; DNS_FAILED and TERMINATED records stay as
   * they are.
   */
  function Reconcile(ws: Workstation, probeOk: bool, now: Timestamp): (r: Workstation)
    ensures r.id == ws.id && r.name == ws.name && r.ipAddress == ws.ipAddress && r.domainName == ws.domainName &&
            r.createdAt == ws.createdAt && r.dnsError == ws.dnsError && r.startedAt == ws.startedAt
    ensures r.status != ws.status ==> r.stateChangedAt == now
    ensures ws.status == Status.DnsFailed || ws.status == Terminated ==> r == ws
  {
    match Decide(ws, probeOk, now)
    case None => ws
    case Some(t) => ApplyPatch(ws, t.updates)
  }

  /** The details text of a health-check event. */
  function HealthDetails(probeOk: bool): string {
    if probeOk then "Health check: success" else "Health check: failed"
  }

  /** The event a record's rule result logs: one STATUS_CHANGED event when the status changes, none otherwise. */
  function EventsFor(ws: Workstation, probeOk: bool, now: Timestamp): (es: seq<Event>)
    ensures |es| <= 1
    ensures es != [] <==> Reconcile(ws, probeOk, now).status != ws.status
    ensures es != [] ==> es[0].eventType == StatusChanged && es[0].workstationId == ws.id && es[0].timestamp == now
  {
    match Decide(ws, probeOk, now)
    case None => []
    case Some(t) =>
      if ws.status != t.newStatus then
        [Event(ws.id, StatusChanged, Some(ws.status), Some(t.newStatus), Some(HealthDetails(probeOk)), now)]
      else []
  }

  /** The events appended while the first `n` probe results are processed, in that order. */
  function TickEvents(results: seq<ProbeResult>, n: nat, now: Timestamp): seq<Event>
    requires n <= |results|
  {
    if n == 0 then []
    else TickEvents(results, n - 1, now) + EventsFor(results[n - 1].ws, results[n - 1].success, now)
  }

  /** The names a tick removes. */
  function PrunedNames(records: map<string, Workstation>, now: Timestamp): set<string> {
    set n | n in records && ShouldRemove(records[n], now)
  }

  /** The names listed in a sequence. */
  ghost function NameSet(names: seq<string>): set<string> {
    set m | m in names
  }

  /** What a tick logs in its summary: the removed names and the probe results, in processing order. */
  datatype TickSummary = TickSummary(removed: seq<string>, results: seq<ProbeResult>)

  /** The rows among the first `n` that the `filter` keeps, in order. */
  function KeptRows(rows: seq<Workstation>, n: nat, now: Timestamp): seq<Workstation>
    requires n <= |rows|
  {
    if n == 0 then []
    else KeptRows(rows, n - 1, now) + (if ShouldRemove(rows[n - 1], now) then [] else [rows[n - 1]])
  }

  /** The names among the first `n` rows that the `filter` collects for removal, in order. */
  function ExpiredNames(rows: seq<Workstation>, n: nat, now: Timestamp): seq<string>
    requires n <= |rows|
  {
    if n == 0 then []
    else ExpiredNames(rows, n - 1, now) + (if ShouldRemove(rows[n - 1], now) then [rows[n - 1].name] else [])
  }

  /** The `filter` keeps exactly the rows that have not expired. */
  lemma {:induction false} KeptRowsMembers(rows: seq<Workstation>, n: nat, now: Timestamp)
    requires n <= |rows|
    ensures forall w :: w in KeptRows(rows, n, now) <==> w in rows[..n] && !ShouldRemove(w, now)
  {
    if n != 0 {
      KeptRowsMembers(rows, n - 1, now);
      assert rows[..n] == rows[..n - 1] + [rows[n - 1]];
    }
  }

  /**
   * The names collected are exactly those of the expired rows, and every row
   * lands on exactly one side.
   */
  lemma {:induction false} ExpiredNamesMembers(rows: seq<Workstation>, n: nat, now: Timestamp)
    requires n <= |rows|
    ensures |KeptRows(rows, n, now)| + |ExpiredNames(rows, n, now)| == n
    ensures forall m :: m in ExpiredNames(rows, n, now) <==> exists w :: w in rows[..n] && ShouldRemove(w, now) && w.name == m
  {
    if n != 0 {
      ExpiredNamesMembers(rows, n - 1, now);
      assert rows[..n] == rows[..n - 1] + [rows[n - 1]];
    }
  }

  /** No two records in the sequence share a name. */
  predicate DistinctNames(ws: seq<Workstation>) {
    forall k, l :: 0 <= k < l < |ws| ==> ws[k].name != ws[l].name
  }

  /** Rows with distinct names keep distinct names through the `filter`. */
  lemma {:induction false} KeptRowsDistinct(rows: seq<Workstation>, n: nat, now: Timestamp)
    requires n <= |rows|
    requires DistinctNames(rows)
    ensures DistinctNames(KeptRows(rows, n, now))
  {
    if n != 0 {
      KeptRowsDistinct(rows, n - 1, now);
      var before := KeptRows(rows, n - 1, now);
      if !ShouldRemove(rows[n - 1], now) {
        KeptRowsMembers(rows, n - 1, now);
        forall k | 0 <= k < |before| ensures before[k].name != rows[n - 1].name {
          assert before[k] in before;
          var j :| 0 <= j < n - 1 && rows[..n - 1][j] == before[k];
          assert rows[j] == before[k];
        }
        AppendDistinctName(before, rows[n - 1]);
      }
    }
  }

  /** Appending a record whose name is new keeps the names distinct. */
  lemma AppendDistinctName(ws: seq<Workstation>, w: Workstation)
    requires DistinctNames(ws)
    requires forall k :: 0 <= k < |ws| ==> ws[k].name != w.name
    ensures DistinctNames(ws + [w])
  {
  }

  /**
   * The `filter` over the rows read: the names of the records to remove
   * collected in order, and the other records kept in order.
   */
  method PartitionExpired(rows: seq<Workstation>, now: Timestamp) returns (toRemove: seq<string>, toCheck: seq<Workstation>)
    ensures |toRemove| + |toCheck| == |rows|
    ensures forall w :: w in toCheck <==> w in rows && !ShouldRemove(w, now)
    ensures forall n :: n in toRemove <==> exists w :: w in rows && ShouldRemove(w, now) && w.name == n
    ensures (forall k, l :: 0 <= k < l < |rows| ==> rows[k].name != rows[l].name) ==>
              forall k, l :: 0 <= k < l < |toCheck| ==> toCheck[k].name != toCheck[l].name
  {
    toRemove := [];
    toCheck := [];
    for i := 0 to |rows|
      invariant toCheck == KeptRows(rows, i, now)
      invariant toRemove == ExpiredNames(rows, i, now)
    {
      var ws := rows[i];
      if ShouldRemove(ws, now) {
        toRemove := toRemove + [ws.name];
      } else {
        toCheck := toCheck + [ws];
      }
    }
    KeptRowsMembers(rows, |rows|, now);
    ExpiredNamesMembers(rows, |rows|, now);
    assert rows[..|rows|] == rows;
    if DistinctNames(rows) {
      KeptRowsDistinct(rows, |rows|, now);
    }
  }

  /** The loop deleting the expired records, each with its events. */
  method RemoveWorkstations(store: Store, names: seq<string>)
    requires store.Valid()
    modifies store
    ensures store.Valid()
    ensures store.records == old(store.records) - NameSet(names)
    ensures store.events == EventsWithout(old(store.events), NameSet(names))
  {
    ghost var records0 := store.records;
    ghost var events0 := store.events;
    assert NameSet(names[..0]) == {};
    EventsWithoutUnreferenced(events0, {});
    for j := 0 to |names|
      invariant store.Valid()
      invariant store.records == records0 - NameSet(names[..j])
      invariant store.events == EventsWithout(events0, NameSet(names[..j]))
    {
      var name := names[j];
      ghost var before := NameSet(names[..j]);
      assert names[..j + 1] == names[..j] + [name];
      assert NameSet(names[..j + 1]) == before + {name};
      var deleted := store.DeleteWorkstation(name);
      EventsWithoutGrows(events0, before, name);
      if !deleted {
        // No stored event refers to a name that is not stored.
        EventsWithoutUnreferenced(store.events, {name});
      }
    }
    assert names[..|names|] == names;
  }

  /**
   * One iteration of the loop over the probe results: the rules' updates are
   * persisted and a STATUS_CHANGED event is logged when the status changes.
   */
  method ApplyResult(store: Store, r: ProbeResult, now: Timestamp)
    requires store.Valid()
    requires r.ws.name in store.records && store.records[r.ws.name] == r.ws
    modifies store
    ensures store.Valid()
    ensures store.records == old(store.records)[r.ws.name := Reconcile(r.ws, r.success, now)]
    ensures store.events == old(store.events) + EventsFor(r.ws, r.success, now)
  {
    var ws := r.ws;
    var success := r.success;
    var transition := ApplyStateMachine(ws, success, now);
    TableAgreesWithDecide(ws, success, now);
    if transition.Some? {
      var oldStatus := ws.status;
      var newStatus := transition.value.newStatus;
      var changed := store.UpdateWorkstation(ws.name, transition.value.updates);
      if oldStatus != newStatus {
        var created := store.CreateEvent(ws.id, StatusChanged, Some(oldStatus), Some(newStatus),
                                         Some(HealthDetails(success)), now);
      }
    }
  }

  /** The records after the first `n` probe results are applied in order, each over the record under its name. */
  ghost function AppliedRecords(records: map<string, Workstation>, results: seq<ProbeResult>, n: nat, now: Timestamp)
    : map<string, Workstation>
    requires n <= |results|
  {
    if n == 0 then records
    else
      var r := results[n - 1];
      AppliedRecords(records, results, n - 1, now)[r.ws.name := Reconcile(r.ws, r.success, now)]
  }

  /** A name none of the first `n` results is about keeps its record. */
  lemma {:induction false} AppliedRecordsMiss(records: map<string, Workstation>, results: seq<ProbeResult>, n: nat,
                                              now: Timestamp, m: string)
    requires n <= |results|
    requires forall k :: 0 <= k < n ==> results[k].ws.name != m
    ensures m in AppliedRecords(records, results, n, now) <==> m in records
    ensures m in records ==> AppliedRecords(records, results, n, now)[m] == records[m]
  {
    if n != 0 {
      AppliedRecordsMiss(records, results, n - 1, now, m);
    }
  }

  /**
   * Applying results about distinct stored names keeps the key set and
   * leaves each probed name holding its reconciled record.
   */
  lemma {:induction false} AppliedRecordsFacts(records: map<string, Workstation>, results: seq<ProbeResult>, n: nat,
                                               now: Timestamp)
    requires n <= |results|
    requires forall k :: 0 <= k < n ==> results[k].ws.name in records
    requires forall k, l :: 0 <= k < l < n ==> results[k].ws.name != results[l].ws.name
    ensures AppliedRecords(records, results, n, now).Keys == records.Keys
    ensures forall k :: 0 <= k < n ==>
              AppliedRecords(records, results, n, now)[results[k].ws.name] ==
              Reconcile(results[k].ws, results[k].success, now)
  {
    if n != 0 {
      AppliedRecordsFacts(records, results, n - 1, now);
    }
  }

  /** The loop applying the rules to each probe result in order. */
  method ApplyResults(store: Store, results: seq<ProbeResult>, now: Timestamp)
    requires store.Valid()
    requires forall k :: 0 <= k < |results| ==>
               results[k].ws.name in store.records && store.records[results[k].ws.name] == results[k].ws
    requires forall k, l :: 0 <= k < l < |results| ==> results[k].ws.name != results[l].ws.name
    modifies store
    ensures store.Valid()
    ensures store.records == AppliedRecords(old(store.records), results, |results|, now)
    ensures store.events == old(store.events) + TickEvents(results, |results|, now)
  {
    ghost var records0 := store.records;
    ghost var events0 := store.events;
    for i := 0 to |results|
      invariant store.Valid()
      invariant store.records == AppliedRecords(records0, results, i, now)
      invariant store.events == events0 + TickEvents(results, i, now)
    {
      AppliedRecordsMiss(records0, results, i, now, results[i].ws.name);
      var logged := EventsFor(results[i].ws, results[i].success, now);
      assert TickEvents(results, i + 1, now) == TickEvents(results, i, now) + logged;
      assert events0 + TickEvents(results, i + 1, now) == events0 + TickEvents(results, i, now) + logged;
      ApplyResult(store, results[i], now);
    }
  }

  /** The rows read are exactly the stored records. */
  ghost predicate RowsOf(records: map<string, Workstation>, rows: seq<Workstation>) {
    (forall k :: 0 <= k < |rows| ==> rows[k].name in records && records[rows[k].name] == rows[k]) &&
    (forall n :: n in records ==> records[n] in rows)
  }

  /** The names the partition collects for removal are the expired stored names. */
  lemma RemovedAreExpired(records: map<string, Workstation>, rows: seq<Workstation>, toRemove: seq<string>, now: Timestamp)
    requires WellKeyed(records)
    requires RowsOf(records, rows)
    requires forall n :: n in toRemove <==> exists w :: w in rows && ShouldRemove(w, now) && w.name == n
    ensures NameSet(toRemove) == PrunedNames(records, now)
  {
    forall n | n in PrunedNames(records, now) ensures n in toRemove {
      assert records[n] in rows && records[n].name == n;
    }
  }

  /** The records the partition keeps are the stored records that have not expired. */
  lemma CheckedAreKept(records: map<string, Workstation>, rows: seq<Workstation>, toCheck: seq<Workstation>,
                       now: Timestamp)
    requires RowsOf(records, rows)
    requires forall w :: w in toCheck <==> w in rows && !ShouldRemove(w, now)
    ensures forall w :: w in toCheck <==> w.name in records && records[w.name] == w && !ShouldRemove(w, now)
  {
    forall w | w in rows ensures w.name in records && records[w.name] == w {
      var k :| 0 <= k < |rows| && rows[k] == w;
    }
  }

  /**
   * Writing the reconciled kept records over the surviving ones leaves the
   * unexpired names, each holding its record reconciled with its own probe.
   */
  lemma TickRecordsByApplication(records: map<string, Workstation>, toCheck: seq<Workstation>,
                               probes: map<string, ProbeOutcome>, now: Timestamp)
    requires WellKeyed(records)
    requires forall w :: w in toCheck <==> w.name in records && records[w.name] == w && !ShouldRemove(w, now)
    requires forall k, l :: 0 <= k < l < |toCheck| ==> toCheck[k].name != toCheck[l].name
    ensures var after := AppliedRecords(records - PrunedNames(records, now), ProbeAll(toCheck, probes), |toCheck|, now);
            after.Keys == records.Keys - PrunedNames(records, now) &&
            forall n :: n in after ==> after[n] == Reconcile(records[n], ProbeSucceeded(records[n], probes), now)
  {
    var results := ProbeAll(toCheck, probes);
    var surviving := records - PrunedNames(records, now);
    forall k | 0 <= k < |results| ensures results[k].ws.name in surviving {
      assert toCheck[k] in toCheck;
    }
    AppliedRecordsFacts(surviving, results, |toCheck|, now);
    var after := AppliedRecords(surviving, results, |toCheck|, now);
    forall n | n in after ensures after[n] == Reconcile(records[n], ProbeSucceeded(records[n], probes), now) {
      KeptRecordIsChecked(records, toCheck, now, n);
      var k :| 0 <= k < |toCheck| && toCheck[k] == records[n];
      assert results[k] == ProbeResult(records[n], ProbeSucceeded(records[n], probes));
    }
  }


  /** Every stored record that is not expired is one of the records to check. */
  lemma KeptRecordIsChecked(records: map<string, Workstation>, toCheck: seq<Workstation>, now: Timestamp, n: string)
    requires forall w :: w in toCheck <==> w.name in records && records[w.name] == w && !ShouldRemove(w, now)
    requires WellKeyed(records)
    requires n in records && !ShouldRemove(records[n], now)
    ensures exists k :: 0 <= k < |toCheck| && toCheck[k] == records[n]
  {
    assert records[n] in toCheck;
  }

  /**
   * The first half of a tick: read every record, delete the expired
   * terminated ones with their events, and keep the others to probe.
   */
  method PruneExpired(store: Store, now: Timestamp) returns (removed: seq<string>, toCheck: seq<Workstation>)
    requires store.Valid()
    modifies store
    ensures store.Valid()
    ensures store.records == old(store.records) - PrunedNames(old(store.records), now)
    ensures store.events == EventsWithout(old(store.events), PrunedNames(old(store.records), now))
    ensures forall n :: n in removed <==> n in PrunedNames(old(store.records), now)
    ensures forall w :: w in toCheck <==>
              w.name in old(store.records) && old(store.records)[w.name] == w && !ShouldRemove(w, now)
    ensures forall k, l :: 0 <= k < l < |toCheck| ==> toCheck[k].name != toCheck[l].name
  {
    ghost var records0 := store.records;
    var workstations := store.GetAllWorkstations(None);
    var toRemove;
    toRemove, toCheck := PartitionExpired(workstations, now);
    RemovedAreExpired(records0, workstations, toRemove, now);
    CheckedAreKept(records0, workstations, toCheck, now);
    RemoveWorkstations(store, toRemove);
    removed := toRemove;
  }

  /** `runHealthCheckJob`, one tick at time `now`. */
  method RunHealthCheckJob(store: Store, probes: map<string, ProbeOutcome>, now: Timestamp)
    returns (summary: TickSummary)
    requires store.Valid()
    modifies store
    ensures store.Valid()
    ensures store.records.Keys == old(store.records).Keys - PrunedNames(old(store.records), now)
    ensures forall n :: n in store.records ==>
              store.records[n] == Reconcile(old(store.records)[n], ProbeSucceeded(old(store.records)[n], probes), now)
    ensures store.events ==
              EventsWithout(old(store.events), PrunedNames(old(store.records), now)) +
              TickEvents(summary.results, |summary.results|, now)
    ensures forall n :: n in summary.removed <==> n in PrunedNames(old(store.records), now)
    ensures summary.results == ProbeAll(Checked(summary.results), probes)
    ensures forall w :: w in Checked(summary.results) <==>
              w.name in old(store.records) && old(store.records)[w.name] == w && !ShouldRemove(w, now)
    ensures forall k, l :: 0 <= k < l < |summary.results| ==> summary.results[k].ws.name != summary.results[l].ws.name
  {
    ghost var records0 := store.records;
    var removed, toCheck := PruneExpired(store, now);
    var results := ProbeAll(toCheck, probes);
    forall k | 0 <= k < |results|
      ensures results[k].ws.name in store.records && store.records[results[k].ws.name] == results[k].ws
    {
      assert toCheck[k] in toCheck;
    }
    ApplyResults(store, results, now);
    TickRecordsByApplication(records0, toCheck, probes, now);
    assert Checked(results) == toCheck;
    summary := TickSummary(removed, results);
  }

  // ---------------------------------------------------------------------
  // Properties of one record's reconciliation and of a tick's events
  // ---------------------------------------------------------------------

  /** After a tick a record has the rule's new status, or its old one when no rule applies. */
  lemma ReconcileStatus(ws: Workstation, probeOk: bool, now: Timestamp)
    ensures Reconcile(ws, probeOk, now).status ==
              match ApplyStateMachine(ws, probeOk, now)
              case None => ws.status
              case Some(t) => t.newStatus
  {
    TableAgreesWithDecide(ws, probeOk, now);
  }

  /** The record a tick writes is the one the first-match search over the rule table gives. */
  lemma ReconcileAppliesTable(ws: Workstation, probeOk: bool, now: Timestamp)
    ensures ApplyStateMachine(ws, probeOk, now).None? ==> Reconcile(ws, probeOk, now) == ws
    ensures ApplyStateMachine(ws, probeOk, now).Some? ==>
              Reconcile(ws, probeOk, now) == ApplyPatch(ws, ApplyStateMachine(ws, probeOk, now).value.updates)
  {
    TableAgreesWithDecide(ws, probeOk, now);
  }

  /**
   * A status change made by a tick is stamped with the tick's time and logged
   * by exactly one STATUS_CHANGED event from the old to the new status; an
   * unchanged status is logged by nothing.
   */
  lemma StatusChangeIsLogged(ws: Workstation, probeOk: bool, now: Timestamp)
    ensures Reconcile(ws, probeOk, now).status != ws.status ==>
              Reconcile(ws, probeOk, now).stateChangedAt == now &&
              EventsFor(ws, probeOk, now) ==
                [Event(ws.id, StatusChanged, Some(ws.status), Some(Reconcile(ws, probeOk, now).status),
                       Some(HealthDetails(probeOk)), now)]
    ensures Reconcile(ws, probeOk, now).status == ws.status ==> EventsFor(ws, probeOk, now) == []
  {
  }

  /**
   * A tick never moves a record's clock columns backwards: when the stored
   * `last_check` and `state_changed_at` are not in the future, both are at
   * least as late afterwards.
   */
  lemma ReconcileMonotone(ws: Workstation, probeOk: bool, now: Timestamp)
    requires ws.stateChangedAt <= now
    requires ws.lastCheck.Some? ==> ws.lastCheck.value <= now
    ensures var r := Reconcile(ws, probeOk, now);
            r.stateChangedAt >= ws.stateChangedAt &&
            (ws.lastCheck.Some? ==> r.lastCheck.Some? && r.lastCheck.value >= ws.lastCheck.value)
  {
  }

  /** The ONLINE heartbeat writes `last_check` even though the status stays, and logs nothing. */
  lemma HeartbeatLogsNothing(ws: Workstation, now: Timestamp)
    requires ws.status == Online
    ensures Reconcile(ws, true, now) == ws.(lastCheck := Some(now))
    ensures EventsFor(ws, true, now) == []
  {
  }

  /** Records in DNS_FAILED or TERMINATED are neither written nor logged by a tick. */
  lemma TerminalRecordsUntouched(ws: Workstation, probeOk: bool, now: Timestamp)
    requires ws.status == Status.DnsFailed || ws.status == Terminated
    ensures Reconcile(ws, probeOk, now) == ws
    ensures EventsFor(ws, probeOk, now) == []
  {
  }

  /**
   * Termination stamps `terminated_at` and `state_changed_at` but keeps
   * `unknown_since`: a TERMINATED record still carries the time it went silent.
   */
  lemma TerminationKeepsUnknownSince(ws: Workstation, now: Timestamp)
    requires ws.status == Unknown && OlderThan(ws.unknownSince, TenMinutes, now)
    ensures var r := Reconcile(ws, false, now);
            r.status == Terminated && r.terminatedAt == Some(now) && r.stateChangedAt == now &&
            r.unknownSince == ws.unknownSince && r.unknownSince.Some?
  {
  }

  /** A record can only go ONLINE through a probe that succeeded, hence only with a non-empty domain. */
  lemma OnlineNeedsSuccessfulProbe(ws: Workstation, probes: map<string, ProbeOutcome>, now: Timestamp)
    requires ws.status != Online
    requires Reconcile(ws, ProbeSucceeded(ws, probes), now).status == Online
    ensures ws.domainName.Some? && ws.domainName.value != ""
    ensures ProbeUrl(ws.domainName.value) in probes && probes[ProbeUrl(ws.domainName.value)] == Responded(200)
  {
  }

  /** Every successful probe result comes from a request the tick made. */
  lemma {:induction false} SuccessfulProbesWereRequested(checked: seq<Workstation>, probes: map<string, ProbeOutcome>)
    ensures forall k :: 0 <= k < |checked| && ProbeSucceeded(checked[k], probes) ==>
              ProbeUrl(checked[k].domainName.value) in ProbedUrls(checked)
    decreases |checked|
  {
    if checked != [] {
      var init := checked[..|checked| - 1];
      SuccessfulProbesWereRequested(init, probes);
      forall k | 0 <= k < |init| ensures init[k] == checked[k] { }
    }
  }

  /**
   * The events a tick appends are STATUS_CHANGED events stamped with the
   * tick's time, each between two different statuses and about a probed
   * record; there is at most one per probed record.
   */
  lemma {:induction false} TickEventsAreStatusChanges(results: seq<ProbeResult>, n: nat, now: Timestamp)
    requires n <= |results|
    ensures |TickEvents(results, n, now)| <= n
    ensures forall e :: e in TickEvents(results, n, now) ==>
              e.eventType == StatusChanged && e.timestamp == now &&
              e.oldStatus.Some? && e.newStatus.Some? && e.oldStatus != e.newStatus &&
              exists k :: 0 <= k < n && results[k].ws.id == e.workstationId
  {
    if n != 0 {
      TickEventsAreStatusChanges(results, n - 1, now);
    }
  }

  /**
   * When the probe results are about distinct records, no two events of the
   * tick are about the same record: at most one event per probed record.
   */
  lemma {:induction false} OneEventPerRecord(results: seq<ProbeResult>, n: nat, now: Timestamp)
    requires n <= |results|
    requires forall k, l :: 0 <= k < l < n ==> results[k].ws.id != results[l].ws.id
    ensures forall i, j :: 0 <= i < j < |TickEvents(results, n, now)| ==>
              TickEvents(results, n, now)[i].workstationId != TickEvents(results, n, now)[j].workstationId
  {
    if n != 0 {
      OneEventPerRecord(results, n - 1, now);
      TickEventsAreStatusChanges(results, n - 1, now);
      var r := results[n - 1];
      var earlier, logged := TickEvents(results, n - 1, now), EventsFor(r.ws, r.success, now);
      var t := earlier + logged;
      forall i, j | 0 <= i < j < |t| ensures t[i].workstationId != t[j].workstationId {
        if j >= |earlier| {
          assert t[j] == logged[0] && t[i] == earlier[i];
          assert earlier[i] in earlier;
          var k :| 0 <= k < n - 1 && results[k].ws.id == earlier[i].workstationId;
        }
      }
    }
  }

}
