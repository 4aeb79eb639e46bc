/**
 * The workstation routes: registration (create, idempotent re-registration,
 * re-registration under a new address), the single and list reads with their
 * terminal URL, and the DNS propagation check's guards.
 *
 * The DNS provider is an input: `dns` says whether the upsert succeeded or
 * the error message it failed with; on success the registered domain is the
 * name under the base domain. The resolver used by the propagation check is
 * an input map from a domain to the number of addresses it resolved to (a
 * missing domain did not resolve).
 */
module Workstations {
  import opened Wrappers
  import opened Types
  import opened Validation
  import opened Db

  /** What the DNS upsert did: succeeded, or failed with an error message. */
  datatype DnsOutcome = DnsUpserted | DnsError(message: string)

  const DnsFailureMessage := "Failed to register DNS domain"
  const NotFoundMessage := "Workstation not found"
  const NoDomainMessage := "Workstation has no domain name"
  const NewRegistrationDetails := "Workstation registered"

  /** The terminal URL of a workstation; a null domain is rendered as the text `null`. */
  function TtydUrl(ws: Workstation): (url: string)
    ensures ws.domainName.Some? ==> url == "https://" + ws.domainName.value
    ensures ws.domainName.None? ==> url == "https://null"
  {
    "https://" + ws.domainName.GetOr("null")
  }

  /** A record as the API returns it: the record itself plus its terminal URL. */
  function ViewOf(ws: Workstation): (v: WorkstationView)
    ensures v.workstation == ws && v.ttydUrl == TtydUrl(ws)
  {
    WorkstationView(ws, TtydUrl(ws))
  }

  /** The details of the event logged when a known workstation comes back under a new address. */
  function IpChangedDetails(oldIp: string, newIp: string): string {
    "IP changed from " + oldIp + " to " + newIp
  }

  /** The update for a re-registration under a new address whose DNS upsert succeeded. */
  function ReRegistration(ip: string, domain: string, now: Timestamp): Patch {
    EmptyPatch.(ipAddress := Some(ip), domainName := Some(Some(domain)), status := Some(Starting),
                stateChangedAt := Some(now), startedAt := Some(Some(now)), dnsError := Some(None),
                unknownSince := Some(None), terminatedAt := Some(None))
  }

  /** The update for a re-registration whose DNS upsert failed: status, error and change time only. */
  function DnsFailure(message: string, now: Timestamp): Patch {
    EmptyPatch.(status := Some(Status.DnsFailed), dnsError := Some(Some(message)), stateChangedAt := Some(now))
  }

  /** The record inserted for a new name, in `status`, with `dnsError`. */
  function NewRecord(name: string, ip: string, domain: string, status: Status, dnsError: Option<string>,
                     now: Timestamp): NewWorkstation
  {
    NewWorkstation(name, ip, Some(domain), status, now, None, now, dnsError, Some(now), None, None)
  }

  /** The error reply of a failed DNS upsert. */
  function DnsErrorResponse(message: string): ApiResponse<WorkstationView> {
    Error(500, DnsFailureMessage, DnsRegistrationFailed, Some(message))
  }

  /** The store after a registration request, its reply, and whether the DNS provider was called. */
  datatype RegistrationOutcome = RegistrationOutcome(
    records: map<string, Workstation>,
    events: seq<Event>,
    response: ApiResponse<WorkstationView>,
    dnsCalled: bool)

  /**
   * The registration handler, stated on the store's contents before the
   * request. The DNS provider is called exactly for a valid request whose
   * name is new or whose address changed, and the reply is a success exactly
   * when the request is valid and no DNS call failed.
   */
  function Registration(records: map<string, Workstation>, events: seq<Event>, req: RegistrationRequest,
                        baseDomain: string, dns: DnsOutcome, now: Timestamp): (out: RegistrationOutcome)
    ensures out.dnsCalled <==>
              ValidateRegistrationRequest(req).Accepted? &&
              (req.name.value !in records || records[req.name.value].ipAddress != req.ip.value)
    ensures out.response.Success? <==>
              ValidateRegistrationRequest(req).Accepted? && (!out.dnsCalled || dns.DnsUpserted?)
  {
    match ValidateRegistrationRequest(req)
    case Rejected(error, code) => RegistrationOutcome(records, events, Error(400, error, code, None), false)
    case Accepted =>
      var name, ip := req.name.value, req.ip.value;
      var domain := DerivedDomain(name, baseDomain);
      if name in records then
        var existing := records[name];
        if existing.ipAddress == ip then
          RegistrationOutcome(records, events, Success(200, ViewOf(existing)), false)
        else
          match dns
          case DnsUpserted =>
            var updated := ApplyPatch(existing, ReRegistration(ip, domain, now));
            var event := Event(existing.id, Registered, Some(existing.status), Some(Starting),
                               Some(IpChangedDetails(existing.ipAddress, ip)), now);
            RegistrationOutcome(records[name := updated], events + [event], Success(200, ViewOf(updated)), true)
          case DnsError(message) =>
            var failed := ApplyPatch(existing, DnsFailure(message, now));
            RegistrationOutcome(records[name := failed], events, DnsErrorResponse(message), true)
      else
        match dns
        case DnsUpserted =>
          var created := WithId(NewRecord(name, ip, domain, Starting, None, now), name);
          var event := Event(name, Registered, None, Some(Starting), Some(NewRegistrationDetails), now);
          RegistrationOutcome(records[name := created], events + [event], Success(201, ViewOf(created)), true)
        case DnsError(message) =>
          var created := WithId(NewRecord(name, ip, domain, Status.DnsFailed, Some(message), now), name);
          RegistrationOutcome(records[name := created], events, DnsErrorResponse(message), true)
  }

  /** POST `/register`: validate, then create, confirm or re-register the workstation. */
  method Register(store: Store, req: RegistrationRequest, baseDomain: string, dns: DnsOutcome, now: Timestamp)
    returns (response: ApiResponse<WorkstationView>, dnsCalled: bool)
    requires store.Valid()
    modifies store
    ensures store.Valid()
    ensures RegistrationOutcome(store.records, store.events, response, dnsCalled) ==
            Registration(old(store.records), old(store.events), req, baseDomain, dns, now)
  {
    var validation := ValidateRegistrationRequest(req);
    if validation.Rejected? {
      return Error(400, validation.error, validation.code, None), false;
    }
    var name, ip := req.name.value, req.ip.value;
    var existing := store.GetWorkstationByName(name);
    if existing.Some? {
      var ws := existing.value;
      if ws.ipAddress == ip {
        return Success(200, ViewOf(ws)), false;
      }
      dnsCalled := true;
      match dns {
        case DnsUpserted =>
          var domain := DerivedDomain(name, baseDomain);
          var changed := store.UpdateWorkstation(name, ReRegistration(ip, domain, now));
          var event := store.CreateEvent(ws.id, Registered, Some(ws.status), Some(Starting),
                                         Some(IpChangedDetails(ws.ipAddress, ip)), now);
          var updated := store.GetWorkstationByName(name);
          response := Success(200, ViewOf(updated.value));
        case DnsError(message) =>
          var changed := store.UpdateWorkstation(name, DnsFailure(message, now));
          response := DnsErrorResponse(message);
      }
    } else {
      dnsCalled := true;
      var domain := DerivedDomain(name, baseDomain);
      match dns {
        case DnsUpserted =>
          var created := store.CreateWorkstation(NewRecord(name, ip, domain, Starting, None, now), now);
          var event := store.CreateEvent(created.value.id, Registered, None, Some(Starting),
                                         Some(NewRegistrationDetails), now);
          response := Success(201, ViewOf(created.value));
        case DnsError(message) =>
          var created := store.CreateWorkstation(NewRecord(name, ip, domain, Status.DnsFailed, Some(message), now), now);
          response := DnsErrorResponse(message);
      }
    }
  }

  // ---------------------------------------------------------------------
  // Properties of registration
  // ---------------------------------------------------------------------

  /** An invalid request is answered 400 before anything is read, written or registered. */
  lemma RejectedRequestChangesNothing(records: map<string, Workstation>, events: seq<Event>, req: RegistrationRequest,
                                      baseDomain: string, dns: DnsOutcome, now: Timestamp)
    requires ValidateRegistrationRequest(req).Rejected?
    ensures var out := Registration(records, events, req, baseDomain, dns, now);
            out.records == records && out.events == events && !out.dnsCalled &&
            out.response == Error(400, ValidateRegistrationRequest(req).error, InvalidInput, None)
  {
  }

  /**
   * Re-registering a known name with its stored address, whatever the
   * record's status, returns the stored record unchanged with 200 and calls
   * no DNS provider.
   */
  lemma SameAddressIsIdempotent(records: map<string, Workstation>, events: seq<Event>, req: RegistrationRequest,
                                baseDomain: string, dns: DnsOutcome, now: Timestamp)
    requires ValidateRegistrationRequest(req).Accepted?
    requires req.name.value in records && records[req.name.value].ipAddress == req.ip.value
    ensures var out := Registration(records, events, req, baseDomain, dns, now);
            out.records == records && out.events == events && !out.dnsCalled &&
            out.response == Success(200, ViewOf(records[req.name.value]))
  {
  }

  /**
   * A known name under a new address whose DNS upsert succeeds is restarted:
   * new address and derived domain, STARTING since `now`, the error and the
   * silence and termination times cleared, identity, creation time and last
   * check kept; one REGISTERED event records the move; the reply is 200 with
   * the updated record.
   */
  lemma AddressChangeRestarts(records: map<string, Workstation>, events: seq<Event>, req: RegistrationRequest,
                              baseDomain: string, now: Timestamp)
    requires ValidateRegistrationRequest(req).Accepted?
    requires req.name.value in records && records[req.name.value].ipAddress != req.ip.value
    ensures var name, ip, before := req.name.value, req.ip.value, records[req.name.value];
            var out := Registration(records, events, req, baseDomain, DnsUpserted, now);
            name in out.records &&
            var ws := out.records[name];
            ws.id == before.id && ws.name == before.name && ws.createdAt == before.createdAt && ws.lastCheck == before.lastCheck &&
            ws.ipAddress == ip && ws.domainName == Some(DerivedDomain(name, baseDomain)) && ws.status == Starting &&
            ws.stateChangedAt == now && ws.startedAt == Some(now) && ws.dnsError.None? &&
            ws.unknownSince.None? && ws.terminatedAt.None? &&
            out.events == events + [Event(before.id, Registered, Some(before.status), Some(Starting),
                                          Some("IP changed from " + before.ipAddress + " to " + ip), now)] &&
            out.response == Success(200, ViewOf(ws)) && out.dnsCalled
  {
  }

  /**
   * A known name under a new address whose DNS upsert fails is marked
   * DNS_FAILED with the error and the change time; its address, domain and
   * start time stay as they were, no event is logged and the reply is 500.
   */
  lemma AddressChangeDnsFailure(records: map<string, Workstation>, events: seq<Event>, req: RegistrationRequest,
                                baseDomain: string, message: string, now: Timestamp)
    requires ValidateRegistrationRequest(req).Accepted?
    requires req.name.value in records && records[req.name.value].ipAddress != req.ip.value
    ensures var name, before := req.name.value, records[req.name.value];
            var out := Registration(records, events, req, baseDomain, DnsError(message), now);
            out.records == records[name := before.(status := Status.DnsFailed, dnsError := Some(message),
                                                 stateChangedAt := now)] &&
            out.events == events && out.dnsCalled &&
            out.response == Error(500, DnsFailureMessage, DnsRegistrationFailed, Some(message))
  {
  }

  /**
   * A new name whose DNS upsert succeeds is stored STARTING under the derived
   * domain, created, changed and started at `now`, with one REGISTERED event
   * from no status; the reply is 201 with the record.
   */
  lemma NewNameRegistered(records: map<string, Workstation>, events: seq<Event>, req: RegistrationRequest,
                          baseDomain: string, now: Timestamp)
    requires ValidateRegistrationRequest(req).Accepted?
    requires req.name.value !in records
    ensures var name, ip := req.name.value, req.ip.value;
            var out := Registration(records, events, req, baseDomain, DnsUpserted, now);
            var ws := Workstation(name, name, ip, Some(DerivedDomain(name, baseDomain)), Starting, now, None, now,
                                  None, Some(now), None, None);
            out.records == records[name := ws] &&
            out.events == events + [Event(name, Registered, None, Some(Starting), Some(NewRegistrationDetails), now)] &&
            out.response == Success(201, ViewOf(ws)) && out.dnsCalled
  {
  }

  /**
   * A new name whose DNS upsert fails is still stored, DNS_FAILED with the
   * error and the domain it would have had; no event is logged and the reply
   * is 500.
   */
  lemma NewNameDnsFailure(records: map<string, Workstation>, events: seq<Event>, req: RegistrationRequest,
                          baseDomain: string, message: string, now: Timestamp)
    requires ValidateRegistrationRequest(req).Accepted?
    requires req.name.value !in records
    ensures var name, ip := req.name.value, req.ip.value;
            var out := Registration(records, events, req, baseDomain, DnsError(message), now);
            out.records == records[name := Workstation(name, name, ip, Some(DerivedDomain(name, baseDomain)),
                                                       Status.DnsFailed, now, None, now, Some(message), Some(now),
                                                       None, None)] &&
            out.events == events && out.dnsCalled &&
            out.response == Error(500, DnsFailureMessage, DnsRegistrationFailed, Some(message))
  {
  }

  /** A registration keeps every stored record keyed by its name and every event pointing at a stored record. */
  lemma RegistrationKeepsInvariants(records: map<string, Workstation>, events: seq<Event>, req: RegistrationRequest,
                                    baseDomain: string, dns: DnsOutcome, now: Timestamp)
    requires WellKeyed(records) && EventsReferToRecords(records, events)
    ensures var out := Registration(records, events, req, baseDomain, dns, now);
            WellKeyed(out.records) && EventsReferToRecords(out.records, out.events)
  {
    var out := Registration(records, events, req, baseDomain, dns, now);
    if ValidateRegistrationRequest(req).Accepted? {
      assert records.Keys <= out.records.Keys;
      forall i | 0 <= i < |out.events| ensures out.events[i].workstationId in out.records {
        if i < |events| {
          assert out.events[i] == events[i];
        }
      }
    }
  }

  /**
   * A registration touches no other name, and only appends to the log: at
   * most one event, about the registered name.
   */
  lemma RegistrationIsLocal(records: map<string, Workstation>, events: seq<Event>, req: RegistrationRequest,
                            baseDomain: string, dns: DnsOutcome, now: Timestamp)
    requires WellKeyed(records)
    ensures var out := Registration(records, events, req, baseDomain, dns, now);
            records.Keys <= out.records.Keys &&
            (forall m :: m in out.records && m !in records ==> req.name == Some(m)) &&
            (forall m :: m in records && (req.name.None? || m != req.name.value) ==> out.records[m] == records[m]) &&
            events <= out.events && |out.events| <= |events| + 1 &&
            (forall i :: |events| <= i < |out.events| ==> out.events[i].workstationId == req.name.value)
  {
    var out := Registration(records, events, req, baseDomain, dns, now);
    if ValidateRegistrationRequest(req).Accepted? {
      assert out.records.Keys == records.Keys + {req.name.value};
      assert req.name.value in records ==> records[req.name.value].id == req.name.value;
    }
  }

  /** A success reply shows the registered record as it is now stored. */
  lemma SuccessShowsStoredRecord(records: map<string, Workstation>, events: seq<Event>, req: RegistrationRequest,
                                 baseDomain: string, dns: DnsOutcome, now: Timestamp)
    ensures var out := Registration(records, events, req, baseDomain, dns, now);
            out.response.Success? ==>
              req.name.Some? && req.name.value in out.records &&
              out.response.data == ViewOf(out.records[req.name.value])
  {
  }

  /**
   * Registering the same request again, after a first registration that
   * stored the request's address, is a confirmation: 200 with the stored
   * record, nothing written and no DNS call. This covers a new name whose
   * DNS upsert failed: the DNS_FAILED record is returned as is and DNS is not
   * retried.
   */
  lemma RepeatedRegistrationConfirms(records: map<string, Workstation>, events: seq<Event>, req: RegistrationRequest,
                                     baseDomain: string, dns1: DnsOutcome, dns2: DnsOutcome, now1: Timestamp,
                                     now2: Timestamp)
    requires ValidateRegistrationRequest(req).Accepted?
    requires !(req.name.value in records && records[req.name.value].ipAddress != req.ip.value && dns1.DnsError?)
    ensures var first := Registration(records, events, req, baseDomain, dns1, now1);
            var second := Registration(first.records, first.events, req, baseDomain, dns2, now2);
            second.records == first.records && second.events == first.events && !second.dnsCalled &&
            second.response == Success(200, ViewOf(first.records[req.name.value]))
  {
    var first := Registration(records, events, req, baseDomain, dns1, now1);
    assert req.name.value in first.records && first.records[req.name.value].ipAddress == req.ip.value;
  }

  /**
   * After a DNS failure while moving a known name to a new address, the
   * stored address is still the old one, so sending the same request again
   * calls the DNS provider again.
   */
  lemma FailedAddressChangeIsRetried(records: map<string, Workstation>, events: seq<Event>, req: RegistrationRequest,
                                     baseDomain: string, message: string, dns2: DnsOutcome, now1: Timestamp,
                                     now2: Timestamp)
    requires ValidateRegistrationRequest(req).Accepted?
    requires req.name.value in records && records[req.name.value].ipAddress != req.ip.value
    ensures var first := Registration(records, events, req, baseDomain, DnsError(message), now1);
            var second := Registration(first.records, first.events, req, baseDomain, dns2, now2);
            second.dnsCalled &&
            second.records[req.name.value].status == (if dns2.DnsUpserted? then Starting else Status.DnsFailed)
  {
    var first := Registration(records, events, req, baseDomain, DnsError(message), now1);
    assert first.records[req.name.value].ipAddress == records[req.name.value].ipAddress;
  }

  // ---------------------------------------------------------------------
  // Reads
  // ---------------------------------------------------------------------

  /** GET `/:name`: the record with its terminal URL, or 404. */
  function GetWorkstation(store: Store, name: string): (r: ApiResponse<WorkstationView>)
    reads store
    requires store.Valid()
    ensures r.Success? <==> name in store.records
    ensures r.Success? ==> r == Success(200, ViewOf(store.records[name]))
    ensures r.Error? ==> r == Error(404, NotFoundMessage, NotFound, None)
  {
    match store.GetWorkstationByName(name)
    case None => Error(404, NotFoundMessage, NotFound, None)
    case Some(ws) => Success(200, ViewOf(ws))
  }

  /** GET `/`: every record, or every record in one status, each with its terminal URL. */
  method ListWorkstations(store: Store, statusFilter: Option<Status>) returns (views: seq<WorkstationView>)
    requires store.Valid()
    ensures forall k :: 0 <= k < |views| ==>
              views[k].workstation.name in store.records &&
              views[k] == ViewOf(store.records[views[k].workstation.name]) &&
              (statusFilter.None? || views[k].workstation.status == statusFilter.value)
    ensures forall n :: n in store.records && (statusFilter.None? || store.records[n].status == statusFilter.value) ==>
              ViewOf(store.records[n]) in views
    ensures forall k, l :: 0 <= k < l < |views| ==> views[k].workstation.name != views[l].workstation.name
  {
    var rows := store.GetAllWorkstations(statusFilter);
    views := seq(|rows|, k requires 0 <= k < |rows| => ViewOf(rows[k]));
    forall n | n in store.records && (statusFilter.None? || store.records[n].status == statusFilter.value)
      ensures ViewOf(store.records[n]) in views
    {
      var k :| 0 <= k < |rows| && rows[k] == store.records[n];
      assert views[k] == ViewOf(rows[k]);
    }
  }

  /** What the propagation check reports. */
  datatype PropagationReport = PropagationReport(name: string, domainName: string, propagated: bool,
                                                 checkedAt: Timestamp)

  /**
   * GET `/:name/propagation`: 404 for an unknown name, 400 for a record whose
   * domain is null or empty, otherwise whether the domain resolves to at
   * least one address.
   */
  function CheckPropagation(store: Store, name: string, resolved: map<string, nat>, now: Timestamp)
    : (r: ApiResponse<PropagationReport>)
    reads store
    requires store.Valid()
    ensures r.Error? && r.statusCode == 404 <==> name !in store.records
    ensures r.Error? && r.statusCode == 400 <==>
              name in store.records && (store.records[name].domainName.None? || store.records[name].domainName == Some(""))
    ensures r.Error? ==> r.code == (if r.statusCode == 404 then NotFound else InvalidInput)
    ensures r.Success? <==>
              name in store.records && store.records[name].domainName.Some? && store.records[name].domainName.value != ""
    ensures r.Success? ==>
              var domain := store.records[name].domainName.value;
              r.statusCode == 200 && r.data.name == name && r.data.domainName == domain && r.data.checkedAt == now &&
              (r.data.propagated <==> domain in resolved && resolved[domain] > 0)
  {
    match store.GetWorkstationByName(name)
    case None => Error(404, NotFoundMessage, NotFound, None)
    case Some(ws) =>
      if ws.domainName.None? || ws.domainName.value == "" then Error(400, NoDomainMessage, InvalidInput, None)
      else
        var domain := ws.domainName.value;
        var propagated := domain in resolved && resolved[domain] > 0;
        Success(200, PropagationReport(ws.name, domain, propagated, now))
  }
}
