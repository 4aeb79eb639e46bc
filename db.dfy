/**
 * The record store: a table of workstations keyed by name, and an
 * append-only log of audit events. The SQL statements of the source become
 * operations on a map and a sequence; `now` stands for the clock the source
 * reads when it stamps a row.
 */
module Db {
  import opened Wrappers
  import opened Types

  /** A stored record with the keys of a patch written over it; `id` and `name` are never written. */
  function ApplyPatch(ws: Workstation, p: Patch): (r: Workstation)
    ensures r.id == ws.id && r.name == ws.name
    ensures r.ipAddress == p.ipAddress.GetOr(ws.ipAddress)
    ensures r.domainName == p.domainName.GetOr(ws.domainName)
    ensures r.status == p.status.GetOr(ws.status)
    ensures r.createdAt == p.createdAt.GetOr(ws.createdAt)
    ensures r.lastCheck == p.lastCheck.GetOr(ws.lastCheck)
    ensures r.stateChangedAt == p.stateChangedAt.GetOr(ws.stateChangedAt)
    ensures r.dnsError == p.dnsError.GetOr(ws.dnsError)
    ensures r.startedAt == p.startedAt.GetOr(ws.startedAt)
    ensures r.unknownSince == p.unknownSince.GetOr(ws.unknownSince)
    ensures r.terminatedAt == p.terminatedAt.GetOr(ws.terminatedAt)
  {
    Workstation(
      ws.id, ws.name,
      p.ipAddress.GetOr(ws.ipAddress),
      p.domainName.GetOr(ws.domainName),
      p.status.GetOr(ws.status),
      p.createdAt.GetOr(ws.createdAt),
      p.lastCheck.GetOr(ws.lastCheck),
      p.stateChangedAt.GetOr(ws.stateChangedAt),
      p.dnsError.GetOr(ws.dnsError),
      p.startedAt.GetOr(ws.startedAt),
      p.unknownSince.GetOr(ws.unknownSince),
      p.terminatedAt.GetOr(ws.terminatedAt))
  }

  /** Whether a patch has any key other than `id` and `name`, i.e. whether an UPDATE statement is built at all. */
  predicate HasWritableKeys(p: Patch) {
    p.ipAddress.Some? || p.domainName.Some? || p.status.Some? || p.createdAt.Some? ||
    p.lastCheck.Some? || p.stateChangedAt.Some? || p.dnsError.Some? || p.startedAt.Some? ||
    p.unknownSince.Some? || p.terminatedAt.Some?
  }

  /** A patch without writable keys leaves every record as it is. */
  lemma PatchWithoutWritableKeys(ws: Workstation, p: Patch)
    requires !HasWritableKeys(p)
    ensures ApplyPatch(ws, p) == ws
  {
  }

  /** The row a new workstation is inserted as: `id` is its name. */
  function WithId(nw: NewWorkstation, id: string): (ws: Workstation)
    ensures ws.id == id && ws.name == nw.name && ws.status == nw.status
  {
    Workstation(id, nw.name, nw.ipAddress, nw.domainName, nw.status, nw.createdAt, nw.lastCheck,
                nw.stateChangedAt, nw.dnsError, nw.startedAt, nw.unknownSince, nw.terminatedAt)
  }

  /** The events of a log that belong to none of the workstations `ids`, in their original order. */
  function EventsWithout(log: seq<Event>, ids: set<string>): (r: seq<Event>)
    ensures |r| <= |log|
    ensures forall e :: e in r <==> e in log && e.workstationId !in ids
    decreases |log|
  {
    if log == [] then []
    else if log[0].workstationId in ids then EventsWithout(log[1..], ids)
    else [log[0]] + EventsWithout(log[1..], ids)
  }

  /** Removing the events of workstations no event refers to keeps the whole log. */
  lemma {:induction false} EventsWithoutUnreferenced(log: seq<Event>, ids: set<string>)
    requires forall i :: 0 <= i < |log| ==> log[i].workstationId !in ids
    ensures EventsWithout(log, ids) == log
    decreases |log|
  {
    if log != [] {
      EventsWithoutUnreferenced(log[1..], ids);
      assert [log[0]] + log[1..] == log;
    }
  }

  /** Removing the events of one more workstation is removing those of the enlarged set. */
  lemma {:induction false} EventsWithoutGrows(log: seq<Event>, ids: set<string>, id: string)
    ensures EventsWithout(EventsWithout(log, ids), {id}) == EventsWithout(log, ids + {id})
    decreases |log|
  {
    if log != [] {
      EventsWithoutGrows(log[1..], ids, id);
    }
  }

  /** Removal of events distributes over the concatenation of two logs. */
  lemma {:induction false} EventsWithoutAppend(a: seq<Event>, b: seq<Event>, ids: set<string>)
    ensures EventsWithout(a + b, ids) == EventsWithout(a, ids) + EventsWithout(b, ids)
    decreases |a|
  {
    if a == [] {
      assert a + b == b;
    } else {
      assert (a + b)[0] == a[0] && (a + b)[1..] == a[1..] + b;
      EventsWithoutAppend(a[1..], b, ids);
    }
  }

  /** The events of one workstation, in log order. */
  function EventsOf(log: seq<Event>, id: string): (r: seq<Event>)
    ensures |r| <= |log|
    ensures forall e :: e in r <==> e in log && e.workstationId == id
    ensures forall e :: multiset(r)[e] == if e.workstationId == id then multiset(log)[e] else 0
    decreases |log|
  {
    if log == [] then []
    else
      assert log == log[..|log| - 1] + [log[|log| - 1]];
      var rest := EventsOf(log[..|log| - 1], id);
      if log[|log| - 1].workstationId == id then rest + [log[|log| - 1]] else rest
  }

  function Reverse<T>(s: seq<T>): (r: seq<T>)
    ensures |r| == |s|
    ensures forall i :: 0 <= i < |s| ==> r[i] == s[|s| - 1 - i]
    decreases |s|
  {
    if s == [] then [] else [s[|s| - 1]] + Reverse(s[..|s| - 1])
  }

  /** Timestamps never decrease along the log. */
  ghost predicate ChronologicalLog(log: seq<Event>) {
    forall i, j :: 0 <= i < j < |log| ==> log[i].timestamp <= log[j].timestamp
  }

  /** Reversing keeps the elements: it invents none and loses none. */
  lemma ReverseKeepsMembers<T>(s: seq<T>)
    ensures forall e :: e in Reverse(s) ==> e in s
    ensures forall e :: e in s ==> e in Reverse(s)
  {
    forall e | e in Reverse(s) ensures e in s {
      var i :| 0 <= i < |s| && Reverse(s)[i] == e;
      assert s[|s| - 1 - i] == e;
    }
    forall e | e in s ensures e in Reverse(s) {
      var i :| 0 <= i < |s| && s[i] == e;
      assert Reverse(s)[|s| - 1 - i] == e;
    }
  }

  /** Timestamps never increase along the sequence. */
  ghost predicate NewestFirst(s: seq<Event>) {
    forall i, j :: 0 <= i < j < |s| ==> s[i].timestamp >= s[j].timestamp
  }

  /**
   * The first `n` elements of a sequence of events read backwards: they are
   * its last `n` elements, latest first; when the sequence is chronological
   * they are newest first, and none of the elements left out is newer than
   * one of them.
   */
  lemma LatestOf(s: seq<Event>, n: nat, latest: seq<Event>)
    requires n <= |s|
    requires latest == Reverse(s)[..n]
    ensures forall e :: e in latest ==> e in s
    ensures forall k {:trigger latest[k]} :: 0 <= k < n ==> latest[k] == s[|s| - 1 - k]
    ensures ChronologicalLog(s) ==> NewestFirst(latest)
    ensures ChronologicalLog(s) ==> forall i, k :: 0 <= i < |s| - n && 0 <= k < n ==> s[i].timestamp <= latest[k].timestamp
  {
    forall k | 0 <= k < n ensures latest[k] == s[|s| - 1 - k] {
      assert latest[k] == Reverse(s)[k];
    }
    forall e | e in latest ensures e in s {
      var k :| 0 <= k < n && latest[k] == e;
      assert s[|s| - 1 - k] == e;
    }
    if ChronologicalLog(s) {
      forall i, j | 0 <= i < j < n ensures latest[i].timestamp >= latest[j].timestamp {
        assert latest[i] == s[|s| - 1 - i] && latest[j] == s[|s| - 1 - j];
      }
      forall i, k | 0 <= i < |s| - n && 0 <= k < n ensures s[i].timestamp <= latest[k].timestamp {
        assert latest[k] == s[|s| - 1 - k];
      }
    }
  }

  /** A subsequence picked out by `EventsOf` keeps the log's chronological order. */
  lemma {:induction false} EventsOfChronological(log: seq<Event>, id: string)
    ensures ChronologicalLog(log) ==> ChronologicalLog(EventsOf(log, id))
    decreases |log|
  {
    if ChronologicalLog(log) && log != [] {
      var init := log[..|log| - 1];
      assert ChronologicalLog(init);
      EventsOfChronological(init, id);
      var rest := EventsOf(init, id);
      if log[|log| - 1].workstationId == id {
        var r := rest + [log[|log| - 1]];
        forall i, j | 0 <= i < j < |r| ensures r[i].timestamp <= r[j].timestamp {
          if j == |r| - 1 {
            assert r[i] in init;
          }
        }
      }
    }
  }

  /** The identifying invariant of every stored record: keyed by its name, whose id is its name. */
  ghost predicate WellKeyed(records: map<string, Workstation>) {
    forall n :: n in records ==> records[n].name == n && records[n].id == n
  }

  /** Every event refers to a stored workstation (the foreign key of the event table). */
  ghost predicate EventsReferToRecords(records: map<string, Workstation>, events: seq<Event>) {
    forall i :: 0 <= i < |events| ==> events[i].workstationId in records
  }

  class Store {
    var records: map<string, Workstation>
    var events: seq<Event>

    ghost predicate Valid()
      reads this
    {
      WellKeyed(records) && EventsReferToRecords(records, events)
    }

    constructor ()
      ensures Valid() && records == map[] && events == []
    {
      records := map[];
      events := [];
    }

    /**
     * `createWorkstation`: inserts the record with `id` set to its name; a null
     * `started_at` is stored as `now`. The returned record is the input plus
     * `id`, not the stored row. Inserting a name that is already stored
     * violates the table's key and changes nothing.
     */
    method CreateWorkstation(nw: NewWorkstation, now: Timestamp) returns (created: Option<Workstation>)
      requires Valid()
      modifies this
      ensures Valid()
      ensures created.Some? <==> nw.name !in old(records)
      ensures created.Some? ==> created.value == WithId(nw, nw.name)
      ensures created.Some? ==>
                records == old(records)[nw.name := WithId(nw, nw.name).(startedAt := Some(nw.startedAt.GetOr(now)))]
      ensures created.None? ==> records == old(records)
      ensures events == old(events)
    {
      if nw.name in records {
        return None;
      }
      var id := nw.name;
      var row := WithId(nw, id).(startedAt := Some(nw.startedAt.GetOr(now)));
      records := records[id := row];
      created := Some(WithId(nw, id));
    }

    /** `getWorkstationByName`. */
    function GetWorkstationByName(name: string): (found: Option<Workstation>)
      reads this
      requires Valid()
      ensures found.Some? <==> name in records
      ensures found.Some? ==> found.value == records[name] && found.value.name == name
    {
      if name in records then Some(records[name]) else None
    }

    /**
     * `getAllWorkstations` with an optional status filter: every stored record
     * in that status, each exactly once, in an order the store chooses.
     */
    method GetAllWorkstations(statusFilter: Option<Status>) returns (rows: seq<Workstation>)
      requires Valid()
      ensures forall k :: 0 <= k < |rows| ==> rows[k].name in records && records[rows[k].name] == rows[k]
      ensures forall k :: 0 <= k < |rows| ==> statusFilter.None? || rows[k].status == statusFilter.value
      ensures forall n :: n in records && (statusFilter.None? || records[n].status == statusFilter.value) ==>
                records[n] in rows
      ensures forall k, l :: 0 <= k < l < |rows| ==> rows[k].name != rows[l].name
    {
      rows := [];
      var remaining := records.Keys;
      while remaining != {}
        invariant remaining <= records.Keys
        invariant forall k :: 0 <= k < |rows| ==> rows[k].name in records && records[rows[k].name] == rows[k]
        invariant forall k :: 0 <= k < |rows| ==> rows[k].name !in remaining
        invariant forall k :: 0 <= k < |rows| ==> statusFilter.None? || rows[k].status == statusFilter.value
        invariant forall n ::
                    (n in records && n !in remaining && (statusFilter.None? || records[n].status == statusFilter.value))
                    ==> records[n] in rows
        invariant forall k, l :: 0 <= k < l < |rows| ==> rows[k].name != rows[l].name
        decreases remaining
      {
        var n :| n in remaining;
        if statusFilter.None? || records[n].status == statusFilter.value {
          rows := rows + [records[n]];
        }
        remaining := remaining - {n};
      }
    }

    /**
     * `updateWorkstation`: writes the patch's keys other than `id` and `name`
     * over the named record. Reports whether a row was changed: false for a
     * patch with no other keys and for an unknown name.
     */
    method UpdateWorkstation(name: string, updates: Patch) returns (changed: bool)
      requires Valid()
      modifies this
      ensures Valid()
      ensures changed <==> HasWritableKeys(updates) && name in old(records)
      ensures changed ==> records == old(records)[name := ApplyPatch(old(records)[name], updates)]
      ensures !changed ==> records == old(records)
      ensures events == old(events)
    {
      if !HasWritableKeys(updates) {
        return false;
      }
      if name !in records {
        return false;
      }
      records := records[name := ApplyPatch(records[name], updates)];
      changed := true;
    }

    /**
     * `deleteWorkstation`: removes the record's events, then the record.
     * Reports false, changing nothing, for an unknown name.
     */
    method DeleteWorkstation(name: string) returns (deleted: bool)
      requires Valid()
      modifies this
      ensures Valid()
      ensures deleted <==> name in old(records)
      ensures records == old(records) - {name}
      ensures deleted ==> events == EventsWithout(old(events), {old(records)[name].id})
      ensures !deleted ==> events == old(events)
    {
      if name !in records {
        return false;
      }
      var id := records[name].id;
      events := EventsWithout(events, {id});
      records := records - {name};
      deleted := true;
    }

    /**
     * `createEvent`: appends one event stamped `now`. An event for a
     * workstation that is not stored violates the foreign key and changes
     * nothing.
     */
    method CreateEvent(workstationId: string, eventType: EventType, oldStatus: Option<Status>,
                       newStatus: Option<Status>, details: Option<string>, now: Timestamp)
      returns (created: Option<Event>)
      requires Valid()
      modifies this
      ensures Valid()
      ensures created.Some? <==> workstationId in old(records)
      ensures created.Some? ==> created.value == Event(workstationId, eventType, oldStatus, newStatus, details, now)
      ensures created.Some? ==> events == old(events) + [created.value]
      ensures created.None? ==> events == old(events)
      ensures records == old(records)
    {
      if workstationId !in records {
        return None;
      }
      var e := Event(workstationId, eventType, oldStatus, newStatus, details, now);
      events := events + [e];
      created := Some(e);
    }

    /**
     * `getWorkstationEvents`: the workstation's latest events newest first,
     * at most `limit` of them (50 by default); a negative limit means no
     * limit, as in SQLite.
     */
    function GetWorkstationEvents(workstationId: string, limit: int := 50): (r: seq<Event>)
      reads this
      ensures limit >= 0 ==> |r| <= limit
      ensures |r| == if 0 <= limit < |EventsOf(events, workstationId)| then limit else |EventsOf(events, workstationId)|
      ensures forall e :: e in r ==> e in events && e.workstationId == workstationId
      ensures r == Reverse(EventsOf(events, workstationId))[..|r|]
      ensures ChronologicalLog(events) ==> NewestFirst(r)
      ensures ChronologicalLog(events) ==>
                forall i, k :: 0 <= i < |EventsOf(events, workstationId)| - |r| && 0 <= k < |r| ==>
                  EventsOf(events, workstationId)[i].timestamp <= r[k].timestamp
    {
      var mine := EventsOf(events, workstationId);
      var n := if 0 <= limit < |mine| then limit else |mine|;
      var latest := Reverse(mine)[..n];
      EventsOfChronological(events, workstationId);
      LatestOf(mine, n, latest);
      latest
    }
  }
}
