/**
 * The lifecycle rules of a workstation. The source keeps them as an ordered
 * table of condition/update closures and applies the first rule whose `from`
 * status matches and whose condition holds. Here each closure is spelled out
 * as data: a `Condition` (the probe outcome and, for the failure rules, the
 * anchor timestamp and its threshold) and the list of fields it writes. The
 * clock is the parameter `now`.
 */
module StateMachine {
  import opened Wrappers
  import opened Types

  const Minute: int := 60 * 1000

  /** Booting grace period and presumed-dead period (10 minutes). */
  const TenMinutes: int := 10 * Minute

  /** Silence allowed to an online workstation (1 minute). */
  const OneMinute: int := 1 * Minute

  /** Time a terminated workstation is kept before it is removed (50 minutes). */
  const FiftyMinutes: int := 50 * Minute

  /** `timeDiff`: milliseconds elapsed since a timestamp, or `None` for a null one. */
  function TimeDiff(timestamp: Option<Timestamp>, now: Timestamp): (d: Option<int>)
    ensures d.Some? <==> timestamp.Some?
    ensures d.Some? ==> timestamp.value + d.value == now
  {
    match timestamp
    case None => None
    case Some(t) => Some(now - t)
  }

  /** The timestamp a failure rule measures from. */
  datatype Anchor = StartedAt | LastCheck | UnknownSince

  /** A rule's condition on the workstation and the probe outcome. */
  datatype Condition =
    | OnProbeSuccess
    | OnProbeFailureAfter(anchor: Anchor, thresholdMs: int)

  /** A timestamp column a rule may write. */
  datatype TimeField = LastCheckField | StateChangedAtField | UnknownSinceField | TerminatedAtField

  /** One key of the object a rule's update function returns. */
  datatype FieldWrite =
    | WriteStatus(status: Status)
    | WriteNow(field: TimeField)
    | ClearUnknownSince

  datatype Rule = Rule(from: Status, to: Status, condition: Condition, writes: seq<FieldWrite>)

  /** The outcome of a transition: the status it leads to and the fields to update. */
  datatype Transition = Transition(newStatus: Status, updates: Patch)

  /** `STATE_TRANSITIONS`, in the source's order. */
  const StateTransitions: seq<Rule> := [
    Rule(Starting, Online, OnProbeSuccess,
         [WriteStatus(Online), WriteNow(LastCheckField), WriteNow(StateChangedAtField), ClearUnknownSince]),
    Rule(Starting, Unknown, OnProbeFailureAfter(StartedAt, TenMinutes),
         [WriteStatus(Unknown), WriteNow(StateChangedAtField), WriteNow(UnknownSinceField)]),
    Rule(Online, Online, OnProbeSuccess,
         [WriteNow(LastCheckField)]),
    Rule(Online, Unknown, OnProbeFailureAfter(LastCheck, OneMinute),
         [WriteStatus(Unknown), WriteNow(StateChangedAtField), WriteNow(UnknownSinceField)]),
    Rule(Unknown, Online, OnProbeSuccess,
         [WriteStatus(Online), WriteNow(LastCheckField), WriteNow(StateChangedAtField), ClearUnknownSince]),
    Rule(Unknown, Terminated, OnProbeFailureAfter(UnknownSince, TenMinutes),
         [WriteStatus(Terminated), WriteNow(StateChangedAtField), WriteNow(TerminatedAtField)])
  ]

  function AnchorValue(ws: Workstation, anchor: Anchor): Option<Timestamp> {
    match anchor
    case StartedAt => ws.startedAt
    case LastCheck => ws.lastCheck
    case UnknownSince => ws.unknownSince
  }

  /** A rule's condition: the probe outcome, and for a failure rule an elapsed time strictly over the threshold. */
  predicate Holds(c: Condition, ws: Workstation, probeOk: bool, now: Timestamp) {
    match c
    case OnProbeSuccess => probeOk
    case OnProbeFailureAfter(anchor, threshold) =>
      !probeOk &&
      var diff := TimeDiff(AnchorValue(ws, anchor), now);
      diff.Some? && diff.value > threshold
  }

  predicate Applicable(r: Rule, ws: Workstation, probeOk: bool, now: Timestamp) {
    r.from == ws.status && Holds(r.condition, ws, probeOk, now)
  }

  /** `STATE_TRANSITIONS.find(...)`, from index `k` on: the first applicable rule's index. */
  function FindRule(rules: seq<Rule>, k: nat, ws: Workstation, probeOk: bool, now: Timestamp): (found: Option<nat>)
    requires k <= |rules|
    ensures found.Some? ==> k <= found.value < |rules| && Applicable(rules[found.value], ws, probeOk, now)
    ensures found.Some? ==> forall j :: k <= j < found.value ==> !Applicable(rules[j], ws, probeOk, now)
    ensures found.None? ==> forall j :: k <= j < |rules| ==> !Applicable(rules[j], ws, probeOk, now)
    decreases |rules| - k
  {
    if k == |rules| then None
    else if Applicable(rules[k], ws, probeOk, now) then Some(k)
    else FindRule(rules, k + 1, ws, probeOk, now)
  }

  /** The patch a rule's update function returns, with every timestamp it writes set to `now`. */
  function PatchOf(writes: seq<FieldWrite>, now: Timestamp): Patch
    decreases |writes|
  {
    if writes == [] then EmptyPatch
    else Write(PatchOf(writes[..|writes| - 1], now), writes[|writes| - 1], now)
  }

  /** Adds one key to a patch; a later key overrides an earlier one, as in an object literal. */
  function Write(p: Patch, w: FieldWrite, now: Timestamp): Patch {
    match w
    case WriteStatus(s) => p.(status := Some(s))
    case WriteNow(LastCheckField) => p.(lastCheck := Some(Some(now)))
    case WriteNow(StateChangedAtField) => p.(stateChangedAt := Some(now))
    case WriteNow(UnknownSinceField) => p.(unknownSince := Some(Some(now)))
    case WriteNow(TerminatedAtField) => p.(terminatedAt := Some(Some(now)))
    case ClearUnknownSince => p.(unknownSince := Some(None))
  }

  /**
   * `applyStateMachine`: the first applicable rule's target status and
   * updates, or `None`. Only STARTING, ONLINE and UNKNOWN have rules; a
   * result leads to ONLINE exactly when the probe succeeded; a change of
   * status writes the new status and stamps `state_changed_at`; and no rule
   * writes the registration columns.
   */
  function ApplyStateMachine(ws: Workstation, probeOk: bool, now: Timestamp): (t: Option<Transition>)
    ensures t.Some? ==> ws.status == Starting || ws.status == Online || ws.status == Unknown
    ensures t.Some? ==> (t.value.newStatus == Online <==> probeOk)
    ensures t.Some? && t.value.newStatus != ws.status ==>
              t.value.updates.status == Some(t.value.newStatus) && t.value.updates.stateChangedAt == Some(now)
    ensures t.Some? ==> RegistrationUntouched(t.value.updates)
  {
    match FindRule(StateTransitions, 0, ws, probeOk, now)
    case None => None
    case Some(i) =>
      PatchOfTable(i, now);
      Some(Transition(StateTransitions[i].to, PatchOf(StateTransitions[i].writes, now)))
  }

  /** A patch that writes none of the columns registration sets: id, name, address, domain, creation, error and start times. */
  predicate RegistrationUntouched(p: Patch) {
    p.id.None? && p.name.None? && p.ipAddress.None? && p.domainName.None? && p.createdAt.None? &&
    p.dnsError.None? && p.startedAt.None?
  }

  /** `shouldRemoveWorkstation`: terminated, with a termination time more than 50 minutes ago. */
  function ShouldRemove(ws: Workstation, now: Timestamp): (remove: bool)
    ensures remove ==> ws.status == Terminated && ws.terminatedAt.Some? && ws.terminatedAt.value < now - FiftyMinutes
    ensures ws.status == Terminated && ws.terminatedAt.Some? && ws.terminatedAt.value < now - FiftyMinutes ==> remove
  {
    ws.status == Terminated &&
    var diff := TimeDiff(ws.terminatedAt, now);
    diff.Some? && diff.value > FiftyMinutes
  }

  // ---------------------------------------------------------------------
  // The decision table written out status by status
  // ---------------------------------------------------------------------

  /** Updates for entering ONLINE: probe time, change time, and `unknown_since` cleared. */
  function ToOnline(now: Timestamp): Patch {
    EmptyPatch.(status := Some(Online), lastCheck := Some(Some(now)), stateChangedAt := Some(now),
                unknownSince := Some(None))
  }

  /** Updates for entering UNKNOWN: change time and `unknown_since`. */
  function ToUnknown(now: Timestamp): Patch {
    EmptyPatch.(status := Some(Unknown), stateChangedAt := Some(now), unknownSince := Some(Some(now)))
  }

  /** Updates for entering TERMINATED: change time and `terminated_at`. */
  function ToTerminated(now: Timestamp): Patch {
    EmptyPatch.(status := Some(Terminated), stateChangedAt := Some(now), terminatedAt := Some(Some(now)))
  }

  /** Updates for a heartbeat of an online workstation: only the probe time. */
  function Heartbeat(now: Timestamp): Patch {
    EmptyPatch.(lastCheck := Some(Some(now)))
  }

  /** Whether a timestamp is set and more than `threshold` milliseconds old. */
  predicate OlderThan(t: Option<Timestamp>, threshold: int, now: Timestamp) {
    t.Some? && now - t.value > threshold
  }

  /** The decision table, one case per status, without any search. */
  function Decide(ws: Workstation, probeOk: bool, now: Timestamp): Option<Transition> {
    match ws.status
    case Starting =>
      if probeOk then Some(Transition(Online, ToOnline(now)))
      else if OlderThan(ws.startedAt, TenMinutes, now) then Some(Transition(Unknown, ToUnknown(now)))
      else None
    case Online =>
      if probeOk then Some(Transition(Online, Heartbeat(now)))
      else if OlderThan(ws.lastCheck, OneMinute, now) then Some(Transition(Unknown, ToUnknown(now)))
      else None
    case Unknown =>
      if probeOk then Some(Transition(Online, ToOnline(now)))
      else if OlderThan(ws.unknownSince, TenMinutes, now) then Some(Transition(Terminated, ToTerminated(now)))
      else None
    case DnsFailed => None
    case Terminated => None
  }

  /** For every workstation at most one rule of the table applies. */
  lemma {:induction false} AtMostOneRuleApplies(ws: Workstation, probeOk: bool, now: Timestamp, i: nat, j: nat)
    requires i < |StateTransitions| && j < |StateTransitions|
    requires Applicable(StateTransitions[i], ws, probeOk, now)
    requires Applicable(StateTransitions[j], ws, probeOk, now)
    ensures i == j
  {
    var r, s := StateTransitions[i], StateTransitions[j];
    assert r.from == s.from;
    assert r.condition.OnProbeSuccess? == probeOk == s.condition.OnProbeSuccess?;
  }

  /** The first-match search over the table and the per-status decision agree on every input. */
  lemma {:induction false} TableAgreesWithDecide(ws: Workstation, probeOk: bool, now: Timestamp)
    ensures ApplyStateMachine(ws, probeOk, now) == Decide(ws, probeOk, now)
  {
    var rules := StateTransitions;
    var found := FindRule(rules, 0, ws, probeOk, now);
    assert |rules| == 6;
    match found
    case None =>
      forall j | 0 <= j < 6 ensures !Applicable(rules[j], ws, probeOk, now) { }
      assert Decide(ws, probeOk, now).None? by {
        match ws.status
        case Starting => assert !Applicable(rules[0], ws, probeOk, now) && !Applicable(rules[1], ws, probeOk, now);
        case Online => assert !Applicable(rules[2], ws, probeOk, now) && !Applicable(rules[3], ws, probeOk, now);
        case Unknown => assert !Applicable(rules[4], ws, probeOk, now) && !Applicable(rules[5], ws, probeOk, now);
        case DnsFailed =>
        case Terminated =>
      }
    case Some(i) =>
      assert Applicable(rules[i], ws, probeOk, now);
      PatchOfTable(i, now);
  }

  /** The patch each row of the table writes. */
  lemma PatchOfTable(i: nat, now: Timestamp)
    requires i < |StateTransitions|
    ensures PatchOf(StateTransitions[i].writes, now) ==
            match i
            case 0 => ToOnline(now)
            case 1 => ToUnknown(now)
            case 2 => Heartbeat(now)
            case 3 => ToUnknown(now)
            case 4 => ToOnline(now)
            case _ => ToTerminated(now)
  {
    var w := StateTransitions[i].writes;
    var p0 := PatchOf(w[..0], now);
    assert w[..0] == [] && p0 == EmptyPatch;
    assert PatchOf(w[..1], now) == Write(p0, w[0], now) by { assert w[..1][..0] == w[..0]; }
    if |w| >= 2 {
      assert PatchOf(w[..2], now) == Write(PatchOf(w[..1], now), w[1], now) by { assert w[..2][..1] == w[..1]; }
    }
    if |w| >= 3 {
      assert PatchOf(w[..3], now) == Write(PatchOf(w[..2], now), w[2], now) by { assert w[..3][..2] == w[..2]; }
    }
    if |w| == 4 {
      assert PatchOf(w[..4], now) == Write(PatchOf(w[..3], now), w[3], now) by { assert w[..4][..3] == w[..3]; }
    }
    assert w[..|w|] == w;
  }

  // ---------------------------------------------------------------------
  // Properties of the rules, stated of the table search
  // ---------------------------------------------------------------------

  /** STARTING with a successful probe goes ONLINE, stamping `last_check` and `state_changed_at` and clearing `unknown_since`. */
  lemma StartingProbeSucceeds(ws: Workstation, now: Timestamp)
    requires ws.status == Starting
    ensures ApplyStateMachine(ws, true, now) == Some(Transition(Online, ToOnline(now)))
    ensures ToOnline(now).lastCheck == Some(Some(now)) && ToOnline(now).stateChangedAt == Some(now)
    ensures ToOnline(now).unknownSince == Some(None)
  {
    TableAgreesWithDecide(ws, true, now);
  }

  /**
   * STARTING with a failed probe goes UNKNOWN exactly when `started_at` is set
   * and more than 10 minutes old; otherwise nothing applies.
   */
  lemma StartingProbeFails(ws: Workstation, now: Timestamp)
    requires ws.status == Starting
    ensures ApplyStateMachine(ws, false, now).Some? <==> ws.startedAt.Some? && now - ws.startedAt.value > 600000
    ensures ApplyStateMachine(ws, false, now).Some? ==>
              ApplyStateMachine(ws, false, now) == Some(Transition(Unknown, ToUnknown(now)))
    ensures ToUnknown(now).unknownSince == Some(Some(now)) && ToUnknown(now).stateChangedAt == Some(now)
  {
    TableAgreesWithDecide(ws, false, now);
  }

  /** ONLINE with a successful probe stays ONLINE and updates only `last_check`: the patch has no `status` key. */
  lemma OnlineProbeSucceeds(ws: Workstation, now: Timestamp)
    requires ws.status == Online
    ensures ApplyStateMachine(ws, true, now) == Some(Transition(Online, EmptyPatch.(lastCheck := Some(Some(now)))))
  {
    TableAgreesWithDecide(ws, true, now);
  }

  /**
   * ONLINE with a failed probe goes UNKNOWN exactly when `last_check` is set and
   * more than one minute old; a null `last_check` never transitions.
   */
  lemma OnlineProbeFails(ws: Workstation, now: Timestamp)
    requires ws.status == Online
    ensures ApplyStateMachine(ws, false, now).Some? <==> ws.lastCheck.Some? && now - ws.lastCheck.value > 60000
    ensures ApplyStateMachine(ws, false, now).Some? ==>
              ApplyStateMachine(ws, false, now) == Some(Transition(Unknown, ToUnknown(now)))
  {
    TableAgreesWithDecide(ws, false, now);
  }

  /**
   * UNKNOWN with a successful probe recovers to ONLINE and clears
   * `unknown_since`; with a failed probe it goes TERMINATED exactly when
   * `unknown_since` is more than 10 minutes old, writing `terminated_at` and
   * leaving `unknown_since` alone.
   */
  lemma UnknownRules(ws: Workstation, probeOk: bool, now: Timestamp)
    requires ws.status == Unknown
    ensures probeOk ==> ApplyStateMachine(ws, probeOk, now) == Some(Transition(Online, ToOnline(now)))
    ensures !probeOk ==>
              (ApplyStateMachine(ws, probeOk, now).Some? <==>
               ws.unknownSince.Some? && now - ws.unknownSince.value > 600000)
    ensures !probeOk && ApplyStateMachine(ws, probeOk, now).Some? ==>
              ApplyStateMachine(ws, probeOk, now) == Some(Transition(Terminated, ToTerminated(now))) &&
              ToTerminated(now).terminatedAt == Some(Some(now)) &&
              ToTerminated(now).unknownSince.None?
  {
    TableAgreesWithDecide(ws, probeOk, now);
  }

  /** DNS_FAILED and TERMINATED have no rules: nothing applies, whatever the probe says. */
  lemma TerminalStatuses(ws: Workstation, probeOk: bool, now: Timestamp)
    requires ws.status == Status.DnsFailed || ws.status == Terminated
    ensures ApplyStateMachine(ws, probeOk, now).None?
  {
    TableAgreesWithDecide(ws, probeOk, now);
  }

  /** A rule's result leaves the status unchanged only for the ONLINE heartbeat. */
  lemma StatusKeptOnlyByHeartbeat(ws: Workstation, probeOk: bool, now: Timestamp)
    requires ApplyStateMachine(ws, probeOk, now).Some?
    ensures ApplyStateMachine(ws, probeOk, now).value.newStatus == ws.status <==> ws.status == Online && probeOk
  {
    TableAgreesWithDecide(ws, probeOk, now);
  }

  /**
   * The thresholds are strict: at exactly 10 minutes (booting), 1 minute
   * (silence) and 10 minutes (presumed dead) nothing fires, and one
   * millisecond later the failure rule does.
   */
  lemma ThresholdsAreStrict(ws: Workstation, t: Timestamp)
    ensures ws.status == Starting && ws.startedAt == Some(t) ==>
              ApplyStateMachine(ws, false, t + 600000).None? && ApplyStateMachine(ws, false, t + 600001).Some?
    ensures ws.status == Online && ws.lastCheck == Some(t) ==>
              ApplyStateMachine(ws, false, t + 60000).None? && ApplyStateMachine(ws, false, t + 60001).Some?
    ensures ws.status == Unknown && ws.unknownSince == Some(t) ==>
              ApplyStateMachine(ws, false, t + 600000).None? && ApplyStateMachine(ws, false, t + 600001).Some?
  {
    TableAgreesWithDecide(ws, false, t + 600000);
    TableAgreesWithDecide(ws, false, t + 600001);
    TableAgreesWithDecide(ws, false, t + 60000);
    TableAgreesWithDecide(ws, false, t + 60001);
  }

  /** The removal test: terminated, `terminated_at` set, and strictly more than 50 minutes elapsed. */
  lemma RemovalCriterion(ws: Workstation, now: Timestamp)
    ensures ShouldRemove(ws, now) <==>
              ws.status == Terminated && ws.terminatedAt.Some? && now - ws.terminatedAt.value > 3000000
    ensures ws.terminatedAt.Some? ==> !ShouldRemove(ws, ws.terminatedAt.value + 3000000)
  {
  }

  /** Once a workstation qualifies for removal it keeps qualifying as time goes on. */
  lemma RemovalIsStable(ws: Workstation, now: Timestamp, later: Timestamp)
    requires ShouldRemove(ws, now) && now <= later
    ensures ShouldRemove(ws, later)
  {
  }
}
