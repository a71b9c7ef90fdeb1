/**
 One assessment in CSA Lab: its status, its session, the firewall rule, the portal record,
 the listener and the process's table of servers. An operation is a list of effects; a crash
 is the death of the process after any of them.
 */
module LabLifecycle {
  import opened Wrappers
  import opened Submissions

  /** DRAFT, COLLECTING, PAUSED, RECOVERY_REQUIRED, READY_FOR_REPORT, COMPLETED, CLOSED. */
  datatype LabStatus = NotStarted | Collecting | Halted | RecoveryRequired | ReadyForReport | Completed | Ended

  datatype Detail = WasCollecting | RuleRemains | MarkerExists

  /** registered and live belong to the process, the rest survives it. */
  datatype Lab = Lab(
    status: LabStatus,
    details: seq<Detail>,
    session: SessionStatus,
    rule: bool,
    portalActive: bool,
    marker: bool,
    registered: bool,
    live: bool
  )

  datatype Effect =
    | SetSession(session: SessionStatus)
    | UnlinkMarker
    | CreateRule
    | RemoveRule
    | StartServer
    | StopServer
    | Register
    | Unregister
    | WritePortal(active: bool)
    | WriteState(status: LabStatus, keepDetails: bool)

  function Apply(s: Lab, e: Effect): Lab {
    match e
    case SetSession(session) => s.(session := session)
    case UnlinkMarker => s.(marker := false)
    case CreateRule => s.(rule := true)
    case RemoveRule => s.(rule := false)
    case StartServer => s.(live := true)
    case StopServer => s.(live := false)
    case Register => s.(registered := true)
    case Unregister => s.(registered := false)
    case WritePortal(active) => s.(portalActive := active)
    case WriteState(status, keep) => s.(status := status, details := if keep then s.details else [])
  }

  function ApplyAll(s: Lab, effects: seq<Effect>): Lab
    decreases |effects|
  {
    if effects == [] then s else ApplyAll(Apply(s, effects[0]), effects[1..])
  }

  /** What an operation does, and whether it returns or raises. */
  datatype Plan = Plan(effects: seq<Effect>, succeeds: bool)

  // ----- the operations

  /** `_stop_runtime`: the server, if this process has one, then rule and portal. */
  function StopRuntime(s: Lab): seq<Effect> {
    [Unregister] + (if s.registered then [StopServer] else []) + [RemoveRule, WritePortal(false)]
  }

  /** Where `start_collection` may raise, in the order it gets there. */
  datatype Fault =
    | Preparation | ServerSetup | Firewall | RuleAudit | ThreadStart
    | PortalWrite | PortalAudit | StateWrite | FinalAudit

  const RULE := [CreateRule]
  const SERVING := [CreateRule, StartServer, Register]
  const ACTIVE := [CreateRule, StartServer, Register, WritePortal(true)]
  const UNDO := [StopServer, RemoveRule]

  /** The effects up to a fault and those of the exception handler around the middle part. */
  function Opened(fault: Option<Fault>): Plan {
    match fault
    case None => Plan([UnlinkMarker] + ACTIVE + [WriteState(Collecting, false)], true)
    case Some(Preparation) => Plan([], false)
    case Some(ServerSetup) => Plan([UnlinkMarker], false)
    case Some(Firewall) => Plan([UnlinkMarker] + UNDO, false)
    case Some(RuleAudit) => Plan([UnlinkMarker] + RULE + UNDO, false)
    case Some(ThreadStart) => Plan([UnlinkMarker] + RULE + UNDO, false)
    case Some(PortalWrite) => Plan([UnlinkMarker] + SERVING + UNDO, false)
    case Some(PortalAudit) => Plan([UnlinkMarker] + ACTIVE + UNDO, false)
    case Some(StateWrite) => Plan([UnlinkMarker] + ACTIVE, false)
    case Some(FinalAudit) => Plan([UnlinkMarker] + ACTIVE + [WriteState(Collecting, false)], false)
  }

  function Start(s: Lab, fault: Option<Fault>): Plan {
    if s.registered then Plan([], true)
    else if s.session == Paused then
      var begun := Opened(fault);
      Plan([SetSession(Open)] + begun.effects, begun.succeeds)
    else if s.session != Open then Plan([], false)
    else Opened(fault)
  }

  function Pause(s: Lab): Plan {
    if Transition(s.session, Paused) then
      Plan(StopRuntime(s) + [SetSession(Paused), WriteState(Halted, true)], true)
    else Plan(StopRuntime(s), false)
  }

  function Resume(s: Lab, fault: Option<Fault>): Plan {
    if s.status != Halted && s.status != RecoveryRequired then Plan([], false)
    else if !Transition(s.session, Open) then Plan([], false)
    else
      var started := Start(s.(session := Open), fault);
      Plan([SetSession(Open)] + started.effects, started.succeeds)
  }

  /** The session is closed unless it already is; a draft or archived one cannot be. */
  function CloseSession(s: Lab): Plan {
    if s.session == Closed then Plan([], true)
    else if Transition(s.session, Closed) then Plan([SetSession(Closed)], true)
    else Plan([], false)
  }

  function Final(endpoints: bool): LabStatus { if endpoints then ReadyForReport else Ended }

  function Stop(s: Lab, endpoints: bool): Plan {
    var closed := CloseSession(s);
    if closed.succeeds then Plan(StopRuntime(s) + closed.effects + [WriteState(Final(endpoints), false)], true)
    else Plan(StopRuntime(s), false)
  }

  function Cleanup(s: Lab, endpoints: bool): Plan {
    var closed := CloseSession(s);
    if closed.succeeds then
      Plan(StopRuntime(s) + [UnlinkMarker] + closed.effects + [WriteState(Final(endpoints), false)], true)
    else Plan(StopRuntime(s) + [UnlinkMarker], false)
  }

  function Shutdown(s: Lab): Plan {
    if !s.registered then Plan([], true) else Pause(s)
  }

  /** The status change of a successful offline import. */
  function ImportOffline(s: Lab): Plan {
    if s.status == Collecting then Plan([WriteState(Collecting, true)], true)
    else if s.status == Ended || s.status == ReadyForReport || s.status == Completed then
      Plan([WriteState(ReadyForReport, true)], true)
    else Plan([], false)
  }

  /** A finished analysis run withdraws a report that was there. */
  function AnalyzeCve(s: Lab, hadReport: bool): Plan {
    if s.status == NotStarted then Plan([], false)
    else if hadReport then Plan([WriteState(if s.status == Completed then ReadyForReport else s.status, true)], true)
    else Plan([], true)
  }

  function Report(s: Lab): Plan {
    if s.status == ReadyForReport || s.status == Completed then Plan([WriteState(Completed, true)], true)
    else Plan([], false)
  }

  datatype Op =
    | StartOp | PauseOp | ResumeOp | StopOp(endpoints: bool) | CleanupOp(endpoints: bool) | ShutdownOp
    | ImportOp | AnalyzeOp(hadReport: bool) | ReportOp

  function PlanOf(s: Lab, op: Op): Plan {
    match op
    case StartOp => Start(s, None)
    case PauseOp => Pause(s)
    case ResumeOp => Resume(s, None)
    case StopOp(endpoints) => Stop(s, endpoints)
    case CleanupOp(endpoints) => Cleanup(s, endpoints)
    case ShutdownOp => Shutdown(s)
    case ImportOp => ImportOffline(s)
    case AnalyzeOp(hadReport) => AnalyzeCve(s, hadReport)
    case ReportOp => Report(s)
  }

  // ----- crash and restart

  function Die(s: Lab): Lab { s.(registered := false, live := false) }

  function Found(s: Lab): seq<Detail> {
    (if s.status == Collecting then [WasCollecting] else []) + (if s.rule then [RuleRemains] else [])
    + (if s.marker then [MarkerExists] else [])
  }

  /** `detect_recovery_items`. */
  function Detect(s: Lab): Lab {
    if Found(s) == [] then s else s.(status := RecoveryRequired, details := Found(s))
  }

  /** An operation runs to its end, or the process dies after some of its effects and is started
      again; an operator asks for a stop from the command line, which leaves a marker, and the
      listener's monitor finds it. */
  datatype Event = Complete(op: Op) | Crash(op: Op, done: nat) | RequestStop | MonitorLooks

  /** `_monitor_stop` finds the marker while its server runs. */
  predicate MonitorStops(s: Lab) { s.live && s.marker }

  function Happen(s: Lab, e: Event): Lab {
    match e
    case RequestStop => s.(marker := true)
    case MonitorLooks => if MonitorStops(s) then s.(marker := false, live := false) else s
    case Complete(op) => ApplyAll(s, PlanOf(s, op).effects)
    case Crash(op, done) =>
      var effects := PlanOf(s, op).effects;
      Detect(Die(ApplyAll(s, effects[..if done <= |effects| then done else |effects|])))
  }

  function Run(s: Lab, events: seq<Event>): Lab {
    if events == [] then s else Happen(Run(s, events[..|events| - 1]), events[|events| - 1])
  }

  const CREATED := Lab(NotStarted, [], Open, false, false, false, false, false)

  // ----- the boundary invariant

  /** A live server exists only while collection is under way, and then the session is open
      behind rule and portal; access left over otherwise has been flagged; what is finished has
      a session that is closed for good. */
  predicate Kept(s: Lab) {
    && (s.live ==> s.status == Collecting) && (s.registered <==> s.status == Collecting)
    && (s.status == Collecting ==> s.session == Open && s.rule && s.portalActive)
    && (s.status != Collecting && (s.rule || s.portalActive) ==> s.status == RecoveryRequired)
    && (s.status == ReadyForReport || s.status == Completed || s.status == Ended ==> ClosedForGood(s))
    && s.session != Draft
  }

  /** ... and while collection is under way there is one. */
  predicate Sound(s: Lab) { Kept(s) && (s.status == Collecting ==> s.live) }

  predicate ClosedForGood(s: Lab) { s.session == Closed || s.session == Archived }

  // ----- lists of effects

  lemma {:induction false} ApplyConcat(s: Lab, a: seq<Effect>, b: seq<Effect>)
    ensures ApplyAll(s, a + b) == ApplyAll(ApplyAll(s, a), b)
    decreases |a|
  {
    if a == [] {
      assert a + b == b;
    } else {
      assert (a + b)[0] == a[0] && (a + b)[1..] == a[1..] + b;
      ApplyConcat(Apply(s, a[0]), a[1..], b);
    }
  }

  lemma ApplyTwo(s: Lab, e: Effect, d: Effect)
    ensures ApplyAll(s, [e, d]) == Apply(Apply(s, e), d)
  {
    assert [e, d][1..] == [d];
    assert ApplyAll(Apply(s, e), [d]) == ApplyAll(Apply(Apply(s, e), d), [d][1..]);
  }

  /** Whatever the runtime was, afterwards nothing is reachable. */
  lemma StopRuntimeApplied(s: Lab)
    ensures ApplyAll(s, StopRuntime(s))
            == s.(registered := false, live := s.live && !s.registered, rule := false, portalActive := false)
  {
    var t := s.(registered := false);
    var stop := if s.registered then [StopServer] else [];
    assert StopRuntime(s) == [Unregister] + (stop + [RemoveRule, WritePortal(false)]);
    assert StopRuntime(s)[1..] == stop + [RemoveRule, WritePortal(false)];
    ApplyConcat(t, stop, [RemoveRule, WritePortal(false)]);
    assert [StopServer][1..] == [];
    ApplyTwo(ApplyAll(t, stop), RemoveRule, WritePortal(false));
  }

  lemma ActiveApplied(s: Lab)
    ensures ApplyAll(s, [UnlinkMarker] + ACTIVE)
            == s.(marker := false, rule := true, live := true, registered := true, portalActive := true)
  {
    var effects := [UnlinkMarker] + ACTIVE;
    assert effects == [UnlinkMarker, CreateRule] + ([StartServer, Register] + [WritePortal(true)]);
    ApplyConcat(s, [UnlinkMarker, CreateRule], [StartServer, Register] + [WritePortal(true)]);
    ApplyTwo(s, UnlinkMarker, CreateRule);
    var t := s.(marker := false, rule := true);
    ApplyConcat(t, [StartServer, Register], [WritePortal(true)]);
    ApplyTwo(t, StartServer, Register);
    assert [WritePortal(true)][1..] == [];
  }

  lemma ApplyOne(s: Lab, e: Effect)
    ensures ApplyAll(s, [e]) == Apply(s, e)
  {
    assert [e][1..] == [];
  }
  // ----- what each operation comes to

  function Stopped(s: Lab): Lab {
    s.(registered := false, live := s.live && !s.registered, rule := false, portalActive := false)
  }

  function Started(s: Lab): Lab {
    s.(session := Open, marker := false, rule := true, live := true, registered := true, portalActive := true,
       status := Collecting, details := [])
  }

  lemma OpenedApplied(s: Lab)
    ensures ApplyAll(s, Opened(None).effects) == Started(s).(session := s.session)
  {
    ActiveApplied(s);
    ApplyConcat(s, [UnlinkMarker] + ACTIVE, [WriteState(Collecting, false)]);
    ApplyOne(ApplyAll(s, [UnlinkMarker] + ACTIVE), WriteState(Collecting, false));
  }

  /** Collection starts exactly when it was running or the session is open or paused. */
  lemma StartApplied(s: Lab)
    ensures Start(s, None).succeeds <==> s.registered || s.session == Open || s.session == Paused
    ensures ApplyAll(s, Start(s, None).effects)
            == if !s.registered && (s.session == Open || s.session == Paused) then Started(s) else s
  {
    var effects := Opened(None).effects;
    if !s.registered && s.session == Paused {
      ApplyConcat(s, [SetSession(Open)], effects);
      ApplyOne(s, SetSession(Open));
      OpenedApplied(s.(session := Open));
    } else if !s.registered && s.session == Open {
      OpenedApplied(s);
    }
  }

  lemma PauseApplied(s: Lab)
    ensures Pause(s).succeeds <==> s.session == Open
    ensures ApplyAll(s, Pause(s).effects)
            == if s.session == Open then Stopped(s).(session := Paused, status := Halted) else Stopped(s)
  {
    StopRuntimeApplied(s);
    if s.session == Open {
      ApplyConcat(s, StopRuntime(s), [SetSession(Paused), WriteState(Halted, true)]);
      ApplyTwo(Stopped(s), SetSession(Paused), WriteState(Halted, true));
    }
  }

  /** A session left open by a crash cannot be resumed; it can be paused, started or cleaned
      up. */
  lemma ResumeApplied(s: Lab)
    ensures Resume(s, None).succeeds <==> (s.status == Halted || s.status == RecoveryRequired) && s.session == Paused
    ensures ApplyAll(s, Resume(s, None).effects)
            == if !Resume(s, None).succeeds then s else if s.registered then s.(session := Open) else Started(s)
  {
    if Resume(s, None).succeeds {
      var t := s.(session := Open);
      ApplyConcat(s, [SetSession(Open)], Start(t, None).effects);
      ApplyOne(s, SetSession(Open));
      StartApplied(t);
    }
  }

  lemma CloseApplied(s: Lab)
    ensures CloseSession(s).succeeds <==> s.session != Draft && s.session != Archived
    ensures CloseSession(s).succeeds ==> ApplyAll(s, CloseSession(s).effects) == s.(session := Closed)
  {
    ApplyOne(s, SetSession(Closed));
  }

  lemma StopApplied(s: Lab, endpoints: bool)
    ensures Stop(s, endpoints).succeeds <==> s.session != Draft && s.session != Archived
    ensures ApplyAll(s, Stop(s, endpoints).effects)
            == if Stop(s, endpoints).succeeds then
                 Stopped(s).(session := Closed, status := if endpoints then ReadyForReport else Ended, details := [])
               else Stopped(s)
  {
    StopRuntimeApplied(s);
    CloseApplied(s);
    if Stop(s, endpoints).succeeds {
      var closed, last := CloseSession(s).effects, [WriteState(Final(endpoints), false)];
      CloseApplied(Stopped(s));
      ApplyConcat(s, StopRuntime(s) + closed, last);
      ApplyConcat(s, StopRuntime(s), closed);
      ApplyOne(Stopped(s).(session := Closed), WriteState(Final(endpoints), false));
    }
  }

  /** From any state at all, cleanup succeeds exactly when the session can be closed or is;
      it then leaves no rule, no portal and no marker, nothing of the process's own running,
      and a closed session. Even when it raises, the access is gone. */
  lemma CleanupApplied(s: Lab, endpoints: bool)
    ensures Cleanup(s, endpoints).succeeds <==> s.session != Draft && s.session != Archived
    ensures ApplyAll(s, Cleanup(s, endpoints).effects)
            == if Cleanup(s, endpoints).succeeds then
                 Stopped(s).(marker := false, session := Closed,
                             status := if endpoints then ReadyForReport else Ended, details := [])
               else Stopped(s).(marker := false)
  {
    StopRuntimeApplied(s);
    CloseApplied(s);
    var quiet := StopRuntime(s) + [UnlinkMarker];
    ApplyConcat(s, StopRuntime(s), [UnlinkMarker]);
    ApplyOne(Stopped(s), UnlinkMarker);
    if Cleanup(s, endpoints).succeeds {
      var closed, last := CloseSession(s).effects, [WriteState(Final(endpoints), false)];
      var t := Stopped(s).(marker := false);
      CloseApplied(t);
      ApplyConcat(s, quiet + closed, last);
      ApplyConcat(s, quiet, closed);
      ApplyOne(t.(session := Closed), WriteState(Final(endpoints), false));
    }
  }

  lemma OneWrite(s: Lab, status: LabStatus, keep: bool)
    ensures ApplyAll(s, [WriteState(status, keep)]) == s.(status := status, details := if keep then s.details else [])
  {
    ApplyOne(s, WriteState(status, keep));
  }

  /** Shutting down pauses what runs. Evidence can be imported while collection is under way or after
      it has ended, which asks for a new report; a new analysis withdraws a report that was there; a
      report is made of what is ready for one. Anything else is refused and changes nothing. */
  lemma ReportingApplied(s: Lab, op: Op)
    requires op.ShutdownOp? || op.ImportOp? || op.AnalyzeOp? || op.ReportOp?
    ensures var plan := PlanOf(s, op);
            var after := ApplyAll(s, plan.effects);
            match op
            case ShutdownOp =>
              && (plan.succeeds <==> !s.registered || s.session == Open)
              && after == if !s.registered then s
                   else if s.session == Open then Stopped(s).(session := Paused, status := Halted) else Stopped(s)
            case ImportOp =>
              && (plan.succeeds <==> s.status in {Collecting, Ended, ReadyForReport, Completed})
              && after == if s.status in {Ended, ReadyForReport, Completed} then s.(status := ReadyForReport) else s
            case AnalyzeOp(hadReport) =>
              && (plan.succeeds <==> s.status != NotStarted)
              && after == if s.status == Completed && hadReport then s.(status := ReadyForReport) else s
            case _ =>
              && (plan.succeeds <==> s.status in {ReadyForReport, Completed})
              && after == if plan.succeeds then s.(status := Completed) else s
  {
    hide ApplyAll, Pause;
    NoEffects(s);
    match op
    case ShutdownOp => PauseApplied(s);
    case ImportOp => OneWrite(s, Collecting, true); OneWrite(s, ReadyForReport, true);
    case AnalyzeOp(hadReport) => OneWrite(s, if s.status == Completed then ReadyForReport else s.status, true);
    case _ => OneWrite(s, Completed, true);
  }

  /** Every operation keeps the invariant when it runs to its end, whether it returns or is
      refused; a server that was stopped stays stopped until collection ends, and a collection
      that begins has one. */
  lemma CompleteKept(s: Lab, op: Op)
    requires Kept(s)
    ensures var t := ApplyAll(s, PlanOf(s, op).effects);
            Kept(t) && (t.status == Collecting ==> if s.status == Collecting then t.live == s.live else t.live)
  {
    hide ApplyAll, Start, Pause, Resume, Stop, Cleanup;
    match op
    case StartOp => StartApplied(s);
    case PauseOp => PauseApplied(s);
    case ResumeOp => ResumeApplied(s);
    case StopOp(endpoints) => StopApplied(s, endpoints);
    case CleanupOp(endpoints) => CleanupApplied(s, endpoints);
    case ShutdownOp => PauseApplied(s); NoEffects(s);
    case ImportOp => OneWrite(s, Collecting, true); OneWrite(s, ReadyForReport, true); NoEffects(s);
    case AnalyzeOp(hadReport) =>
      OneWrite(s, if s.status == Completed then ReadyForReport else s.status, true);
      NoEffects(s);
    case ReportOp => OneWrite(s, Completed, true); NoEffects(s);
  }

  lemma CompleteSound(s: Lab, op: Op)
    requires Sound(s)
    ensures Sound(ApplyAll(s, PlanOf(s, op).effects))
  {
    hide ApplyAll, PlanOf, Kept;
    CompleteKept(s, op);
  }

  lemma NoEffects(s: Lab)
    ensures ApplyAll(s, []) == s
  {
  }

  // ----- death between any two effects

  /** What holds between any two effects; restart makes a sound state of it. */
  predicate Recoverable(s: Lab) {
    && s.session != Draft
    && (s.portalActive ==> s.rule || s.status == Collecting || s.status == RecoveryRequired)
    && (s.status == ReadyForReport || s.status == Completed || s.status == Ended ==> ClosedForGood(s))
  }

  lemma RestartSound(s: Lab)
    requires Recoverable(s)
    ensures Sound(Detect(Die(s)))
  {
  }

  ghost predicate Throughout(s: Lab, effects: seq<Effect>)
    decreases |effects|
  {
    Recoverable(s) && (effects != [] ==> Throughout(Apply(s, effects[0]), effects[1..]))
  }

  lemma {:induction false} ThroughoutPrefix(s: Lab, effects: seq<Effect>, n: nat)
    requires Throughout(s, effects) && n <= |effects|
    ensures Recoverable(ApplyAll(s, effects[..n]))
    decreases n
  {
    if n > 0 {
      assert effects[..n][1..] == effects[1..][..n - 1];
      ThroughoutPrefix(Apply(s, effects[0]), effects[1..], n - 1);
    }
  }

  lemma {:induction false} ThroughoutConcat(s: Lab, a: seq<Effect>, b: seq<Effect>)
    requires Throughout(s, a) && Throughout(ApplyAll(s, a), b)
    ensures Throughout(s, a + b)
    decreases |a|
  {
    if a == [] {
      assert a + b == b;
    } else {
      assert (a + b)[0] == a[0] && (a + b)[1..] == a[1..] + b;
      ThroughoutConcat(Apply(s, a[0]), a[1..], b);
    }
  }

  lemma ThroughoutOne(s: Lab, e: Effect)
    requires Recoverable(s) && Recoverable(Apply(s, e))
    ensures Throughout(s, [e])
  {
    assert [e][1..] == [];
  }

  lemma ThroughoutTwo(s: Lab, e: Effect, d: Effect)
    requires Recoverable(s) && Recoverable(Apply(s, e)) && Recoverable(Apply(Apply(s, e), d))
    ensures Throughout(s, [e, d])
  {
    ThroughoutOne(Apply(s, e), d);
    assert [e, d][1..] == [d];
  }

  /** Access left over while nothing is collecting has been flagged. */
  predicate Flagged(s: Lab) {
    Recoverable(s) && (s.portalActive ==> s.status == Collecting || s.status == RecoveryRequired)
  }

  lemma StopRuntimeThroughout(s: Lab)
    requires Flagged(s)
    ensures Throughout(s, StopRuntime(s))
  {
    var t := s.(registered := false);
    var stop := if s.registered then [StopServer] else [];
    ThroughoutOne(t, StopServer);
    assert Throughout(t, stop);
    var u := ApplyAll(t, stop);
    ApplyOne(t, StopServer);
    ThroughoutTwo(u, RemoveRule, WritePortal(false));
    ThroughoutConcat(t, stop, [RemoveRule, WritePortal(false)]);
    assert StopRuntime(s)[1..] == stop + [RemoveRule, WritePortal(false)];
  }

  lemma OpenedThroughout(s: Lab)
    requires Flagged(s)
    ensures Throughout(s, Opened(None).effects)
  {
    hide ApplyAll, Throughout;
    var t := s.(marker := false, rule := true);
    ThroughoutTwo(s, UnlinkMarker, CreateRule);
    ApplyTwo(s, UnlinkMarker, CreateRule);
    ThroughoutTwo(t, StartServer, Register);
    ApplyTwo(t, StartServer, Register);
    var u := t.(live := true, registered := true);
    ThroughoutConcat(s, [UnlinkMarker, CreateRule], [StartServer, Register]);
    ApplyConcat(s, [UnlinkMarker, CreateRule], [StartServer, Register]);
    ThroughoutTwo(u, WritePortal(true), WriteState(Collecting, false));
    ThroughoutConcat(s, [UnlinkMarker, CreateRule] + [StartServer, Register],
                     [WritePortal(true), WriteState(Collecting, false)]);
    assert Opened(None).effects
        == [UnlinkMarker, CreateRule] + [StartServer, Register] + [WritePortal(true), WriteState(Collecting, false)];
  }

  lemma StartThroughout(s: Lab)
    requires Flagged(s)
    ensures Throughout(s, Start(s, None).effects)
  {
    if !s.registered && s.session == Paused {
      ThroughoutOne(s, SetSession(Open));
      ApplyOne(s, SetSession(Open));
      OpenedThroughout(s.(session := Open));
      ThroughoutConcat(s, [SetSession(Open)], Opened(None).effects);
    } else if !s.registered && s.session == Open {
      OpenedThroughout(s);
    }
  }

  lemma PauseThroughout(s: Lab)
    requires Flagged(s)
    ensures Throughout(s, Pause(s).effects)
  {
    StopRuntimeThroughout(s);
    StopRuntimeApplied(s);
    if s.session == Open {
      ThroughoutTwo(Stopped(s), SetSession(Paused), WriteState(Halted, true));
      ThroughoutConcat(s, StopRuntime(s), [SetSession(Paused), WriteState(Halted, true)]);
    }
  }

  lemma ResumeThroughout(s: Lab)
    requires Flagged(s)
    ensures Throughout(s, Resume(s, None).effects)
  {
    if Resume(s, None).effects != [] {
      var t := s.(session := Open);
      ThroughoutOne(s, SetSession(Open));
      ApplyOne(s, SetSession(Open));
      StartThroughout(t);
      ThroughoutConcat(s, [SetSession(Open)], Start(t, None).effects);
    }
  }

  lemma CloseThroughout(s: Lab, endpoints: bool)
    requires Flagged(s) && !s.portalActive && CloseSession(s).succeeds
    ensures Throughout(s, CloseSession(s).effects + [WriteState(Final(endpoints), false)])
  {
    if s.session == Closed {
      assert CloseSession(s).effects + [WriteState(Final(endpoints), false)] == [WriteState(Final(endpoints), false)];
      ThroughoutOne(s, WriteState(Final(endpoints), false));
    } else {
      assert CloseSession(s).effects + [WriteState(Final(endpoints), false)]
          == [SetSession(Closed), WriteState(Final(endpoints), false)];
      ThroughoutTwo(s, SetSession(Closed), WriteState(Final(endpoints), false));
    }
  }

  lemma StopThroughout(s: Lab, endpoints: bool)
    requires Flagged(s)
    ensures Throughout(s, Stop(s, endpoints).effects)
  {
    StopRuntimeThroughout(s);
    StopRuntimeApplied(s);
    if Stop(s, endpoints).succeeds {
      CloseThroughout(Stopped(s), endpoints);
      var last := CloseSession(s).effects + [WriteState(Final(endpoints), false)];
      ThroughoutConcat(s, StopRuntime(s), last);
      assert StopRuntime(s) + last == Stop(s, endpoints).effects;
    }
  }

  lemma CleanupThroughout(s: Lab, endpoints: bool)
    requires Flagged(s)
    ensures Throughout(s, Cleanup(s, endpoints).effects)
  {
    StopRuntimeThroughout(s);
    StopRuntimeApplied(s);
    var quiet := StopRuntime(s) + [UnlinkMarker];
    ThroughoutOne(Stopped(s), UnlinkMarker);
    ThroughoutConcat(s, StopRuntime(s), [UnlinkMarker]);
    ApplyConcat(s, StopRuntime(s), [UnlinkMarker]);
    ApplyOne(Stopped(s), UnlinkMarker);
    if Cleanup(s, endpoints).succeeds {
      CloseThroughout(Stopped(s).(marker := false), endpoints);
      var last := CloseSession(s).effects + [WriteState(Final(endpoints), false)];
      ThroughoutConcat(s, quiet, last);
      assert quiet + last == Cleanup(s, endpoints).effects;
    }
  }

  lemma WriteThroughout(s: Lab, status: LabStatus, keep: bool)
    requires Recoverable(s) && Recoverable(s.(status := status))
    ensures Throughout(s, [WriteState(status, keep)])
  {
    ThroughoutOne(s, WriteState(status, keep));
  }

  lemma PlanThroughout(s: Lab, op: Op)
    requires Kept(s)
    ensures Throughout(s, PlanOf(s, op).effects)
  {
    hide Start, Pause, Resume, Stop, Cleanup;
    match op
    case StartOp => StartThroughout(s);
    case PauseOp => PauseThroughout(s);
    case ResumeOp => ResumeThroughout(s);
    case StopOp(endpoints) => StopThroughout(s, endpoints);
    case CleanupOp(endpoints) => CleanupThroughout(s, endpoints);
    case ShutdownOp => PauseThroughout(s);
    case ImportOp =>
      if ImportOffline(s).succeeds {
        WriteThroughout(s, if s.status == Collecting then Collecting else ReadyForReport, true);
      }
    case AnalyzeOp(hadReport) =>
      if s.status != NotStarted {
        WriteThroughout(s, if s.status == Completed then ReadyForReport else s.status, true);
      }
    case ReportOp =>
      if Report(s).succeeds {
        WriteThroughout(s, Completed, true);
      }
  }

  /** A crash after any of its effects keeps it too, once the process is back. */
  lemma CrashSound(s: Lab, op: Op, done: nat)
    requires Kept(s)
    ensures Sound(Happen(s, Crash(op, done)))
  {
    hide PlanOf, Sound, Kept, Recoverable, Detect;
    var effects := PlanOf(s, op).effects;
    var n := if done <= |effects| then done else |effects|;
    PlanThroughout(s, op);
    ThroughoutPrefix(s, effects, n);
    RestartSound(ApplyAll(s, effects[..n]));
  }

  /** What one event does to the invariant and to the server. */
  lemma EventKept(s: Lab, e: Event)
    requires Kept(s)
    ensures var t := Happen(s, e);
            && Kept(t)
            && (e.MonitorLooks? && MonitorStops(s) ==> t.status == Collecting && !t.live)
            && (!(e.MonitorLooks? && MonitorStops(s)) && t.status == Collecting ==>
                  if s.status == Collecting then t.live == s.live else t.live)
  {
    hide PlanOf, ApplyAll, Detect;
    match e
    case Complete(op) => CompleteKept(s, op);
    case Crash(op, done) =>
      CrashSound(s, op, done);
      CrashStops(s, op, done);
    case RequestStop =>
    case MonitorLooks =>
  }

  lemma CrashStops(s: Lab, op: Op, done: nat)
    ensures Happen(s, Crash(op, done)).status != Collecting
  {
    hide PlanOf, ApplyAll;
    var effects := PlanOf(s, op).effects;
    RestartFlags(ApplyAll(s, effects[..if done <= |effects| then done else |effects|]));
  }

  /** The invariant holds between any two events, however many operations were cut short and
      whenever a stop was asked for. */
  lemma {:induction false} RunKept(events: seq<Event>)
    ensures Kept(Run(CREATED, events))
  {
    hide Happen, Kept;
    if events == [] {
      CreatedKept();
    } else {
      RunKept(events[..|events| - 1]);
      EventKept(Run(CREATED, events[..|events| - 1]), events[|events| - 1]);
    }
  }

  lemma CreatedKept()
    ensures Kept(CREATED) && CREATED.status != Collecting
  {
  }

  /** The event at n stopped the listener, and collection has been under way ever since. */
  ghost predicate StoppedSince(events: seq<Event>, n: int) {
    && 0 <= n < |events| && events[n].MonitorLooks?
    && Run(CREATED, events[..n]).live && Run(CREATED, events[..n]).marker
    && forall m :: n < m <= |events| ==> Run(CREATED, events[..m]).status == Collecting
  }

  lemma StoppedLonger(events: seq<Event>, n: int)
    requires events != [] && n != |events| - 1
    ensures StoppedSince(events, n) <==>
              StoppedSince(events[..|events| - 1], n) && Run(CREATED, events).status == Collecting
  {
    hide Run, MonitorStops;
    var before, last := events[..|events| - 1], |events| - 1;
    assert events[..|events|] == events;
    if StoppedSince(events, n) {
      assert before[..n] == events[..n];
      forall m | n < m <= last
        ensures Run(CREATED, before[..m]).status == Collecting
      {
        assert before[..m] == events[..m];
      }
    }
    if StoppedSince(before, n) && Run(CREATED, events).status == Collecting {
      assert before[..n] == events[..n];
      forall m | n < m <= |events|
        ensures Run(CREATED, events[..m]).status == Collecting
      {
        if m <= last {
          assert before[..m] == events[..m];
        } else {
          assert events[..m] == events;
        }
      }
    }
  }

  /** After every run a server is live exactly when collection is under way and no stop that was
      asked for has been served since it began. */
  lemma {:induction false} RunSound(events: seq<Event>)
    ensures Run(CREATED, events).live <==>
              Run(CREATED, events).status == Collecting && !exists n :: StoppedSince(events, n)
    ensures Sound(Run(CREATED, events)) <==>
              Run(CREATED, events).status != Collecting || !exists n :: StoppedSince(events, n)
  {
    hide Happen, Kept, StoppedSince, MonitorStops;
    RunKept(events);
    LiveCollects(Run(CREATED, events));
    if events == [] {
      CreatedKept();
    } else {
      var before, e, last := events[..|events| - 1], events[|events| - 1], |events| - 1;
      var s, t := Run(CREATED, before), Run(CREATED, events);
      RunSound(before);
      RunKept(before);
      EventKept(s, e);
      StoppedNow(events);
      forall n | n != last
        ensures StoppedSince(events, n) <==> StoppedSince(before, n) && t.status == Collecting
      {
        StoppedLonger(events, n);
      }
      InRange(before);
      if s.status != Collecting {
        forall n
          ensures !StoppedSince(before, n)
        {
          NotStopped(before, n);
        }
      }
    }
  }

  lemma InRange(events: seq<Event>)
    ensures forall n :: StoppedSince(events, n) ==> n < |events|
  {
  }

  lemma LiveCollects(s: Lab)
    requires Kept(s)
    ensures s.live ==> s.status == Collecting
  {
  }

  lemma StoppedNow(events: seq<Event>)
    requires events != []
    ensures StoppedSince(events, |events| - 1) <==>
              && events[|events| - 1].MonitorLooks? && MonitorStops(Run(CREATED, events[..|events| - 1]))
              && Run(CREATED, events).status == Collecting
  {
    hide Run;
    assert events[..|events|] == events;
  }

  lemma NotStopped(events: seq<Event>, n: int)
    requires Run(CREATED, events).status != Collecting
    ensures !StoppedSince(events, n)
  {
    hide Run, MonitorStops;
    assert events[..|events|] == events;
  }

  /** What a served stop leaves: the status, the session, the rule and the portal of a collection,
      without a server; a start then does nothing, while a pause, a stop, a cleanup or a crash
      makes the state sound again. */
  lemma ServedStop(s: Lab)
    requires Sound(s) && s.status == Collecting
    ensures var t := Happen(Happen(s, RequestStop), MonitorLooks);
            && t == s.(marker := false, live := false)
            && Kept(t) && !Sound(t) && Start(t, None) == Plan([], true)
            && Sound(ApplyAll(t, Pause(t).effects))
            && (forall endpoints :: Sound(ApplyAll(t, Stop(t, endpoints).effects)))
            && (forall endpoints :: Sound(ApplyAll(t, Cleanup(t, endpoints).effects)))
            && forall op, done :: Sound(Happen(t, Crash(op, done)))
  {
    hide ApplyAll, PlanOf, Pause, Stop, Cleanup;
    var t := s.(marker := false, live := false);
    PauseApplied(t);
    forall endpoints
      ensures Sound(ApplyAll(t, Stop(t, endpoints).effects)) && Sound(ApplyAll(t, Cleanup(t, endpoints).effects))
    {
      StopApplied(t, endpoints);
      CleanupApplied(t, endpoints);
    }
    forall op, done
      ensures Sound(Happen(t, Crash(op, done)))
    {
      CrashSound(t, op, done);
    }
  }

  /** Restart leaves nothing collecting and flags, from any state, exactly what it finds: that
      collection was under way, a rule, a marker. When it finds nothing the status stays. */
  lemma RestartFlags(s: Lab)
    ensures var after := Detect(Die(s));
            && after.status != Collecting && !after.live && !after.registered
            && after == s.(live := false, registered := false, status := after.status, details := after.details)
            && if s.status == Collecting || s.rule || s.marker then
                && after.status == RecoveryRequired
                && (WasCollecting in after.details <==> s.status == Collecting)
                && (RuleRemains in after.details <==> s.rule) && (MarkerExists in after.details <==> s.marker)
              else after.status == s.status && after.details == s.details
  {
    var found := Found(Die(s));
    var a, b := if s.status == Collecting then [WasCollecting] else [], if s.rule then [RuleRemains] else [];
    assert found == a + b + if s.marker then [MarkerExists] else [];
  }

  // ----- after cleanup

  /** Nothing can be collected through the session any more. */
  predicate Finished(s: Lab) {
    ClosedForGood(s) && !s.live && !s.registered && s.status != Collecting && !s.rule && !s.portalActive
  }

  lemma {:induction false} FinishedStays(s: Lab, effects: seq<Effect>)
    requires Finished(s) && forall e :: e in effects ==> Harmless(e)
    ensures Finished(ApplyAll(s, effects))
    decreases |effects|
  {
    if effects == [] {
    } else {
      assert effects[0] in effects && forall e :: e in effects[1..] ==> e in effects;
      FinishedStays(Apply(s, effects[0]), effects[1..]);
    }
  }

  predicate Harmless(e: Effect) {
    match e
    case SetSession(session) => session == Closed || session == Archived
    case CreateRule | StartServer | Register => false
    case WritePortal(active) => !active
    case WriteState(status, _) => status != Collecting
    case _ => true
  }

  lemma FinishedPlans(s: Lab, op: Op)
    requires Finished(s)
    ensures forall e :: e in PlanOf(s, op).effects ==> Harmless(e)
  {
  }

  /** After a successful cleanup or stop, whatever is done next and wherever it is cut short,
      there is never again a server, a rule, an active portal or a COLLECTING state. */
  lemma {:induction false} NeverAgain(s: Lab, events: seq<Event>)
    requires Finished(s)
    ensures Finished(Run(s, events))
  {
    if events == [] {
    } else {
      var t, e := Run(s, events[..|events| - 1]), events[|events| - 1];
      NeverAgain(s, events[..|events| - 1]);
      if e.Complete? || e.Crash? {
        FinishedPlans(t, e.op);
        var effects := PlanOf(t, e.op).effects;
        if e.Complete? {
          FinishedStays(t, effects);
        } else {
          FinishedStays(t, effects[..if e.done <= |effects| then e.done else |effects|]);
        }
      }
    }
  }

  lemma CleanupFinishes(s: Lab, endpoints: bool, events: seq<Event>)
    requires Sound(s) && s.session != Archived
    ensures Cleanup(s, endpoints).succeeds && Finished(Run(ApplyAll(s, Cleanup(s, endpoints).effects), events))
  {
    CleanupApplied(s, endpoints);
    NeverAgain(ApplyAll(s, Cleanup(s, endpoints).effects), events);
  }

  /** A session paused from the command line behind a collection: the pause in the Lab then stops
      server and rule, is refused by the session, and leaves a COLLECTING status behind; a
      restart flags it. */
  lemma PausedBehind(s: Lab)
    requires Sound(s) && s.status == Collecting
    ensures var t := s.(session := Paused);
            var u := ApplyAll(t, Pause(t).effects);
            && !Pause(t).succeeds && !Kept(u)
            && u == t.(registered := false, live := false, rule := false, portalActive := false)
            && Sound(Detect(Die(u)))
  {
    hide ApplyAll, Pause;
    PauseApplied(s.(session := Paused));
  }

  // ----- exceptions while starting

  /** What a start that raises leaves behind, by where it raises. */
  function Faulted(s: Lab, fault: Fault): Lab {
    match fault
    case Preparation => s
    case ServerSetup => s.(marker := false)
    case Firewall | RuleAudit | ThreadStart => s.(marker := false, live := false, rule := false)
    case PortalWrite => s.(marker := false, registered := true, live := false, rule := false)
    case PortalAudit => s.(marker := false, registered := true, live := false, rule := false, portalActive := true)
    case StateWrite => Started(s).(session := s.session, status := s.status, details := s.details)
    case FinalAudit => Started(s).(session := s.session)
  }

  lemma UndoApplied(s: Lab, effects: seq<Effect>)
    ensures ApplyAll(s, effects + UNDO) == ApplyAll(s, effects).(live := false, rule := false)
  {
    ApplyConcat(s, effects, UNDO);
    ApplyTwo(ApplyAll(s, effects), StopServer, RemoveRule);
  }

  lemma FaultApplied(s: Lab, fault: Fault)
    ensures ApplyAll(s, Opened(Some(fault)).effects) == Faulted(s, fault)
  {
    hide ApplyAll;
    NoEffects(s);
    var unlinked := s.(marker := false);
    match fault
    case Preparation =>
    case ServerSetup => ApplyOne(s, UnlinkMarker);
    case Firewall =>
      UndoApplied(s, [UnlinkMarker]);
      ApplyOne(s, UnlinkMarker);
    case RuleAudit | ThreadStart =>
      UndoApplied(s, [UnlinkMarker] + RULE);
      assert [UnlinkMarker] + RULE == [UnlinkMarker, CreateRule];
      ApplyTwo(s, UnlinkMarker, CreateRule);
    case PortalWrite =>
      UndoApplied(s, [UnlinkMarker] + SERVING);
      assert [UnlinkMarker] + SERVING == [UnlinkMarker, CreateRule] + [StartServer, Register];
      ApplyConcat(s, [UnlinkMarker, CreateRule], [StartServer, Register]);
      ApplyTwo(s, UnlinkMarker, CreateRule);
      ApplyTwo(unlinked.(rule := true), StartServer, Register);
    case PortalAudit =>
      UndoApplied(s, [UnlinkMarker] + ACTIVE);
      ActiveApplied(s);
    case StateWrite => ActiveApplied(s);
    case FinalAudit => OpenedApplied(s);
  }

  /** A start that raises keeps the invariant exactly when it raises before the server is
      registered or after the state is written; in between it leaves a stale entry, or a
      server that collects under a status that does not say so. */
  lemma StartFault(s: Lab, fault: Fault)
    requires Sound(s) && !s.registered && (s.session == Open || s.session == Paused)
    ensures !Start(s, Some(fault)).succeeds
    ensures Sound(ApplyAll(s, Start(s, Some(fault)).effects))
            <==> fault != PortalWrite && fault != PortalAudit && fault != StateWrite
  {
    hide ApplyAll;
    var t := s.(session := Open);
    FaultApplied(s, fault);
    FaultApplied(t, fault);
    ApplyConcat(s, [SetSession(Open)], Opened(Some(fault)).effects);
    ApplyOne(s, SetSession(Open));
  }

  /** The stale entry makes the next start return without doing anything; stopping, pausing
      or cleaning up removes it. */
  lemma StaleEntry(s: Lab, fault: Fault)
    requires Sound(s) && !s.registered && s.session == Open && (fault == PortalWrite || fault == PortalAudit)
    ensures var t := ApplyAll(s, Start(s, Some(fault)).effects);
            && t.registered && !t.live && Start(t, None) == Plan([], true)
            && Sound(ApplyAll(t, Pause(t).effects))
  {
    hide ApplyAll;
    FaultApplied(s, fault);
    PauseApplied(Faulted(s, fault));
  }
}
