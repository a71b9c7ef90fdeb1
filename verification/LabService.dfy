/** The Lab service's lifecycle methods on their own fields. */
module LabService {
  import opened Wrappers
  import opened Submissions
  import opened LabLifecycle

  class CsaLabService {
    var status: LabStatus
    var details: seq<Detail>
    var session: SessionStatus
    var rule: bool
    var portalActive: bool
    var marker: bool
    var registered: bool
    var live: bool

    constructor ()
      ensures State() == CREATED && Sound(State())
    {
      status, details, session := NotStarted, [], Open;
      rule, portalActive, marker, registered, live := false, false, false, false, false;
    }

    function State(): Lab
      reads this
    {
      Lab(status, details, session, rule, portalActive, marker, registered, live)
    }

    method StopRunning()
      modifies this
      ensures State() == ApplyAll(old(State()), LabLifecycle.StopRuntime(old(State())))
    {
      var server := registered;
      registered := false;
      if server {
        live := false;
      }
      rule := false;
      portalActive := false;
      StopRuntimeApplied(old(State()));
    }

    method SetSessionStatus(next: SessionStatus) returns (ok: bool)
      modifies this`session
      ensures ok == Transition(old(session), next)
      ensures State() == if ok then old(State()).(session := next) else old(State())
    {
      ok := Transition(session, next);
      if ok {
        session := next;
      }
    }

    method StartCollection(fault: Option<Fault>) returns (ok: bool)
      modifies this
      ensures var plan := Start(old(State()), fault);
              ok == plan.succeeds && State() == ApplyAll(old(State()), plan.effects)
    {
      ghost var before := State();
      StartApplied(before);
      if registered {
        return true;
      }
      if session == Paused {
        session := Open;
        ApplyOne(before, SetSession(Open));
        ApplyConcat(before, [SetSession(Open)], Opened(fault).effects);
      }
      if session != Open {
        return false;
      }
      ok := OpenPortal(fault);
    }

    /** From the preparation of the launcher on; the handler undoes server and rule, not the
        table entry. */
    method OpenPortal(fault: Option<Fault>) returns (ok: bool)
      modifies this
      ensures ok == Opened(fault).succeeds
      ensures State() == ApplyAll(old(State()), Opened(fault).effects)
    {
      if fault.Some? {
        FaultApplied(State(), fault.value);
      } else {
        OpenedApplied(State());
      }
      if fault == Some(Preparation) {
        return false;
      }
      marker := false;
      if fault == Some(ServerSetup) {
        return false;
      }
      var raised := fault == Some(Firewall);
      if !raised {
        rule := true;
        raised := fault == Some(RuleAudit) || fault == Some(ThreadStart);
      }
      if !raised {
        live := true;
        registered := true;
        raised := fault == Some(PortalWrite);
      }
      if !raised {
        portalActive := true;
        raised := fault == Some(PortalAudit);
      }
      if raised {
        live := false;
        rule := false;
        return false;
      }
      if fault == Some(StateWrite) {
        return false;
      }
      status, details := Collecting, [];
      return fault.None?;
    }

    method PauseCollection() returns (ok: bool)
      modifies this
      ensures var plan := Pause(old(State()));
              ok == plan.succeeds && State() == ApplyAll(old(State()), plan.effects)
    {
      PauseApplied(State());
      StopRuntimeApplied(State());
      StopRunning();
      ok := SetSessionStatus(Paused);
      if ok {
        status := Halted;
      }
    }

    method ResumeCollection() returns (ok: bool)
      modifies this
      ensures var plan := Resume(old(State()), None);
              ok == plan.succeeds && State() == ApplyAll(old(State()), plan.effects)
    {
      ResumeApplied(State());
      if status != Halted && status != RecoveryRequired {
        return false;
      }
      ok := SetSessionStatus(Open);
      if ok {
        StartApplied(State());
        ok := StartCollection(None);
      }
    }

    method CloseOnce() returns (ok: bool)
      modifies this`session
      ensures ok == CloseSession(old(State())).succeeds
      ensures State() == if ok then old(State()).(session := Closed) else old(State())
    {
      if session == Closed {
        return true;
      }
      ok := SetSessionStatus(Closed);
    }

    method StopCollection(endpoints: bool) returns (ok: bool)
      modifies this
      ensures var plan := Stop(old(State()), endpoints);
              ok == plan.succeeds && State() == ApplyAll(old(State()), plan.effects)
    {
      StopApplied(State(), endpoints);
      StopRuntimeApplied(State());
      StopRunning();
      ok := CloseOnce();
      if ok {
        status, details := Final(endpoints), [];
      }
    }

    method CleanupRecovery(endpoints: bool) returns (ok: bool)
      modifies this
      ensures var plan := Cleanup(old(State()), endpoints);
              ok == plan.succeeds && State() == ApplyAll(old(State()), plan.effects)
    {
      CleanupApplied(State(), endpoints);
      StopRuntimeApplied(State());
      StopRunning();
      marker := false;
      ok := CloseOnce();
      if ok {
        status, details := Final(endpoints), [];
      }
    }

    method ShutDown() returns (ok: bool)
      modifies this
      ensures var plan := Shutdown(old(State()));
              ok == plan.succeeds && State() == ApplyAll(old(State()), plan.effects)
    {
      if !registered {
        NoEffects(State());
        return true;
      }
      ok := PauseCollection();
    }

    /** Run on every assessment when the application starts. */
    method DetectRecoveryItems() returns (recovered: bool)
      modifies this`status, this`details
      ensures State() == Detect(old(State()))
      ensures recovered <==> Found(old(State())) != []
    {
      var found: seq<Detail> := [];
      if status == Collecting {
        found := found + [WasCollecting];
      }
      if rule {
        found := found + [RuleRemains];
      }
      if marker {
        found := found + [MarkerExists];
      }
      assert found == Found(State());
      recovered := found != [];
      if recovered {
        status, details := RecoveryRequired, found;
      }
    }
  }
}
