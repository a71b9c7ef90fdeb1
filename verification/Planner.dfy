/** Planning: selection, closure, scope, order, safety gates. */
module Planner {
  import opened Wrappers
  import opened Ordering
  import opened TextSets
  import opened Unicode
  import opened ValidatorRegistry
  import opened DependencyClosure
  import opened DependencyOrder

  const DEEP_PROFILE := Lit("deep-responder-validation")

  function ProfileRisks(profile: Text): Option<set<Risk>> {
    if profile == Lit("safe-read-only") then Some({SafeReadOnly})
    else if profile == Lit("safe-local") then Some({SafeReadOnly, LowImpact})
    else if profile == Lit("controlled-temporary") || profile == DEEP_PROFILE then
      Some({SafeReadOnly, LowImpact, ControlledTemporaryChange})
    else None
  }

  datatype Policy = Policy(
    enabled: bool,
    allowedRisks: seq<Risk>,
    temporaryChanges: bool,
    networkListeners: bool,
    outboundTests: bool,
    loopbackTests: bool,
    maximumValidators: nat,
    maximumDuration: nat,
    defaultTimeout: nat
  )

  datatype Authorization = Authorization(assessmentId: Text, devices: seq<Text>, validators: seq<Id>)

  /** Everything `plan` is given besides the run ID and the requested validators; fold is
      `str.casefold`. */
  datatype Setting = Setting(
    policy: Policy,
    authorization: Authorization,
    device: Text,
    assessmentId: Option<Text>,
    profile: Option<Text>,
    platform: Option<Text>,
    privileges: seq<Text>,
    ruleIds: Option<set<Text>>,
    fold: Text -> Text
  )

  datatype ValidationPlan = ValidationPlan(
    runId: Text,
    validatorId: Id,
    version: Text,
    timeout: nat,
    risk: Risk,
    requiresRollback: bool,
    temporaryPrefix: Text,
    sequence: nat,
    profile: Option<Text>
  )

  datatype PlanError =
    | UnknownProfile
    | ProfileRisk(id: Id)
    | DeepProfileRequired
    | DuplicateSelection
    | EmptySelection
    | Unresolvable
    | TooManyValidators
    | OutOfScope
    | Unordered(cause: OrderError)
    | Unregistered(id: Id)
    | Inactive(id: Id)
    | PlatformUnsupported(id: Id)
    | PrivilegeMissing(id: Id)
    | NoRelatedRule(id: Id)
    | Unsafe(id: Id)
    | DurationExceeded

  // ----- selection

  /** An empty profile name counts as none. */
  predicate HasProfile(profile: Option<Text>) { profile.Some? && profile.value != [] }

  function AllowedRisks(profile: Option<Text>): Option<set<Risk>> {
    if HasProfile(profile) then ProfileRisks(profile.value) else None
  }

  predicate InProfile(reg: Registry, risks: set<Risk>, id: Id) {
    id in reg && reg[id].status == Active && reg[id].risk in risks && id != DEEP_VALIDATOR
  }

  ghost function Candidates(reg: Registry, profile: Text, risks: set<Risk>, requested: seq<Id>): seq<Id> {
    if requested != [] then requested
    else if profile == DEEP_PROFILE then [DEEP_VALIDATOR, RESPONDER_AGGREGATE]
    else SortedIds(set id | id in reg && InProfile(reg, risks, id))
  }

  /** The first candidate the profile does not admit. */
  function FirstRefused(reg: Registry, profile: Text, risks: set<Risk>, ids: seq<Id>): (r: Option<PlanError>)
    ensures r.None? <==> forall id :: id in ids ==> Admitted(reg, profile, risks, id)
    ensures r != Some(Unresolvable)
  {
    if ids == [] then None
    else
      assert ids[0] in ids;
      if ids[0] in reg && reg[ids[0]].risk !in risks then Some(ProfileRisk(ids[0]))
      else if ids[0] in reg && ids[0] == DEEP_VALIDATOR && profile != DEEP_PROFILE then Some(DeepProfileRequired)
      else FirstRefused(reg, profile, risks, ids[1..])
  }

  /** Unregistered candidates are left to the later stages. */
  predicate Admitted(reg: Registry, profile: Text, risks: set<Risk>, id: Id) {
    id in reg ==> reg[id].risk in risks && (id == DEEP_VALIDATOR ==> profile == DEEP_PROFILE)
  }

  ghost function Unrepeated(ids: seq<Id>): Result<seq<Id>, PlanError> {
    if NoDuplicates(ids) then Success(SortBy(BY_ID, ids)) else Failure(DuplicateSelection)
  }

  ghost function Selection(reg: Registry, profile: Option<Text>, requested: seq<Id>): (r: Result<seq<Id>, PlanError>)
    ensures r != Failure(Unresolvable)
  {
    if HasProfile(profile) then
      match ProfileRisks(profile.value)
      case None => Failure(UnknownProfile)
      case Some(risks) =>
        var ids := Candidates(reg, profile.value, risks, requested);
        match FirstRefused(reg, profile.value, risks, ids)
        case Some(error) => Failure(error)
        case None => Unrepeated(ids)
    else if DEEP_VALIDATOR in requested then Failure(DeepProfileRequired)
    else Unrepeated(requested)
  }

  lemma {:induction false} SetSize(ids: seq<Id>)
    ensures |Ids(ids)| <= |ids|
    ensures |Ids(ids)| == |ids| <==> NoDuplicates(ids)
  {
    if ids == [] {
    } else {
      var last, init := ids[|ids| - 1], ids[..|ids| - 1];
      SetSize(init);
      assert ids == init + [last];
      assert Ids(ids) == Ids(init) + {last};
      if last in init {
        assert Ids(ids) == Ids(init);
        var i :| 0 <= i < |init| && init[i] == last;
        assert ids[i] == ids[|ids| - 1];
      } else {
        assert NoDuplicates(init) ==> NoDuplicates(ids);
      }
      if NoDuplicates(ids) {
        forall i, j | 0 <= i < j < |init|
          ensures init[i] != init[j]
        {
          assert ids[i] != ids[j];
        }
      }
    }
  }

  method ResolveSelection(reg: Registry, profile: Option<Text>, requested: seq<Id>)
    returns (r: Result<seq<Id>, PlanError>)
    ensures r == Selection(reg, profile, requested)
  {
    var selected := requested;
    if HasProfile(profile) {
      var risks := ProfileRisks(profile.value);
      if risks.None? {
        return Failure(UnknownProfile);
      }
      if requested == [] {
        if profile.value == DEEP_PROFILE {
          selected := [DEEP_VALIDATOR, RESPONDER_AGGREGATE];
        } else {
          var active := set id | id in reg && InProfile(reg, risks.value, id);
          var ids := ListOf(active);
          SortedIdsIs(active, ids);
          selected := SortBy(BY_ID, ids);
        }
      }
      var refused := FirstRefused(reg, profile.value, risks.value, selected);
      if refused.Some? {
        return Failure(refused.value);
      }
    } else if DEEP_VALIDATOR in requested {
      return Failure(DeepProfileRequired);
    }
    SetSize(selected);
    if |selected| != |Ids(selected)| {
      return Failure(DuplicateSelection);
    }
    return Success(SortBy(BY_ID, selected));
  }

  // ----- gates

  predicate Safe(d: Definition, policy: Policy) {
    && policy.enabled
    && d.risk != Restricted && d.risk != Prohibited
    && d.risk in policy.allowedRisks
    && (d.risk == ControlledTemporaryChange ==> policy.temporaryChanges)
    && (d.networkImpact == Lit("LOOPBACK_LISTENER") ==> policy.networkListeners)
    && (d.networkImpact == Lit("SCOPED_LISTENER") ==> policy.networkListeners)
    && (d.networkImpact == Lit("LOOPBACK_LISTENER") ==> policy.loopbackTests)
    && (d.networkImpact == Lit("OUTBOUND") ==> policy.outboundTests)
  }

  predicate PlatformSupported(d: Definition, platform: Text, fold: Text -> Text) {
    exists p :: p in d.platforms && fold(p) == fold(platform)
  }

  function Gate(reg: Registry, at: Setting, explicit: set<Id>, id: Id): Option<PlanError> {
    if id !in reg then Some(Unregistered(id))
    else if reg[id].status != Active then Some(Inactive(id))
    else
      var d := reg[id];
      if at.platform.Some? && !PlatformSupported(d, at.platform.value, at.fold) then Some(PlatformUnsupported(id))
      else if exists p :: p in d.privileges && p !in at.privileges then Some(PrivilegeMissing(id))
      else if
        && at.ruleIds.Some? && id in explicit && d.rules != []
        && forall rule :: rule in d.rules ==> rule !in at.ruleIds.value
      then Some(NoRelatedRule(id))
      else if !Safe(d, at.policy) then Some(Unsafe(id))
      else None
  }

  function Min(a: nat, b: nat): nat { if a <= b then a else b }

  function Timeout(d: Definition, policy: Policy): nat {
    Min(Min(d.defaultTimeout, d.maximumTimeout), policy.defaultTimeout)
  }

  function FirstBlocked(reg: Registry, at: Setting, explicit: set<Id>, ids: seq<Id>): (r: Option<PlanError>)
    ensures r.None? <==> forall id :: id in ids ==> Gate(reg, at, explicit, id).None?
    ensures r != Some(Unresolvable)
  {
    if ids == [] then None
    else if Gate(reg, at, explicit, ids[0]).Some? then Gate(reg, at, explicit, ids[0])
    else FirstBlocked(reg, at, explicit, ids[1..])
  }

  function Planned(reg: Registry, at: Setting, runId: Text, id: Id, sequence: nat): ValidationPlan
    requires id in reg
  {
    var d := reg[id];
    ValidationPlan(runId, id, d.version, Timeout(d, at.policy), d.risk, d.requiresRollback,
                   Lit("CSA-VALIDATION-") + runId, sequence, at.profile)
  }

  function Plans(reg: Registry, at: Setting, runId: Text, ids: seq<Id>): seq<ValidationPlan>
    requires forall id :: id in ids ==> id in reg
  {
    seq(|ids|, i requires 0 <= i < |ids| => Planned(reg, at, runId, ids[i], i + 1))
  }

  function TotalTimeout(plans: seq<ValidationPlan>): nat {
    if plans == [] then 0 else TotalTimeout(plans[..|plans| - 1]) + plans[|plans| - 1].timeout
  }

  lemma GateRegistered(reg: Registry, at: Setting, explicit: set<Id>, id: Id)
    ensures Gate(reg, at, explicit, id).None? ==> id in reg
  {
  }

  method PlanEach(reg: Registry, at: Setting, runId: Text, explicit: set<Id>, ordered: seq<Id>)
    returns (r: Result<seq<ValidationPlan>, PlanError>)
    ensures r == Gated(reg, at, runId, explicit, ordered)
  {
    hide Gate, Timeout, Lit;
    var plans: seq<ValidationPlan>, total := [], 0;
    for i := 0 to |ordered|
      invariant FirstBlocked(reg, at, explicit, ordered) == FirstBlocked(reg, at, explicit, ordered[i..])
      invariant forall k :: 0 <= k < i ==> ordered[k] in reg
      invariant plans == seq(i, k requires 0 <= k < i => Planned(reg, at, runId, ordered[k], k + 1))
      invariant total == TotalTimeout(plans)
    {
      var id := ordered[i];
      assert ordered[i..][0] == id && ordered[i..][1..] == ordered[i + 1..];
      var blocked := Gate(reg, at, explicit, id);
      if blocked.Some? {
        return Failure(blocked.value);
      }
      GateRegistered(reg, at, explicit, id);
      var timeout := Timeout(reg[id], at.policy);
      total := total + timeout;
      var plan := ValidationPlan(runId, id, reg[id].version, timeout, reg[id].risk, reg[id].requiresRollback,
                                 Lit("CSA-VALIDATION-") + runId, i + 1, at.profile);
      assert (plans + [plan])[..|plans|] == plans;
      plans := plans + [plan];
    }
    if total > at.policy.maximumDuration {
      return Failure(DurationExceeded);
    }
    return Success(plans);
  }

  function Gated(reg: Registry, at: Setting, runId: Text, explicit: set<Id>, ordered: seq<Id>):
    (r: Result<seq<ValidationPlan>, PlanError>)
    ensures r != Failure(Unresolvable)
  {
    match FirstBlocked(reg, at, explicit, ordered)
    case Some(error) => Failure(error)
    case None =>
      assert forall id :: id in ordered ==> Gate(reg, at, explicit, id).None?;
      var plans := Plans(reg, at, runId, ordered);
      if TotalTimeout(plans) > at.policy.maximumDuration then Failure(DurationExceeded) else Success(plans)
  }

  // ----- planning

  /** `require_scope`. */
  predicate InScope(at: Setting, ids: seq<Id>) {
    && (at.assessmentId.Some? ==> at.authorization.assessmentId == at.assessmentId.value)
    && at.device in at.authorization.devices
    && forall id :: id in ids ==> id in at.authorization.validators
  }

  ghost function PlanOf(reg: Registry, at: Setting, runId: Text, requested: seq<Id>):
    Result<seq<ValidationPlan>, PlanError>
  {
    var selected :- Selection(reg, at.profile, requested);
    if selected == [] then Failure(EmptySelection)
    else if !Expandable(reg, AllowedRisks(at.profile), selected) then Failure(Unresolvable)
    else
      var resolved := SortedIds(Closure(reg, Start(selected)));
      if |resolved| > at.policy.maximumValidators then Failure(TooManyValidators)
      else if !InScope(at, resolved) then Failure(OutOfScope)
      else
        match Order(reg, resolved)
        case Failure(cause) => Failure(Unordered(cause))
        case Success(ordered) => Gated(reg, at, runId, Ids(selected), ordered)
  }

  /** `plan`; which fault an unresolvable selection is refused for depends on set order. */
  method Plan(reg: Registry, at: Setting, runId: Text, requested: seq<Id>)
    returns (r: Result<seq<ValidationPlan>, PlanError>, fault: Option<Fault>)
    ensures r == PlanOf(reg, at, runId, requested)
    ensures fault.Some? <==> r == Failure(Unresolvable)
    ensures fault.Some? ==> Explains(reg, AllowedRisks(at.profile), fault.value)
  {
    hide Expandable, Closure, Order, Gated;
    fault := None;
    var selection := ResolveSelection(reg, at.profile, requested);
    if selection.Failure? {
      return Failure(selection.error), None;
    }
    var selected := selection.value;
    if selected == [] {
      return Failure(EmptySelection), None;
    }
    var resolution := ResolveDependencies(reg, AllowedRisks(at.profile), selected);
    if resolution.Failure? {
      return Failure(Unresolvable), Some(resolution.error);
    }
    var resolved := resolution.value;
    if |resolved| > at.policy.maximumValidators {
      return Failure(TooManyValidators), None;
    }
    if !InScope(at, resolved) {
      return Failure(OutOfScope), None;
    }
    var order := TopologicalOrder(reg, resolved);
    if order.Failure? {
      return Failure(Unordered(order.error)), None;
    }
    r := PlanEach(reg, at, runId, Ids(selected), order.value);
  }

  // ----- run independence

  function ForRun(runId: Text, plans: seq<ValidationPlan>): seq<ValidationPlan> {
    seq(|plans|, i requires 0 <= i < |plans| =>
      plans[i].(runId := runId, temporaryPrefix := Lit("CSA-VALIDATION-") + runId))
  }

  lemma {:induction false} TotalForRun(runId: Text, plans: seq<ValidationPlan>)
    ensures TotalTimeout(ForRun(runId, plans)) == TotalTimeout(plans)
  {
    if plans == [] {
    } else {
      var q := ForRun(runId, plans);
      assert q[..|q| - 1] == ForRun(runId, plans[..|plans| - 1]);
      TotalForRun(runId, plans[..|plans| - 1]);
    }
  }

  lemma GatedForRun(reg: Registry, at: Setting, run: Text, other: Text, explicit: set<Id>, ordered: seq<Id>)
    ensures var r, q := Gated(reg, at, run, explicit, ordered), Gated(reg, at, other, explicit, ordered);
            if r.Success? then q == Success(ForRun(other, r.value)) else q == r
  {
    if FirstBlocked(reg, at, explicit, ordered).None? {
      var plans := Plans(reg, at, run, ordered);
      assert Plans(reg, at, other, ordered) == ForRun(other, plans);
      TotalForRun(other, plans);
    }
  }

  lemma PermutedMembers(a: seq<Id>, b: seq<Id>)
    requires multiset(a) == multiset(b)
    ensures forall id :: id in a <==> id in b
    ensures |a| == |b| && (NoDuplicates(a) <==> NoDuplicates(b))
  {
    assert |multiset(a)| == |a| && |multiset(b)| == |b|;
    forall id
      ensures id in a <==> id in b
    {
      assert id in a <==> id in multiset(a);
      assert id in b <==> id in multiset(b);
    }
    SetSize(a);
    SetSize(b);
    assert Ids(a) == Ids(b);
  }

  lemma SelectionPermuted(reg: Registry, profile: Option<Text>, a: seq<Id>, b: seq<Id>)
    requires multiset(a) == multiset(b)
    ensures var p, q := Selection(reg, profile, a), Selection(reg, profile, b);
            (p.Success? <==> q.Success?) && (p.Success? ==> p == q)
  {
    hide Less;
    PermutedMembers(a, b);
    ByIdInjective(a);
    SortByPermutation(BY_ID, a, b);
  }

  /** Listing the requested IDs in another order and planning for another run changes the
      run ID and the prefix of the plans, and nothing else. */
  lemma PlanningIsRunIndependent(reg: Registry, at: Setting, run: Text, other: Text, a: seq<Id>, b: seq<Id>)
    requires multiset(a) == multiset(b)
    ensures var p, q := PlanOf(reg, at, run, a), PlanOf(reg, at, other, b);
            (p.Success? <==> q.Success?) && (p.Success? ==> q.value == ForRun(other, p.value))
  {
    hide Selection, Expandable, Closure, Order, Gated, ForRun;
    SelectionPermuted(reg, at.profile, a, b);
    var selection := Selection(reg, at.profile, a);
    if selection.Success? {
      var resolved := SortedIds(Closure(reg, Start(selection.value)));
      var order := Order(reg, resolved);
      if order.Success? {
        GatedForRun(reg, at, run, other, Ids(selection.value), order.value);
      }
    }
  }

  // ----- what a plan guarantees

  /** The plans name exactly the closure of the selection, dependencies first, numbered from
      one. */
  ghost predicate Covers(reg: Registry, selected: seq<Id>, plans: seq<ValidationPlan>) {
    && (forall v :: v in Closure(reg, Start(selected)) <==> exists i :: 0 <= i < |plans| && plans[i].validatorId == v)
    && (forall i, j :: 0 <= i < j < |plans| ==> plans[i].validatorId != plans[j].validatorId)
    && (forall i :: 0 <= i < |plans| ==> plans[i].sequence == i + 1)
    && forall i, d :: 0 <= i < |plans| && Requires(reg, plans[i].validatorId, d) ==>
         exists j :: 0 <= j < i && plans[j].validatorId == d
  }

  /** One planned validator passed every gate. */
  ghost predicate Cleared(reg: Registry, at: Setting, plan: ValidationPlan) {
    && plan.validatorId in reg
    && var d := reg[plan.validatorId];
       && d.status == Active && Safe(d, at.policy)
       && plan.validatorId in at.authorization.validators
       && (forall p :: p in d.privileges ==> p in at.privileges)
       && (at.platform.Some? ==> PlatformSupported(d, at.platform.value, at.fold))
       && plan.timeout <= d.defaultTimeout && plan.timeout <= d.maximumTimeout
       && plan.timeout <= at.policy.defaultTimeout
       && plan.version == d.version && plan.risk == d.risk && plan.requiresRollback == d.requiresRollback
  }

  /** A validator that was asked for and names rules has one of them at hand. */
  predicate RuleAvailable(reg: Registry, at: Setting, selected: seq<Id>, id: Id) {
    at.ruleIds.Some? && id in selected && id in reg && reg[id].rules != [] ==>
      exists rule :: rule in reg[id].rules && rule in at.ruleIds.value
  }

  lemma GatedRules(reg: Registry, at: Setting, runId: Text, selected: seq<Id>, ordered: seq<Id>)
    requires Gated(reg, at, runId, Ids(selected), ordered).Success?
    ensures forall id :: id in ordered ==> RuleAvailable(reg, at, selected, id)
  {
    hide Safe, PlatformSupported;
    forall id | id in ordered
      ensures RuleAvailable(reg, at, selected, id)
    {
      assert Gate(reg, at, Ids(selected), id).None?;
    }
  }

  lemma GatedCleared(reg: Registry, at: Setting, runId: Text, explicit: set<Id>, ordered: seq<Id>)
    requires Gated(reg, at, runId, explicit, ordered).Success?
    requires forall id :: id in ordered ==> id in at.authorization.validators
    ensures var plans := Gated(reg, at, runId, explicit, ordered).value;
            && |plans| == |ordered| && TotalTimeout(plans) <= at.policy.maximumDuration
            && forall i :: 0 <= i < |plans| ==>
                 plans[i].validatorId == ordered[i] && plans[i].sequence == i + 1 && Cleared(reg, at, plans[i])
  {
    hide Safe;
    var plans := Gated(reg, at, runId, explicit, ordered).value;
    forall i | 0 <= i < |plans|
      ensures plans[i].validatorId == ordered[i] && plans[i].sequence == i + 1 && Cleared(reg, at, plans[i])
    {
      assert ordered[i] in ordered;
      assert Gate(reg, at, explicit, ordered[i]).None?;
    }
  }

  lemma OrderCovers(reg: Registry, selected: seq<Id>, ordered: seq<Id>, plans: seq<ValidationPlan>)
    requires Order(reg, SortedIds(Closure(reg, Start(selected)))) == Success(ordered)
    requires |plans| == |ordered|
    requires forall i :: 0 <= i < |plans| ==> plans[i].validatorId == ordered[i] && plans[i].sequence == i + 1
    ensures Covers(reg, selected, plans)
  {
    hide Order, Reached, Closure;
    var closure := Closure(reg, Start(selected));
    OrderCorrect(reg, SortedIds(closure));
    assert Ids(SortedIds(closure)) == closure;
    ClosureLeast(reg, Start(selected), closure);
    forall v | v in closure
      ensures exists i :: 0 <= i < |plans| && plans[i].validatorId == v
    {
      var i :| 0 <= i < |ordered| && ordered[i] == v;
      assert plans[i].validatorId == v;
    }
    forall i | 0 <= i < |plans|
      ensures plans[i].validatorId in closure
    {
      assert ordered[i] in ordered;
    }
    forall i, d | 0 <= i < |plans| && Requires(reg, plans[i].validatorId, d)
      ensures exists j :: 0 <= j < i && plans[j].validatorId == d
    {
      assert ordered[i] in ordered;
      assert d in closure;
      assert DependenciesIn(reg, closure, ordered[i], ordered[..i]);
      var j :| 0 <= j < i && ordered[..i][j] == d;
      assert plans[j].validatorId == d;
    }
  }

  /** What a caller may rely on when planning succeeds. */
  lemma PlanGuarantees(reg: Registry, at: Setting, runId: Text, requested: seq<Id>)
    requires PlanOf(reg, at, runId, requested).Success?
    ensures var plans := PlanOf(reg, at, runId, requested).value;
            && (forall i :: 0 <= i < |plans| ==> Cleared(reg, at, plans[i]))
            && |plans| <= at.policy.maximumValidators && TotalTimeout(plans) <= at.policy.maximumDuration
            && forall i :: 0 <= i < |plans| ==>
                 RuleAvailable(reg, at, Selection(reg, at.profile, requested).value, plans[i].validatorId)
    ensures at.device in at.authorization.devices
    ensures at.assessmentId.Some? ==> at.authorization.assessmentId == at.assessmentId.value
    ensures var selection := Selection(reg, at.profile, requested);
            selection.Success? && Covers(reg, selection.value, PlanOf(reg, at, runId, requested).value)
  {
    hide Selection, Expandable, Closure, Order, Gated, Covers, Cleared, RuleAvailable;
    var selected := Selection(reg, at.profile, requested).value;
    var resolved := SortedIds(Closure(reg, Start(selected)));
    OrderCorrect(reg, resolved);
    var ordered := Order(reg, resolved).value;
    ListsPermutation(Ids(resolved), ordered, resolved);
    PermutedMembers(ordered, resolved);
    GatedCleared(reg, at, runId, Ids(selected), ordered);
    GatedRules(reg, at, runId, selected, ordered);
    forall i | 0 <= i < |ordered|
      ensures RuleAvailable(reg, at, selected, ordered[i])
    {
      assert ordered[i] in ordered;
    }
    OrderCovers(reg, selected, ordered, PlanOf(reg, at, runId, requested).value);
  }

  /** What the closure adds to its start was reached from a validator that is not faulty. */
  lemma DependencyAccepted(reg: Registry, risks: Option<set<Risk>>, selected: seq<Id>, v: Id)
    requires Expandable(reg, risks, selected)
    requires v in Closure(reg, Start(selected)) && v !in Start(selected)
    ensures !Refused(reg, risks, v)
  {
    hide Refused;
    var start := Start(selected);
    var p :| Walk(reg, p) && p[0] in start && p[|p| - 1] == v;
    var u := p[|p| - 2];
    assert Requires(reg, u, p[|p| - 2 + 1]);
    var q := p[..|p| - 1];
    assert Walk(reg, q) && q[0] in start && q[|q| - 1] == u by {
      forall i | 0 <= i < |q| - 1
        ensures Requires(reg, q[i], q[i + 1])
      {
        assert Requires(reg, p[i], p[i + 1]);
      }
    }
    assert Reached(reg, start, u);
  }

  /** Selected, brought along by the deep validator, or accepted as a dependency. */
  lemma SelectedOrAccepted(reg: Registry, at: Setting, runId: Text, requested: seq<Id>, i: nat)
    requires PlanOf(reg, at, runId, requested).Success? && i < |PlanOf(reg, at, runId, requested).value|
    ensures var v := PlanOf(reg, at, runId, requested).value[i].validatorId;
            var selection := Selection(reg, at.profile, requested);
            && selection.Success?
            && (v in selection.value
                || (v == RESPONDER_AGGREGATE && DEEP_VALIDATOR in selection.value && DEEP_VALIDATOR in reg)
                || !Refused(reg, AllowedRisks(at.profile), v))
  {
    hide Selection, Expandable, Closure, Order, Gated, Refused, Safe;
    PlanGuarantees(reg, at, runId, requested);
    var selected, plans := Selection(reg, at.profile, requested).value, PlanOf(reg, at, runId, requested).value;
    var v := plans[i].validatorId;
    if v !in Start(selected) {
      DependencyAccepted(reg, AllowedRisks(at.profile), selected, v);
    } else if v !in selected {
      ClosureLeast(reg, Start(selected), {});
      assert DEEP_VALIDATOR in Closure(reg, Start(selected));
      var j :| 0 <= j < |plans| && plans[j].validatorId == DEEP_VALIDATOR;
      assert Cleared(reg, at, plans[j]);
    }
  }

  /** A profile bounds the risk of everything planned under it. The aggregate that the deep
      validator brings along is never compared with the profile; the safety gate, together
      with the deep validator's own profile rule, is what keeps it inside. */
  lemma ProfileBoundsRisk(reg: Registry, at: Setting, runId: Text, requested: seq<Id>, i: nat)
    requires PlanOf(reg, at, runId, requested).Success? && HasProfile(at.profile)
    requires i < |PlanOf(reg, at, runId, requested).value|
    ensures ProfileRisks(at.profile.value).Some?
    ensures PlanOf(reg, at, runId, requested).value[i].risk in ProfileRisks(at.profile.value).value
  {
    hide PlanOf, Covers, Less;
    PlanGuarantees(reg, at, runId, requested);
    SelectedOrAccepted(reg, at, runId, requested, i);
    var plan := PlanOf(reg, at, runId, requested).value[i];
    var risks := ProfileRisks(at.profile.value).value;
    var ids := Candidates(reg, at.profile.value, risks, requested);
    SortByMembers(BY_ID, ids);
    assert Cleared(reg, at, plan);
    if plan.validatorId in ids {
      assert Admitted(reg, at.profile.value, risks, plan.validatorId);
    } else if DEEP_VALIDATOR in ids {
      assert Admitted(reg, at.profile.value, risks, DEEP_VALIDATOR);
    }
  }
}
