/**
 When planning succeeds and what the plans are, in the fields of registry, policy, authorization
 and setting.
 */
module PlannerRules {
  import opened Wrappers
  import opened Ordering
  import opened TextSets
  import opened Unicode
  import opened ValidatorRegistry
  import opened DependencyClosure
  import opened DependencyOrder
  import opened OrderRules
  import opened Planner

  // ----- profiles and the selection

  const DEEP := Lit("VAL-RESPONDER-DEEP-001")
  const AGGREGATE := Lit("VAL-RESPONDER-EXPOSURE-001")

  predicate Restricts(profile: Option<Text>) { profile.Some? && |profile.value| > 0 }

  predicate DeepProfile(profile: Option<Text>) { profile == Some(Lit("deep-responder-validation")) }

  /** What each profile admits; any other name admits nothing. */
  predicate Admits(profile: Text, risk: Risk) {
    || (risk == SafeReadOnly && KnownProfile(profile))
    || (risk == LowImpact && KnownProfile(profile) && profile != Lit("safe-read-only"))
    || (risk == ControlledTemporaryChange
        && (profile == Lit("controlled-temporary") || profile == Lit("deep-responder-validation")))
  }

  predicate KnownProfile(profile: Text) {
    || profile == Lit("safe-read-only") || profile == Lit("safe-local")
    || profile == Lit("controlled-temporary") || profile == Lit("deep-responder-validation")
  }

  /** The IDs planning starts from: those requested, or else those of the profile. */
  predicate Chosen(reg: Registry, profile: Option<Text>, requested: seq<Id>, id: Id) {
    if requested != [] then id in requested
    else if DeepProfile(profile) then id == DEEP || id == AGGREGATE
    else
      && Restricts(profile) && id in reg && reg[id].status == Active && Admits(profile.value, reg[id].risk)
      && id != DEEP
  }

  /** Something is chosen, nothing twice, and the profile admits all of it; the deep validator only
      goes with its own profile. */
  ghost predicate Selectable(reg: Registry, profile: Option<Text>, requested: seq<Id>) {
    && (exists id :: Chosen(reg, profile, requested, id))
    && (forall i, j :: 0 <= i < j < |requested| ==> requested[i] != requested[j])
    && (Restricts(profile) ==> KnownProfile(profile.value))
    && forall id :: Chosen(reg, profile, requested, id) ==>
         if Restricts(profile) then
           id in reg ==> Admits(profile.value, reg[id].risk) && (id == DEEP ==> DeepProfile(profile))
         else id != DEEP
  }

  lemma RisksAre(profile: Text)
    ensures ProfileRisks(profile).Some? <==> KnownProfile(profile)
    ensures ProfileRisks(profile).Some? ==> forall r :: r in ProfileRisks(profile).value <==> Admits(profile, r)
  {
    NamesDiffer();
    hide Lit;
  }

  lemma NamesDiffer()
    ensures Lit("safe-read-only") != Lit("safe-local") && Lit("safe-read-only") != Lit("controlled-temporary")
    ensures Lit("safe-read-only") != Lit("deep-responder-validation")
    ensures Lit("safe-local") != Lit("controlled-temporary") && Lit("safe-local") != Lit("deep-responder-validation")
    ensures Lit("controlled-temporary") != Lit("deep-responder-validation")
    ensures DEEP != AGGREGATE
  {
    assert |Lit("safe-read-only")| == 14 && |Lit("safe-local")| == 10 && |Lit("controlled-temporary")| == 20;
    assert |Lit("deep-responder-validation")| == 25 && |DEEP| == 22 && |AGGREGATE| == 26;
  }

  lemma CandidatesChosen(reg: Registry, profile: Option<Text>, requested: seq<Id>)
    requires Restricts(profile) && KnownProfile(profile.value)
    ensures var ids := Candidates(reg, profile.value, ProfileRisks(profile.value).value, requested);
            forall id :: id in ids <==> Chosen(reg, profile, requested, id)
  {
    RisksAre(profile.value);
    hide Lit;
    if requested == [] && profile.value != DEEP_PROFILE {
      var risks := ProfileRisks(profile.value).value;
      forall id
        ensures (id in reg && InProfile(reg, risks, id)) <==> Chosen(reg, profile, requested, id)
      {
      }
    }
  }

  lemma CandidatesDistinct(reg: Registry, profile: Text, risks: set<Risk>, requested: seq<Id>)
    ensures NoDuplicates(Candidates(reg, profile, risks, requested)) <==> NoDuplicates(requested)
  {
    NamesDiffer();
    hide Lit;
  }

  /** The selection succeeds on something exactly when it is admitted, and then is what is chosen. */
  lemma SelectionExact(reg: Registry, profile: Option<Text>, requested: seq<Id>)
    ensures var r := Selection(reg, profile, requested);
            && (r.Success? && r.value != [] <==> Selectable(reg, profile, requested))
            && (r.Success? ==> forall id :: id in r.value <==> Chosen(reg, profile, requested, id))
  {
    hide Less, Chosen, Admits, KnownProfile, ProfileRisks, Candidates;
    var r := Selection(reg, profile, requested);
    if Restricts(profile) {
      RisksAre(profile.value);
      if KnownProfile(profile.value) {
        var risks := ProfileRisks(profile.value).value;
        var ids := Candidates(reg, profile.value, risks, requested);
        CandidatesChosen(reg, profile, requested);
        CandidatesDistinct(reg, profile.value, risks, requested);
        SortByMembers(BY_ID, ids);
        forall id
          ensures id in ids ==>
                    (Planner.Admitted(reg, profile.value, risks, id) <==>
                      id in reg ==> Admits(profile.value, reg[id].risk) && (id == DEEP ==> DeepProfile(profile)))
        {
        }
        assert (exists id :: Chosen(reg, profile, requested, id)) <==> ids != [] by {
          assert ids != [] ==> ids[0] in ids;
        }
        assert SortBy(BY_ID, ids) != [] <==> ids != [] by {
          SortByMultiset(BY_ID, ids);
        }
      }
    } else {
      UnrestrictedChosen(reg, profile, requested);
      SortByMembers(BY_ID, requested);
      SortByMultiset(BY_ID, requested);
      assert requested != [] ==> requested[0] in requested;
    }
  }

  lemma UnrestrictedChosen(reg: Registry, profile: Option<Text>, requested: seq<Id>)
    requires !Restricts(profile)
    ensures forall id :: Chosen(reg, profile, requested, id) <==> id in requested
  {
    assert |Lit("deep-responder-validation")| == 25;
  }

  // ----- the gates of one validator

  datatype GateCheck = Registered | Enabled | OnPlatform | Privileged | WithRule | Permitted

  function Place(check: GateCheck): nat {
    match check
    case Registered => 0
    case Enabled => 1
    case OnPlatform => 2
    case Privileged => 3
    case WithRule => 4
    case Permitted => 5
  }

  /** The policy allows the validator's risk and what it does on the network. */
  predicate Allows(policy: Policy, d: Definition) {
    && policy.enabled && d.risk in policy.allowedRisks
    && (d.risk == SafeReadOnly || d.risk == LowImpact
        || (d.risk == ControlledTemporaryChange && policy.temporaryChanges))
    && (d.networkImpact == Lit("LOOPBACK_LISTENER") ==> policy.networkListeners && policy.loopbackTests)
    && (d.networkImpact == Lit("SCOPED_LISTENER") ==> policy.networkListeners)
    && (d.networkImpact == Lit("OUTBOUND") ==> policy.outboundTests)
  }

  /** asked: the validator was chosen and not only brought along. */
  ghost predicate GatePasses(reg: Registry, at: Setting, asked: bool, id: Id, check: GateCheck) {
    id in reg &&
    var d := reg[id];
    match check
    case Registered => true
    case Enabled => d.status == Active
    case OnPlatform => at.platform.Some? ==> exists p :: p in d.platforms && at.fold(p) == at.fold(at.platform.value)
    case Privileged => forall p :: p in d.privileges ==> p in at.privileges
    case WithRule =>
      at.ruleIds.Some? && asked && d.rules != [] ==> exists rule :: rule in d.rules && rule in at.ruleIds.value
    case Permitted => Allows(at.policy, d)
  }

  function GateRefusal(id: Id, check: GateCheck): PlanError {
    match check
    case Registered => Unregistered(id)
    case Enabled => Inactive(id)
    case OnPlatform => PlatformUnsupported(id)
    case Privileged => PrivilegeMissing(id)
    case WithRule => NoRelatedRule(id)
    case Permitted => Unsafe(id)
  }

  /** The first check a validator fails decides the error. */
  lemma GateRefused(reg: Registry, at: Setting, explicit: set<Id>, id: Id, check: GateCheck)
    requires !GatePasses(reg, at, id in explicit, id, check)
    requires forall earlier :: Place(earlier) < Place(check) ==> GatePasses(reg, at, id in explicit, id, earlier)
    ensures Gate(reg, at, explicit, id) == Some(GateRefusal(id, check))
  {
    hide Lit;
    assert Place(check) > 0 ==> GatePasses(reg, at, id in explicit, id, Registered);
    assert Place(check) > 1 ==> GatePasses(reg, at, id in explicit, id, Enabled);
    assert Place(check) > 2 ==> GatePasses(reg, at, id in explicit, id, OnPlatform);
    assert Place(check) > 3 ==> GatePasses(reg, at, id in explicit, id, Privileged);
    assert Place(check) > 4 ==> GatePasses(reg, at, id in explicit, id, WithRule);
  }

  lemma GateExact(reg: Registry, at: Setting, explicit: set<Id>, id: Id)
    ensures Gate(reg, at, explicit, id).None? <==> forall check :: GatePasses(reg, at, id in explicit, id, check)
  {
    hide Lit;
    if forall check :: GatePasses(reg, at, id in explicit, id, check) {
      assert GatePasses(reg, at, id in explicit, id, Registered) && GatePasses(reg, at, id in explicit, id, Enabled);
      assert GatePasses(reg, at, id in explicit, id, OnPlatform);
      assert GatePasses(reg, at, id in explicit, id, Privileged);
      assert GatePasses(reg, at, id in explicit, id, WithRule) && GatePasses(reg, at, id in explicit, id, Permitted);
    }
  }

  // ----- the validators involved

  predicate Root(reg: Registry, profile: Option<Text>, requested: seq<Id>, id: Id) {
    Chosen(reg, profile, requested, id) || (id == AGGREGATE && Chosen(reg, profile, requested, DEEP))
  }

  /** Chosen, brought along by the deep validator, or required by one that is involved. */
  ghost predicate Involved(reg: Registry, profile: Option<Text>, requested: seq<Id>, v: Id) {
    exists p :: Walk(reg, p) && Root(reg, profile, requested, p[0]) && p[|p| - 1] == v
  }

  lemma InvolvedIs(reg: Registry, profile: Option<Text>, requested: seq<Id>, selected: seq<Id>, v: Id)
    requires forall id :: id in selected <==> Chosen(reg, profile, requested, id)
    ensures Reached(reg, Start(selected), v) <==> Involved(reg, profile, requested, v)
  {
    hide Chosen, Lit;
    forall id
      ensures id in Start(selected) <==> Root(reg, profile, requested, id)
    {
    }
    if Reached(reg, Start(selected), v) {
      var p :| Walk(reg, p) && p[0] in Start(selected) && p[|p| - 1] == v;
      assert Root(reg, profile, requested, p[0]);
    }
    if Involved(reg, profile, requested, v) {
      var p :| Walk(reg, p) && Root(reg, profile, requested, p[0]) && p[|p| - 1] == v;
      assert p[0] in Start(selected);
    }
  }

  /** Every dependency named is registered, every required one also ACTIVE and within the profile. */
  ghost predicate DependenciesSound(reg: Registry, profile: Option<Text>, v: Id) {
    v in reg ==>
      && (forall d :: d in reg[v].optional ==> d in reg)
      && forall d :: d in reg[v].dependsOn ==>
           && d in reg && reg[d].status == Active
           && (Restricts(profile) && KnownProfile(profile.value) ==> Admits(profile.value, reg[d].risk))
  }

  lemma FaultyIs(reg: Registry, profile: Option<Text>, v: Id)
    ensures Faulty(reg, AllowedRisks(profile), v) <==> !DependenciesSound(reg, profile, v)
  {
    hide Lit, ProfileRisks, KnownProfile, Admits;
    if Restricts(profile) {
      RisksAre(profile.value);
    }
    if v in reg {
      forall d
        ensures Requires(reg, v, d) <==> d in reg[v].dependsOn
      {
      }
    }
  }

  /** A walk along required dependencies that ends where it began. */
  ghost predicate Circle(reg: Registry, p: seq<Id>) { |p| >= 2 && Walk(reg, p) && p[0] == p[|p| - 1] }

  lemma CycleIs(reg: Registry, nodes: set<Id>)
    requires Closed(reg, nodes)
    ensures HasCycle(reg, nodes) <==> exists p :: Circle(reg, p) && p[0] in nodes
  {
    if HasCycle(reg, nodes) {
      var v :| Leads(reg, nodes, v, v);
      var p :| Trail(reg, nodes, p) && p[0] == v && p[|p| - 1] == v;
      forall i | 0 <= i < |p| - 1
        ensures Requires(reg, p[i], p[i + 1])
      {
        assert Edge(reg, nodes, p[i], p[i + 1]);
      }
      assert Circle(reg, p);
    }
    if p :| Circle(reg, p) && p[0] in nodes {
      forall i | 0 <= i < |p| - 1
        ensures Edge(reg, nodes, p[i], p[i + 1])
      {
        WalkStays(reg, nodes, p, i + 1);
        assert Requires(reg, p[i], p[i + 1]);
      }
      assert Trail(reg, nodes, p);
      assert Leads(reg, nodes, p[0], p[0]);
    }
  }

  // ----- timeouts

  /** t is the least of the three bounds. */
  predicate LeastBound(t: nat, d: Definition, policy: Policy) {
    && t <= d.defaultTimeout && t <= d.maximumTimeout && t <= policy.defaultTimeout
    && (t == d.defaultTimeout || t == d.maximumTimeout || t == policy.defaultTimeout)
  }

  function Sum(parts: seq<nat>): nat { if parts == [] then 0 else parts[0] + Sum(parts[1..]) }

  lemma TimeoutIs(d: Definition, policy: Policy, t: nat)
    ensures LeastBound(t, d, policy) <==> t == Timeout(d, policy)
  {
  }

  lemma {:induction false} SumLast(parts: seq<nat>)
    requires parts != []
    ensures Sum(parts) == Sum(parts[..|parts| - 1]) + parts[|parts| - 1]
  {
    if |parts| > 1 {
      SumLast(parts[1..]);
      assert parts[1..][..|parts| - 2] == parts[..|parts| - 1][1..];
    }
  }

  lemma {:induction false} TotalIs(reg: Registry, at: Setting, plans: seq<ValidationPlan>, parts: seq<nat>)
    requires |parts| == |plans| && forall i :: 0 <= i < |plans| ==> parts[i] == plans[i].timeout
    ensures TotalTimeout(plans) == Sum(parts)
  {
    if plans != [] {
      SumLast(parts);
      TotalIs(reg, at, plans[..|plans| - 1], parts[..|plans| - 1]);
    }
  }

  lemma {:induction false} SumRemove(parts: seq<nat>, i: nat)
    requires i < |parts|
    ensures Sum(parts) == parts[i] + Sum(parts[..i] + parts[i + 1..])
  {
    if i == 0 {
      assert parts[..0] + parts[1..] == parts[1..];
    } else {
      SumRemove(parts[1..], i - 1);
      var rest := parts[..i] + parts[i + 1..];
      assert rest[1..] == parts[1..][..i - 1] + parts[1..][i..];
    }
  }

  /** parts are the timeouts of these validators. */
  ghost predicate Timed(reg: Registry, policy: Policy, ids: seq<Id>, parts: seq<nat>) {
    |parts| == |ids| && forall i :: 0 <= i < |ids| ==> ids[i] in reg && LeastBound(parts[i], reg[ids[i]], policy)
  }

  lemma RemoveOne<T>(b: seq<T>, j: nat)
    requires j < |b|
    ensures multiset(b[..j] + b[j + 1..]) == multiset(b) - multiset{b[j]}
  {
    assert b == b[..j] + [b[j]] + b[j + 1..];
  }

  lemma TimedRest(reg: Registry, policy: Policy, ids: seq<Id>, parts: seq<nat>, j: nat)
    requires Timed(reg, policy, ids, parts) && j < |ids|
    ensures Timed(reg, policy, ids[..j] + ids[j + 1..], parts[..j] + parts[j + 1..])
  {
    hide LeastBound;
  }

  lemma {:induction false} SumPermuted(reg: Registry, policy: Policy, a: seq<Id>, b: seq<Id>, p: seq<nat>, q: seq<nat>)
    requires multiset(a) == multiset(b) && Timed(reg, policy, a, p) && Timed(reg, policy, b, q)
    ensures Sum(p) == Sum(q)
    decreases |a|
  {
    PermutationHeads(a, b);
    if a == [] {
    } else {
      var j :| 0 <= j < |b| && b[j] == a[0];
      assert p[0] == q[j] by {
        hide Sum;
        TimeoutIs(reg[a[0]], policy, p[0]);
        TimeoutIs(reg[b[j]], policy, q[j]);
      }
      hide Timed, LeastBound;
      SumRemove(p, 0);
      SumRemove(q, j);
      RemoveOne(a, 0);
      RemoveOne(b, j);
      TimedRest(reg, policy, a, p, 0);
      TimedRest(reg, policy, b, q, j);
      SumPermuted(reg, policy, a[..0] + a[1..], b[..j] + b[j + 1..], p[..0] + p[1..], q[..j] + q[j + 1..]);
    }
  }

  // ----- planning

  /** ids lists the validators involved, each once. */
  ghost predicate ListsInvolved(reg: Registry, profile: Option<Text>, requested: seq<Id>, ids: seq<Id>) {
    && (forall i, j :: 0 <= i < j < |ids| ==> ids[i] != ids[j])
    && forall v :: v in ids <==> Involved(reg, profile, requested, v)
  }

  /** Everything planning asks of a request, of what is involved and of its timeouts. */
  ghost predicate Plannable(reg: Registry, at: Setting, requested: seq<Id>, ids: seq<Id>, parts: seq<nat>) {
    && Selectable(reg, at.profile, requested)
    && (forall v :: Involved(reg, at.profile, requested, v) ==> DependenciesSound(reg, at.profile, v))
    && (forall p :: Circle(reg, p) ==> !Involved(reg, at.profile, requested, p[0]))
    && (at.assessmentId.Some? ==> at.authorization.assessmentId == at.assessmentId.value)
    && at.device in at.authorization.devices
    && (forall v :: Involved(reg, at.profile, requested, v) ==>
          v in at.authorization.validators
          && forall check :: GatePasses(reg, at, Chosen(reg, at.profile, requested, v), v, check))
    && ListsInvolved(reg, at.profile, requested, ids) && |ids| <= at.policy.maximumValidators
    && Timed(reg, at.policy, ids, parts) && Sum(parts) <= at.policy.maximumDuration
  }

  lemma ClosureInvolved(reg: Registry, profile: Option<Text>, requested: seq<Id>, selected: seq<Id>, v: Id)
    requires Selection(reg, profile, requested) == Success(selected)
    ensures v in Closure(reg, Start(selected)) <==> Involved(reg, profile, requested, v)
    ensures v in selected <==> Chosen(reg, profile, requested, v)
  {
    hide Selection, Closure, Involved, Reached, Chosen;
    SelectionExact(reg, profile, requested);
    ReachedMember(reg, Start(selected), v);
    InvolvedIs(reg, profile, requested, selected, v);
  }

  /** The stages before the gates. */
  ghost predicate Staged(reg: Registry, at: Setting, selected: seq<Id>) {
    var closure := Closure(reg, Start(selected));
    && selected != [] && Expandable(reg, AllowedRisks(at.profile), selected)
    && |SortedIds(closure)| <= at.policy.maximumValidators && InScope(at, SortedIds(closure))
    && closure <= reg.Keys && !HasCycle(reg, closure)
  }

  lemma PlanStages(reg: Registry, at: Setting, runId: Text, requested: seq<Id>)
    ensures var r, selection := PlanOf(reg, at, runId, requested), Selection(reg, at.profile, requested);
            r.Success? <==>
              && selection.Success? && Staged(reg, at, selection.value)
              && var order := Order(reg, SortedIds(Closure(reg, Start(selection.value))));
                 order.Success? && Gated(reg, at, runId, Ids(selection.value), order.value).Success?
  {
    hide Selection, Expandable, Closure, Order, Gated, InScope, HasCycle, Start;
    var selection := Selection(reg, at.profile, requested);
    if selection.Success? {
      var closure := Closure(reg, Start(selection.value));
      OrderCorrect(reg, SortedIds(closure));
      assert Ids(SortedIds(closure)) == closure;
    }
  }

  lemma StagedIs(reg: Registry, at: Setting, requested: seq<Id>, selected: seq<Id>, ids: seq<Id>)
    requires Selection(reg, at.profile, requested) == Success(selected) && selected != []
    requires ListsInvolved(reg, at.profile, requested, ids) && forall v :: v in ids ==> v in reg
    ensures Staged(reg, at, selected) <==>
              && (forall v :: Involved(reg, at.profile, requested, v) ==> DependenciesSound(reg, at.profile, v))
              && (forall p :: Circle(reg, p) ==> !Involved(reg, at.profile, requested, p[0]))
              && (at.assessmentId.Some? ==> at.authorization.assessmentId == at.assessmentId.value)
              && at.device in at.authorization.devices
              && (forall v :: Involved(reg, at.profile, requested, v) ==> v in at.authorization.validators)
              && |ids| <= at.policy.maximumValidators
  {
    hide Selection, Closure, Involved, Chosen, DependenciesSound, Faulty, Circle, HasCycle, Reached;
    var closure := Closure(reg, Start(selected));
    forall v
      ensures v in closure <==> Involved(reg, at.profile, requested, v)
      ensures Reached(reg, Start(selected), v) <==> Involved(reg, at.profile, requested, v)
      ensures Faulty(reg, AllowedRisks(at.profile), v) <==> !DependenciesSound(reg, at.profile, v)
    {
      ClosureInvolved(reg, at.profile, requested, selected, v);
      ReachedMember(reg, Start(selected), v);
      FaultyIs(reg, at.profile, v);
    }
    ClosureLeast(reg, Start(selected), {});
    CycleIs(reg, closure);
    assert Lists(closure, ids);
    ListsPermutation(closure, ids, SortedIds(closure));
    PermutedMembers(ids, SortedIds(closure));
    assert Expandable(reg, AllowedRisks(at.profile), selected) <==>
           forall v :: Involved(reg, at.profile, requested, v) ==> DependenciesSound(reg, at.profile, v);
    CircleStarts(reg);
    assert HasCycle(reg, closure) <==> exists p :: Circle(reg, p) && p[0] in closure;
    assert closure <= reg.Keys;
  }

  lemma CircleStarts(reg: Registry)
    ensures forall p :: Circle(reg, p) ==> p != []
  {
  }

  /** The gates of a list of validators all open, and their timeouts fit. */
  lemma GatedIs(reg: Registry, at: Setting, runId: Text, explicit: set<Id>, ordered: seq<Id>, parts: seq<nat>)
    requires Timed(reg, at.policy, ordered, parts)
    ensures Gated(reg, at, runId, explicit, ordered).Success? <==>
              && (forall id, check :: id in ordered ==> GatePasses(reg, at, id in explicit, id, check))
              && Sum(parts) <= at.policy.maximumDuration
  {
    hide Gate, GatePasses, Lit, LeastBound, Timeout;
    forall id
      ensures Gate(reg, at, explicit, id).None? <==> forall check :: GatePasses(reg, at, id in explicit, id, check)
    {
      GateExact(reg, at, explicit, id);
    }
    assert forall id :: id in ordered ==> id in reg;
    var plans := Plans(reg, at, runId, ordered);
    forall i | 0 <= i < |plans|
      ensures parts[i] == plans[i].timeout
    {
      TimeoutIs(reg[ordered[i]], at.policy, parts[i]);
    }
    TotalIs(reg, at, plans, parts);
  }

  function Timeouts(reg: Registry, policy: Policy, ids: seq<Id>): (parts: seq<nat>)
    requires forall id :: id in ids ==> id in reg
    ensures Timed(reg, policy, ids, parts)
  {
    seq(|ids|, i requires 0 <= i < |ids| => Timeout(reg[ids[i]], policy))
  }

  lemma OrderedLists(reg: Registry, profile: Option<Text>, requested: seq<Id>, selected: seq<Id>, ordered: seq<Id>)
    requires Selection(reg, profile, requested) == Success(selected)
    requires Order(reg, SortedIds(Closure(reg, Start(selected)))) == Success(ordered)
    ensures ListsInvolved(reg, profile, requested, ordered) && forall v :: v in ordered ==> v in reg
  {
    hide Selection, Closure, Order, Involved, HasCycle;
    var closure := Closure(reg, Start(selected));
    OrderCorrect(reg, SortedIds(closure));
    assert Ids(SortedIds(closure)) == closure;
    forall v
      ensures v in ordered <==> Involved(reg, profile, requested, v)
    {
      ClosureInvolved(reg, profile, requested, selected, v);
    }
  }

  /** A list of those involved in another order has the same sum. */
  lemma SameSum(reg: Registry, at: Setting, requested: seq<Id>, a: seq<Id>, b: seq<Id>, p: seq<nat>, q: seq<nat>)
    requires ListsInvolved(reg, at.profile, requested, a) && ListsInvolved(reg, at.profile, requested, b)
    requires Timed(reg, at.policy, a, p) && Timed(reg, at.policy, b, q)
    ensures Sum(p) == Sum(q) && |a| == |b|
  {
    hide Involved, LeastBound, Timed;
    ListsPermutation(Ids(a), a, b);
    PermutedMembers(a, b);
    SumPermuted(reg, at.policy, a, b, p, q);
  }

  lemma GatesInvolved(reg: Registry, at: Setting, requested: seq<Id>, selected: seq<Id>, ordered: seq<Id>)
    requires Selection(reg, at.profile, requested) == Success(selected)
    requires ListsInvolved(reg, at.profile, requested, ordered)
    ensures (forall id, check :: id in ordered ==> GatePasses(reg, at, id in Ids(selected), id, check)) <==>
            forall v, check :: Involved(reg, at.profile, requested, v) ==>
              GatePasses(reg, at, Chosen(reg, at.profile, requested, v), v, check)
  {
    hide Selection, Involved, Chosen, GatePasses;
    SelectionExact(reg, at.profile, requested);
    forall id, check
      ensures GatePasses(reg, at, id in Ids(selected), id, check)
           == GatePasses(reg, at, Chosen(reg, at.profile, requested, id), id, check)
    {
      assert id in Ids(selected) <==> Chosen(reg, at.profile, requested, id);
    }
  }

  /** Planning succeeds exactly when what is chosen is admitted, everything involved has sound
      dependencies, no circle, scope and every gate open, and their number and the sum of their
      timeouts, each the least of its three bounds, are within the policy. */
  lemma PlanExact(reg: Registry, at: Setting, runId: Text, requested: seq<Id>)
    ensures PlanOf(reg, at, runId, requested).Success? <==>
              exists ids, parts :: Plannable(reg, at, requested, ids, parts)
  {
    hide PlanOf, Selectable, Selection, Staged, Closure, Order, Gated, Involved, Chosen, DependenciesSound, Circle;
    hide GatePasses, LeastBound, Timed, ListsInvolved, Timeout;
    PlanStages(reg, at, runId, requested);
    SelectionExact(reg, at.profile, requested);
    if PlanOf(reg, at, runId, requested).Success? {
      var ids := PlannedIds(reg, at, runId, requested);
      var parts := Timeouts(reg, at.policy, ids);
      PlannedPlannable(reg, at, runId, requested, ids, parts);
    }
    if ids, parts :| Plannable(reg, at, requested, ids, parts) {
      PlannablePlanned(reg, at, runId, requested, ids, parts);
    }
  }

  /** The validators in the order they are planned in. */
  lemma PlannedIds(reg: Registry, at: Setting, runId: Text, requested: seq<Id>) returns (ids: seq<Id>)
    requires PlanOf(reg, at, runId, requested).Success?
    ensures Selection(reg, at.profile, requested).Success?
    ensures var selected := Selection(reg, at.profile, requested).value;
            && Staged(reg, at, selected) && Order(reg, SortedIds(Closure(reg, Start(selected)))) == Success(ids)
            && PlanOf(reg, at, runId, requested) == Gated(reg, at, runId, Ids(selected), ids)
    ensures ListsInvolved(reg, at.profile, requested, ids) && forall v :: v in ids ==> v in reg
  {
    hide Selection, Staged, Closure, Order, Gated, ListsInvolved, Expandable, InScope;
    PlanStages(reg, at, runId, requested);
    var selected := Selection(reg, at.profile, requested).value;
    ids := Order(reg, SortedIds(Closure(reg, Start(selected)))).value;
    OrderedLists(reg, at.profile, requested, selected, ids);
  }

  lemma PlannedPlannable(reg: Registry, at: Setting, runId: Text, requested: seq<Id>, ids: seq<Id>, parts: seq<nat>)
    requires Selection(reg, at.profile, requested).Success?
    requires var selected := Selection(reg, at.profile, requested).value;
             && Staged(reg, at, selected) && Gated(reg, at, runId, Ids(selected), ids).Success?
    requires ListsInvolved(reg, at.profile, requested, ids) && forall v :: v in ids ==> v in reg
    requires Timed(reg, at.policy, ids, parts)
    ensures Plannable(reg, at, requested, ids, parts)
  {
    hide Selectable, Selection, Closure, Gated, Involved, Chosen, DependenciesSound, Circle, Expandable, InScope;
    hide GatePasses, LeastBound, Timed, ListsInvolved, HasCycle;
    var selected := Selection(reg, at.profile, requested).value;
    SelectionExact(reg, at.profile, requested);
    StagedIs(reg, at, requested, selected, ids);
    GatedIs(reg, at, runId, Ids(selected), ids, parts);
    GatesInvolved(reg, at, requested, selected, ids);
  }

  lemma PlannablePlanned(reg: Registry, at: Setting, runId: Text, requested: seq<Id>, ids: seq<Id>, parts: seq<nat>)
    requires Plannable(reg, at, requested, ids, parts)
    ensures PlanOf(reg, at, runId, requested).Success?
  {
    hide PlanOf, Selectable, Selection, Closure, Order, Gated, Involved, Chosen, DependenciesSound, Circle;
    hide GatePasses, LeastBound, ListsInvolved, HasCycle, Expandable, InScope;
    SelectionExact(reg, at.profile, requested);
    PlanStages(reg, at, runId, requested);
    var selected := Selection(reg, at.profile, requested).value;
    var closure := Closure(reg, Start(selected));
    assert forall v :: v in ids ==> v in reg;
    StagedIs(reg, at, requested, selected, ids);
    OrderCorrect(reg, SortedIds(closure));
    assert Ids(SortedIds(closure)) == closure;
    var ordered := Order(reg, SortedIds(closure)).value;
    OrderedLists(reg, at.profile, requested, selected, ordered);
    var times := Timeouts(reg, at.policy, ordered);
    SameSum(reg, at, requested, ids, ordered, parts, times);
    GatedIs(reg, at, runId, Ids(selected), ordered, times);
    GatesInvolved(reg, at, requested, selected, ordered);
  }

  /** The plans are those of the validators involved, in an order in which what one requires comes
      before it; each repeats its registry entry, is numbered from one, and has the least of its
      three bounds as its timeout. */
  lemma PlansExact(reg: Registry, at: Setting, runId: Text, requested: seq<Id>) returns (ids: seq<Id>)
    requires PlanOf(reg, at, runId, requested).Success?
    ensures ListsInvolved(reg, at.profile, requested, ids)
    ensures forall i, d :: 0 <= i < |ids| && ids[i] in reg && d in reg[ids[i]].dependsOn ==> d in ids[..i]
    ensures var plans := PlanOf(reg, at, runId, requested).value;
            && |plans| == |ids|
            && forall i :: 0 <= i < |plans| ==>
                 && ids[i] in reg && LeastBound(plans[i].timeout, reg[ids[i]], at.policy)
                 && plans[i] == ValidationPlan(
                      runId := runId, validatorId := ids[i], version := reg[ids[i]].version,
                      timeout := plans[i].timeout, risk := reg[ids[i]].risk,
                      requiresRollback := reg[ids[i]].requiresRollback,
                      temporaryPrefix := Lit("CSA-VALIDATION-") + runId, sequence := i + 1, profile := at.profile)
  {
    hide PlanOf, Selection, Staged, Closure, Order, ListsInvolved, Lit, Gate;
    ids := PlannedIds(reg, at, runId, requested);
    var selected, plans := Selection(reg, at.profile, requested).value, PlanOf(reg, at, runId, requested).value;
    forall i, d | 0 <= i < |ids| && ids[i] in reg && d in reg[ids[i]].dependsOn
      ensures d in ids[..i]
    {
      OrderRespects(reg, SortedIds(Closure(reg, Start(selected))), ids, i, d, selected);
    }
  }

  ghost predicate AllInvolved(reg: Registry, profile: Option<Text>, requested: seq<Id>, nodes: set<Id>) {
    forall v :: v in nodes <==> Involved(reg, profile, requested, v)
  }

  /** The plan of u comes before the plan of v. */
  ghost predicate PlannedBefore(plans: seq<ValidationPlan>, u: Id, v: Id) {
    exists i, j :: 0 <= i < j < |plans| && plans[i].validatorId == u && plans[j].validatorId == v
  }

  /** Everyone involved has a path: from the least of those involved that require it, by execution order
      and then by ID, and on in the same way. Of two validators the one planned first is the one whose
      path is smaller where they part, or goes on. */
  lemma PlannedInOrder(reg: Registry, at: Setting, runId: Text, requested: seq<Id>, nodes: set<Id>, u: Id, v: Id)
    returns (p: seq<Id>, q: seq<Id>)
    requires PlanOf(reg, at, runId, requested).Success? && AllInvolved(reg, at.profile, requested, nodes)
    requires u in nodes && v in nodes && u != v
    ensures Guide(reg, nodes, nodes, p, u) && Guide(reg, nodes, nodes, q, v)
    ensures PlannedBefore(PlanOf(reg, at, runId, requested).value, u, v) <==> Earlier(reg, p, q)
  {
    hide Gated, Involved, Guide, Earlier, Order, Closure, Selection, Staged, PlanOf;
    var ids := PlannedIds(reg, at, runId, requested);
    var selected := Selection(reg, at.profile, requested).value;
    var resolved := SortedIds(Closure(reg, Start(selected)));
    forall x
      ensures x in Closure(reg, Start(selected)) <==> Involved(reg, at.profile, requested, x)
    {
      ClosureInvolved(reg, at.profile, requested, selected, x);
    }
    assert Ids(resolved) == nodes;
    p := OrderGuides(reg, resolved, u);
    q := OrderGuides(reg, resolved, v);
    OrderExactly(reg, resolved, u, v, p, q);
    GatedNames(reg, at, runId, Ids(selected), ids);
    BeforeNamed(PlanOf(reg, at, runId, requested).value, ids, u, v);
  }

  lemma BeforeNamed(plans: seq<ValidationPlan>, ids: seq<Id>, u: Id, v: Id)
    requires |plans| == |ids| && forall i :: 0 <= i < |ids| ==> plans[i].validatorId == ids[i]
    ensures PlannedBefore(plans, u, v) <==> Before(ids, u, v)
  {
  }

  /** So if whatever is required has the smaller execution order, or the same and the smaller ID, the
      plans are in the order of these. */
  lemma PlannedByKey(reg: Registry, at: Setting, runId: Text, requested: seq<Id>)
    requires PlanOf(reg, at, runId, requested).Success?
    requires forall v, d :: Involved(reg, at.profile, requested, v) && Requires(reg, v, d) ==> KeyBefore(reg, d, v)
    ensures var plans := PlanOf(reg, at, runId, requested).value;
            forall i, j :: 0 <= i < j < |plans| ==> KeyBefore(reg, plans[i].validatorId, plans[j].validatorId)
  {
    hide Gated, Involved, Order, Closure, Selection, Staged, PlanOf, KeyBefore, Less;
    var ids := PlannedIds(reg, at, runId, requested);
    var selected := Selection(reg, at.profile, requested).value;
    var nodes := Closure(reg, Start(selected));
    var resolved := SortedIds(nodes);
    assert Ids(resolved) == nodes;
    forall v, d | v in nodes && Edge(reg, nodes, v, d)
      ensures Less(ExecutionKey(reg)(d), ExecutionKey(reg)(v))
    {
      ClosureInvolved(reg, at.profile, requested, selected, v);
      KeyBeforeIs(reg, d, v);
    }
    forall v | v in nodes
      ensures v in reg
    {
      ClosureInvolved(reg, at.profile, requested, selected, v);
      assert v in ids;
    }
    OrderIsSort(reg, resolved);
    SortBySorted(ExecutionKey(reg), resolved);
    GatedNames(reg, at, runId, Ids(selected), ids);
    forall i, j | 0 <= i < j < |ids|
      ensures KeyBefore(reg, ids[i], ids[j])
    {
      KeysTotal(reg, ids[i], ids[j]);
      KeyBeforeIs(reg, ids[j], ids[i]);
    }
  }

  lemma GatedNames(reg: Registry, at: Setting, runId: Text, explicit: set<Id>, ordered: seq<Id>)
    requires Gated(reg, at, runId, explicit, ordered).Success?
    ensures var plans := Gated(reg, at, runId, explicit, ordered).value;
            |plans| == |ordered| && forall i :: 0 <= i < |ordered| ==> plans[i].validatorId == ordered[i]
  {
    hide Gate;
  }

  lemma OrderRespects(reg: Registry, resolved: seq<Id>, ids: seq<Id>, i: nat, d: Id, selected: seq<Id>)
    requires resolved == SortedIds(Closure(reg, Start(selected))) && Order(reg, resolved) == Success(ids)
    requires i < |ids| && ids[i] in reg && d in reg[ids[i]].dependsOn
    ensures d in ids[..i]
  {
    hide Closure, Order, HasCycle;
    var closure := Closure(reg, Start(selected));
    OrderCorrect(reg, resolved);
    assert Ids(resolved) == closure;
    ClosureLeast(reg, Start(selected), {});
    assert ids[i] in closure;
    assert Requires(reg, ids[i], d);
    assert DependenciesIn(reg, closure, ids[i], ids[..i]);
  }

  // ----- which error is raised

  /** The errors before the gates, each in the fields that bring it about. */
  lemma EarlyErrors(reg: Registry, at: Setting, runId: Text, requested: seq<Id>)
    ensures var r := PlanOf(reg, at, runId, requested);
            && (Restricts(at.profile) && !KnownProfile(at.profile.value) ==> r == Failure(UnknownProfile))
            && (!Restricts(at.profile) && Lit("VAL-RESPONDER-DEEP-001") in requested ==>
                  r == Failure(DeepProfileRequired))
            && (!Restricts(at.profile) && requested == [] ==> r == Failure(EmptySelection))
            && (Selectable(reg, at.profile, requested)
                && (exists v :: Involved(reg, at.profile, requested, v) && !DependenciesSound(reg, at.profile, v)) ==>
                  r == Failure(Unresolvable))
  {
    hide Expandable, Closure, Order, Gated, Involved, DependenciesSound, Faulty, Reached, Chosen, Selectable;
    SelectionExact(reg, at.profile, requested);
    var selection := Selection(reg, at.profile, requested);
    if Restricts(at.profile) {
      RisksAre(at.profile.value);
    }
    if Selectable(reg, at.profile, requested) {
      UnsoundFaulty(reg, at, requested, selection.value);
    }
  }

  lemma UnsoundFaulty(reg: Registry, at: Setting, requested: seq<Id>, selected: seq<Id>)
    requires Selection(reg, at.profile, requested) == Success(selected)
    ensures Expandable(reg, AllowedRisks(at.profile), selected) <==>
            forall v :: Involved(reg, at.profile, requested, v) ==> DependenciesSound(reg, at.profile, v)
  {
    hide Selection, Closure, Involved, Chosen, DependenciesSound, Faulty, Reached;
    SelectionExact(reg, at.profile, requested);
    forall v
      ensures Reached(reg, Start(selected), v) <==> Involved(reg, at.profile, requested, v)
      ensures Faulty(reg, AllowedRisks(at.profile), v) <==> !DependenciesSound(reg, at.profile, v)
    {
      InvolvedIs(reg, at.profile, requested, selected, v);
      FaultyIs(reg, at.profile, v);
    }
  }
}
