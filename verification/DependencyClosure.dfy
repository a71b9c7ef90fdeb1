/** Expansion of a selection along required dependencies. */
module DependencyClosure {
  import opened Wrappers
  import opened Ordering
  import opened TextSets
  import opened Unicode
  import opened ValidatorRegistry

  const DEEP_VALIDATOR: Id := Lit("VAL-RESPONDER-DEEP-001")
  const RESPONDER_AGGREGATE: Id := Lit("VAL-RESPONDER-EXPOSURE-001")

  datatype Fault =
    | UnknownOptional(validator: Id, dependency: Id)
    | UnknownDependency(validator: Id, dependency: Id)
    | NotActive(validator: Id, dependency: Id)
    | RiskEscalation(validator: Id, dependency: Id)

  /** The selection, with the aggregate when the deep validator is in it. */
  function Start(selected: seq<Id>): set<Id> {
    var s := Ids(selected);
    if DEEP_VALIDATOR in s then s + {RESPONDER_AGGREGATE} else s
  }

  /** risks is None when no profile restricts the run. */
  predicate Refused(reg: Registry, risks: Option<set<Risk>>, d: Id) {
    d !in reg || reg[d].status != Active || (risks.Some? && reg[d].risk !in risks.value)
  }

  /** v itself is registered and something it names is not acceptable. */
  ghost predicate Faulty(reg: Registry, risks: Option<set<Risk>>, v: Id) {
    && v in reg
    && ((exists d :: d in reg[v].optional && d !in reg) || (exists d :: Requires(reg, v, d) && Refused(reg, risks, d)))
  }

  /** The fault is really there. */
  predicate Explains(reg: Registry, risks: Option<set<Risk>>, f: Fault) {
    f.validator in reg &&
    match f
    case UnknownOptional(v, d) => d in reg[v].optional && d !in reg
    case UnknownDependency(v, d) => d in reg[v].dependsOn && d !in reg
    case NotActive(v, d) => d in reg[v].dependsOn && d in reg && reg[d].status != Active
    case RiskEscalation(v, d) => d in reg[v].dependsOn && d in reg && risks.Some? && reg[d].risk !in risks.value
  }

  lemma ExplainsFaulty(reg: Registry, risks: Option<set<Risk>>, f: Fault)
    requires Explains(reg, risks, f)
    ensures Faulty(reg, risks, f.validator)
  {
    if !f.UnknownOptional? {
      assert Requires(reg, f.validator, f.dependency) && Refused(reg, risks, f.dependency);
    }
  }

  /** The loop over the optional dependencies of one validator. */
  method CheckOptional(reg: Registry, v: Id) returns (fault: Option<Fault>)
    requires v in reg
    ensures fault.None? ==> forall d :: d in reg[v].optional ==> d in reg
    ensures fault.Some? ==> fault.value.UnknownOptional? && fault.value.validator == v
    ensures fault.Some? ==> fault.value.dependency in reg[v].optional && fault.value.dependency !in reg
  {
    var ids := reg[v].optional;
    for i := 0 to |ids|
      invariant forall k :: 0 <= k < i ==> ids[k] in reg
    {
      if ids[i] !in reg {
        return Some(UnknownOptional(v, ids[i]));
      }
    }
    fault := None;
  }

  /** The loop over the required dependencies of one validator: what it resolves and queues
      anew, or the fault that stops it. */
  method CheckRequired(reg: Registry, risks: Option<set<Risk>>, v: Id, resolved: set<Id>, queue: seq<Id>)
    returns (fault: Option<Fault>, resolved': set<Id>, queue': seq<Id>)
    requires v in reg
    ensures fault.Some? ==> Explains(reg, risks, fault.value) && fault.value.validator == v
    ensures fault.None? ==> forall d :: Requires(reg, v, d) ==> !Refused(reg, risks, d) && d in resolved'
    ensures resolved <= resolved' && |queue| <= |queue'| && queue'[..|queue|] == queue
    ensures forall d :: d in resolved' - resolved ==> Requires(reg, v, d) && d in reg && d in queue'
    ensures forall d :: d in queue' ==> d in queue || d in resolved' - resolved
    ensures resolved' == resolved ==> queue' == queue
  {
    var ids := reg[v].dependsOn;
    resolved', queue', fault := resolved, queue, None;
    for i := 0 to |ids|
      invariant forall k :: 0 <= k < i ==> !Refused(reg, risks, ids[k]) && ids[k] in resolved'
      invariant resolved <= resolved' && |queue| <= |queue'| && queue'[..|queue|] == queue
      invariant forall d :: d in resolved' - resolved ==> d in ids && d in reg && d in queue'
      invariant forall d :: d in queue' ==> d in queue || d in resolved' - resolved
      invariant resolved' == resolved ==> queue' == queue
    {
      var d := ids[i];
      if d !in reg {
        fault := Some(UnknownDependency(v, d));
        return;
      }
      if reg[d].status != Active {
        fault := Some(NotActive(v, d));
        return;
      }
      if risks.Some? && reg[d].risk !in risks.value {
        fault := Some(RiskEscalation(v, d));
        return;
      }
      if d !in resolved' {
        resolved' := resolved' + {d};
        queue' := queue' + [d];
      }
    }
  }

  /** No member of the closure is faulty, or the expansion fails at one that is. */
  ghost predicate Expandable(reg: Registry, risks: Option<set<Risk>>, selected: seq<Id>) {
    forall v :: Reached(reg, Start(selected), v) ==> !Faulty(reg, risks, v)
  }

  /** What has been taken off the queue has been looked at. */
  ghost predicate Processed(reg: Registry, risks: Option<set<Risk>>, resolved: set<Id>, v: Id) {
    !Faulty(reg, risks, v) && forall d :: Requires(reg, v, d) ==> d in resolved
  }

  lemma ReachedAll(reg: Registry, start: set<Id>, v: Id, more: set<Id>)
    requires Reached(reg, start, v) && forall d :: d in more ==> Requires(reg, v, d)
    ensures forall d :: d in more ==> Reached(reg, start, d)
  {
    forall d | d in more
      ensures Reached(reg, start, d)
    {
      ReachedStep(reg, start, v, d);
    }
  }

  /** Between two turns of the loop: everything resolved is reached, and everything resolved
      but no longer queued has been looked at. */
  ghost predicate Progress(reg: Registry, risks: Option<set<Risk>>, start: set<Id>, resolved: set<Id>, queue: seq<Id>) {
    && start <= resolved
    && (forall v :: v in queue ==> v in resolved)
    && (forall v :: v in resolved ==> Reached(reg, start, v))
    && (forall v :: v in resolved && v !in queue ==> Processed(reg, risks, resolved, v))
  }

  lemma ProgressStarts(reg: Registry, risks: Option<set<Risk>>, start: set<Id>, queue: seq<Id>)
    requires Lists(start, queue)
    ensures Progress(reg, risks, start, start, queue)
  {
    forall v | v in start
      ensures Reached(reg, start, v)
    {
      ReachedStart(reg, start, v);
    }
  }

  lemma ProgressContinues(reg: Registry, risks: Option<set<Risk>>, start: set<Id>, resolved: set<Id>,
                          rest: seq<Id>, v: Id, resolved': set<Id>, queue': seq<Id>)
    requires Progress(reg, risks, start, resolved, rest + [v])
    requires Processed(reg, risks, resolved', v)
    requires resolved <= resolved' && |rest| <= |queue'| && queue'[..|rest|] == rest
    requires forall d :: d in resolved' - resolved ==> Requires(reg, v, d) && d in queue'
    requires forall d :: d in queue' ==> d in rest || d in resolved' - resolved
    ensures Progress(reg, risks, start, resolved', queue')
  {
    hide Faulty, Reached;
    assert v in rest + [v];
    assert forall u :: u in queue'[..|rest|] ==> u in queue';
    ReachedAll(reg, start, v, resolved' - resolved);
    forall u | u in resolved' && u !in queue'
      ensures Processed(reg, risks, resolved', u)
    {
      if u != v {
        assert u in resolved && u !in rest + [v];
        assert Processed(reg, risks, resolved, u);
      }
    }
  }

  lemma ProgressEnds(reg: Registry, risks: Option<set<Risk>>, selected: seq<Id>, resolved: set<Id>)
    requires Progress(reg, risks, Start(selected), resolved, [])
    ensures resolved == Closure(reg, Start(selected)) && Expandable(reg, risks, selected)
  {
    hide Faulty, Reached;
    var start := Start(selected);
    assert forall v :: v in resolved ==> Processed(reg, risks, resolved, v);
    assert Closed(reg, resolved);
    ClosureLeast(reg, start, resolved);
    forall v | Reached(reg, start, v)
      ensures v in resolved && !Faulty(reg, risks, v)
    {
      ReachedMember(reg, start, v);
    }
    forall v | v in resolved
      ensures v in Closure(reg, start)
    {
      ReachedMember(reg, start, v);
    }
  }

  lemma FaultReached(reg: Registry, risks: Option<set<Risk>>, start: set<Id>, resolved: set<Id>, queue: seq<Id>,
                     f: Fault)
    requires Progress(reg, risks, start, resolved, queue) && Explains(reg, risks, f) && f.validator in queue
    ensures Reached(reg, start, f.validator) && Faulty(reg, risks, f.validator)
  {
    ExplainsFaulty(reg, risks, f);
  }

  /** One turn of the loop: an unregistered ID is passed over. */
  method CheckValidator(reg: Registry, risks: Option<set<Risk>>, v: Id, resolved: set<Id>, rest: seq<Id>)
    returns (fault: Option<Fault>, resolved': set<Id>, queue': seq<Id>)
    ensures fault.Some? ==> Explains(reg, risks, fault.value) && fault.value.validator == v
    ensures fault.None? ==> Processed(reg, risks, resolved', v)
    ensures resolved <= resolved' && |rest| <= |queue'| && queue'[..|rest|] == rest
    ensures forall d :: d in resolved' - resolved ==> Requires(reg, v, d) && d in reg && d in queue'
    ensures forall d :: d in queue' ==> d in rest || d in resolved' - resolved
    ensures resolved' == resolved ==> queue' == rest
  {
    if v !in reg {
      return None, resolved, rest;
    }
    fault := CheckOptional(reg, v);
    if fault.Some? {
      return fault, resolved, rest;
    }
    fault, resolved', queue' := CheckRequired(reg, risks, v, resolved, rest);
  }

  /** On success the sorted least closed set that holds the selection; failure exactly when
      a reached validator is faulty, whatever order the queue is filled in. */
  method ResolveDependencies(reg: Registry, risks: Option<set<Risk>>, selected: seq<Id>)
    returns (r: Result<seq<Id>, Fault>)
    ensures r.Success? <==> Expandable(reg, risks, selected)
    ensures r.Success? ==> r.value == SortedIds(Closure(reg, Start(selected)))
    ensures r.Failure? ==> Explains(reg, risks, r.error) && Reached(reg, Start(selected), r.error.validator)
  {
    hide Faulty, Reached, Progress, Closure;
    ghost var start := Start(selected);
    var resolved := Ids(selected);
    if DEEP_VALIDATOR in resolved {
      resolved := resolved + {RESPONDER_AGGREGATE};
    }
    assert resolved == start;
    var queue := ListOf(resolved);
    ProgressStarts(reg, risks, start, queue);
    while queue != []
      invariant Progress(reg, risks, start, resolved, queue)
      decreases reg.Keys - resolved, |queue|
    {
      var v, rest := queue[|queue| - 1], queue[..|queue| - 1];
      assert queue == rest + [v];
      var fault, resolved', queue' := CheckValidator(reg, risks, v, resolved, rest);
      if fault.Some? {
        FaultReached(reg, risks, start, resolved, queue, fault.value);
        return Failure(fault.value);
      }
      ProgressContinues(reg, risks, start, resolved, rest, v, resolved', queue');
      if resolved' != resolved {
        ghost var d :| d in resolved' && d !in resolved;
        assert d in reg.Keys - resolved && d !in reg.Keys - resolved';
      }
      resolved, queue := resolved', queue';
    }
    ProgressEnds(reg, risks, selected, resolved);
    var ids := ListOf(resolved);
    SortedIdsIs(resolved, ids);
    return Success(SortBy(BY_ID, ids));
  }
}
