/**
 The depth-first execution order: a functional account of the three-colour search, the
 search itself on mutable sets, and what the order it returns is.
 */
module DependencyOrder {
  import opened Wrappers
  import opened Ordering
  import opened TextSets
  import opened ValidatorRegistry

  datatype OrderError = CycleDetected | UnknownValidator(id: Id)

  /** What the search carries: IDs under way, IDs done, and the order built so far. */
  datatype Search = Search(temporary: set<Id>, permanent: set<Id>, order: seq<Id>)

  const EMPTY := Search({}, {}, [])

  function Restrict(ids: seq<Id>, nodes: set<Id>): (r: seq<Id>)
    ensures forall d :: d in r <==> d in ids && d in nodes
  {
    if ids == [] then []
    else if ids[0] in nodes then [ids[0]] + Restrict(ids[1..], nodes)
    else Restrict(ids[1..], nodes)
  }

  /** The required dependencies inside the selection, in execution order. */
  function Dependencies(reg: Registry, nodes: set<Id>, v: Id): (ids: seq<Id>)
    requires v in reg
    ensures forall d :: d in ids <==> Edge(reg, nodes, v, d)
  {
    SortByMembers(ExecutionKey(reg), Restrict(reg[v].dependsOn, nodes));
    SortBy(ExecutionKey(reg), Restrict(reg[v].dependsOn, nodes))
  }

  /** v requires d and d is selected. */
  predicate Edge(reg: Registry, nodes: set<Id>, v: Id, d: Id) { Requires(reg, v, d) && d in nodes }

  function Explore(reg: Registry, nodes: set<Id>, s: Search, v: Id): (r: Result<Search, OrderError>)
    requires v in nodes
    ensures r.Success? ==> r.value.temporary == s.temporary && s.permanent <= r.value.permanent
    decreases nodes - s.temporary - s.permanent, 0
  {
    if v in s.permanent then Success(s)
    else if v in s.temporary then Failure(CycleDetected)
    else if v !in reg then Failure(UnknownValidator(v))
    else
      var inside := s.(temporary := s.temporary + {v});
      assert v in nodes - s.temporary - s.permanent;
      var done :- ExploreAll(reg, nodes, inside, Dependencies(reg, nodes, v));
      Success(Search(done.temporary - {v}, done.permanent + {v}, done.order + [v]))
  }

  function ExploreAll(reg: Registry, nodes: set<Id>, s: Search, ids: seq<Id>): (r: Result<Search, OrderError>)
    requires forall v :: v in ids ==> v in nodes
    ensures r.Success? ==> r.value.temporary == s.temporary && s.permanent <= r.value.permanent
    decreases nodes - s.temporary - s.permanent, |ids|
  {
    if ids == [] then Success(s)
    else
      var t :- Explore(reg, nodes, s, ids[0]);
      ExploreAll(reg, nodes, t, ids[1..])
  }

  /** The whole search over a selection. */
  function Order(reg: Registry, selected: seq<Id>): Result<seq<Id>, OrderError> {
    var nodes := Ids(selected);
    SortByMembers(ExecutionKey(reg), selected);
    var s :- ExploreAll(reg, nodes, EMPTY, SortBy(ExecutionKey(reg), selected));
    Success(s.order)
  }

  // ----- what the order is

  /** Each entry's selected dependencies come before it. */
  predicate DependenciesFirst(reg: Registry, nodes: set<Id>, order: seq<Id>) {
    forall i :: 0 <= i < |order| ==> order[i] in reg && DependenciesIn(reg, nodes, order[i], order[..i])
  }

  predicate DependenciesIn(reg: Registry, nodes: set<Id>, v: Id, done: seq<Id>)
    requires v in reg
  {
    forall d :: d in reg[v].dependsOn && d in nodes ==> d in done
  }

  ghost predicate Consistent(reg: Registry, nodes: set<Id>, s: Search) {
    && NoDuplicates(s.order)
    && (forall v :: v in s.order <==> v in s.permanent)
    && s.permanent <= nodes && s.temporary !! s.permanent
    && DependenciesFirst(reg, nodes, s.order)
  }

  lemma {:induction false} ExploreConsistent(reg: Registry, nodes: set<Id>, s: Search, v: Id)
    requires v in nodes && Consistent(reg, nodes, s) && Explore(reg, nodes, s, v).Success?
    ensures Consistent(reg, nodes, Explore(reg, nodes, s, v).value) && v in Explore(reg, nodes, s, v).value.permanent
    decreases nodes - s.temporary - s.permanent, 0
  {
    if v !in s.permanent {
      var inside := s.(temporary := s.temporary + {v});
      assert v in nodes - s.temporary - s.permanent;
      var ids := Dependencies(reg, nodes, v);
      ExploreAllConsistent(reg, nodes, inside, ids);
      var done := ExploreAll(reg, nodes, inside, ids).value;
      assert DependenciesIn(reg, nodes, v, done.order) by {
        forall d | d in reg[v].dependsOn && d in nodes
          ensures d in done.order
        {
          assert Edge(reg, nodes, v, d);
        }
      }
      ConsistentAppend(reg, nodes, done, v);
    }
  }

  lemma ConsistentAppend(reg: Registry, nodes: set<Id>, done: Search, v: Id)
    requires v in nodes && v in reg && Consistent(reg, nodes, done) && v in done.temporary
    requires DependenciesIn(reg, nodes, v, done.order)
    ensures Consistent(reg, nodes, Search(done.temporary - {v}, done.permanent + {v}, done.order + [v]))
  {
    var order := done.order + [v];
    forall i | 0 <= i < |order|
      ensures order[i] in reg && DependenciesIn(reg, nodes, order[i], order[..i])
    {
      if i < |done.order| {
        assert order[..i] == done.order[..i];
      } else {
        assert order[..i] == done.order;
      }
    }
  }

  lemma {:induction false} ExploreAllConsistent(reg: Registry, nodes: set<Id>, s: Search, ids: seq<Id>)
    requires forall v :: v in ids ==> v in nodes
    requires Consistent(reg, nodes, s) && ExploreAll(reg, nodes, s, ids).Success?
    ensures var t := ExploreAll(reg, nodes, s, ids).value;
            Consistent(reg, nodes, t) && forall v :: v in ids ==> v in t.permanent
    decreases nodes - s.temporary - s.permanent, |ids|
  {
    if ids == [] {
    } else {
      ExploreConsistent(reg, nodes, s, ids[0]);
      ExploreAllConsistent(reg, nodes, Explore(reg, nodes, s, ids[0]).value, ids[1..]);
      assert forall v :: v in ids ==> v == ids[0] || v in ids[1..];
    }
  }

  // ----- failure means a cycle or an unregistered validator

  /** A walk of at least one edge inside the selection. */
  ghost predicate Trail(reg: Registry, nodes: set<Id>, p: seq<Id>) {
    |p| >= 2 && p[0] in nodes && forall i :: 0 <= i < |p| - 1 ==> Edge(reg, nodes, p[i], p[i + 1])
  }

  ghost predicate Leads(reg: Registry, nodes: set<Id>, u: Id, v: Id) {
    exists p :: Trail(reg, nodes, p) && p[0] == u && p[|p| - 1] == v
  }

  ghost predicate HasCycle(reg: Registry, nodes: set<Id>) { exists v :: Leads(reg, nodes, v, v) }

  lemma LeadsEdge(reg: Registry, nodes: set<Id>, u: Id, v: Id)
    requires u in nodes && Edge(reg, nodes, u, v)
    ensures Leads(reg, nodes, u, v)
  {
    assert Trail(reg, nodes, [u, v]);
  }

  lemma LeadsOn(reg: Registry, nodes: set<Id>, u: Id, v: Id, d: Id)
    requires Leads(reg, nodes, u, v) && Edge(reg, nodes, v, d)
    ensures Leads(reg, nodes, u, d)
  {
    var p :| Trail(reg, nodes, p) && p[0] == u && p[|p| - 1] == v;
    assert Trail(reg, nodes, p + [d]);
  }

  /** Why a search may fail. */
  ghost predicate Justified(reg: Registry, nodes: set<Id>, e: OrderError) {
    if e.CycleDetected? then HasCycle(reg, nodes) else e.id in nodes && e.id !in reg
  }

  /** The IDs under way lead to every ID about to be visited. */
  ghost predicate Stacked(reg: Registry, nodes: set<Id>, s: Search, v: Id) {
    forall t :: t in s.temporary ==> Leads(reg, nodes, t, v)
  }

  lemma {:induction false} ExploreJustified(reg: Registry, nodes: set<Id>, s: Search, v: Id)
    requires v in nodes && Stacked(reg, nodes, s, v) && Explore(reg, nodes, s, v).Failure?
    ensures Justified(reg, nodes, Explore(reg, nodes, s, v).error)
    decreases nodes - s.temporary - s.permanent, 0
  {
    if v !in s.temporary && v in reg {
      var inside := s.(temporary := s.temporary + {v});
      assert v in nodes - s.temporary - s.permanent;
      forall d | d in Dependencies(reg, nodes, v)
        ensures Stacked(reg, nodes, inside, d)
      {
        forall t | t in inside.temporary
          ensures Leads(reg, nodes, t, d)
        {
          if t == v {
            LeadsEdge(reg, nodes, v, d);
          } else {
            LeadsOn(reg, nodes, t, v, d);
          }
        }
      }
      ExploreAllJustified(reg, nodes, inside, Dependencies(reg, nodes, v));
    }
  }

  lemma {:induction false} ExploreAllJustified(reg: Registry, nodes: set<Id>, s: Search, ids: seq<Id>)
    requires forall v :: v in ids ==> v in nodes && Stacked(reg, nodes, s, v)
    requires ExploreAll(reg, nodes, s, ids).Failure?
    ensures Justified(reg, nodes, ExploreAll(reg, nodes, s, ids).error)
    decreases nodes - s.temporary - s.permanent, |ids|
  {
    if Explore(reg, nodes, s, ids[0]).Failure? {
      ExploreJustified(reg, nodes, s, ids[0]);
    } else {
      var t := Explore(reg, nodes, s, ids[0]).value;
      forall v | v in ids[1..]
        ensures v in nodes && Stacked(reg, nodes, t, v)
      {
        assert Stacked(reg, nodes, s, v);
      }
      ExploreAllJustified(reg, nodes, t, ids[1..]);
    }
  }

  // ----- an order rules out cycles

  function Position(order: seq<Id>, v: Id): (i: nat)
    requires v in order
    ensures i < |order| && order[i] == v
  {
    if order[0] == v then 0 else 1 + Position(order[1..], v)
  }

  lemma EdgeGoesBack(reg: Registry, nodes: set<Id>, order: seq<Id>, v: Id, d: Id)
    requires NoDuplicates(order) && DependenciesFirst(reg, nodes, order)
    requires v in order && Edge(reg, nodes, v, d)
    ensures d in order && Position(order, d) < Position(order, v)
  {
    var i := Position(order, v);
    assert d in order[..i];
    var j :| 0 <= j < i && order[j] == d;
    assert Position(order, d) == j;
  }

  lemma {:induction false} TrailGoesBack(reg: Registry, nodes: set<Id>, order: seq<Id>, p: seq<Id>)
    requires NoDuplicates(order) && DependenciesFirst(reg, nodes, order)
    requires Trail(reg, nodes, p) && p[0] in order
    ensures p[|p| - 1] in order && Position(order, p[|p| - 1]) < Position(order, p[0])
    decreases |p|
  {
    assert Edge(reg, nodes, p[0], p[0 + 1]);
    EdgeGoesBack(reg, nodes, order, p[0], p[1]);
    if |p| > 2 {
      var q := p[1..];
      forall i | 0 <= i < |q| - 1
        ensures Edge(reg, nodes, q[i], q[i + 1])
      {
        assert Edge(reg, nodes, p[i + 1], p[i + 1 + 1]);
      }
      TrailGoesBack(reg, nodes, order, q);
    }
  }

  lemma LeadsFrom(reg: Registry, nodes: set<Id>, v: Id)
    ensures Leads(reg, nodes, v, v) ==> v in nodes
  {
  }

  lemma NoCycleAt(reg: Registry, nodes: set<Id>, order: seq<Id>, v: Id)
    requires NoDuplicates(order) && DependenciesFirst(reg, nodes, order) && v in order
    ensures !Leads(reg, nodes, v, v)
  {
    if Leads(reg, nodes, v, v) {
      var p :| Trail(reg, nodes, p) && p[0] == v && p[|p| - 1] == v;
      TrailGoesBack(reg, nodes, order, p);
      assert false;
    }
  }

  lemma OrderSound(reg: Registry, selected: seq<Id>)
    requires Order(reg, selected).Success?
    ensures var nodes, order := Ids(selected), Order(reg, selected).value;
            Lists(nodes, order) && DependenciesFirst(reg, nodes, order)
  {
    hide Less, Explore;
    SortByMembers(ExecutionKey(reg), selected);
    ExploreAllConsistent(reg, Ids(selected), EMPTY, SortBy(ExecutionKey(reg), selected));
  }

  lemma OrderAcyclic(reg: Registry, nodes: set<Id>, order: seq<Id>)
    requires Lists(nodes, order) && DependenciesFirst(reg, nodes, order)
    ensures nodes <= reg.Keys && !HasCycle(reg, nodes)
  {
    hide Leads, Trail;
    forall v | v in nodes
      ensures v in reg && !Leads(reg, nodes, v, v)
    {
      assert order[Position(order, v)] in reg;
      NoCycleAt(reg, nodes, order, v);
    }
    forall v
      ensures !Leads(reg, nodes, v, v)
    {
      LeadsFrom(reg, nodes, v);
    }
  }

  /** The search succeeds exactly on selections of registered validators without a cycle
      among them, and then returns the selection, once each, dependencies first; among
      registered validators the one way to fail is a cycle. */
  lemma OrderCorrect(reg: Registry, selected: seq<Id>)
    ensures var nodes, r := Ids(selected), Order(reg, selected);
            && (r.Success? <==> nodes <= reg.Keys && !HasCycle(reg, nodes))
            && (r.Success? ==> Lists(nodes, r.value) && DependenciesFirst(reg, nodes, r.value))
            && (nodes <= reg.Keys ==> (r == Failure(CycleDetected) <==> HasCycle(reg, nodes)))
  {
    hide HasCycle, Less, Explore, ExploreAll, DependenciesFirst;
    var nodes := Ids(selected);
    if Order(reg, selected).Success? {
      OrderSound(reg, selected);
      OrderAcyclic(reg, nodes, Order(reg, selected).value);
    } else {
      SortByMembers(ExecutionKey(reg), selected);
      ExploreAllJustified(reg, nodes, EMPTY, SortBy(ExecutionKey(reg), selected));
    }
  }

  // ----- when a plain sort would do

  /** Every selected dependency has a smaller execution key. */
  ghost predicate KeysRespectDependencies(reg: Registry, nodes: set<Id>) {
    forall v, d :: v in nodes && Edge(reg, nodes, v, d) ==> Less(ExecutionKey(reg)(d), ExecutionKey(reg)(v))
  }

  lemma {:induction false} ExploreAllDone(reg: Registry, nodes: set<Id>, s: Search, ids: seq<Id>)
    requires forall v :: v in ids ==> v in nodes && v in s.permanent
    ensures ExploreAll(reg, nodes, s, ids) == Success(s)
    decreases |ids|
  {
    if ids == [] {
    } else {
      ExploreAllDone(reg, nodes, s, ids[1..]);
    }
  }

  lemma SortedPrefixHasDependencies(reg: Registry, ids: seq<Id>, n: nat, d: Id)
    requires SortedBy(ExecutionKey(reg), ids) && n < |ids|
    requires KeysRespectDependencies(reg, Ids(ids)) && Edge(reg, Ids(ids), ids[n], d)
    ensures d in ids[..n]
  {
    var v := ids[n];
    assert v in Ids(ids);
    var j :| 0 <= j < |ids| && ids[j] == d;
    LessIrreflexive(ExecutionKey(reg)(v));
    LessAsymmetric(ExecutionKey(reg)(d), ExecutionKey(reg)(v));
    assert j < n;
    assert ids[..n][j] == d;
  }

  /** Done with a prefix of the sorted selection, the search takes up the next ID. */
  lemma ExploreNext(reg: Registry, ids: seq<Id>, n: nat)
    requires NoDuplicates(ids) && SortedBy(ExecutionKey(reg), ids) && n < |ids| && ids[n] in reg
    requires KeysRespectDependencies(reg, Ids(ids))
    ensures Explore(reg, Ids(ids), Search({}, Ids(ids[..n]), ids[..n]), ids[n])
            == Success(Search({}, Ids(ids[..n + 1]), ids[..n + 1]))
  {
    hide Less, SortedBy;
    var nodes, v := Ids(ids), ids[n];
    var s := Search({}, Ids(ids[..n]), ids[..n]);
    var deps := Dependencies(reg, nodes, v);
    forall d | d in deps
      ensures d in s.permanent
    {
      SortedPrefixHasDependencies(reg, ids, n, d);
    }
    assert v in ids && v !in ids[..n];
    assert s.temporary + {v} == {v} && {v} - {v} == {};
    ExploreAllDone(reg, nodes, s.(temporary := {v}), deps);
    assert ids[..n + 1] == ids[..n] + [v];
    assert Ids(ids[..n]) + {v} == Ids(ids[..n + 1]);
  }

  /** ... and then all the others. */
  lemma {:induction false} ExploreSorted(reg: Registry, ids: seq<Id>, n: nat)
    requires NoDuplicates(ids) && SortedBy(ExecutionKey(reg), ids) && n <= |ids|
    requires forall v :: v in ids ==> v in reg
    requires KeysRespectDependencies(reg, Ids(ids))
    ensures forall v :: v in ids[n..] ==> v in Ids(ids)
    ensures ExploreAll(reg, Ids(ids), Search({}, Ids(ids[..n]), ids[..n]), ids[n..])
            == Success(Search({}, Ids(ids), ids))
    decreases |ids| - n
  {
    hide Less, SortedBy, KeysRespectDependencies, Explore;
    assert forall v :: v in ids[n..] ==> v in Ids(ids);
    if n == |ids| {
      assert ids[..n] == ids;
    } else {
      assert ids[n] in ids;
      ExploreNext(reg, ids, n);
      assert ids[n..][0] == ids[n] && ids[n..][1..] == ids[n + 1..];
      ExploreSorted(reg, ids, n + 1);
    }
  }

  lemma OrderIsSort(reg: Registry, selected: seq<Id>)
    requires NoDuplicates(selected) && forall v :: v in selected ==> v in reg
    requires KeysRespectDependencies(reg, Ids(selected))
    ensures Order(reg, selected) == Success(SortBy(ExecutionKey(reg), selected))
  {
    var ids := SortBy(ExecutionKey(reg), selected);
    SortByMembers(ExecutionKey(reg), selected);
    SortBySorted(ExecutionKey(reg), selected);
    SortByMultiset(ExecutionKey(reg), selected);
    NoDuplicatesCount(selected);
    CountNoDuplicates(ids);
    assert Ids(ids) == Ids(selected);
    ExploreSorted(reg, ids, 0);
    assert ids[0..] == ids && ids[..0] == [] && Ids(ids[..0]) == {};
  }

  /** The order depends on the set selected only. */
  lemma OrderOfSet(reg: Registry, a: seq<Id>, b: seq<Id>)
    requires multiset(a) == multiset(b)
    ensures Order(reg, a) == Order(reg, b)
  {
    ExecutionKeyInjective(reg, a);
    SortByPermutation(ExecutionKey(reg), a, b);
    forall x
      ensures x in a <==> x in b
    {
      assert x in a <==> x in multiset(a);
      assert x in b <==> x in multiset(b);
    }
    assert Ids(a) == Ids(b);
  }

  // ----- the search on mutable sets

  /** The sets and the list that `visit` closes over. */
  class TopologicalSearch {
    const registry: Registry
    const selected: set<Id>
    var temporary: set<Id>
    var permanent: set<Id>
    var result: seq<Id>

    constructor (registry: Registry, selected: set<Id>)
      ensures this.registry == registry && this.selected == selected && State() == EMPTY
    {
      this.registry, this.selected := registry, selected;
      temporary, permanent, result := {}, {}, [];
    }

    function State(): Search
      reads this
    {
      Search(temporary, permanent, result)
    }

    method Visit(v: Id) returns (failure: Option<OrderError>)
      requires v in selected
      modifies this
      ensures var r := Explore(registry, selected, old(State()), v);
              if r.Success? then failure.None? && State() == r.value else failure == Some(r.error)
      decreases selected - temporary - permanent, 0
    {
      if v in permanent {
        return None;
      }
      if v in temporary {
        return Some(CycleDetected);
      }
      assert v in selected - temporary - permanent;
      temporary := temporary + {v};
      if v !in registry {
        return Some(UnknownValidator(v));
      }
      failure := VisitEach(Dependencies(registry, selected, v));
      if failure.None? {
        temporary := temporary - {v};
        permanent := permanent + {v};
        result := result + [v];
      }
    }

    method VisitEach(ids: seq<Id>) returns (failure: Option<OrderError>)
      requires forall v :: v in ids ==> v in selected
      modifies this
      ensures var r := ExploreAll(registry, selected, old(State()), ids);
              if r.Success? then failure.None? && State() == r.value else failure == Some(r.error)
      decreases selected - temporary - permanent, |ids| + 1
    {
      failure := None;
      for i := 0 to |ids|
        invariant failure.None?
        invariant old(permanent) <= permanent && temporary == old(temporary)
        invariant ExploreAll(registry, selected, old(State()), ids) == ExploreAll(registry, selected, State(), ids[i..])
      {
        assert ids[i..][0] == ids[i] && ids[i..][1..] == ids[i + 1..];
        failure := Visit(ids[i]);
        if failure.Some? {
          return;
        }
      }
    }
  }

  /** `_topological_order`. */
  method TopologicalOrder(reg: Registry, selected: seq<Id>) returns (r: Result<seq<Id>, OrderError>)
    ensures r == Order(reg, selected)
  {
    var search := new TopologicalSearch(reg, Ids(selected));
    SortByMembers(ExecutionKey(reg), selected);
    var failure := search.VisitEach(SortBy(ExecutionKey(reg), selected));
    r := if failure.Some? then Failure(failure.value) else Success(search.result);
  }
}
