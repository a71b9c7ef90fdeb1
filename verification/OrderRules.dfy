/**
 Which of two validators is planned first, without the search: each has one path from the top
 that takes the least possible step each time, and these paths decide.
 */
module OrderRules {
  import opened Wrappers
  import opened Ordering
  import opened TextSets
  import opened ValidatorRegistry
  import opened DependencyOrder

  /** By execution order and then by ID; what is not registered counts as 10000. */
  ghost predicate KeyBefore(reg: Registry, a: Id, b: Id) {
    var m: nat := if a in reg then reg[a].executionOrder else 10_000;
    var n: nat := if b in reg then reg[b].executionOrder else 10_000;
    m < n || (m == n && Precedes(a, b))
  }

  lemma KeyBeforeIs(reg: Registry, a: Id, b: Id)
    ensures Less(ExecutionKey(reg)(a), ExecutionKey(reg)(b)) <==> KeyBefore(reg, a, b)
  {
    var x, y := ExecutionKey(reg)(a), ExecutionKey(reg)(b);
    LessExactly(a, b);
    assert x[1..] == a && y[1..] == b;
  }

  lemma KeysTotal(reg: Registry, a: Id, b: Id)
    ensures a == b || KeyBefore(reg, a, b) || KeyBefore(reg, b, a)
    ensures KeyBefore(reg, a, b) ==> !KeyBefore(reg, b, a) && a != b
  {
    var x, y := ExecutionKey(reg)(a), ExecutionKey(reg)(b);
    KeyBeforeIs(reg, a, b);
    KeyBeforeIs(reg, b, a);
    LessTotal(x, y);
    if Less(x, y) {
      LessAsymmetric(x, y);
      LessIrreflexive(x);
    }
    assert x[1..] == a && y[1..] == b;
  }

  lemma KeysTransitive(reg: Registry, a: Id, b: Id, c: Id)
    requires KeyBefore(reg, a, b) && KeyBefore(reg, b, c)
    ensures KeyBefore(reg, a, c)
  {
    KeyBeforeIs(reg, a, b);
    KeyBeforeIs(reg, b, c);
    KeyBeforeIs(reg, a, c);
    LessTransitive(ExecutionKey(reg)(a), ExecutionKey(reg)(b), ExecutionKey(reg)(c));
  }

  // ----- paths

  /** a is u or requires it, directly or not, within the nodes. */
  ghost predicate Reaches(reg: Registry, nodes: set<Id>, a: Id, u: Id) { a == u || Leads(reg, nodes, a, u) }

  /** What v requires among the nodes. */
  function Needed(reg: Registry, nodes: set<Id>, v: Id): set<Id> {
    if v in reg then set d | d in reg[v].dependsOn && d in nodes else {}
  }

  /** p is the path to u that starts at the least of from that reaches it, and goes on in the same way
      through what that one needs. */
  ghost predicate Guide(reg: Registry, nodes: set<Id>, from: set<Id>, p: seq<Id>, u: Id)
    decreases |p|
  {
    && p != [] && p[0] in from && Reaches(reg, nodes, p[0], u)
    && (forall x :: x in from && Reaches(reg, nodes, x, u) ==> x == p[0] || KeyBefore(reg, p[0], x))
    && if |p| == 1 then p[0] == u else p[0] != u && Guide(reg, nodes, Needed(reg, nodes, p[0]), p[1..], u)
  }

  /** Where the paths part the smaller key goes first; what lies on the way to a validator goes after it. */
  ghost predicate Earlier(reg: Registry, p: seq<Id>, q: seq<Id>)
    decreases |p|
  {
    p != [] && q != [] &&
    if p[0] != q[0] then KeyBefore(reg, p[0], q[0])
    else |p| > 1 && (|q| == 1 || Earlier(reg, p[1..], q[1..]))
  }

  /** a stands before b. */
  ghost predicate Before(order: seq<Id>, a: Id, b: Id) {
    exists i, j :: 0 <= i < j < |order| && order[i] == a && order[j] == b
  }

  // ----- reaching

  lemma ReachesOn(reg: Registry, nodes: set<Id>, v: Id, d: Id, x: Id)
    requires v in nodes && Edge(reg, nodes, v, d) && Reaches(reg, nodes, d, x)
    ensures Leads(reg, nodes, v, x)
  {
    if d == x {
      LeadsEdge(reg, nodes, v, d);
    } else {
      var p :| Trail(reg, nodes, p) && p[0] == d && p[|p| - 1] == x;
      var q := [v] + p;
      forall i | 0 <= i < |q| - 1
        ensures Edge(reg, nodes, q[i], q[i + 1])
      {
        assert i > 0 ==> Edge(reg, nodes, p[i - 1], p[i - 1 + 1]);
      }
      assert Trail(reg, nodes, q);
    }
  }

  lemma ReachesFirst(reg: Registry, nodes: set<Id>, v: Id, x: Id) returns (d: Id)
    requires Leads(reg, nodes, v, x)
    ensures v in nodes && Edge(reg, nodes, v, d) && Reaches(reg, nodes, d, x)
  {
    var p :| Trail(reg, nodes, p) && p[0] == v && p[|p| - 1] == x;
    assert Edge(reg, nodes, p[0], p[0 + 1]);
    d := p[1];
    if |p| > 2 {
      var q := p[1..];
      forall i | 0 <= i < |q| - 1
        ensures Edge(reg, nodes, q[i], q[i + 1])
      {
        assert Edge(reg, nodes, p[i + 1], p[i + 1 + 1]);
      }
      assert Trail(reg, nodes, q);
    }
  }

  /** What is done is done with all it reaches. */
  lemma DoneReaches(reg: Registry, nodes: set<Id>, s: Search, c: Id, x: Id)
    requires Consistent(reg, nodes, s) && c in s.permanent && Reaches(reg, nodes, c, x)
    ensures x in s.permanent
  {
    if c != x {
      var p :| Trail(reg, nodes, p) && p[0] == c && p[|p| - 1] == x;
      TrailGoesBack(reg, nodes, s.order, p);
    }
  }

  // ----- what a visit adds

  ghost predicate Extends(order: seq<Id>, more: seq<Id>) { |order| <= |more| && more[..|order|] == order }

  lemma {:induction false} ExploreAdds(reg: Registry, nodes: set<Id>, s: Search, c: Id)
    requires c in nodes && Consistent(reg, nodes, s) && Explore(reg, nodes, s, c).Success?
    ensures var t := Explore(reg, nodes, s, c).value;
            && Consistent(reg, nodes, t) && Extends(s.order, t.order)
            && forall x :: x in t.permanent <==> x in s.permanent || Reaches(reg, nodes, c, x)
    decreases nodes - s.temporary - s.permanent, 0
  {
    hide Leads, Less, DependenciesFirst;
    var t := Explore(reg, nodes, s, c).value;
    ExploreConsistent(reg, nodes, s, c);
    if c in s.permanent {
      forall x | Reaches(reg, nodes, c, x)
        ensures x in s.permanent
      {
        DoneReaches(reg, nodes, s, c, x);
      }
    } else {
      var inside := s.(temporary := s.temporary + {c});
      assert c in nodes - s.temporary - s.permanent;
      var ids := Dependencies(reg, nodes, c);
      ExploreAllAdds(reg, nodes, inside, ids);
      var done := ExploreAll(reg, nodes, inside, ids).value;
      forall x
        ensures x in t.permanent <==> x in s.permanent || Reaches(reg, nodes, c, x)
      {
        VisitReaches(reg, nodes, c, x);
      }
    }
  }

  lemma VisitReaches(reg: Registry, nodes: set<Id>, c: Id, x: Id)
    requires c in nodes && c in reg
    ensures Reaches(reg, nodes, c, x) <==>
              x == c || exists d :: d in Dependencies(reg, nodes, c) && Reaches(reg, nodes, d, x)
  {
    hide Leads;
    if Leads(reg, nodes, c, x) {
      var d := ReachesFirst(reg, nodes, c, x);
      assert d in Dependencies(reg, nodes, c);
    }
    if d :| d in Dependencies(reg, nodes, c) && Reaches(reg, nodes, d, x) {
      ReachesOn(reg, nodes, c, d, x);
    }
  }

  lemma {:induction false} ExploreAllAdds(reg: Registry, nodes: set<Id>, s: Search, ids: seq<Id>)
    requires forall v :: v in ids ==> v in nodes
    requires Consistent(reg, nodes, s) && ExploreAll(reg, nodes, s, ids).Success?
    ensures var t := ExploreAll(reg, nodes, s, ids).value;
            && Consistent(reg, nodes, t) && Extends(s.order, t.order)
            && forall x :: x in t.permanent <==> x in s.permanent || exists c :: c in ids && Reaches(reg, nodes, c, x)
    decreases nodes - s.temporary - s.permanent, |ids|
  {
    hide Reaches, Less, DependenciesFirst;
    if ids != [] {
      ExploreAdds(reg, nodes, s, ids[0]);
      var s1 := Explore(reg, nodes, s, ids[0]).value;
      ExploreAllAdds(reg, nodes, s1, ids[1..]);
      assert forall c :: c in ids <==> c == ids[0] || c in ids[1..];
    }
  }

  // ----- where it adds it

  lemma {:induction false} ExplorePlaces(reg: Registry, nodes: set<Id>, s: Search, c: Id, u: Id, v: Id, p: seq<Id>,
                                         q: seq<Id>)
    requires c in nodes && Consistent(reg, nodes, s) && Explore(reg, nodes, s, c).Success?
    requires u !in s.permanent && v !in s.permanent && Earlier(reg, p, q)
    requires Guide(reg, nodes, {c}, p, u) && Guide(reg, nodes, {c}, q, v)
    ensures Before(Explore(reg, nodes, s, c).value.order, u, v)
    decreases nodes - s.temporary - s.permanent, 0
  {
    hide Leads, Less, DependenciesFirst, KeyBefore;
    if c in s.permanent {
      DoneReaches(reg, nodes, s, c, u);
    }
    var inside := s.(temporary := s.temporary + {c});
    assert c in nodes - s.temporary - s.permanent;
    var ids := Dependencies(reg, nodes, c);
    var done := ExploreAll(reg, nodes, inside, ids).value;
    ExploreAllAdds(reg, nodes, inside, ids);
    assert Ids(ids) == Needed(reg, nodes, c);
    if |q| == 1 {
      assert Guide(reg, nodes, Needed(reg, nodes, c), p[1..], u);
      assert p[1] in ids && u in done.order;
      LastBefore(done.order, u, v);
    } else {
      DependenciesSorted(reg, nodes, c);
      ExploreAllPlaces(reg, nodes, inside, ids, u, v, p[1..], q[1..]);
      ExtendBefore(done.order, done.order + [c], u, v);
    }
  }

  lemma DependenciesSorted(reg: Registry, nodes: set<Id>, c: Id)
    requires c in reg
    ensures SortedBy(ExecutionKey(reg), Dependencies(reg, nodes, c))
  {
    SortBySorted(ExecutionKey(reg), Restrict(reg[c].dependsOn, nodes));
  }

  lemma LastBefore(order: seq<Id>, u: Id, v: Id)
    requires u in order
    ensures Before(order + [v], u, v)
  {
    var i :| 0 <= i < |order| && order[i] == u;
    assert (order + [v])[i] == u && (order + [v])[|order|] == v;
  }

  lemma ExtendBefore(order: seq<Id>, more: seq<Id>, u: Id, v: Id)
    requires Before(order, u, v) && Extends(order, more)
    ensures Before(more, u, v)
  {
    var i, j :| 0 <= i < j < |order| && order[i] == u && order[j] == v;
    assert more[..|order|][i] == more[i] && more[..|order|][j] == more[j];
  }

  /** What is added later stands behind. */
  lemma AddedBefore(order: seq<Id>, more: seq<Id>, u: Id, v: Id)
    requires Extends(order, more) && u in order && v !in order && v in more
    ensures Before(more, u, v)
  {
    var i :| 0 <= i < |order| && order[i] == u;
    var j :| 0 <= j < |more| && more[j] == v;
    forall k | 0 <= k < |order|
      ensures more[k] == order[k]
    {
      assert more[..|order|][k] == more[k];
    }
  }

  lemma {:induction false} ExploreAllPlaces(reg: Registry, nodes: set<Id>, s: Search, ids: seq<Id>, u: Id, v: Id,
                                            p: seq<Id>, q: seq<Id>)
    requires (forall x :: x in ids ==> x in nodes) && SortedBy(ExecutionKey(reg), ids)
    requires Consistent(reg, nodes, s) && ExploreAll(reg, nodes, s, ids).Success?
    requires u !in s.permanent && v !in s.permanent && Earlier(reg, p, q)
    requires Guide(reg, nodes, Ids(ids), p, u) && Guide(reg, nodes, Ids(ids), q, v)
    ensures Before(ExploreAll(reg, nodes, s, ids).value.order, u, v)
    decreases nodes - s.temporary - s.permanent, |ids|
  {
    hide Leads, Less, DependenciesFirst, KeyBefore, SortedBy, Reaches;
    var c, rest := ids[0], ids[1..];
    var s1, t := Explore(reg, nodes, s, c).value, ExploreAll(reg, nodes, s, ids).value;
    ExploreAdds(reg, nodes, s, c);
    ExploreAllAdds(reg, nodes, s1, rest);
    SortedRest(reg, ids);
    LeastFirst(reg, nodes, ids, p, u);
    LeastFirst(reg, nodes, ids, q, v);
    FirstLeast(reg, ids, p[0]);
    if p[0] == c && q[0] == c {
      GuideAlone(reg, nodes, ids, p, u);
      GuideAlone(reg, nodes, ids, q, v);
      ExplorePlaces(reg, nodes, s, c, u, v, p, q);
      ExtendBefore(s1.order, t.order, u, v);
    } else if p[0] == c {
      assert q[0] in rest;
      AddedBefore(s1.order, t.order, u, v);
    } else if q[0] == c {
      assert false;
    } else {
      GuideRest(reg, nodes, ids, p, u);
      GuideRest(reg, nodes, ids, q, v);
      ExploreAllPlaces(reg, nodes, s1, rest, u, v, p, q);
    }
  }

  lemma SortedRest(reg: Registry, ids: seq<Id>)
    requires ids != [] && SortedBy(ExecutionKey(reg), ids)
    ensures SortedBy(ExecutionKey(reg), ids[1..])
  {
    hide Less;
  }

  lemma FirstLeast(reg: Registry, ids: seq<Id>, x: Id)
    requires SortedBy(ExecutionKey(reg), ids) && x in ids
    ensures !KeyBefore(reg, x, ids[0])
  {
    hide Less;
    KeyBeforeIs(reg, x, ids[0]);
    var j :| 0 <= j < |ids| && ids[j] == x;
    if j == 0 {
      KeysTotal(reg, x, x);
    }
  }

  /** What the first of the sorted IDs reaches is reached through it. */
  lemma LeastFirst(reg: Registry, nodes: set<Id>, ids: seq<Id>, p: seq<Id>, u: Id)
    requires ids != [] && SortedBy(ExecutionKey(reg), ids) && Guide(reg, nodes, Ids(ids), p, u)
    ensures Reaches(reg, nodes, ids[0], u) <==> p[0] == ids[0]
    ensures p[0] in ids && Reaches(reg, nodes, p[0], u)
  {
    hide KeyBefore, Less, Reaches;
    assert ids[0] in ids && ids[0] in Ids(ids);
    FirstLeast(reg, ids, p[0]);
  }

  lemma GuideAlone(reg: Registry, nodes: set<Id>, ids: seq<Id>, p: seq<Id>, u: Id)
    requires ids != [] && Guide(reg, nodes, Ids(ids), p, u) && p[0] == ids[0]
    ensures Guide(reg, nodes, {ids[0]}, p, u)
  {
    hide KeyBefore, Reaches;
  }

  lemma GuideRest(reg: Registry, nodes: set<Id>, ids: seq<Id>, p: seq<Id>, u: Id)
    requires ids != [] && Guide(reg, nodes, Ids(ids), p, u) && p[0] != ids[0]
    ensures Guide(reg, nodes, Ids(ids[1..]), p, u)
  {
    hide KeyBefore, Reaches;
    assert forall x :: x in ids[1..] ==> x in ids;
  }

  // ----- the whole order

  lemma EarlierTotal(reg: Registry, nodes: set<Id>, from: set<Id>, u: Id, v: Id, p: seq<Id>, q: seq<Id>)
    requires Guide(reg, nodes, from, p, u) && Guide(reg, nodes, from, q, v) && u != v
    ensures Earlier(reg, p, q) || Earlier(reg, q, p)
    decreases |p|
  {
    hide KeyBefore, Reaches;
    if p[0] != q[0] {
      KeysTotal(reg, p[0], q[0]);
    } else if |p| > 1 && |q| > 1 {
      EarlierTotal(reg, nodes, Needed(reg, nodes, p[0]), u, v, p[1..], q[1..]);
    }
  }

  /** The least of those that reach u. */
  lemma {:induction false} LeastReaching(reg: Registry, nodes: set<Id>, from: set<Id>, u: Id, x: Id) returns (a: Id)
    requires x in from && Reaches(reg, nodes, x, u)
    ensures a in from && Reaches(reg, nodes, a, u)
    ensures forall y :: y in from && Reaches(reg, nodes, y, u) ==> y == a || KeyBefore(reg, a, y)
    decreases from
  {
    hide KeyBefore, Reaches;
    var rest := from - {x};
    a := x;
    if y :| y in rest && Reaches(reg, nodes, y, u) {
      var b := LeastReaching(reg, nodes, rest, u, y);
      KeysTotal(reg, x, b);
      if KeyBefore(reg, b, x) {
        a := b;
      }
      forall z | z in from && Reaches(reg, nodes, z, u)
        ensures z == a || KeyBefore(reg, a, z)
      {
        if a == x && z in rest && z != b {
          KeysTransitive(reg, x, b, z);
        }
      }
    }
  }

  /** Every validator that is reached has its path: each step goes back in a proper order. */
  lemma {:induction false} GuideExists(reg: Registry, nodes: set<Id>, order: seq<Id>, from: set<Id>, n: nat, u: Id,
                                       x: Id)
    returns (p: seq<Id>)
    requires Lists(nodes, order) && DependenciesFirst(reg, nodes, order)
    requires x in from && Reaches(reg, nodes, x, u)
    requires forall y :: y in from ==> y in order && Position(order, y) < n
    ensures Guide(reg, nodes, from, p, u)
    decreases n
  {
    hide KeyBefore, Leads, DependenciesFirst;
    var a := LeastReaching(reg, nodes, from, u, x);
    if a == u {
      p := [a];
    } else {
      var d := ReachesFirst(reg, nodes, a, u);
      forall y | y in Needed(reg, nodes, a)
        ensures y in order && Position(order, y) < Position(order, a)
      {
        EdgeGoesBack(reg, nodes, order, a, y);
      }
      var rest := GuideExists(reg, nodes, order, Needed(reg, nodes, a), Position(order, a), u, d);
      p := [a] + rest;
      assert p[1..] == rest;
    }
  }

  /** So has every validator that is ordered. */
  lemma OrderGuides(reg: Registry, selected: seq<Id>, u: Id) returns (p: seq<Id>)
    requires Order(reg, selected).Success? && u in selected
    ensures Guide(reg, Ids(selected), Ids(selected), p, u)
  {
    hide DependenciesFirst, Guide, Leads;
    OrderSound(reg, selected);
    var order := Order(reg, selected).value;
    p := GuideExists(reg, Ids(selected), order, Ids(selected), |order|, u, u);
  }

  lemma NotBoth(order: seq<Id>, u: Id, v: Id)
    requires NoDuplicates(order) && Before(order, u, v)
    ensures !Before(order, v, u)
  {
  }

  lemma EmptyConsistent(reg: Registry, nodes: set<Id>)
    ensures Consistent(reg, nodes, EMPTY)
  {
  }

  /** One validator stands before another exactly when its path says so. */
  lemma OrderExactly(reg: Registry, selected: seq<Id>, u: Id, v: Id, p: seq<Id>, q: seq<Id>)
    requires Order(reg, selected).Success? && u != v
    requires Guide(reg, Ids(selected), Ids(selected), p, u) && Guide(reg, Ids(selected), Ids(selected), q, v)
    ensures Before(Order(reg, selected).value, u, v) <==> Earlier(reg, p, q)
  {
    hide DependenciesFirst, Guide, Leads, Earlier, Before, SortedBy, Less;
    var ids, order := SortBy(ExecutionKey(reg), selected), Order(reg, selected).value;
    OrderSound(reg, selected);
    SortByMembers(ExecutionKey(reg), selected);
    SortBySorted(ExecutionKey(reg), selected);
    assert Ids(ids) == Ids(selected);
    EmptyConsistent(reg, Ids(selected));
    EarlierTotal(reg, Ids(selected), Ids(selected), u, v, p, q);
    if Earlier(reg, p, q) {
      ExploreAllPlaces(reg, Ids(selected), EMPTY, ids, u, v, p, q);
    }
    if Earlier(reg, q, p) {
      ExploreAllPlaces(reg, Ids(selected), EMPTY, ids, v, u, q, p);
      NotBoth(order, v, u);
    }
  }
}
