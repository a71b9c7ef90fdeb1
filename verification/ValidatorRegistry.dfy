/**
 The reviewed validator registry as a map from ID to definition, and the dependency
 graph it spans.
 */
module ValidatorRegistry {
  import opened Ordering
  import opened Unicode

  type Id = Text

  datatype Risk = SafeReadOnly | LowImpact | ControlledTemporaryChange | Restricted | Prohibited

  datatype Status = Draft | ReviewRequired | Active | Deprecated | Disabled

  /** A registry entry and the definition of its implementation, which repeats the entry's
      version and rules. */
  datatype Definition = Definition(
    status: Status,
    version: Text,
    rules: seq<Text>,
    platforms: seq<Text>,
    privileges: seq<Text>,
    risk: Risk,
    networkImpact: Text,
    requiresRollback: bool,
    defaultTimeout: nat,
    maximumTimeout: nat,
    dependsOn: seq<Id>,
    optional: seq<Id>,
    executionOrder: nat
  )

  type Registry = map<Id, Definition>

  /** An unregistered ID sorts with the largest order there is. */
  function ExecutionKey(reg: Registry): Id -> seq<nat> {
    (id: Id) => [if id in reg then reg[id].executionOrder else 10000] + id
  }

  lemma ExecutionKeyInjective(reg: Registry, ids: seq<Id>)
    ensures KeyInjective(ExecutionKey(reg), ids)
  {
    forall x, y | x in ids && y in ids && ExecutionKey(reg)(x) == ExecutionKey(reg)(y)
      ensures x == y
    {
      assert x == ExecutionKey(reg)(x)[1..] && y == ExecutionKey(reg)(y)[1..];
    }
  }

  // ----- the dependency graph

  /** v, registered, requires d. */
  predicate Requires(reg: Registry, v: Id, d: Id) { v in reg && d in reg[v].dependsOn }

  /** A walk along required dependencies. */
  ghost predicate Walk(reg: Registry, p: seq<Id>) {
    p != [] && forall i :: 0 <= i < |p| - 1 ==> Requires(reg, p[i], p[i + 1])
  }

  ghost predicate Reached(reg: Registry, start: set<Id>, v: Id) {
    exists p :: Walk(reg, p) && p[0] in start && p[|p| - 1] == v
  }

  ghost predicate Closed(reg: Registry, s: set<Id>) {
    forall v, d :: v in s && Requires(reg, v, d) ==> d in s
  }

  /** Every ID a walk from start can end in. */
  function Universe(reg: Registry, start: set<Id>): set<Id> {
    start + set v, d | v in reg && d in reg[v].dependsOn :: d
  }

  ghost function Closure(reg: Registry, start: set<Id>): set<Id> {
    set v | v in Universe(reg, start) && Reached(reg, start, v)
  }

  lemma ReachedStart(reg: Registry, start: set<Id>, v: Id)
    requires v in start
    ensures Reached(reg, start, v)
  {
    assert Walk(reg, [v]);
  }

  lemma ReachedStep(reg: Registry, start: set<Id>, v: Id, d: Id)
    requires Reached(reg, start, v) && Requires(reg, v, d)
    ensures Reached(reg, start, d)
  {
    var p :| Walk(reg, p) && p[0] in start && p[|p| - 1] == v;
    assert Walk(reg, p + [d]);
  }

  lemma {:induction false} WalkStays(reg: Registry, s: set<Id>, p: seq<Id>, i: nat)
    requires Closed(reg, s) && Walk(reg, p) && p[0] in s && i < |p|
    ensures p[i] in s
  {
    if i > 0 {
      WalkStays(reg, s, p, i - 1);
      assert Requires(reg, p[i - 1], p[i - 1 + 1]);
    }
  }

  lemma ReachedMember(reg: Registry, start: set<Id>, v: Id)
    ensures v in Closure(reg, start) <==> Reached(reg, start, v)
  {
    if Reached(reg, start, v) {
      var p :| Walk(reg, p) && p[0] in start && p[|p| - 1] == v;
      if |p| > 1 {
        assert Requires(reg, p[|p| - 2], p[|p| - 2 + 1]);
      }
    }
  }

  /** The closure is the least fixed point: it is closed, it holds the start, and it is in
      every closed set that does. */
  lemma ClosureLeast(reg: Registry, start: set<Id>, s: set<Id>)
    ensures start <= Closure(reg, start) && Closed(reg, Closure(reg, start))
    ensures start <= s && Closed(reg, s) ==> Closure(reg, start) <= s
  {
    forall v | v in start
      ensures v in Closure(reg, start)
    {
      ReachedStart(reg, start, v);
    }
    forall v, d | v in Closure(reg, start) && Requires(reg, v, d)
      ensures d in Closure(reg, start)
    {
      ReachedStep(reg, start, v, d);
      ReachedMember(reg, start, d);
    }
    if start <= s && Closed(reg, s) {
      forall v | v in Closure(reg, start)
        ensures v in s
      {
        var p :| Walk(reg, p) && p[0] in start && p[|p| - 1] == v;
        WalkStays(reg, s, p, |p| - 1);
      }
    }
  }
}
