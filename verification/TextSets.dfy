/** Sets of strings listed as sequences: `list(s)`, `set(ids)` and `sorted(s)`. */
module TextSets {
  import opened Ordering
  import opened Unicode

  /** `set(ids)`. */
  function Ids(ids: seq<Text>): set<Text> { set id | id in ids }

  /** Strings sort by code point. */
  const BY_ID: Text -> seq<nat> := (id: Text) => id

  lemma ByIdInjective(ids: seq<Text>)
    ensures KeyInjective(BY_ID, ids)
  {
  }

  ghost predicate Lists(s: set<Text>, ids: seq<Text>) {
    NoDuplicates(ids) && forall x :: x in ids <==> x in s
  }

  lemma ListsPermutation(s: set<Text>, a: seq<Text>, b: seq<Text>)
    requires Lists(s, a) && Lists(s, b)
    ensures multiset(a) == multiset(b)
  {
    NoDuplicatesCount(a);
    NoDuplicatesCount(b);
    forall x
      ensures multiset(a)[x] == multiset(b)[x]
    {
      assert x in multiset(a) <==> x in a;
      assert x in multiset(b) <==> x in b;
    }
  }

  /** `list(s)`: Python's order over a set is arbitrary, and so is this one. */
  method ListOf(s: set<Text>) returns (ids: seq<Text>)
    ensures Lists(s, ids)
  {
    ids := [];
    var rest := s;
    while rest != {}
      invariant rest <= s && Lists(s - rest, ids)
      decreases rest
    {
      var x :| x in rest;
      ids := ids + [x];
      rest := rest - {x};
    }
    assert s - rest == s;
  }

  lemma {:induction false} ListsExists(s: set<Text>) returns (ids: seq<Text>)
    ensures Lists(s, ids)
    decreases s
  {
    if s == {} {
      ids := [];
    } else {
      var x :| x in s;
      var rest := ListsExists(s - {x});
      ids := [x] + rest;
    }
  }

  /** `sorted(s)` for a set of strings. */
  ghost function SortedIds(s: set<Text>): (ids: seq<Text>)
    ensures Lists(s, ids) && SortedBy(BY_ID, ids)
  {
    assert exists ids :: Lists(s, ids) by { var ids := ListsExists(s); }
    var ids :| Lists(s, ids);
    SortLists(s, ids);
    SortBy(BY_ID, ids)
  }

  lemma SortLists(s: set<Text>, ids: seq<Text>)
    requires Lists(s, ids)
    ensures Lists(s, SortBy(BY_ID, ids)) && SortedBy(BY_ID, SortBy(BY_ID, ids))
  {
    SortBySorted(BY_ID, ids);
    SortByMultiset(BY_ID, ids);
    SortByMembers(BY_ID, ids);
    NoDuplicatesCount(ids);
    CountNoDuplicates(SortBy(BY_ID, ids));
  }

  lemma SortedIdsIs(s: set<Text>, ids: seq<Text>)
    requires Lists(s, ids)
    ensures SortBy(BY_ID, ids) == SortedIds(s)
  {
    SortLists(s, ids);
    ListsPermutation(s, SortBy(BY_ID, ids), SortedIds(s));
    ByIdInjective(SortBy(BY_ID, ids));
    SortedUnique(BY_ID, SortBy(BY_ID, ids), SortedIds(s));
  }
}
