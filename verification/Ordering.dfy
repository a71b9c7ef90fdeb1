/**
 Sorting by a key, as Python's `sorted(items, key=...)` does it: keys are sequences of
 numbers compared lexicographically (a string is its code points, a tuple its fields).
 */
module Ordering {

  /** Strict lexicographic order; a proper prefix comes first. */
  predicate Less(a: seq<nat>, b: seq<nat>) {
    if b == [] then false
    else if a == [] then true
    else a[0] < b[0] || (a[0] == b[0] && Less(a[1..], b[1..]))
  }

  lemma LessIrreflexive(a: seq<nat>)
    ensures !Less(a, a)
  {
  }

  lemma {:induction false} LessTransitive(a: seq<nat>, b: seq<nat>, c: seq<nat>)
    requires Less(a, b) && Less(b, c)
    ensures Less(a, c)
  {
    if a != [] && a[0] == b[0] == c[0] {
      LessTransitive(a[1..], b[1..], c[1..]);
    }
  }

  lemma {:induction false} LessTotal(a: seq<nat>, b: seq<nat>)
    ensures Less(a, b) || Less(b, a) || a == b
  {
    if a != [] && b != [] && a[0] == b[0] {
      LessTotal(a[1..], b[1..]);
      assert a == [a[0]] + a[1..] && b == [b[0]] + b[1..];
    }
  }

  lemma LessAsymmetric(a: seq<nat>, b: seq<nat>)
    requires Less(a, b)
    ensures !Less(b, a)
  {
    if Less(b, a) {
      LessTransitive(a, b, a);
      LessIrreflexive(a);
    }
  }

  /** a is a proper prefix of b, or smaller where they first differ. */
  ghost predicate Precedes(a: seq<nat>, b: seq<nat>) {
    exists n :: 0 <= n <= |a| && n < |b| && a[..n] == b[..n] && (n == |a| || a[n] < b[n])
  }

  lemma {:induction false} LessExactly(a: seq<nat>, b: seq<nat>)
    ensures Less(a, b) <==> Precedes(a, b)
  {
    if b != [] && a != [] && a[0] == b[0] {
      LessExactly(a[1..], b[1..]);
      if Less(a, b) {
        var n :| 0 <= n <= |a| - 1 && n < |b| - 1 && a[1..][..n] == b[1..][..n]
                 && (n == |a| - 1 || a[1..][n] < b[1..][n]);
        assert a[..n + 1] == [a[0]] + a[1..][..n] && b[..n + 1] == [b[0]] + b[1..][..n];
      }
      if n :| 0 <= n <= |a| && n < |b| && a[..n] == b[..n] && (n == |a| || a[n] < b[n]) {
        assert n > 0;
        assert a[1..][..n - 1] == a[..n][1..] && b[1..][..n - 1] == b[..n][1..];
      }
    } else if b != [] {
      assert a[..0] == b[..0];
      if n :| 0 <= n <= |a| && n < |b| && a[..n] == b[..n] && (n == |a| || a[n] < b[n]) {
        assert n > 0 ==> a[..n][0] == b[..n][0];
      }
    }
  }

  // ----- stable insertion sort

  function Insert<T>(key: T -> seq<nat>, x: T, s: seq<T>): seq<T> {
    if s != [] && Less(key(s[0]), key(x)) then [s[0]] + Insert(key, x, s[1..]) else [x] + s
  }

  function SortBy<T>(key: T -> seq<nat>, s: seq<T>): seq<T> {
    if s == [] then [] else Insert(key, s[0], SortBy(key, s[1..]))
  }

  ghost predicate SortedBy<T(!new)>(key: T -> seq<nat>, s: seq<T>) {
    forall i, j :: 0 <= i < j < |s| ==> !Less(key(s[j]), key(s[i]))
  }

  lemma {:induction false} InsertMultiset<T>(key: T -> seq<nat>, x: T, s: seq<T>)
    ensures multiset(Insert(key, x, s)) == multiset([x]) + multiset(s)
    ensures |Insert(key, x, s)| == |s| + 1
  {
    if s != [] && Less(key(s[0]), key(x)) {
      InsertMultiset(key, x, s[1..]);
      assert s == [s[0]] + s[1..];
    }
  }

  lemma {:induction false} SortByMultiset<T>(key: T -> seq<nat>, s: seq<T>)
    ensures multiset(SortBy(key, s)) == multiset(s)
    ensures |SortBy(key, s)| == |s|
  {
    if s == [] {
    } else {
      SortByMultiset(key, s[1..]);
      InsertMultiset(key, s[0], SortBy(key, s[1..]));
      assert s == [s[0]] + s[1..];
    }
  }

  lemma {:induction false} InsertSorted<T(!new)>(key: T -> seq<nat>, x: T, s: seq<T>)
    requires SortedBy(key, s)
    ensures SortedBy(key, Insert(key, x, s))
  {
    if s != [] && Less(key(s[0]), key(x)) {
      InsertSorted(key, x, s[1..]);
      var tail := Insert(key, x, s[1..]);
      InsertMultiset(key, x, s[1..]);
      forall j | 0 <= j < |tail|
        ensures !Less(key(tail[j]), key(s[0]))
      {
        assert tail[j] in multiset(tail);
        if tail[j] != x {
          assert tail[j] in s[1..];
        } else {
          LessAsymmetric(key(s[0]), key(x));
        }
      }
    } else {
      forall j | 0 <= j < |s|
        ensures !Less(key(s[j]), key(x))
      {
        if Less(key(s[j]), key(x)) {
          LessTotal(key(s[0]), key(x));
          if Less(key(x), key(s[0])) {
            LessTransitive(key(s[j]), key(x), key(s[0]));
          }
        }
      }
    }
  }

  lemma {:induction false} SortBySorted<T(!new)>(key: T -> seq<nat>, s: seq<T>)
    ensures SortedBy(key, SortBy(key, s))
  {
    if s == [] {
    } else {
      SortBySorted(key, s[1..]);
      InsertSorted(key, s[0], SortBy(key, s[1..]));
    }
  }

  /** Members, as opposed to multiplicities. */
  lemma SortByMembers<T>(key: T -> seq<nat>, s: seq<T>)
    ensures forall x :: x in SortBy(key, s) <==> x in s
  {
    SortByMultiset(key, s);
    assert forall x :: x in SortBy(key, s) <==> x in multiset(SortBy(key, s));
    assert forall x :: x in s <==> x in multiset(s);
  }

  ghost predicate KeyInjective<T(!new)>(key: T -> seq<nat>, s: seq<T>) {
    forall x, y :: x in s && y in s && key(x) == key(y) ==> x == y
  }

  /** The head of a sorted sequence is minimal among its members. */
  lemma SortedHead<T(!new)>(key: T -> seq<nat>, s: seq<T>, x: T)
    requires SortedBy(key, s) && x in s
    ensures !Less(key(x), key(s[0]))
  {
    LessIrreflexive(key(x));
  }

  lemma MultisetTail<T>(s: seq<T>)
    requires s != []
    ensures multiset(s[1..]) == multiset(s) - multiset{s[0]}
    ensures forall x :: x in multiset(s) <==> x in s
  {
    assert s == [s[0]] + s[1..];
  }

  lemma SortedHeadsAgree<T(!new)>(key: T -> seq<nat>, a: seq<T>, b: seq<T>)
    requires SortedBy(key, a) && SortedBy(key, b)
    requires a != [] && b != [] && a[0] in b && b[0] in a
    requires KeyInjective(key, a)
    ensures a[0] == b[0]
  {
    SortedHead(key, a, b[0]);
    SortedHead(key, b, a[0]);
    LessTotal(key(a[0]), key(b[0]));
  }

  lemma SortedTail<T(!new)>(key: T -> seq<nat>, s: seq<T>)
    requires s != [] && SortedBy(key, s) && KeyInjective(key, s)
    ensures SortedBy(key, s[1..]) && KeyInjective(key, s[1..])
  {
    forall x | x in s[1..]
      ensures x in s
    {
    }
  }

  lemma PermutationHeads<T>(a: seq<T>, b: seq<T>)
    requires multiset(a) == multiset(b)
    ensures |a| == |b|
    ensures a != [] ==> a[0] in b && b[0] in a
  {
    assert |multiset(a)| == |a| && |multiset(b)| == |b|;
    if a == [] {
    } else {
      MultisetTail(a);
      MultisetTail(b);
      assert a[0] in multiset(a) && b[0] in multiset(b);
    }
  }

  lemma PermutationTails<T>(a: seq<T>, b: seq<T>)
    requires multiset(a) == multiset(b) && a != [] && b != [] && a[0] == b[0]
    ensures multiset(a[1..]) == multiset(b[1..])
  {
    MultisetTail(a);
    MultisetTail(b);
  }

  /** With pairwise different keys there is only one sorted arrangement. */
  lemma {:induction false} SortedUnique<T(!new)>(key: T -> seq<nat>, a: seq<T>, b: seq<T>)
    requires SortedBy(key, a) && SortedBy(key, b)
    requires multiset(a) == multiset(b)
    requires KeyInjective(key, a)
    ensures a == b
    decreases |a|
  {
    PermutationHeads(a, b);
    if a == [] {
    } else {
      SortedHeadsAgree(key, a, b);
      SortedTail(key, a);
      assert SortedBy(key, b[1..]);
      PermutationTails(a, b);
      SortedUnique(key, a[1..], b[1..]);
      assert a == [a[0]] + a[1..] && b == [b[0]] + b[1..];
    }
  }

  /** Sorting forgets the arrangement it is given. */
  lemma SortByPermutation<T(!new)>(key: T -> seq<nat>, a: seq<T>, b: seq<T>)
    requires multiset(a) == multiset(b)
    requires KeyInjective(key, a)
    ensures SortBy(key, a) == SortBy(key, b)
  {
    SortBySorted(key, a);
    SortBySorted(key, b);
    SortByMultiset(key, a);
    SortByMultiset(key, b);
    SortByMembers(key, a);
    SortedUnique(key, SortBy(key, a), SortBy(key, b));
  }

  // ----- sequences without repetition

  ghost predicate NoDuplicates<T>(s: seq<T>) {
    forall i, j :: 0 <= i < j < |s| ==> s[i] != s[j]
  }

  lemma {:induction false} NoDuplicatesCount<T>(s: seq<T>)
    requires NoDuplicates(s)
    ensures forall x :: multiset(s)[x] <= 1
  {
    if s == [] {
    } else {
      NoDuplicatesCount(s[1..]);
      assert s == [s[0]] + s[1..];
      assert s[0] !in multiset(s[1..]);
    }
  }

  lemma {:induction false} CountNoDuplicates<T>(s: seq<T>)
    requires forall x :: multiset(s)[x] <= 1
    ensures NoDuplicates(s)
  {
    forall i, j | 0 <= i < j < |s|
      ensures s[i] != s[j]
    {
      assert s == s[..i] + [s[i]] + s[i + 1..j] + [s[j]] + s[j + 1..];
      assert multiset(s)[s[i]] >= (multiset([s[i]]) + multiset([s[j]]))[s[i]];
    }
  }

  /** A repetition-free sequence drawn from one no longer than itself is a rearrangement of it. */
  lemma SubsetMultiset<T>(a: seq<T>, b: seq<T>)
    requires NoDuplicates(a)
    requires forall x :: x in a ==> x in b
    requires |a| >= |b|
    ensures multiset(a) == multiset(b)
  {
    NoDuplicatesCount(a);
    forall x
      ensures multiset(a)[x] <= multiset(b)[x]
    {
      if x in multiset(a) {
        assert x in a;
        assert x in multiset(b);
      }
    }
    assert multiset(b) == multiset(a) + (multiset(b) - multiset(a));
    assert |multiset(b)| == |multiset(a)| + |multiset(b) - multiset(a)|;
  }
}
