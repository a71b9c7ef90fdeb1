/**
 Canonical forms: `canonical_json` sorts keys by code point, `trust_bytes` by UTF-16
 (section 3.2.3 of RFC 8785). Values are compared as Python compares dicts, that is,
 without regard to insertion order.
 */
module Canonical {
  import opened Wrappers
  import opened Ordering
  import opened Unicode
  import opened Json

  datatype KeyOrder = ByCodePoint | ByUtf16

  /** `key.encode("utf-16-be")` raises on a surrogate; callers rule that out first. */
  function SortKey(o: KeyOrder, key: Text): seq<nat> {
    if o.ByUtf16? && Scalar(key) then Utf16(key) else key
  }

  function EntryKey(o: KeyOrder): Entry -> seq<nat> {
    (e: Entry) => SortKey(o, e.key)
  }

  /** Keys sorted at every level; this is what `normalize` builds. */
  function Norm(o: KeyOrder, v: Value): Value {
    match v
    case Arr(items) => Arr(NormItems(o, items))
    case Obj(es) => Obj(SortBy(EntryKey(o), NormEntries(o, es)))
    case _ => v
  }

  function NormItems(o: KeyOrder, items: seq<Value>): (r: seq<Value>)
    ensures |r| == |items|
    ensures forall i :: 0 <= i < |items| ==> r[i] == Norm(o, items[i])
  {
    seq(|items|, i requires 0 <= i < |items| => Norm(o, items[i]))
  }

  function NormEntries(o: KeyOrder, es: seq<Entry>): (r: seq<Entry>)
    ensures |r| == |es|
    ensures forall i :: 0 <= i < |es| ==> r[i] == Entry(es[i].key, Norm(o, es[i].value))
  {
    seq(|es|, i requires 0 <= i < |es| => Entry(es[i].key, Norm(o, es[i].value)))
  }

  /** Equal as Python compares values, and with every number in the same type. */
  ghost predicate Same(v: Value, w: Value) {
    match (v, w)
    case (Arr(a), Arr(b)) => |a| == |b| && forall i :: 0 <= i < |a| ==> Same(a[i], b[i])
    case (Obj(a), Obj(b)) =>
      && |a| == |b|
      && forall e :: e in a ==> exists f :: f in b && e.key == f.key && Same(e.value, f.value)
    case _ => v == w
  }

  /** UTF-16 sorting needs scalar text, code point sorting needs nothing. */
  ghost predicate Sortable(o: KeyOrder, v: Value) { o.ByUtf16? ==> AllScalar(v) }

  lemma SortKeyInjective(o: KeyOrder, a: Text, b: Text)
    requires o.ByUtf16? ==> Scalar(a) && Scalar(b)
    requires SortKey(o, a) == SortKey(o, b)
    ensures a == b
  {
    if o.ByUtf16? {
      Utf16Injective(a, b);
    }
  }

  lemma EntriesKeyInjective(o: KeyOrder, es: seq<Entry>)
    requires UniqueKeys(es)
    requires o.ByUtf16? ==> forall e :: e in es ==> Scalar(e.key)
    ensures KeyInjective(EntryKey(o), es)
  {
    forall x, y | x in es && y in es && EntryKey(o)(x) == EntryKey(o)(y)
      ensures x == y
    {
      SortKeyInjective(o, x.key, y.key);
    }
  }

  lemma UniqueKeysNoDuplicates(es: seq<Entry>)
    requires UniqueKeys(es)
    ensures NoDuplicates(es)
  {
  }

  lemma UniqueKeysPermutation(a: seq<Entry>, b: seq<Entry>)
    requires UniqueKeys(a) && multiset(a) == multiset(b)
    ensures UniqueKeys(b)
  {
    NoDuplicatesCount(a);
    CountNoDuplicates(b);
    forall i, j | 0 <= i < j < |b|
      ensures b[i].key != b[j].key
    {
      assert b[i] in multiset(b) && b[j] in multiset(b);
      assert b[i] in multiset(a) && b[j] in multiset(a);
      assert b[i] in a && b[j] in a;
    }
  }

  // ----- the normal form is the same value

  lemma NormEntriesUnique(o: KeyOrder, es: seq<Entry>)
    requires UniqueKeys(es)
    ensures UniqueKeys(NormEntries(o, es))
  {
  }

  lemma {:induction false} NormValid(o: KeyOrder, v: Value)
    requires Valid(v)
    ensures Valid(Norm(o, v))
    ensures AllScalar(v) ==> AllScalar(Norm(o, v))
  {
    match v
    case Arr(items) =>
      forall x | x in items
        ensures Valid(Norm(o, x)) && (AllScalar(v) ==> AllScalar(Norm(o, x)))
      {
        NormValid(o, x);
      }
    case Obj(es) =>
      var ne := NormEntries(o, es);
      var sorted := SortBy(EntryKey(o), ne);
      NormEntriesUnique(o, es);
      SortByMultiset(EntryKey(o), ne);
      SortByMembers(EntryKey(o), ne);
      UniqueKeysPermutation(ne, sorted);
      forall f | f in sorted
        ensures Valid(f.value) && (AllScalar(v) ==> Scalar(f.key) && AllScalar(f.value))
      {
        var i :| 0 <= i < |ne| && ne[i] == f;
        assert es[i] in es;
        NormValid(o, es[i].value);
      }
    case _ =>
  }

  lemma {:induction false} NormSame(o: KeyOrder, v: Value)
    requires Valid(v)
    ensures Same(Norm(o, v), v)
  {
    match v
    case Arr(items) =>
      forall i | 0 <= i < |items|
        ensures Same(Norm(o, items[i]), items[i])
      {
        assert items[i] in items;
        NormSame(o, items[i]);
      }
    case Obj(es) =>
      var ne := NormEntries(o, es);
      var sorted := SortBy(EntryKey(o), ne);
      SortByMultiset(EntryKey(o), ne);
      SortByMembers(EntryKey(o), ne);
      forall f | f in sorted
        ensures exists e :: e in es && f.key == e.key && Same(f.value, e.value)
      {
        var i :| 0 <= i < |ne| && ne[i] == f;
        assert es[i] in es;
        NormSame(o, es[i].value);
      }
    case _ =>
  }

  lemma NormEqualSameEntries(o: KeyOrder, a: seq<Entry>, b: seq<Entry>, e: Entry) returns (f: Entry)
    requires SortBy(EntryKey(o), NormEntries(o, a)) == SortBy(EntryKey(o), NormEntries(o, b))
    requires e in a
    ensures f in b && f.key == e.key && Norm(o, f.value) == Norm(o, e.value)
  {
    var na, nb := NormEntries(o, a), NormEntries(o, b);
    SortByMembers(EntryKey(o), na);
    SortByMembers(EntryKey(o), nb);
    var i :| 0 <= i < |a| && a[i] == e;
    assert na[i] in na;
    assert na[i] in SortBy(EntryKey(o), na);
    var j :| 0 <= j < |nb| && nb[j] == na[i];
    f := b[j];
  }

  /** Equal normal forms come only from equal values. */
  lemma {:induction false} NormEqualSame(o: KeyOrder, v: Value, w: Value)
    requires Norm(o, v) == Norm(o, w)
    ensures Same(v, w)
  {
    match v
    case Arr(a) =>
      forall i | 0 <= i < |a|
        ensures |w.items| == |a| && Same(a[i], w.items[i])
      {
        assert NormItems(o, a)[i] == NormItems(o, w.items)[i];
        NormEqualSame(o, a[i], w.items[i]);
      }
      assert |NormItems(o, a)| == |NormItems(o, w.items)|;
    case Obj(a) =>
      var b := w.entries;
      SortByMultiset(EntryKey(o), NormEntries(o, a));
      SortByMultiset(EntryKey(o), NormEntries(o, b));
      forall e | e in a
        ensures exists f :: f in b && e.key == f.key && Same(e.value, f.value)
      {
        var f := NormEqualSameEntries(o, a, b, e);
        NormEqualSame(o, e.value, f.value);
      }
    case _ =>
  }

  /** Equal values have equal normal forms, whatever the insertion orders. */
  lemma {:induction false} SameNormEqual(o: KeyOrder, v: Value, w: Value)
    requires Valid(v) && Valid(w) && Sortable(o, v) && Sortable(o, w)
    requires Same(v, w)
    ensures Norm(o, v) == Norm(o, w)
  {
    match v
    case Arr(a) =>
      forall i | 0 <= i < |a|
        ensures Norm(o, a[i]) == Norm(o, w.items[i])
      {
        assert a[i] in a && w.items[i] in w.items;
        SameNormEqual(o, a[i], w.items[i]);
      }
      assert NormItems(o, a) == NormItems(o, w.items);
    case Obj(a) =>
      var b := w.entries;
      var na, nb := NormEntries(o, a), NormEntries(o, b);
      NormEntriesUnique(o, a);
      UniqueKeysNoDuplicates(na);
      forall x | x in na
        ensures x in nb
      {
        var i :| 0 <= i < |na| && na[i] == x;
        assert a[i] in a;
        var f :| f in b && a[i].key == f.key && Same(a[i].value, f.value);
        SameNormEqual(o, a[i].value, f.value);
        var j :| 0 <= j < |b| && b[j] == f;
        assert nb[j] == x;
      }
      SubsetMultiset(na, nb);
      forall x | x in na
        ensures o.ByUtf16? ==> Scalar(x.key)
      {
        var i :| 0 <= i < |na| && na[i] == x;
        assert a[i] in a;
      }
      EntriesKeyInjective(o, na);
      SortByPermutation(EntryKey(o), na, nb);
    case _ =>
  }

  lemma {:induction false} NormReads(o: KeyOrder, m: Reader, v: Value)
    requires ReadsBack(m, v)
    ensures ReadsBack(m, Norm(o, v))
  {
    match v
    case Arr(items) =>
      forall x | x in items
        ensures ReadsBack(m, Norm(o, x))
      {
        NormReads(o, m, x);
      }
    case Obj(es) =>
      var ne := NormEntries(o, es);
      SortByMembers(EntryKey(o), ne);
      forall f | f in SortBy(EntryKey(o), ne)
        ensures ReadsBack(m, f.value)
      {
        var i :| 0 <= i < |ne| && ne[i] == f;
        assert es[i] in es;
        NormReads(o, m, es[i].value);
      }
    case _ =>
  }

  // ----- canonical_json

  function CanonicalJson(v: Value): Text { Print(Raw, Norm(ByCodePoint, v)) }

  /** A reader for which every float text is a float of its own. */
  const PLAIN := Reader(false, false, Some(EXACT))

  lemma {:induction false} PlainReads(v: Value)
    requires Valid(v)
    ensures ReadsBack(PLAIN, v)
  {
    match v
    case Arr(items) =>
      forall x | x in items
        ensures ReadsBack(PLAIN, x)
      {
        PlainReads(x);
      }
    case Obj(es) =>
      forall e | e in es
        ensures ReadsBack(PLAIN, e.value)
      {
        PlainReads(e.value);
      }
    case _ =>
  }

  /** Two values print alike exactly when they are equal and hold their numbers in the same
      types: 1, 1.0 and true are three texts. */
  lemma CanonicalJsonInjective(v: Value, w: Value)
    requires Valid(v) && Valid(w)
    ensures CanonicalJson(v) == CanonicalJson(w) <==> Same(v, w)
  {
    var o := ByCodePoint;
    NormValid(o, v);
    NormValid(o, w);
    if CanonicalJson(v) == CanonicalJson(w) {
      PlainReads(Norm(o, v));
      PlainReads(Norm(o, w));
      LoadsPrint(PLAIN, Raw, Norm(o, v));
      LoadsPrint(PLAIN, Raw, Norm(o, w));
      NormEqualSame(o, v, w);
    }
    if Same(v, w) {
      SameNormEqual(o, v, w);
    }
  }

  /** The canonical text is a fixed point: loading it and printing again changes nothing. */
  lemma CanonicalJsonStable(m: Reader, v: Value)
    requires Proper(m, v)
    ensures Loads(m, CanonicalJson(v)) == Some(Norm(ByCodePoint, v))
    ensures CanonicalJson(Norm(ByCodePoint, v)) == CanonicalJson(v)
    ensures Same(Norm(ByCodePoint, v), v)
  {
    var n := Norm(ByCodePoint, v);
    NormValid(ByCodePoint, v);
    NormReads(ByCodePoint, m, v);
    LoadsPrint(m, Raw, n);
    NormSame(ByCodePoint, v);
    CanonicalJsonInjective(n, v);
  }
}
