/** Reading and removing one key of a dict: `value.get(key)` and `value.pop(key, None)`. */
module Fields {
  import opened Unicode
  import opened Json
  import opened Canonical

  predicate Has(es: seq<Entry>, key: Text) { exists e :: e in es && e.key == key }

  /** Null stands for Python's None, whether stored or absent. */
  function Get(es: seq<Entry>, key: Text): Value {
    if es == [] then Null else if es[0].key == key then es[0].value else Get(es[1..], key)
  }

  function Remove(es: seq<Entry>, key: Text): seq<Entry> {
    if es == [] then []
    else if es[0].key == key then Remove(es[1..], key)
    else [es[0]] + Remove(es[1..], key)
  }

  lemma {:induction false} GetIs(es: seq<Entry>, key: Text, e: Entry)
    requires UniqueKeys(es) && e in es && e.key == key
    ensures Get(es, key) == e.value
  {
    if es[0].key != key {
      GetIs(es[1..], key, e);
    }
  }

  lemma {:induction false} GetAbsent(es: seq<Entry>, key: Text)
    requires !Has(es, key)
    ensures Get(es, key) == Null
  {
    if es == [] {
    } else {
      assert es[0] in es;
      assert forall e :: e in es[1..] ==> e in es;
      GetAbsent(es[1..], key);
    }
  }

  // ----- the same without recursion

  ghost predicate KeyAt(es: seq<Entry>, name: string, i: int) { 0 <= i < |es| && es[i].key == Lit(name) }

  ghost predicate Present(es: seq<Entry>, name: string) { exists i :: KeyAt(es, name, i) }

  /** `es.get(name)`: the value of the entry with this key, if there is one. */
  ghost function Field(es: seq<Entry>, name: string): Value {
    if Present(es, name) then
      var i :| KeyAt(es, name, i);
      es[i].value
    else Null
  }

  lemma FieldIs(es: seq<Entry>, name: string)
    requires UniqueKeys(es)
    ensures Present(es, name) <==> Has(es, Lit(name))
    ensures Field(es, name) == Get(es, Lit(name))
  {
    hide Lit;
    if Present(es, name) {
      var i :| KeyAt(es, name, i) && Field(es, name) == es[i].value;
      assert es[i] in es;
      GetIs(es, Lit(name), es[i]);
    } else {
      forall e | e in es
        ensures e.key != Lit(name)
      {
        var i :| 0 <= i < |es| && es[i] == e;
        assert !KeyAt(es, name, i);
      }
      GetAbsent(es, Lit(name));
    }
  }

  lemma LitInjective(a: string, b: string)
    ensures Lit(a) == Lit(b) <==> a == b
  {
    if Lit(a) == Lit(b) {
      assert forall i :: 0 <= i < |a| ==> Lit(a)[i] == a[i] as int && Lit(b)[i] == b[i] as int;
    }
  }

  /** A dict with these keys and no others. */
  ghost predicate Dict(es: seq<Entry>, names: seq<string>) {
    UniqueKeys(es) && |es| == |names| && forall i :: 0 <= i < |names| ==> Present(es, names[i])
  }

  lemma DictIs(es: seq<Entry>, names: seq<string>)
    requires |es| == |names| && forall i :: 0 <= i < |es| ==> es[i].key == Lit(names[i])
    requires forall i, j :: 0 <= i < j < |names| ==> names[i] != names[j]
    ensures Dict(es, names) && forall i :: 0 <= i < |es| ==> Field(es, names[i]) == es[i].value
  {
    hide Lit;
    forall i, j | 0 <= i < j < |es|
      ensures es[i].key != es[j].key
    {
      LitInjective(names[i], names[j]);
    }
    forall i | 0 <= i < |es|
      ensures Present(es, names[i]) && Field(es, names[i]) == es[i].value
    {
      assert KeyAt(es, names[i], i);
    }
  }

  // ----- removing

  lemma {:induction false} RemoveMembers(es: seq<Entry>, key: Text)
    ensures forall e :: e in Remove(es, key) <==> e in es && e.key != key
  {
    if es == [] {
    } else {
      RemoveMembers(es[1..], key);
      assert es == [es[0]] + es[1..];
    }
  }

  lemma {:induction false} RemoveUnique(es: seq<Entry>, key: Text)
    requires UniqueKeys(es)
    ensures UniqueKeys(Remove(es, key))
    ensures |Remove(es, key)| == |es| - if Has(es, key) then 1 else 0
  {
    if es == [] {
    } else {
      RemoveUnique(es[1..], key);
      RemoveMembers(es[1..], key);
      assert es == [es[0]] + es[1..];
      assert es[0] in es;
      if es[0].key == key {
        assert !Has(es[1..], key);
      } else {
        assert Has(es, key) <==> Has(es[1..], key);
        forall e | e in Remove(es[1..], key)
          ensures e.key != es[0].key
        {
          assert e in es[1..];
        }
      }
    }
  }

  /** The entry of b that an entry of a is equal to. */
  lemma SameEntry(a: seq<Entry>, b: seq<Entry>, e: Entry) returns (f: Entry)
    requires Same(Obj(a), Obj(b)) && e in a
    ensures f in b && e.key == f.key && Same(e.value, f.value)
  {
    f :| f in b && e.key == f.key && Same(e.value, f.value);
  }

  lemma SameItems(a: seq<Value>, b: seq<Value>)
    requires Same(Arr(a), Arr(b))
    ensures |a| == |b| && forall i :: 0 <= i < |a| ==> Same(a[i], b[i])
  {
  }

  lemma SameGetPresent(a: seq<Entry>, b: seq<Entry>, key: Text)
    requires Same(Obj(a), Obj(b)) && UniqueKeys(a) && UniqueKeys(b) && Has(a, key)
    ensures Has(b, key) && Same(Get(a, key), Get(b, key))
  {
    var e :| e in a && e.key == key;
    var f := SameEntry(a, b, e);
    GetIs(a, key, e);
    GetIs(b, key, f);
  }

  /** A field that reads as text is there, in one entry. */
  lemma TextEntry(es: seq<Entry>, key: Text) returns (e: Entry)
    requires UniqueKeys(es) && Get(es, key).Str?
    ensures Has(es, key) && e in es && e.key == key && e.value == Get(es, key)
    ensures forall f :: f in es && f.key == key ==> f.value == Get(es, key)
  {
    if !Has(es, key) {
      GetAbsent(es, key);
    }
    e :| e in es && e.key == key;
    forall f | f in es && f.key == key
      ensures f.value == Get(es, key)
    {
      GetIs(es, key, f);
    }
    GetIs(es, key, e);
  }

  /** Two dicts equal apart from one key, and equal there, are equal. */
  lemma SameRestore(a: seq<Entry>, b: seq<Entry>, key: Text)
    requires UniqueKeys(a) && UniqueKeys(b)
    requires Same(Obj(Remove(a, key)), Obj(Remove(b, key)))
    requires Get(a, key) == Get(b, key) && Get(a, key).Str?
    ensures Same(Obj(a), Obj(b))
  {
    hide UniqueKeys, Get, Remove, Has;
    RemoveUnique(a, key);
    RemoveUnique(b, key);
    RemoveMembers(a, key);
    RemoveMembers(b, key);
    var ea := TextEntry(a, key);
    var eb := TextEntry(b, key);
    forall e | e in a
      ensures exists f :: f in b && e.key == f.key && Same(e.value, f.value)
    {
      if e.key == key {
        assert Same(e.value, eb.value);
      } else {
        var f := SameEntry(Remove(a, key), Remove(b, key), e);
      }
    }
  }

  lemma RemoveValid(es: seq<Entry>, key: Text)
    requires Valid(Obj(es))
    ensures Valid(Obj(Remove(es, key)))
  {
    RemoveUnique(es, key);
    RemoveMembers(es, key);
  }

  // ----- Same is an equivalence on proper values

  lemma SameSymmetric(v: Value, w: Value)
    requires Valid(v) && Valid(w) && Same(v, w)
    ensures Same(w, v)
  {
    SameNormEqual(ByCodePoint, v, w);
    NormEqualSame(ByCodePoint, w, v);
  }

  /** Two readings of one field differ in nothing but presence. */
  lemma SameGetBoth(a: seq<Entry>, b: seq<Entry>, key: Text)
    requires Valid(Obj(a)) && Valid(Obj(b)) && Same(Obj(a), Obj(b))
    ensures Same(Get(a, key), Get(b, key))
  {
    if Has(a, key) {
      SameGetPresent(a, b, key);
    } else {
      SameSymmetric(Obj(a), Obj(b));
      if Has(b, key) {
        SameGetPresent(b, a, key);
      }
      GetAbsent(a, key);
      GetAbsent(b, key);
    }
  }

  /** Removing a key respects equality. */
  lemma SameRemove(a: seq<Entry>, b: seq<Entry>, key: Text)
    requires Valid(Obj(a)) && Valid(Obj(b)) && Same(Obj(a), Obj(b))
    ensures Same(Obj(Remove(a, key)), Obj(Remove(b, key)))
  {
    RemoveUnique(a, key);
    RemoveUnique(b, key);
    RemoveMembers(a, key);
    RemoveMembers(b, key);
    if Has(a, key) {
      SameGetPresent(a, b, key);
    } else if Has(b, key) {
      SameSymmetric(Obj(a), Obj(b));
      SameGetPresent(b, a, key);
    }
    forall e | e in Remove(a, key)
      ensures exists f :: f in Remove(b, key) && e.key == f.key && Same(e.value, f.value)
    {
      var f := SameEntry(a, b, e);
      assert f in Remove(b, key);
    }
  }

  lemma {:induction false} RemoveLast(es: seq<Entry>, key: Text, value: Value)
    requires !Has(es, key)
    ensures Remove(es + [Entry(key, value)], key) == es
  {
    if es == [] {
      assert es + [Entry(key, value)] == [Entry(key, value)];
    } else {
      assert es[0] in es && forall e :: e in es[1..] ==> e in es;
      assert (es + [Entry(key, value)])[1..] == es[1..] + [Entry(key, value)];
      RemoveLast(es[1..], key, value);
    }
  }
}
