/** How Python compares, tests and spells JSON values: `==`, `bool` and `str`. */
module PythonValues {
  import opened Wrappers
  import opened Unicode
  import opened Json
  import opened Canonical

  /** What the interpreter brings along: floating point, and `str.isprintable` on a character. */
  datatype Python = Python(floats: Floats, printable: nat -> bool)

  // ----- equality

  /** One representative for the numbers Python calls equal: true, 1 and 1.0 are all 1. */
  function Merged(a: Floats, v: Value): Value {
    match v
    case Bool(b) => Int(if b then 1 else 0)
    case Float(t) => if a.whole(t).Some? then Int(a.whole(t).value) else v
    case Arr(items) => Arr(MergedItems(a, items))
    case Obj(es) => Obj(MergedEntries(a, es))
    case _ => v
  }

  function MergedItems(a: Floats, items: seq<Value>): (r: seq<Value>)
    ensures |r| == |items|
    ensures forall i :: 0 <= i < |items| ==> r[i] == Merged(a, items[i])
  {
    seq(|items|, i requires 0 <= i < |items| => Merged(a, items[i]))
  }

  function MergedEntries(a: Floats, es: seq<Entry>): (r: seq<Entry>)
    ensures |r| == |es|
    ensures forall i :: 0 <= i < |es| ==> r[i] == Entry(es[i].key, Merged(a, es[i].value))
  {
    seq(|es|, i requires 0 <= i < |es| => Entry(es[i].key, Merged(a, es[i].value)))
  }

  /** `v == w` between the parts of lists and dicts, where an object is equal to itself; the
      parser makes all its NaNs one object. */
  ghost predicate Equal(a: Floats, v: Value, w: Value) { Same(Merged(a, v), Merged(a, w)) }

  /** `v == w` between two values: NaN is not equal to itself. */
  predicate PyEqual(py: Python, v: Value, w: Value) {
    v != Float(NAN) && CanonicalJson(Merged(py.floats, v)) == CanonicalJson(Merged(py.floats, w))
  }

  lemma {:induction false} MergedValid(a: Floats, v: Value)
    requires Valid(v)
    ensures Valid(Merged(a, v))
  {
    match v
    case Arr(items) =>
      forall x | x in MergedItems(a, items)
        ensures Valid(x)
      {
        var i :| 0 <= i < |items| && MergedItems(a, items)[i] == x;
        assert items[i] in items;
        MergedValid(a, items[i]);
      }
    case Obj(es) =>
      forall e | e in MergedEntries(a, es)
        ensures Valid(e.value)
      {
        var i :| 0 <= i < |es| && MergedEntries(a, es)[i] == e;
        assert es[i] in es;
        MergedValid(a, es[i].value);
      }
    case _ =>
  }

  lemma PyEqualIs(py: Python, v: Value, w: Value)
    requires Valid(v) && Valid(w)
    ensures PyEqual(py, v, w) <==> v != Float(NAN) && Equal(py.floats, v, w)
  {
    MergedValid(py.floats, v);
    MergedValid(py.floats, w);
    CanonicalJsonInjective(Merged(py.floats, v), Merged(py.floats, w));
  }

  lemma MergedEntry(a: Floats, es: seq<Entry>, e: Entry)
    requires e in es
    ensures Entry(e.key, Merged(a, e.value)) in MergedEntries(a, es)
  {
    var i :| 0 <= i < |es| && es[i] == e;
    assert MergedEntries(a, es)[i] in MergedEntries(a, es);
  }

  /** The entry that an entry of the first dict is equal to, merged. */
  lemma EqualEntries(a: Floats, es: seq<Entry>, fs: seq<Entry>)
    requires |es| == |fs|
    requires forall e :: e in es ==> exists f :: f in fs && e.key == f.key && Equal(a, e.value, f.value)
    ensures Equal(a, Obj(es), Obj(fs))
  {
    forall x | x in MergedEntries(a, es)
      ensures exists y :: y in MergedEntries(a, fs) && x.key == y.key && Same(x.value, y.value)
    {
      var i :| 0 <= i < |es| && MergedEntries(a, es)[i] == x;
      assert es[i] in es;
      var f :| f in fs && es[i].key == f.key && Equal(a, es[i].value, f.value);
      MergedEntry(a, fs, f);
    }
  }

  lemma EqualItems(a: Floats, vs: seq<Value>, ws: seq<Value>)
    requires |vs| == |ws| && forall i :: 0 <= i < |vs| ==> Equal(a, vs[i], ws[i])
    ensures Equal(a, Arr(vs), Arr(ws))
  {
  }

  /** Merging respects equality. */
  lemma {:induction false} SameEqual(a: Floats, v: Value, w: Value)
    requires Same(v, w)
    ensures Equal(a, v, w)
  {
    hide Equal;
    match v
    case Arr(items) =>
      forall i | 0 <= i < |items|
        ensures Equal(a, items[i], w.items[i])
      {
        SameEqual(a, items[i], w.items[i]);
      }
      EqualItems(a, items, w.items);
    case Obj(es) =>
      forall e | e in es
        ensures exists f :: f in w.entries && e.key == f.key && Equal(a, e.value, f.value)
      {
        var f :| f in w.entries && e.key == f.key && Same(e.value, f.value);
        SameEqual(a, e.value, f.value);
      }
      EqualEntries(a, es, w.entries);
    case _ => EqualSelf(a, v);
  }

  lemma EqualSelf(a: Floats, v: Value)
    requires !v.Arr? && !v.Obj?
    ensures Equal(a, v, v)
  {
  }

  /** Numbers in one place have one type, and zeros one sign. */
  ghost predicate SameTypes(v: Value, w: Value) {
    match (v, w)
    case (Arr(a), Arr(b)) => |a| == |b| && forall i :: 0 <= i < |a| ==> SameTypes(a[i], b[i])
    case (Obj(a), Obj(b)) =>
      forall e, f :: e in a && f in b && e.key == f.key ==> SameTypes(e.value, f.value)
    case (Float(t), Float(u)) => Negative(t) == Negative(u)
    case _ => v.Bool? == w.Bool? && v.Int? == w.Int? && v.Float? == w.Float?
  }

  lemma {:induction false} SameHasTypes(v: Value, w: Value)
    requires Same(v, w) && Valid(v) && Valid(w)
    ensures SameTypes(v, w)
  {
    match v
    case Arr(items) =>
      forall i | 0 <= i < |items|
        ensures SameTypes(items[i], w.items[i])
      {
        assert items[i] in items && w.items[i] in w.items;
        SameHasTypes(items[i], w.items[i]);
      }
    case Obj(es) =>
      forall e, f | e in es && f in w.entries && e.key == f.key
        ensures SameTypes(e.value, f.value)
      {
        var g :| g in w.entries && e.key == g.key && Same(e.value, g.value);
        SameHasTypes(e.value, g.value);
      }
    case _ =>
  }

  lemma {:induction false} EqualSame(a: Floats, m: Reader, v: Value, w: Value)
    requires m.floats == Some(a) && Proper(m, v) && Proper(m, w)
    requires Equal(a, v, w) && SameTypes(v, w)
    ensures Same(v, w)
  {
    match v
    case Arr(items) =>
      forall i | 0 <= i < |items|
        ensures |w.items| == |items| && Same(items[i], w.items[i])
      {
        assert items[i] in items && w.items[i] in w.items;
        assert Same(MergedItems(a, items)[i], MergedItems(a, w.items)[i]);
        EqualSame(a, m, items[i], w.items[i]);
      }
    case Obj(es) =>
      forall e | e in es
        ensures exists f :: f in w.entries && e.key == f.key && Same(e.value, f.value)
      {
        var f := EqualEntry(a, es, w.entries, e);
        EqualSame(a, m, e.value, f.value);
      }
    case _ =>
  }

  /** The entry of gs that an entry of es is equal to. */
  lemma EqualEntry(a: Floats, es: seq<Entry>, gs: seq<Entry>, e: Entry) returns (f: Entry)
    requires Equal(a, Obj(es), Obj(gs)) && e in es
    ensures f in gs && f.key == e.key && Equal(a, e.value, f.value)
  {
    MergedEntry(a, es, e);
    var y :| y in MergedEntries(a, gs) && y.key == e.key && Same(Merged(a, e.value), y.value);
    var j :| 0 <= j < |gs| && MergedEntries(a, gs)[j] == y;
    f := gs[j];
  }

  /** Two loaded values have one canonical text exactly when Python calls them equal and their
      numbers agree in type and in the sign of zero. */
  lemma TextsAgree(a: Floats, m: Reader, v: Value, w: Value)
    requires m.floats == Some(a) && Proper(m, v) && Proper(m, w)
    ensures CanonicalJson(v) == CanonicalJson(w) <==> Equal(a, v, w) && SameTypes(v, w)
  {
    CanonicalJsonInjective(v, w);
    if Same(v, w) {
      SameEqual(a, v, w);
      SameHasTypes(v, w);
    }
    if Equal(a, v, w) && SameTypes(v, w) {
      EqualSame(a, m, v, w);
    }
  }

  // ----- truth and spelling

  predicate Truthy(a: Floats, v: Value) {
    match v
    case Null => false
    case Bool(b) => b
    case Int(n) => n != 0
    case Float(t) => a.whole(t) != Some(0)
    case Str(s) => s != []
    case Arr(items) => items != []
    case Obj(es) => es != []
    case Unsupported => true
  }

  const SINGLE: nat := 39

  /** `repr` of one character between quotes q. */
  function ReprChar(py: Python, q: nat, c: nat): Text {
    if c == q || c == BACKSLASH then [BACKSLASH, c]
    else if c == 9 then [BACKSLASH, 116]
    else if c == 10 then [BACKSLASH, 110]
    else if c == 13 then [BACKSLASH, 114]
    else if 32 <= c < 127 || (c > 127 && py.printable(c)) then [c]
    else if c < 0x100 then [BACKSLASH, 120, HexDigit(c / 16), HexDigit(c % 16)]
    else if c < 0x10000 then UnicodeEscape(c)
    else [BACKSLASH, 85] + Hex4(c / 0x10000) + Hex4(c % 0x10000)
  }

  function ReprChars(py: Python, q: nat, s: Text): Text {
    if s == [] then [] else ReprChar(py, q, s[0]) + ReprChars(py, q, s[1..])
  }

  /** Single quotes, unless the text holds some and no double ones. */
  function ReprStr(py: Python, s: Text): Text {
    var q := if SINGLE in s && QUOTE !in s then QUOTE else SINGLE;
    [q] + ReprChars(py, q, s) + [q]
  }

  function Repr(py: Python, v: Value): Text {
    match v
    case Null => Lit("None")
    case Bool(b) => if b then Lit("True") else Lit("False")
    case Int(n) => IntText(n)
    case Float(t) =>
      if t == NAN then Lit("nan") else if t == INFINITY then Lit("inf")
      else if t == MINUS_INFINITY then Lit("-inf") else t
    case Str(s) => ReprStr(py, s)
    case Arr(items) => [OPEN_ARRAY] + ReprItems(py, items) + [CLOSE_ARRAY]
    case Obj(es) => [OPEN_OBJECT] + ReprEntries(py, es) + [CLOSE_OBJECT]
    case Unsupported => []
  }

  function ReprItems(py: Python, items: seq<Value>): Text {
    if items == [] then []
    else if |items| == 1 then Repr(py, items[0])
    else Repr(py, items[0]) + Lit(", ") + ReprItems(py, items[1..])
  }

  function ReprEntry(py: Python, e: Entry): Text { ReprStr(py, e.key) + Lit(": ") + Repr(py, e.value) }

  function ReprEntries(py: Python, es: seq<Entry>): Text {
    if es == [] then []
    else if |es| == 1 then ReprEntry(py, es[0])
    else ReprEntry(py, es[0]) + Lit(", ") + ReprEntries(py, es[1..])
  }

  /** `str(v)`. */
  function PyStr(py: Python, v: Value): Text { if v.Str? then v.s else Repr(py, v) }

  /** A value that can be a dict key or a member of a set. */
  predicate Hashable(v: Value) { !v.Arr? && !v.Obj? }
}
