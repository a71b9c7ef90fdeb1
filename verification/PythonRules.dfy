/**
 Python's `==`, `bool` and `str` on JSON values, from what the values are.
 */
module PythonRules {
  import opened Wrappers
  import opened Unicode
  import opened Json
  import opened Canonical
  import opened PrintedForm
  import opened PythonValues

  // ----- equality and truth

  /** v is the integer n: itself, a float without a fraction, or for 0 and 1 a truth value. */
  predicate IsInteger(a: Floats, v: Value, n: int) {
    match v
    case Int(i) => i == n
    case Bool(b) => (b && n == 1) || (!b && n == 0)
    case Float(t) => a.whole(t) == Some(n)
    case _ => false
  }

  /** Numbers are equal as numbers, lists element by element, dicts key by key in any order. */
  ghost predicate Compares(a: Floats, v: Value, w: Value) {
    match v
    case Arr(items) =>
      && w.Arr? && |items| == |w.items|
      && forall i :: 0 <= i < |items| ==> Compares(a, items[i], w.items[i])
    case Obj(es) =>
      && w.Obj? && |es| == |w.entries|
      && forall e :: e in es ==> exists f :: f in w.entries && e.key == f.key && Compares(a, e.value, f.value)
    case _ => v == w || exists n :: IsInteger(a, v, n) && IsInteger(a, w, n)
  }

  lemma {:induction false} EqualExactly(a: Floats, v: Value, w: Value)
    ensures Equal(a, v, w) <==> Compares(a, v, w)
    decreases v, 1
  {
    match v
    case Arr(items) =>
      if w.Arr? && |items| == |w.items| {
        forall i | 0 <= i < |items|
          ensures Same(MergedItems(a, items)[i], MergedItems(a, w.items)[i]) <==> Compares(a, items[i], w.items[i])
        {
          EqualExactly(a, items[i], w.items[i]);
        }
      }
    case Obj(es) =>
      if w.Obj? {
        EntriesExactly(a, es, w.entries);
      }
    case _ => ScalarsExactly(a, v, w);
  }

  lemma ScalarsExactly(a: Floats, v: Value, w: Value)
    requires !v.Arr? && !v.Obj?
    ensures Equal(a, v, w) <==> Compares(a, v, w)
  {
    var m := Merged(a, v);
    if Merged(a, w) == m && m.Int? {
      assert IsInteger(a, v, m.n) && IsInteger(a, w, m.n);
    }
  }

  lemma {:induction false} EntriesExactly(a: Floats, es: seq<Entry>, fs: seq<Entry>)
    ensures Equal(a, Obj(es), Obj(fs)) <==> Compares(a, Obj(es), Obj(fs))
    decreases es, 0
  {
    hide Same, Compares;
    forall e: Entry, f: Entry | e in es
      ensures Equal(a, e.value, f.value) <==> Compares(a, e.value, f.value)
    {
      EqualExactly(a, e.value, f.value);
    }
    EqualObjects(a, es, fs);
    ComparesObjects(a, es, fs);
  }

  lemma ComparesObjects(a: Floats, es: seq<Entry>, fs: seq<Entry>)
    ensures Compares(a, Obj(es), Obj(fs)) <==>
              && |es| == |fs|
              && forall e :: e in es ==> exists f :: f in fs && e.key == f.key && Compares(a, e.value, f.value)
  {
  }

  lemma EqualObjects(a: Floats, es: seq<Entry>, fs: seq<Entry>)
    ensures Equal(a, Obj(es), Obj(fs)) <==>
              && |es| == |fs|
              && forall e :: e in es ==> exists f :: f in fs && e.key == f.key && Equal(a, e.value, f.value)
  {
    if Equal(a, Obj(es), Obj(fs)) {
      assert |MergedEntries(a, es)| == |MergedEntries(a, fs)|;
      forall e | e in es
        ensures exists f :: f in fs && e.key == f.key && Equal(a, e.value, f.value)
      {
        var f := EqualEntry(a, es, fs, e);
      }
    } else if
      && |es| == |fs|
      && forall e :: e in es ==> exists f :: f in fs && e.key == f.key && Equal(a, e.value, f.value)
    {
      EqualEntries(a, es, fs);
    }
  }

  /** `v == w`; only NaN differs from itself. */
  lemma PyEqualExactly(py: Python, v: Value, w: Value)
    requires Valid(v) && Valid(w)
    ensures PyEqual(py, v, w) <==> v != Float(Lit("NaN")) && Compares(py.floats, v, w)
  {
    hide PyEqual, Equal, Compares;
    PyEqualIs(py, v, w);
    EqualExactly(py.floats, v, w);
  }

  /** What is false: None, zero in any type, and what is empty. */
  lemma TruthyExactly(a: Floats, v: Value)
    ensures Truthy(a, v) <==>
              v != Null && !IsInteger(a, v, 0) && v != Str([]) && v != Arr([]) && v != Obj([])
  {
  }

  // ----- spelling

  /** t is what stands for c between quotes q. */
  predicate CharRepr(py: Python, q: char, c: nat, t: Text)
    requires c <= 0x10FFFF
  {
    if c == q as int || c == '\\' as int then t == [0x5C, c]
    else if c == 0x09 then t == Lit("\\t")
    else if c == 0x0A then t == Lit("\\n")
    else if c == 0x0D then t == Lit("\\r")
    else if (0x20 <= c <= 0x7E) || (c >= 0x80 && py.printable(c)) then t == [c]
    else if c <= 0xFF then t == Lit("\\x") + HexByte(c)
    else if c <= 0xFFFF then t == Lit("\\u") + HexByte(c / 0x100) + HexByte(c % 0x100)
    else t == Lit("\\U00") + HexByte(c / 0x1_0000) + HexByte(c / 0x100 % 0x100) + HexByte(c % 0x100)
  }

  lemma CharReprs(py: Python, q: char, c: nat, t: Text)
    requires c <= 0x10FFFF
    ensures CharRepr(py, q, c, t) <==> t == ReprChar(py, q as int, c)
  {
    hide HexDigit, HexByte, Hex4;
    if c <= 0xFF {
      HexPair(c);
    } else if c <= 0xFFFF {
      HexFour(c);
    } else {
      HexFour(c / 0x1_0000);
      HexFour(c % 0x1_0000);
      Halves(c);
      ZeroPair();
      assert Lit("\\U00") == [BACKSLASH, 85] + [ZERO, ZERO];
    }
  }

  lemma ZeroPair()
    ensures HexByte(0) == [ZERO, ZERO]
  {
  }

  lemma Halves(c: nat)
    requires c <= 0x10FFFF
    ensures c / 0x1_0000 / 0x100 == 0 && c / 0x1_0000 % 0x100 == c / 0x1_0000
    ensures c % 0x1_0000 / 0x100 == c / 0x100 % 0x100 && c % 0x1_0000 % 0x100 == c % 0x100
  {
  }

  ghost predicate CharsRepr(py: Python, q: char, s: Text, parts: seq<Text>)
    requires CodePoints(s)
  {
    |parts| == |s| && forall i :: 0 <= i < |s| ==> CharRepr(py, q, s[i], parts[i])
  }

  /** Double quotes for a text with single and without double ones, and otherwise single quotes. */
  ghost predicate StringRepr(py: Python, s: Text, t: Text)
    requires CodePoints(s)
  {
    var q := if '\'' as int in s && '"' as int !in s then '"' else '\'';
    exists parts :: CharsRepr(py, q, s, parts) && t == [q as int] + Concat(parts) + [q as int]
  }

  lemma {:induction false} CharsReprs(py: Python, q: char, s: Text, parts: seq<Text>)
    requires CodePoints(s)
    ensures CharsRepr(py, q, s, parts) ==> Concat(parts) == ReprChars(py, q as int, s)
  {
    hide CharRepr, ReprChar;
    if s != [] && CharsRepr(py, q, s, parts) {
      CharReprs(py, q, s[0], parts[0]);
      assert forall i :: 0 <= i < |s| - 1 ==> s[1..][i] == s[i + 1] && parts[1..][i] == parts[i + 1];
      CharsReprs(py, q, s[1..], parts[1..]);
    }
  }

  lemma StringReprs(py: Python, s: Text, t: Text)
    requires CodePoints(s)
    ensures StringRepr(py, s, t) <==> t == ReprStr(py, s)
  {
    hide CharRepr, ReprChar, ReprChars;
    var q := if '\'' as int in s && '"' as int !in s then '"' else '\'';
    forall parts | CharsRepr(py, q, s, parts)
      ensures Concat(parts) == ReprChars(py, q as int, s)
    {
      CharsReprs(py, q, s, parts);
    }
    var parts := seq(|s|, i requires 0 <= i < |s| => ReprChar(py, q as int, s[i]));
    forall i | 0 <= i < |s|
      ensures CharRepr(py, q, s[i], parts[i])
    {
      CharReprs(py, q, s[i], parts[i]);
    }
    assert CharsRepr(py, q, s, parts);
  }

  /** The parts with a comma and a space between them. */
  function Listing(parts: seq<Text>): Text {
    if parts == [] then []
    else if |parts| == 1 then parts[0]
    else parts[0] + Lit(", ") + Listing(parts[1..])
  }

  /** t is `repr(v)`. */
  ghost predicate Represents(py: Python, v: Value, t: Text)
    requires AllCodePoints(v)
  {
    match v
    case Null => t == Lit("None")
    case Bool(b) => t == Lit(if b then "True" else "False")
    case Int(n) => IntSpelled(n, t)
    case Float(r) =>
      t == if r == Lit("NaN") then Lit("nan") else if r == Lit("Infinity") then Lit("inf")
           else if r == Lit("-Infinity") then Lit("-inf") else r
    case Str(s) => StringRepr(py, s, t)
    case Arr(items) => exists parts :: EachRepr(py, items, parts) && t == Lit("[") + Listing(parts) + Lit("]")
    case Obj(es) => exists parts :: MembersRepr(py, es, parts) && t == Lit("{") + Listing(parts) + Lit("}")
    case Unsupported => false
  }

  ghost predicate EachRepr(py: Python, items: seq<Value>, parts: seq<Text>)
    requires AllCodePoints(Arr(items))
  {
    |parts| == |items| && forall i :: 0 <= i < |items| ==> items[i] in items && Represents(py, items[i], parts[i])
  }

  ghost predicate MembersRepr(py: Python, es: seq<Entry>, parts: seq<Text>)
    requires AllCodePoints(Obj(es))
  {
    |parts| == |es| && forall i :: 0 <= i < |es| ==> es[i] in es && MemberRepr(py, es[i], parts[i])
  }

  ghost predicate MemberRepr(py: Python, e: Entry, t: Text)
    requires CodePoints(e.key) && AllCodePoints(e.value)
  {
    exists key, value :: StringRepr(py, e.key, key) && Represents(py, e.value, value) && t == key + Lit(": ") + value
  }

  lemma {:induction false} ItemsList(py: Python, items: seq<Value>, parts: seq<Text>)
    requires |parts| == |items| && forall i :: 0 <= i < |items| ==> parts[i] == Repr(py, items[i])
    ensures Listing(parts) == ReprItems(py, items)
  {
    hide Repr, Lit;
    if |items| > 1 {
      ItemsList(py, items[1..], parts[1..]);
    }
  }

  lemma {:induction false} EntriesList(py: Python, es: seq<Entry>, parts: seq<Text>)
    requires |parts| == |es| && forall i :: 0 <= i < |es| ==> parts[i] == ReprEntry(py, es[i])
    ensures Listing(parts) == ReprEntries(py, es)
  {
    hide ReprEntry, Lit;
    if |es| > 1 {
      EntriesList(py, es[1..], parts[1..]);
    }
  }

  function Represented(py: Python, items: seq<Value>): (parts: seq<Text>)
    ensures |parts| == |items| && forall i :: 0 <= i < |items| ==> parts[i] == Repr(py, items[i])
  {
    seq(|items|, i requires 0 <= i < |items| => Repr(py, items[i]))
  }

  function RepresentedMembers(py: Python, es: seq<Entry>): (parts: seq<Text>)
    ensures |parts| == |es| && forall i :: 0 <= i < |es| ==> parts[i] == ReprEntry(py, es[i])
  {
    seq(|es|, i requires 0 <= i < |es| => ReprEntry(py, es[i]))
  }

  /** Every value has one such text, and it is the one `repr` gives. */
  lemma {:induction false} ReprExactly(py: Python, v: Value, t: Text)
    requires Valid(v) && AllCodePoints(v)
    ensures Represents(py, v, t) <==> t == Repr(py, v)
    decreases v, 1
  {
    hide StringRepr, IntSpelled, IntText, ReprStr, Lit, EachRepr, MembersRepr, ReprItems, ReprEntries, Listing;
    match v
    case Int(n) => IntPrints(n, t);
    case Str(s) => StringReprs(py, s, t);
    case Arr(items) =>
      assert Lit("[") == [OPEN_ARRAY] && Lit("]") == [CLOSE_ARRAY];
      forall parts
        ensures EachRepr(py, items, parts) <==> parts == Represented(py, items)
      {
        EachReprs(py, items, parts);
      }
      ItemsList(py, items, Represented(py, items));
    case Obj(es) =>
      assert Lit("{") == [OPEN_OBJECT] && Lit("}") == [CLOSE_OBJECT];
      forall parts
        ensures MembersRepr(py, es, parts) <==> parts == RepresentedMembers(py, es)
      {
        MembersReprs(py, es, parts);
      }
      EntriesList(py, es, RepresentedMembers(py, es));
    case _ =>
  }

  lemma {:induction false} EachReprs(py: Python, items: seq<Value>, parts: seq<Text>)
    requires Valid(Arr(items)) && AllCodePoints(Arr(items))
    ensures EachRepr(py, items, parts) <==> parts == Represented(py, items)
    decreases items, 0
  {
    hide Represents, Repr;
    if |parts| == |items| {
      forall i | 0 <= i < |items|
        ensures items[i] in items && (Represents(py, items[i], parts[i]) <==> parts[i] == Repr(py, items[i]))
      {
        assert items[i] in items;
        ReprExactly(py, items[i], parts[i]);
      }
    }
  }

  lemma {:induction false} MembersReprs(py: Python, es: seq<Entry>, parts: seq<Text>)
    requires Valid(Obj(es)) && AllCodePoints(Obj(es))
    ensures MembersRepr(py, es, parts) <==> parts == RepresentedMembers(py, es)
    decreases es, 0
  {
    hide MemberRepr, ReprEntry;
    if |parts| == |es| {
      forall i | 0 <= i < |es|
        ensures es[i] in es && (MemberRepr(py, es[i], parts[i]) <==> parts[i] == ReprEntry(py, es[i]))
      {
        assert es[i] in es;
        MemberReprs(py, es[i], parts[i]);
      }
    }
  }

  lemma {:induction false} MemberReprs(py: Python, e: Entry, t: Text)
    requires Valid(e.value) && AllCodePoints(e.value) && CodePoints(e.key)
    ensures MemberRepr(py, e, t) <==> t == ReprEntry(py, e)
    decreases e, 2
  {
    hide Represents, StringRepr, Repr, ReprStr, Lit;
    forall x
      ensures StringRepr(py, e.key, x) <==> x == ReprStr(py, e.key)
      ensures Represents(py, e.value, x) <==> x == Repr(py, e.value)
    {
      StringReprs(py, e.key, x);
      ReprExactly(py, e.value, x);
    }
    var key, value := ReprStr(py, e.key), Repr(py, e.value);
    if t == ReprEntry(py, e) {
      assert StringRepr(py, e.key, key) && Represents(py, e.value, value) && t == key + Lit(": ") + value;
    }
  }

  /** `str(v)`: a text stands for itself. */
  lemma StrExactly(py: Python, v: Value, t: Text)
    requires Valid(v) && AllCodePoints(v)
    ensures t == PyStr(py, v) <==> if v.Str? then t == v.s else Represents(py, v, t)
  {
    ReprExactly(py, v, t);
  }
}
