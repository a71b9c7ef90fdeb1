/**
 Which characters a printed value contains: with `ensure_ascii=False` everything from
 U+0080 up is written as it is, and nothing below U+0020 ever is.
 */
module PrintedText {
  import opened Ordering
  import opened Unicode
  import opened Json
  import opened Canonical

  /** c occurs in some string or key of v. */
  ghost predicate Mentions(v: Value, c: nat) {
    match v
    case Str(s) => c in s
    case Arr(items) => exists x :: x in items && Mentions(x, c)
    case Obj(es) => exists e :: e in es && (c in e.key || Mentions(e.value, c))
    case _ => false
  }

  predicate Telling(c: nat) { c < 32 || c >= 128 }

  lemma {:induction false} EscapesMention(s: Text, c: nat)
    requires Telling(c)
    ensures c in Escapes(Raw, s) <==> c >= 128 && c in s
  {
    if s == [] {
    } else {
      EscapesMention(s[1..], c);
      assert s == [s[0]] + s[1..];
      assert c in EscapeChar(Raw, s[0]) <==> c >= 128 && c == s[0];
    }
  }

  lemma QuoteMentions(s: Text, c: nat)
    requires Telling(c)
    ensures c in Quote(Raw, s) <==> c >= 128 && c in s
  {
    EscapesMention(s, c);
  }

  lemma {:induction false} DigitsMention(n: nat, c: nat)
    requires c in Digits(n)
    ensures IsDigit(c)
  {
    if n >= 10 && c in Digits(n / 10) {
      DigitsMention(n / 10, c);
    }
  }

  /** A character of the printable ASCII range, DEL excluded. */
  predicate Graphic(c: nat) { 32 <= c < 127 }

  predicate AllGraphic(t: Text) { forall c :: c in t ==> Graphic(c) }

  lemma {:induction false} DigitsGraphic(t: Text)
    ensures AllGraphic(AfterDigits(t)) ==> AllGraphic(t)
  {
    if StartsWithDigit(t) {
      DigitsGraphic(t[1..]);
      assert t == [t[0]] + t[1..];
    }
  }

  lemma {:induction false} NumberGraphic(t: Text, acc: nat)
    ensures AllGraphic(Number(t, acc).1) ==> AllGraphic(t)
  {
    if StartsWithDigit(t) {
      NumberGraphic(t[1..], acc * 10 + (t[0] - ZERO));
      assert t == [t[0]] + t[1..];
    }
  }

  lemma IntGraphicToken(t: Text)
    requires ParseInt(t).Some?
    ensures AllGraphic(ParseInt(t).value.1) ==> AllGraphic(t)
  {
    hide Number;
    var u := if t[0] == MINUS then t[1..] else t;
    var d: nat := u[0] - ZERO;
    NumberGraphic(u[1..], d);
    assert u == [u[0]] + u[1..] && t == [t[0]] + t[1..];
  }

  lemma FractionGraphic(t: Text)
    ensures AllGraphic(AfterFraction(t)) ==> AllGraphic(t)
  {
    hide AfterDigits;
    if t == [] {
    } else {
      DigitsGraphic(t[1..]);
      assert t == [t[0]] + t[1..];
    }
  }

  lemma ExponentGraphic(t: Text)
    ensures AllGraphic(AfterExponent(t)) ==> AllGraphic(t)
  {
    hide AfterDigits;
    if t == [] {
    } else {
      var u := t[1..];
      DigitsGraphic(AfterSign(u));
      assert t == [t[0]] + u;
      assert u != [] ==> u == [u[0]] + u[1..];
    }
  }

  lemma ConstantGraphic(t: Text)
    requires IsConstant(t)
    ensures AllGraphic(t)
  {
  }

  lemma FloatGraphic(t: Text)
    requires FloatText(t)
    ensures AllGraphic(t)
  {
    hide ParseInt, AfterFraction, AfterExponent, Graphic, Lit;
    if IsConstant(t) {
      ConstantGraphic(t);
    } else {
      var a := ParseInt(t).value.1;
      ExponentGraphic(AfterFraction(a));
      FractionGraphic(a);
      IntGraphicToken(t);
    }
  }

  // ----- with every character escaped

  lemma Hex4Graphic(u: nat)
    requires u < 0x10000
    ensures AllGraphic(Hex4(u))
  {
  }

  lemma {:induction false} EscapesGraphic(s: Text)
    requires Scalar(s)
    ensures AllGraphic(Quote(Ascii, s))
  {
    hide Hex4;
    if s == [] {
    } else {
      EscapesGraphic(s[1..]);
      assert IsScalar(s[0]);
      if s[0] >= 0x10000 {
        Hex4Graphic(0xD800 + (s[0] - 0x10000) / 1024);
        Hex4Graphic(0xDC00 + (s[0] - 0x10000) % 1024);
      } else {
        Hex4Graphic(s[0]);
      }
      assert AllGraphic(EscapeChar(Ascii, s[0]));
      assert forall c :: c in Escapes(Ascii, s[1..]) ==> c in Quote(Ascii, s[1..]);
    }
  }

  /** With `ensure_ascii=True` a printed value is printable ASCII throughout. */
  lemma {:induction false} AsciiGraphic(v: Value)
    requires Valid(v) && AllScalar(v)
    ensures AllGraphic(Print(Ascii, v))
    decreases v, 0
  {
    match v
    case Int(n) => IntGraphic(n);
    case Float(t) => FloatGraphic(t);
    case Str(s) => EscapesGraphic(s);
    case Arr(items) => AsciiItemsGraphic(items);
    case Obj(es) => AsciiEntriesGraphic(es);
    case _ =>
  }

  lemma IntGraphic(n: int)
    ensures AllGraphic(IntText(n))
  {
    var a: nat := if n < 0 then -n else n;
    forall c | c in Digits(a)
      ensures Graphic(c)
    {
      DigitsMention(a, c);
    }
  }

  lemma {:induction false} AsciiItemsGraphic(items: seq<Value>)
    requires forall x :: x in items ==> Valid(x) && AllScalar(x)
    ensures AllGraphic(PrintItems(Ascii, items))
    decreases items, 1
  {
    if items == [] {
    } else {
      AsciiGraphic(items[0]);
      AsciiItemsGraphic(items[1..]);
    }
  }

  lemma {:induction false} AsciiEntriesGraphic(es: seq<Entry>)
    requires forall e :: e in es ==> Valid(e.value) && Scalar(e.key) && AllScalar(e.value)
    ensures AllGraphic(PrintEntries(Ascii, es))
    decreases es, 1
  {
    if es == [] {
    } else {
      EscapesGraphic(es[0].key);
      AsciiGraphic(es[0].value);
      AsciiEntriesGraphic(es[1..]);
    }
  }

  // ----- with characters as they are

  /** A printed value holds exactly the high characters of its strings, raw, and no control character. */
  lemma {:induction false} PrintMentions(v: Value, c: nat)
    requires Valid(v) && Telling(c)
    ensures c in Print(Raw, v) <==> c >= 128 && Mentions(v, c)
    decreases v, 0
  {
    match v
    case Int(n) =>
      var a: nat := if n < 0 then -n else n;
      if c in Digits(a) {
        DigitsMention(a, c);
      }
    case Float(t) => FloatGraphic(t);
    case Str(s) => QuoteMentions(s, c);
    case Arr(items) => PrintItemsMention(items, c);
    case Obj(es) => PrintEntriesMention(es, c);
    case _ =>
  }

  lemma {:induction false} PrintItemsMention(items: seq<Value>, c: nat)
    requires Telling(c) && forall x :: x in items ==> Valid(x)
    ensures c in PrintItems(Raw, items) <==> c >= 128 && exists x :: x in items && Mentions(x, c)
    decreases items, 1
  {
    if items == [] {
    } else {
      PrintMentions(items[0], c);
      PrintItemsMention(items[1..], c);
      assert items == [items[0]] + items[1..];
      assert (exists x :: x in items && Mentions(x, c)) <==>
             Mentions(items[0], c) || exists x :: x in items[1..] && Mentions(x, c);
    }
  }

  lemma PrintEntryMentions(e: Entry, c: nat)
    requires Telling(c)
    requires c in Print(Raw, e.value) <==> c >= 128 && Mentions(e.value, c)
    ensures c in PrintEntry(Raw, e) <==> c >= 128 && (c in e.key || Mentions(e.value, c))
  {
    QuoteMentions(e.key, c);
  }

  lemma {:induction false} PrintEntriesMention(es: seq<Entry>, c: nat)
    requires Telling(c) && forall e :: e in es ==> Valid(e.value)
    ensures c in PrintEntries(Raw, es) <==>
            c >= 128 && exists e :: e in es && (c in e.key || Mentions(e.value, c))
    decreases es, 1
  {
    if es == [] {
    } else {
      PrintMentions(es[0].value, c);
      PrintEntryMentions(es[0], c);
      PrintEntriesMention(es[1..], c);
      assert es == [es[0]] + es[1..];
      assert (exists e :: e in es && (c in e.key || Mentions(e.value, c))) <==>
             c in es[0].key || Mentions(es[0].value, c)
             || exists e :: e in es[1..] && (c in e.key || Mentions(e.value, c));
    }
  }

  /** Equal values mention the same characters, so neither sorting nor insertion order matters. */
  lemma {:induction false} SameMentions(v: Value, w: Value, c: nat)
    requires Same(v, w) && Mentions(v, c)
    ensures Mentions(w, c)
  {
    match v
    case Arr(a) =>
      var x :| x in a && Mentions(x, c);
      var i :| 0 <= i < |a| && a[i] == x;
      SameMentions(x, w.items[i], c);
      assert w.items[i] in w.items;
    case Obj(a) =>
      var e :| e in a && (c in e.key || Mentions(e.value, c));
      var f :| f in w.entries && e.key == f.key && Same(e.value, f.value);
      if Mentions(e.value, c) {
        SameMentions(e.value, f.value, c);
      }
    case _ =>
  }

  lemma {:induction false} NormMentionsBack(o: KeyOrder, v: Value, c: nat)
    requires Mentions(v, c)
    ensures Mentions(Norm(o, v), c)
  {
    match v
    case Arr(a) =>
      var x :| x in a && Mentions(x, c);
      var i :| 0 <= i < |a| && a[i] == x;
      NormMentionsBack(o, x, c);
      assert NormItems(o, a)[i] in NormItems(o, a);
    case Obj(a) =>
      var e :| e in a && (c in e.key || Mentions(e.value, c));
      var i :| 0 <= i < |a| && a[i] == e;
      if Mentions(e.value, c) {
        NormMentionsBack(o, e.value, c);
      }
      SortByMembers(EntryKey(o), NormEntries(o, a));
      assert NormEntries(o, a)[i] in NormEntries(o, a);
    case _ =>
  }

  lemma NormMentions(o: KeyOrder, v: Value, c: nat)
    requires Valid(v)
    ensures Mentions(Norm(o, v), c) <==> Mentions(v, c)
  {
    NormSame(o, v);
    if Mentions(Norm(o, v), c) {
      SameMentions(Norm(o, v), v, c);
    }
    if Mentions(v, c) {
      NormMentionsBack(o, v, c);
    }
  }

  lemma {:induction false} AllScalarMentions(v: Value)
    ensures AllScalar(v) <==> forall c :: Mentions(v, c) ==> IsScalar(c)
  {
    match v
    case Arr(items) =>
      forall x | x in items
        ensures AllScalar(x) <==> forall c :: Mentions(x, c) ==> IsScalar(c)
      {
        AllScalarMentions(x);
      }
      forall x, c | x in items && Mentions(x, c)
        ensures Mentions(v, c)
      {
      }
    case Obj(es) =>
      forall e | e in es
        ensures AllScalar(e.value) <==> forall c :: Mentions(e.value, c) ==> IsScalar(c)
      {
        AllScalarMentions(e.value);
      }
      forall e, c | e in es && (c in e.key || Mentions(e.value, c))
        ensures Mentions(v, c)
      {
      }
    case _ =>
  }

  /** The strict encodings fail on a printed value exactly when it holds a surrogate somewhere. */
  lemma ScalarPrint(v: Value)
    requires Valid(v)
    ensures Scalar(Print(Raw, v)) <==> AllScalar(v)
  {
    AllScalarMentions(v);
    forall c | c >= 128
      ensures c in Print(Raw, v) <==> Mentions(v, c)
    {
      PrintMentions(v, c);
    }
    if !AllScalar(v) {
      var c :| Mentions(v, c) && !IsScalar(c);
      assert c >= 128;
      assert c in Print(Raw, v);
    }
    forall c | AllScalar(v) && c in Print(Raw, v)
      ensures IsScalar(c)
    {
      if c >= 128 {
        assert Mentions(v, c);
      }
    }
  }

  lemma NormScalar(o: KeyOrder, v: Value)
    requires Valid(v)
    ensures AllScalar(Norm(o, v)) <==> AllScalar(v)
  {
    AllScalarMentions(v);
    AllScalarMentions(Norm(o, v));
    forall c
      ensures Mentions(Norm(o, v), c) <==> Mentions(v, c)
    {
      NormMentions(o, v, c);
    }
  }
}
