/**
 What the printed text of a value is, said without the printer: which characters of a string
 are escaped and how, in RFC 8259's terms, what an integer looks like, and in which order the
 members of an object stand.
 */
module PrintedForm {
  import opened Wrappers
  import opened Ordering
  import opened Unicode
  import opened Json
  import opened Canonical
  import opened PrintedText
  import opened TrustEncoding

  // ----- characters and strings

  const LOWER_HEX := "0123456789abcdef"

  /** The characters with an escape of two characters, and the second one of it. */
  const SHORT_ESCAPES: map<nat, char> :=
    map[0x22 := '"', 0x5C := '\\', 0x08 := 'b', 0x09 := 't', 0x0A := 'n', 0x0C := 'f', 0x0D := 'r']

  function HexByte(b: nat): Text
    requires b < 256
  {
    [LOWER_HEX[b / 16] as int, LOWER_HEX[b % 16] as int]
  }

  /** One UTF-16 unit as a backslash, a u and four digits. */
  function UnitEscape(unit: Bytes): Text
    requires |unit| == 2 && unit[0] < 256 && unit[1] < 256
  {
    Lit("\\u") + HexByte(unit[0]) + HexByte(unit[1])
  }

  /** t stands for the character c: an escape of two characters where there is one, the character
      itself from U+0020 up, and in ASCII no further than U+007E, and its UTF-16 units otherwise. */
  predicate CharSpelled(k: Style, c: nat, t: Text)
    requires c <= 0x10FFFF
  {
    if c in SHORT_ESCAPES then t == [0x5C, SHORT_ESCAPES[c] as int]
    else if 0x20 <= c && (k.Ascii? ==> c <= 0x7E) then t == [c]
    else if c <= 0xFFFF then t == UnitEscape(Utf16Unit(c))
    else t == UnitEscape(Utf16Char(c)[..2]) + UnitEscape(Utf16Char(c)[2..])
  }

  predicate IsCodePoint(c: nat) { c <= 0x10FFFF }

  /** Every element is a code point, as in every `str`. */
  predicate CodePoints(s: Text) { forall i :: 0 <= i < |s| ==> IsCodePoint(s[i]) }

  function Concat(parts: seq<Text>): Text {
    if parts == [] then [] else parts[0] + Concat(parts[1..])
  }

  ghost predicate CharsSpelled(k: Style, s: Text, parts: seq<Text>)
    requires CodePoints(s)
  {
    |parts| == |s| && forall i :: 0 <= i < |s| ==> CharSpelled(k, s[i], parts[i])
  }

  ghost predicate StringSpelled(k: Style, s: Text, t: Text) {
    CodePoints(s) && exists parts :: CharsSpelled(k, s, parts) && t == [0x22] + Concat(parts) + [0x22]
  }

  lemma HexDigits(d: nat)
    requires d < 16
    ensures LOWER_HEX[d] as int == HexDigit(d)
  {
  }

  lemma Nibbles(u: nat)
    requires u < 0x10000
    ensures u / 256 < 256 && u / 4096 < 16
    ensures u / 256 / 16 == u / 4096 && u % 256 / 16 == u / 16 % 16 && u % 256 % 16 == u % 16
  {
  }

  lemma HexPair(b: nat)
    requires b < 256
    ensures HexByte(b) == [HexDigit(b / 16), HexDigit(b % 16)]
  {
    hide HexDigit;
    HexDigits(b / 16);
    HexDigits(b % 16);
  }

  lemma HexFour(u: nat)
    requires u < 0x1_0000
    ensures u / 0x100 < 0x100 && Hex4(u) == HexByte(u / 0x100) + HexByte(u % 0x100)
  {
    hide HexDigit, HexByte;
    Nibbles(u);
    HexPair(u / 0x100);
    HexPair(u % 0x100);
  }

  lemma UnitEscapes(u: nat)
    requires u < 0x10000
    ensures UnitEscape(Utf16Unit(u)) == UnicodeEscape(u)
  {
    hide HexByte, Hex4;
    HexFour(u);
    assert Lit("\\u") == [BACKSLASH, LETTER_U];
  }

  lemma CharPrints(k: Style, c: nat, t: Text)
    requires c <= 0x10FFFF
    ensures CharSpelled(k, c, t) <==> t == EscapeChar(k, c)
  {
    hide UnitEscape, UnicodeEscape;
    if c < 0x10000 {
      UnitEscapes(c);
    } else {
      var hi, lo := 0xD800 + (c - 0x10000) / 1024, 0xDC00 + (c - 0x10000) % 1024;
      UnitEscapes(hi);
      UnitEscapes(lo);
      assert Utf16Char(c)[..2] == Utf16Unit(hi) && Utf16Char(c)[2..] == Utf16Unit(lo);
    }
  }

  lemma {:induction false} CharsPrint(k: Style, s: Text, parts: seq<Text>)
    requires CodePoints(s)
    ensures CharsSpelled(k, s, parts) ==> Concat(parts) == Escapes(k, s)
  {
    hide CharSpelled, EscapeChar;
    if s != [] && CharsSpelled(k, s, parts) {
      CharPrints(k, s[0], parts[0]);
      assert forall i :: 0 <= i < |s| - 1 ==> s[1..][i] == s[i + 1] && parts[1..][i] == parts[i + 1];
      CharsPrint(k, s[1..], parts[1..]);
    }
  }

  lemma CharParts(k: Style, s: Text) returns (parts: seq<Text>)
    requires CodePoints(s)
    ensures CharsSpelled(k, s, parts)
  {
    hide CharSpelled, EscapeChar;
    parts := seq(|s|, i requires 0 <= i < |s| => EscapeChar(k, s[i]));
    forall i | 0 <= i < |s|
      ensures CharSpelled(k, s[i], parts[i])
    {
      CharPrints(k, s[i], parts[i]);
    }
  }

  lemma StringPrints(k: Style, s: Text, t: Text)
    requires CodePoints(s)
    ensures StringSpelled(k, s, t) <==> t == Quote(k, s)
  {
    hide CharsSpelled, Escapes;
    forall parts | CharsSpelled(k, s, parts)
      ensures Concat(parts) == Escapes(k, s)
    {
      CharsPrint(k, s, parts);
    }
    if t == Quote(k, s) {
      var parts := CharParts(k, s);
      assert t == [0x22] + Concat(parts) + [0x22];
    }
  }

  // ----- integers

  /** The number that a row of decimal digits is. */
  function DecimalValue(d: Text): int {
    if d == [] then 0 else 10 * DecimalValue(d[..|d| - 1]) + (d[|d| - 1] as int - 48)
  }

  /** Decimal digits without a leading zero, except for zero itself. */
  predicate Decimal(d: Text) {
    d != [] && (forall c :: c in d ==> 48 <= c <= 57) && (|d| > 1 ==> d[0] != 48)
  }

  predicate IntSpelled(n: int, t: Text) {
    if n < 0 then t != [] && t[0] == 0x2D && Decimal(t[1..]) && DecimalValue(t[1..]) == -n
    else Decimal(t) && DecimalValue(t) == n
  }

  lemma {:induction false} DigitsDecimal(n: nat)
    ensures Decimal(Digits(n)) && DecimalValue(Digits(n)) == n
    ensures n > 0 ==> Digits(n)[0] != 48
  {
    if n < 10 {
      assert [ZERO + n][..0] == [];
    } else {
      DigitsDecimal(n / 10);
      var d := Digits(n);
      assert d[..|d| - 1] == Digits(n / 10) && d[0] == Digits(n / 10)[0];
    }
  }

  lemma {:induction false} DecimalGrows(d: Text)
    requires Decimal(d)
    ensures DecimalValue(d) >= 0
    ensures d[0] != 48 ==> DecimalValue(d) >= 1
    ensures |d| > 1 ==> DecimalValue(d) >= 10
  {
    if |d| > 1 {
      var init := d[..|d| - 1];
      assert init[0] == d[0] && forall c :: c in init ==> c in d;
      DecimalGrows(init);
      assert d[|d| - 1] in d;
    } else {
      assert d[0] in d && d[..0] == [];
    }
  }

  lemma {:induction false} DecimalDigits(d: Text)
    requires Decimal(d)
    ensures DecimalValue(d) >= 0 && Digits(DecimalValue(d)) == d
  {
    var init, last := d[..|d| - 1], d[|d| - 1];
    assert last in d && d == init + [last];
    DecimalGrows(d);
    if |d| == 1 {
      assert DecimalValue(init) == 0;
    } else {
      assert init[0] == d[0] && forall c :: c in init ==> c in d;
      DecimalDigits(init);
    }
  }

  lemma IntPrints(n: int, t: Text)
    ensures IntSpelled(n, t) <==> t == IntText(n)
  {
    hide Digits, Decimal, DecimalValue;
    DigitsDecimal(if n < 0 then -n else n);
    if IntSpelled(n, t) {
      var d := if n < 0 then t[1..] else t;
      DecimalDigits(d);
      assert n < 0 ==> t == [t[0]] + t[1..];
    }
  }

  // ----- values

  function Joined(parts: seq<Text>): Text {
    if parts == [] then []
    else if |parts| == 1 then parts[0]
    else parts[0] + [0x2C] + Joined(parts[1..])
  }

  /** t is the text of v without insignificant white space. */
  ghost predicate Spelled(k: Style, v: Value, t: Text) {
    match v
    case Null => t == Lit("null")
    case Bool(b) => t == Lit(if b then "true" else "false")
    case Int(n) => IntSpelled(n, t)
    case Float(r) => t == r
    case Str(s) => StringSpelled(k, s, t)
    case Arr(items) =>
      exists parts :: EachSpelled(k, items, parts) && t == [0x5B] + Joined(parts) + [0x5D]
    case Obj(es) =>
      exists parts :: MembersSpelled(k, es, parts) && t == [0x7B] + Joined(parts) + [0x7D]
    case Unsupported => false
  }

  ghost predicate EachSpelled(k: Style, items: seq<Value>, parts: seq<Text>) {
    |parts| == |items| && forall i :: 0 <= i < |items| ==> Spelled(k, items[i], parts[i])
  }

  ghost predicate MembersSpelled(k: Style, es: seq<Entry>, parts: seq<Text>) {
    |parts| == |es| && forall i :: 0 <= i < |es| ==> MemberSpelled(k, es[i], parts[i])
  }

  ghost predicate MemberSpelled(k: Style, e: Entry, t: Text) {
    exists key, value :: StringSpelled(k, e.key, key) && Spelled(k, e.value, value) && t == key + [0x3A] + value
  }

  ghost predicate AllCodePoints(v: Value) {
    match v
    case Str(s) => CodePoints(s)
    case Arr(items) => forall x :: x in items ==> AllCodePoints(x)
    case Obj(es) => forall e :: e in es ==> CodePoints(e.key) && AllCodePoints(e.value)
    case _ => true
  }

  lemma {:induction false} ItemsJoin(k: Style, items: seq<Value>, parts: seq<Text>)
    requires |parts| == |items| && forall i :: 0 <= i < |items| ==> parts[i] == Print(k, items[i])
    ensures Joined(parts) == PrintItems(k, items)
  {
    hide Print;
    if |items| > 1 {
      ItemsJoin(k, items[1..], parts[1..]);
    }
  }

  lemma {:induction false} EntriesJoin(k: Style, es: seq<Entry>, parts: seq<Text>)
    requires |parts| == |es| && forall i :: 0 <= i < |es| ==> parts[i] == PrintEntry(k, es[i])
    ensures Joined(parts) == PrintEntries(k, es)
  {
    hide PrintEntry;
    if |es| > 1 {
      EntriesJoin(k, es[1..], parts[1..]);
    }
  }

  function Printed(k: Style, items: seq<Value>): (parts: seq<Text>)
    ensures |parts| == |items| && forall i :: 0 <= i < |items| ==> parts[i] == Print(k, items[i])
  {
    seq(|items|, i requires 0 <= i < |items| => Print(k, items[i]))
  }

  function PrintedMembers(k: Style, es: seq<Entry>): (parts: seq<Text>)
    ensures |parts| == |es| && forall i :: 0 <= i < |es| ==> parts[i] == PrintEntry(k, es[i])
  {
    seq(|es|, i requires 0 <= i < |es| => PrintEntry(k, es[i]))
  }

  /** Every value has one spelling, and it is what is printed. */
  lemma {:induction false} SpelledPrints(k: Style, v: Value, t: Text)
    requires Valid(v) && AllCodePoints(v)
    ensures Spelled(k, v, t) <==> t == Print(k, v)
    decreases v, 1
  {
    hide StringSpelled, IntSpelled, IntText, Quote, Lit, EachSpelled, MembersSpelled, PrintItems, PrintEntries, Joined;
    match v
    case Int(n) => IntPrints(n, t);
    case Str(s) => StringPrints(k, s, t);
    case Arr(items) =>
      forall parts
        ensures EachSpelled(k, items, parts) <==> parts == Printed(k, items)
      {
        EachPrints(k, items, parts);
      }
      ItemsJoin(k, items, Printed(k, items));
    case Obj(es) =>
      forall parts
        ensures MembersSpelled(k, es, parts) <==> parts == PrintedMembers(k, es)
      {
        MembersPrint(k, es, parts);
      }
      EntriesJoin(k, es, PrintedMembers(k, es));
    case _ =>
  }

  lemma {:induction false} EachPrints(k: Style, items: seq<Value>, parts: seq<Text>)
    requires Valid(Arr(items)) && AllCodePoints(Arr(items))
    ensures EachSpelled(k, items, parts) <==> parts == Printed(k, items)
    decreases items, 0
  {
    hide Spelled, Print;
    if |parts| == |items| {
      forall i | 0 <= i < |items|
        ensures Spelled(k, items[i], parts[i]) <==> parts[i] == Print(k, items[i])
      {
        assert items[i] in items;
        SpelledPrints(k, items[i], parts[i]);
      }
    }
  }

  lemma {:induction false} MembersPrint(k: Style, es: seq<Entry>, parts: seq<Text>)
    requires Valid(Obj(es)) && AllCodePoints(Obj(es))
    ensures MembersSpelled(k, es, parts) <==> parts == PrintedMembers(k, es)
    decreases es, 0
  {
    hide MemberSpelled, PrintEntry;
    if |parts| == |es| {
      forall i | 0 <= i < |es|
        ensures MemberSpelled(k, es[i], parts[i]) <==> parts[i] == PrintEntry(k, es[i])
      {
        assert es[i] in es;
        MemberPrints(k, es[i], parts[i]);
      }
    }
  }

  lemma {:induction false} MemberPrints(k: Style, e: Entry, t: Text)
    requires Valid(e.value) && AllCodePoints(e.value) && CodePoints(e.key)
    ensures MemberSpelled(k, e, t) <==> t == PrintEntry(k, e)
    decreases e, 2
  {
    hide Spelled, StringSpelled, Print, Quote;
    forall x
      ensures StringSpelled(k, e.key, x) <==> x == Quote(k, e.key)
      ensures Spelled(k, e.value, x) <==> x == Print(k, e.value)
    {
      StringPrints(k, e.key, x);
      SpelledPrints(k, e.value, x);
    }
    var key, value := Quote(k, e.key), Print(k, e.value);
    if t == PrintEntry(k, e) {
      assert StringSpelled(k, e.key, key) && Spelled(k, e.value, value) && t == key + [0x3A] + value;
    }
  }

  // ----- the order of members

  /** Key a stands before key b: by code point, or by the units of their UTF-16 form. */
  ghost predicate Before(o: KeyOrder, a: Text, b: Text) {
    match o
    case ByCodePoint => Precedes(a, b)
    case ByUtf16 => Scalar(a) && Scalar(b) && Precedes(Utf16(a), Utf16(b))
  }

  /** The keys of every object ascend. */
  ghost predicate Ascends(o: KeyOrder, v: Value) {
    match v
    case Arr(items) => forall x :: x in items ==> Ascends(o, x)
    case Obj(es) =>
      && (forall i, j :: 0 <= i < j < |es| ==> Before(o, es[i].key, es[j].key))
      && forall e :: e in es ==> Ascends(o, e.value)
    case _ => true
  }

  lemma BeforeIsLess(o: KeyOrder, a: Text, b: Text)
    requires o.ByUtf16? ==> Scalar(a) && Scalar(b)
    ensures Before(o, a, b) <==> Less(SortKey(o, a), SortKey(o, b))
  {
    hide Precedes;
    LessExactly(SortKey(o, a), SortKey(o, b));
  }

  /** The normal form ascends. */
  lemma {:induction false} NormAscends(o: KeyOrder, v: Value)
    requires Valid(v) && Sortable(o, v)
    ensures Ascends(o, Norm(o, v))
  {
    hide Before, Less, SortKey;
    match v
    case Arr(items) =>
      forall x | x in items
        ensures Ascends(o, Norm(o, x))
      {
        NormAscends(o, x);
      }
    case Obj(es) =>
      var ne := NormEntries(o, es);
      var s := SortBy(EntryKey(o), ne);
      SortedAscends(o, es, s);
      SortByMembers(EntryKey(o), ne);
      forall f | f in s
        ensures Ascends(o, f.value)
      {
        var i :| 0 <= i < |ne| && ne[i] == f;
        assert es[i] in es;
        NormAscends(o, es[i].value);
      }
      assert Norm(o, v) == Obj(s);
    case _ =>
  }

  lemma SortedAscends(o: KeyOrder, es: seq<Entry>, s: seq<Entry>)
    requires UniqueKeys(es) && forall e :: e in es ==> o.ByUtf16? ==> Scalar(e.key)
    requires s == SortBy(EntryKey(o), NormEntries(o, es))
    ensures forall i, j :: 0 <= i < j < |s| ==> Before(o, s[i].key, s[j].key)
  {
    hide Before, Less, SortKey;
    var ne := NormEntries(o, es);
    NormEntriesUnique(o, es);
    SortBySorted(EntryKey(o), ne);
    SortByMultiset(EntryKey(o), ne);
    SortByMembers(EntryKey(o), ne);
    UniqueKeysPermutation(ne, s);
    forall x | x in s
      ensures o.ByUtf16? ==> Scalar(x.key)
    {
      var i :| 0 <= i < |ne| && ne[i] == x;
      assert es[i] in es;
    }
    forall i, j | 0 <= i < j < |s|
      ensures Before(o, s[i].key, s[j].key)
    {
      assert s[i] in s && s[j] in s;
      BeforeIsLess(o, s[i].key, s[j].key);
      LessTotal(SortKey(o, s[i].key), SortKey(o, s[j].key));
      if SortKey(o, s[i].key) == SortKey(o, s[j].key) {
        SortKeyInjective(o, s[i].key, s[j].key);
      }
    }
  }

  lemma BeforeIrreflexive(o: KeyOrder, a: Text)
    ensures !Before(o, a, a)
  {
  }

  /** A value whose keys ascend and that is equal to one with unique keys and sortable text has
      them too. */
  lemma {:induction false} AscendingValid(o: KeyOrder, w: Value, v: Value)
    requires Same(w, v) && Ascends(o, w) && Valid(v) && Sortable(o, v)
    ensures Valid(w) && Sortable(o, w)
  {
    hide Before;
    match w
    case Arr(items) =>
      forall i | 0 <= i < |items|
        ensures Valid(items[i]) && Sortable(o, items[i])
      {
        assert items[i] in items && v.items[i] in v.items;
        AscendingValid(o, items[i], v.items[i]);
      }
    case Obj(es) =>
      forall e | e in es
        ensures Valid(e.value) && Sortable(o, e.value) && (o.ByUtf16? ==> Scalar(e.key))
      {
        var f :| f in v.entries && e.key == f.key && Same(e.value, f.value);
        AscendingValid(o, e.value, f.value);
      }
      forall i, j | 0 <= i < j < |es|
        ensures es[i].key != es[j].key
      {
        BeforeIrreflexive(o, es[i].key);
      }
    case _ =>
  }

  /** A value whose keys ascend is its own normal form. */
  lemma {:induction false} AscendingNorm(o: KeyOrder, w: Value)
    requires Valid(w) && Sortable(o, w) && Ascends(o, w)
    ensures Norm(o, w) == w
  {
    hide Before;
    match w
    case Arr(items) =>
      forall i | 0 <= i < |items|
        ensures Norm(o, items[i]) == items[i]
      {
        assert items[i] in items;
        AscendingNorm(o, items[i]);
      }
      assert NormItems(o, items) == items;
    case Obj(es) =>
      forall i | 0 <= i < |es|
        ensures NormEntries(o, es)[i] == es[i]
      {
        assert es[i] in es;
        AscendingNorm(o, es[i].value);
      }
      assert NormEntries(o, es) == es;
      AscendingSorted(o, es);
    case _ =>
  }

  lemma AscendingSorted(o: KeyOrder, es: seq<Entry>)
    requires UniqueKeys(es) && forall e :: e in es ==> o.ByUtf16? ==> Scalar(e.key)
    requires forall i, j :: 0 <= i < j < |es| ==> Before(o, es[i].key, es[j].key)
    ensures SortBy(EntryKey(o), es) == es
  {
    hide Before, Less, SortKey;
    forall i, j | 0 <= i < j < |es|
      ensures !Less(EntryKey(o)(es[j]), EntryKey(o)(es[i]))
    {
      BeforeIsLess(o, es[i].key, es[j].key);
      LessAsymmetric(SortKey(o, es[i].key), SortKey(o, es[j].key));
    }
    SortBySorted(EntryKey(o), es);
    SortByMultiset(EntryKey(o), es);
    EntriesKeyInjective(o, es);
    SortedUnique(EntryKey(o), es, SortBy(EntryKey(o), es));
  }

  lemma CodePointsIn(s: Text)
    ensures CodePoints(s) <==> forall c :: c in s ==> IsCodePoint(c)
  {
    if forall c :: c in s ==> IsCodePoint(c) {
      forall i | 0 <= i < |s|
        ensures IsCodePoint(s[i])
      {
        assert s[i] in s;
      }
    }
  }

  lemma {:induction false} CodePointsMentioned(v: Value)
    ensures AllCodePoints(v) <==> forall c :: Mentions(v, c) ==> IsCodePoint(c)
  {
    match v
    case Str(s) =>
      CodePointsIn(s);
      assert forall c :: c in s <==> Mentions(v, c);
    case Arr(items) =>
      forall x | x in items
        ensures AllCodePoints(x) <==> forall c :: Mentions(x, c) ==> IsCodePoint(c)
      {
        CodePointsMentioned(x);
      }
      forall x, c | x in items && Mentions(x, c)
        ensures Mentions(v, c)
      {
      }
      if forall c :: Mentions(v, c) ==> IsCodePoint(c) {
        assert forall x :: x in items ==> AllCodePoints(x);
      }
    case Obj(es) =>
      forall e | e in es
        ensures AllCodePoints(e.value) <==> forall c :: Mentions(e.value, c) ==> IsCodePoint(c)
        ensures CodePoints(e.key) <==> forall c :: c in e.key ==> IsCodePoint(c)
      {
        CodePointsIn(e.key);
        CodePointsMentioned(e.value);
      }
      forall e, c | e in es && (c in e.key || Mentions(e.value, c))
        ensures Mentions(v, c)
      {
      }
    case _ =>
  }

  // ----- main results

  /** t is the compact text of v with the members of every object in ascending order. */
  ghost predicate CanonicalText(o: KeyOrder, k: Style, v: Value, t: Text) {
    exists w :: Same(w, v) && Ascends(o, w) && Spelled(k, w, t)
  }

  lemma NormSpelled(o: KeyOrder, k: Style, v: Value, t: Text)
    requires Valid(v) && AllCodePoints(v) && Sortable(o, v)
    ensures CanonicalText(o, k, v, t) <==> t == Print(k, Norm(o, v))
  {
    hide Spelled, Ascends, Same, Norm, Print;
    var n := Norm(o, v);
    NormValid(o, v);
    NormSame(o, v);
    NormAscends(o, v);
    CodePointsMentioned(v);
    CodePointsMentioned(n);
    forall c
      ensures Mentions(n, c) <==> Mentions(v, c)
    {
      NormMentions(o, v, c);
    }
    SpelledPrints(k, n, t);
    forall w | Same(w, v) && Ascends(o, w)
      ensures w == n
    {
      AscendingValid(o, w, v);
      AscendingNorm(o, w);
      SameNormEqual(o, w, v);
    }
  }

  /** `canonical_json` writes the one compact text whose keys ascend by code point. */
  lemma CanonicalJsonIs(v: Value, t: Text)
    requires Valid(v) && AllCodePoints(v)
    ensures CanonicalJson(v) == t <==> CanonicalText(ByCodePoint, Raw, v, t)
  {
    hide CanonicalText, Print, Norm;
    NormSpelled(ByCodePoint, Raw, v, t);
  }

  /** `trust_bytes` writes, of integers within 53 bits and surrogate-free text only, the UTF-8 of
      the one compact text whose keys ascend by UTF-16 unit. */
  lemma TrustBytesAre(v: Value, b: Bytes)
    requires Valid(v) && AllCodePoints(v)
    ensures TrustBytes(v) == Some(b) <==>
              Encodable(v) && exists t :: CanonicalText(ByUtf16, Raw, v, t) && Scalar(t) && b == Utf8(t)
  {
    hide CanonicalText, Print, Norm, TrustBytes;
    TrustBytesDefined(v);
    EncodableSplits(v);
    if Encodable(v) {
      forall t
        ensures CanonicalText(ByUtf16, Raw, v, t) <==> t == Print(Raw, Norm(ByUtf16, v))
      {
        NormSpelled(ByUtf16, Raw, v, t);
      }
    }
  }

  /** The bytes are the compact text of the value with ascending keys, in UTF-8. */
  ghost predicate Encodes(b: Bytes, v: Value) {
    exists t :: CanonicalText(ByCodePoint, Raw, v, t) && Scalar(t) && b == Utf8(t)
  }

  /** A value can be written exactly when it holds no lone surrogate. */
  lemma EncodesIs(v: Value)
    requires Valid(v)
    ensures Scalar(CanonicalJson(v)) <==> AllScalar(v)
    ensures Scalar(CanonicalJson(v)) ==> Encodes(Utf8(CanonicalJson(v)), v)
  {
    hide CanonicalText, Print, Norm, Encodes;
    var n := Norm(ByCodePoint, v);
    NormValid(ByCodePoint, v);
    NormScalar(ByCodePoint, v);
    ScalarPrint(n);
    if AllScalar(v) {
      ScalarCodePoints(v);
      CanonicalJsonIs(v, CanonicalJson(v));
      EncodesOf(v, CanonicalJson(v));
    }
  }

  lemma EncodesOf(v: Value, t: Text)
    requires CanonicalText(ByCodePoint, Raw, v, t) && Scalar(t)
    ensures Encodes(Utf8(t), v)
  {
  }

  lemma {:induction false} ScalarCodePoints(v: Value)
    requires AllScalar(v)
    ensures AllCodePoints(v)
  {
    match v
    case Str(s) => TextCodePoints(s);
    case Arr(items) =>
      forall x | x in items
        ensures AllCodePoints(x)
      {
        ScalarCodePoints(x);
      }
    case Obj(es) =>
      forall e | e in es
        ensures CodePoints(e.key) && AllCodePoints(e.value)
      {
        TextCodePoints(e.key);
        ScalarCodePoints(e.value);
      }
    case _ =>
  }

  lemma TextCodePoints(s: Text)
    requires Scalar(s)
    ensures CodePoints(s)
  {
    forall i | 0 <= i < |s|
      ensures IsScalar(s[i])
    {
      assert s[i] in s;
    }
  }

  lemma {:induction false} ConcatPlain(s: Text)
    ensures Concat(seq(|s|, i requires 0 <= i < |s| => [s[i]])) == s
  {
    var parts := seq(|s|, i requires 0 <= i < |s| => [s[i]]);
    if s != [] {
      ConcatPlain(s[1..]);
      assert parts[1..] == seq(|s| - 1, i requires 0 <= i < |s| - 1 => [s[1..][i]]);
      assert s == [s[0]] + s[1..];
    }
  }

  /** A string with no quote, backslash or control character is written as it stands. */
  lemma PlainString(s: Text)
    requires CodePoints(s) && forall c :: c in s ==> c >= 0x20 && c != '"' as int && c != '\\' as int
    ensures CanonicalJson(Str(s)) == Lit("\"") + s + Lit("\"")
    ensures Encode(Str(s)) == Some(Lit("\"") + s + Lit("\""))
  {
    var parts := seq(|s|, i requires 0 <= i < |s| => [s[i]]);
    forall i | 0 <= i < |s|
      ensures CharSpelled(Raw, s[i], parts[i])
    {
      assert s[i] in s;
    }
    ConcatPlain(s);
    assert CharsSpelled(Raw, s, parts);
    StringPrints(Raw, s, [0x22] + s + [0x22]);
    assert Lit("\"") == [0x22];
  }
}
