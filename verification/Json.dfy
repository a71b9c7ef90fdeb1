/**
 JSON values as Python holds them, `json.dumps(..., separators=(",", ":"))` as Print and
 `json.loads` as Loads (RFC 8259). A dict is its entries in insertion order.
 */
module Json {
  import opened Wrappers
  import opened Unicode

  datatype Entry = Entry(key: Text, value: Value)

  /** A float is the text `json.dumps` writes for it: its shortest decimal, or one of three
      words. Unsupported stands for what no JSON text holds: tuples, dicts with a key that is
      not a string. */
  datatype Value =
    | Null
    | Bool(b: bool)
    | Int(n: int)
    | Float(repr: Text)
    | Str(s: Text)
    | Arr(items: seq<Value>)
    | Obj(entries: seq<Entry>)
    | Unsupported

  predicate UniqueKeys(es: seq<Entry>) {
    forall i, j :: 0 <= i < j < |es| ==> es[i].key != es[j].key
  }

  /** What every Python value made of dicts, lists and scalars satisfies. */
  ghost predicate Valid(v: Value) {
    match v
    case Arr(items) => forall x :: x in items ==> Valid(x)
    case Obj(es) => UniqueKeys(es) && forall e :: e in es ==> Valid(e.value)
    case Float(t) => FloatText(t)
    case Unsupported => false
    case _ => true
  }

  /** No lone surrogate in any string or key. */
  ghost predicate AllScalar(v: Value) {
    match v
    case Str(s) => Scalar(s)
    case Arr(items) => forall x :: x in items ==> AllScalar(x)
    case Obj(es) => forall e :: e in es ==> Scalar(e.key) && AllScalar(e.value)
    case _ => true
  }

  // ----- characters

  const QUOTE: nat := 34
  const BACKSLASH: nat := 92
  const COMMA: nat := 44
  const COLON: nat := 58
  const PLUS: nat := 43
  const MINUS: nat := 45
  const POINT: nat := 46
  const ZERO: nat := 48
  const OPEN_ARRAY: nat := 91
  const CLOSE_ARRAY: nat := 93
  const OPEN_OBJECT: nat := 123
  const CLOSE_OBJECT: nat := 125
  const LETTER_U: nat := 117

  predicate IsDigit(c: nat) { 48 <= c <= 57 }

  predicate IsJsonSpace(c: nat) { c == 32 || c == 9 || c == 10 || c == 13 }

  // ----- printing

  function Digits(n: nat): Text {
    if n < 10 then [ZERO + n] else Digits(n / 10) + [ZERO + n % 10]
  }

  function IntText(n: int): Text {
    if n < 0 then [MINUS] + Digits(-n) else Digits(n)
  }

  function HexDigit(d: nat): nat {
    if d < 10 then ZERO + d else 87 + d
  }

  /** `ensure_ascii=False` as Raw, `ensure_ascii=True` as Ascii. */
  datatype Style = Raw | Ascii

  function Hex4(u: nat): Text {
    [HexDigit(u / 4096), HexDigit(u / 256 % 16), HexDigit(u / 16 % 16), HexDigit(u % 16)]
  }

  function UnicodeEscape(u: nat): Text { [BACKSLASH, LETTER_U] + Hex4(u) }

  function EscapeChar(k: Style, c: nat): Text {
    if c == QUOTE || c == BACKSLASH then [BACKSLASH, c]
    else if c == 8 then [BACKSLASH, 98]
    else if c == 9 then [BACKSLASH, 116]
    else if c == 10 then [BACKSLASH, 110]
    else if c == 12 then [BACKSLASH, 102]
    else if c == 13 then [BACKSLASH, 114]
    else if c >= 32 && (k.Raw? || c < 127) then [c]
    else if c < 0x10000 then UnicodeEscape(c)
    else UnicodeEscape(0xD800 + (c - 0x10000) / 1024) + UnicodeEscape(0xDC00 + (c - 0x10000) % 1024)
  }

  function Escapes(k: Style, s: Text): Text {
    if s == [] then [] else EscapeChar(k, s[0]) + Escapes(k, s[1..])
  }

  function Quote(k: Style, s: Text): Text { [QUOTE] + Escapes(k, s) + [QUOTE] }

  function Print(k: Style, v: Value): Text {
    match v
    case Null => Lit("null")
    case Bool(b) => if b then Lit("true") else Lit("false")
    case Int(n) => IntText(n)
    case Float(t) => t
    case Str(s) => Quote(k, s)
    case Arr(items) => [OPEN_ARRAY] + PrintItems(k, items) + [CLOSE_ARRAY]
    case Obj(es) => [OPEN_OBJECT] + PrintEntries(k, es) + [CLOSE_OBJECT]
    case Unsupported => []
  }

  function PrintItems(k: Style, items: seq<Value>): Text {
    if items == [] then []
    else if |items| == 1 then Print(k, items[0])
    else Print(k, items[0]) + [COMMA] + PrintItems(k, items[1..])
  }

  function PrintEntry(k: Style, e: Entry): Text { Quote(k, e.key) + [COLON] + Print(k, e.value) }

  function PrintEntries(k: Style, es: seq<Entry>): Text {
    if es == [] then []
    else if |es| == 1 then PrintEntry(k, es[0])
    else PrintEntry(k, es[0]) + [COMMA] + PrintEntries(k, es[1..])
  }

  // ----- parsing

  /** Whether insignificant whitespace is skipped, whether a repeated key overwrites (plain
      `json.loads`) or is an error (`object_pairs_hook=_unique_object`), and how numbers with a
      fraction or an exponent are read; without floats the reader knows integers only. */
  datatype Reader = Reader(spaces: bool, repeats: bool, floats: Option<Floats>)

  function Skip(m: Reader, t: Text): (r: Text)
    ensures |r| <= |t|
  {
    if m.spaces && t != [] && IsJsonSpace(t[0]) then Skip(m, t[1..]) else t
  }

  function Number(t: Text, acc: nat): (r: (nat, Text))
    ensures |r.1| <= |t|
  {
    if t != [] && IsDigit(t[0]) then Number(t[1..], acc * 10 + (t[0] - ZERO)) else (acc, t)
  }

  function ParseNat(t: Text): (r: Option<(nat, Text)>)
    ensures r.Some? ==> |r.value.1| < |t|
  {
    if t == [] || !IsDigit(t[0]) then None
    else if t[0] == ZERO then Some((0, t[1..]))
    else
      var d: nat := t[0] - ZERO;
      Some(Number(t[1..], d))
  }

  function ParseInt(t: Text): (r: Option<(int, Text)>)
    ensures r.Some? ==> |r.value.1| < |t|
  {
    if t != [] && t[0] == MINUS then
      var (n, rest) :- ParseNat(t[1..]);
      Some((0 - n, rest))
    else
      var (n, rest) :- ParseNat(t);
      Some((n, rest))
  }

  // ----- numbers with a fraction or an exponent

  function AfterDigits(t: Text): (r: Text)
    ensures |r| <= |t|
  {
    if StartsWithDigit(t) then AfterDigits(t[1..]) else t
  }

  predicate StartsWithDigit(t: Text) { t != [] && IsDigit(t[0]) }

  /** A point and digits, if there are any. */
  function AfterFraction(t: Text): (r: Text)
    ensures |r| <= |t|
  {
    if t != [] && t[0] == POINT && StartsWithDigit(t[1..]) then AfterDigits(t[1..]) else t
  }

  function AfterSign(t: Text): (r: Text)
    ensures |r| <= |t|
  {
    if t != [] && (t[0] == MINUS || t[0] == PLUS) then t[1..] else t
  }

  predicate IsExponentMark(c: nat) { c == 69 || c == 101 }

  /** An exponent mark, a sign or none, and digits, if there are any. */
  function AfterExponent(t: Text): (r: Text)
    ensures |r| <= |t|
  {
    if t != [] && IsExponentMark(t[0]) && StartsWithDigit(AfterSign(t[1..])) then AfterDigits(AfterSign(t[1..])) else t
  }

  const NAN := Lit("NaN")
  const INFINITY := Lit("Infinity")
  const MINUS_INFINITY := Lit("-Infinity")

  predicate IsConstant(t: Text) { t == NAN || t == INFINITY || t == MINUS_INFINITY }

  /** A whole number token with a fraction or an exponent. */
  predicate FloatToken(t: Text) {
    var p := ParseInt(t);
    p.Some? && p.value.1 != [] && AfterExponent(AfterFraction(p.value.1)) == []
  }

  predicate FloatText(t: Text) { IsConstant(t) || FloatToken(t) }

  /** Python's floating point as the parser and the comparisons need it: what `json.dumps`
      writes for the float that a token stands for, and the integer a float equals, if any. */
  datatype Arithmetic = Arithmetic(round: Text -> Text, whole: Text -> Option<int>)

  /** The text that is written is read back as the same float, and two floats that equal one
      integer differ at most in the sign of zero. */
  ghost predicate IsArithmetic(a: Arithmetic) {
    && (forall t :: FloatText(a.round(t)))
    && (forall t :: FloatToken(a.round(t)) ==> a.round(a.round(t)) == a.round(t))
    && (forall t, u ::
          Settled(a, t) && Settled(a, u) && a.whole(t).Some? && a.whole(t) == a.whole(u) && Negative(t) == Negative(u)
          ==> t == u)
  }

  predicate Settled(a: Arithmetic, t: Text) { IsConstant(t) || (FloatToken(t) && a.round(t) == t) }

  predicate Negative(t: Text) { t != [] && t[0] == MINUS }

  /** An arithmetic in which every token stands for a float of its own. */
  const EXACT := Arithmetic(t => if FloatText(t) then t else NAN, t => None)

  type Floats = a: Arithmetic | IsArithmetic(a) witness EXACT

  /** The token at the front of t is a float when something follows its integer part. */
  function ParseNumber(m: Reader, t: Text): (r: Option<(Value, Text)>)
    ensures r.Some? ==> |r.value.1| < |t|
  {
    var (n, a) :- ParseInt(t);
    var c := AfterExponent(AfterFraction(a));
    if m.floats.None? || c == a then Some((Int(n), a))
    else Some((Float(m.floats.value.round(t[..|t| - |c|])), c))
  }

  function HexValue(c: nat): Option<nat> {
    if 48 <= c <= 57 then Some(c - 48)
    else if 65 <= c <= 70 then Some(c - 55)
    else if 97 <= c <= 102 then Some(c - 87)
    else None
  }

  function ParseHex4(t: Text): Option<nat>
    requires |t| >= 4
  {
    var a :- HexValue(t[0]);
    var b :- HexValue(t[1]);
    var c :- HexValue(t[2]);
    var d :- HexValue(t[3]);
    Some(a * 4096 + b * 256 + c * 16 + d)
  }

  function SimpleEscape(c: nat): Option<nat> {
    if c == QUOTE || c == BACKSLASH || c == 47 then Some(c)
    else if c == 98 then Some(8)
    else if c == 116 then Some(9)
    else if c == 110 then Some(10)
    else if c == 102 then Some(12)
    else if c == 114 then Some(13)
    else None
  }

  /** One escape after its backslash: the code point and what follows. A high surrogate
      escape followed by a low one is a single code point. */
  function ParseEscape(t: Text): (r: Option<(nat, Text)>)
    ensures r.Some? ==> |r.value.1| < |t|
  {
    if t == [] then None
    else if t[0] != LETTER_U then
      var c :- SimpleEscape(t[0]);
      Some((c, t[1..]))
    else if |t| < 5 then None
    else
      var hi :- ParseHex4(t[1..5]);
      if 0xD800 <= hi <= 0xDBFF && |t| >= 11 && t[5] == BACKSLASH && t[6] == LETTER_U then
        var lo :- ParseHex4(t[7..11]);
        if 0xDC00 <= lo <= 0xDFFF
        then Some((0x10000 + (hi - 0xD800) * 1024 + (lo - 0xDC00), t[11..]))
        else Some((hi, t[5..]))
      else Some((hi, t[5..]))
  }

  /** The rest of a string literal, after its opening quote. */
  function ParseString(t: Text): (r: Option<(Text, Text)>)
    ensures r.Some? ==> |r.value.1| < |t|
    decreases |t|
  {
    if t == [] || t[0] < 32 then None
    else if t[0] == QUOTE then Some(([], t[1..]))
    else if t[0] == BACKSLASH then
      var (c, u) :- ParseEscape(t[1..]);
      var (s, rest) :- ParseString(u);
      Some(([c] + s, rest))
    else
      var (s, rest) :- ParseString(t[1..]);
      Some(([t[0]] + s, rest))
  }

  /** `d[key] = value`: an existing key keeps its place. */
  function Put(es: seq<Entry>, key: Text, value: Value): seq<Entry> {
    if es == [] then [Entry(key, value)]
    else if es[0].key == key then [Entry(key, value)] + es[1..]
    else [es[0]] + Put(es[1..], key, value)
  }

  function PutAll(es: seq<Entry>, pairs: seq<Entry>): seq<Entry>
    decreases |pairs|
  {
    if pairs == [] then es else PutAll(Put(es, pairs[0].key, pairs[0].value), pairs[1..])
  }

  function MakeObject(m: Reader, pairs: seq<Entry>): Option<Value> {
    if UniqueKeys(pairs) then Some(Obj(pairs))
    else if m.repeats then Some(Obj(PutAll([], pairs)))
    else None
  }

  function ParseValue(m: Reader, t: Text): (r: Option<(Value, Text)>)
    ensures r.Some? ==> |r.value.1| < |t|
    decreases |t|, 0
  {
    if t == [] then None
    else if Lit("null") <= t then Some((Null, t[4..]))
    else if Lit("true") <= t then Some((Bool(true), t[4..]))
    else if Lit("false") <= t then Some((Bool(false), t[5..]))
    else if t[0] == QUOTE then
      var (s, rest) :- ParseString(t[1..]);
      Some((Str(s), rest))
    else if t[0] == OPEN_ARRAY then
      var (items, rest) :- ParseArray(m, Skip(m, t[1..]));
      Some((Arr(items), rest))
    else if t[0] == OPEN_OBJECT then
      var (pairs, rest) :- ParseObject(m, Skip(m, t[1..]));
      var v :- MakeObject(m, pairs);
      Some((v, rest))
    else if m.floats.Some? && NAN <= t then Some((Float(NAN), t[3..]))
    else if m.floats.Some? && INFINITY <= t then Some((Float(INFINITY), t[8..]))
    else if m.floats.Some? && MINUS_INFINITY <= t then Some((Float(MINUS_INFINITY), t[9..]))
    else ParseNumber(m, t)
  }

  function ParseArray(m: Reader, t: Text): (r: Option<(seq<Value>, Text)>)
    ensures r.Some? ==> |r.value.1| < |t|
    decreases |t|, 2
  {
    if t != [] && t[0] == CLOSE_ARRAY then Some(([], t[1..])) else ParseItems(m, t)
  }

  /** One or more elements and the closing bracket. */
  function ParseItems(m: Reader, t: Text): (r: Option<(seq<Value>, Text)>)
    ensures r.Some? ==> |r.value.1| < |t|
    decreases |t|, 1
  {
    var (v, a) :- ParseValue(m, t);
    var (vs, rest) :- MoreItems(m, Skip(m, a));
    Some(([v] + vs, rest))
  }

  function MoreItems(m: Reader, t: Text): (r: Option<(seq<Value>, Text)>)
    ensures r.Some? ==> |r.value.1| < |t|
    decreases |t|, 0
  {
    if t == [] then None
    else if t[0] == CLOSE_ARRAY then Some(([], t[1..]))
    else if t[0] == COMMA then ParseItems(m, Skip(m, t[1..]))
    else None
  }

  function ParseObject(m: Reader, t: Text): (r: Option<(seq<Entry>, Text)>)
    ensures r.Some? ==> |r.value.1| < |t|
    decreases |t|, 3
  {
    if t != [] && t[0] == CLOSE_OBJECT then Some(([], t[1..])) else ParsePairs(m, t)
  }

  /** One or more pairs and the closing brace. */
  function ParsePairs(m: Reader, t: Text): (r: Option<(seq<Entry>, Text)>)
    ensures r.Some? ==> |r.value.1| < |t|
    decreases |t|, 2
  {
    var (e, a) :- ParsePair(m, t);
    var (es, rest) :- MorePairs(m, Skip(m, a));
    Some(([e] + es, rest))
  }

  function MorePairs(m: Reader, t: Text): (r: Option<(seq<Entry>, Text)>)
    ensures r.Some? ==> |r.value.1| < |t|
    decreases |t|, 0
  {
    if t == [] then None
    else if t[0] == CLOSE_OBJECT then Some(([], t[1..]))
    else if t[0] == COMMA then ParsePairs(m, Skip(m, t[1..]))
    else None
  }

  /** One `"key": value`. */
  function ParsePair(m: Reader, t: Text): (r: Option<(Entry, Text)>)
    ensures r.Some? ==> |r.value.1| < |t|
    decreases |t|, 1
  {
    if t == [] || t[0] != QUOTE then None
    else
      var (key, a) :- ParseString(t[1..]);
      var (v, rest) :- ParseMember(m, Skip(m, a));
      Some((Entry(key, v), rest))
  }

  /** The colon and the value. */
  function ParseMember(m: Reader, t: Text): (r: Option<(Value, Text)>)
    ensures r.Some? ==> |r.value.1| < |t|
    decreases |t|, 1
  {
    if t == [] || t[0] != COLON then None else ParseValue(m, Skip(m, t[1..]))
  }

  /** A whole document. */
  function Loads(m: Reader, t: Text): Option<Value> {
    var (v, rest) :- ParseValue(m, Skip(m, t));
    if Skip(m, rest) == [] then Some(v) else None
  }

  // ----- reading a printed number

  lemma {:induction false} NumberOfDigits(n: nat, rest: Text)
    ensures Number(Digits(n) + rest, 0) == Number(rest, n)
  {
    if n < 10 {
      assert (Digits(n) + rest)[1..] == rest;
    } else {
      var d := [ZERO + n % 10];
      NumberOfDigits(n / 10, d + rest);
      assert Digits(n) + rest == Digits(n / 10) + (d + rest);
      assert (d + rest)[1..] == rest;
    }
  }

  lemma {:induction false} DigitsHead(n: nat)
    ensures Digits(n) != [] && IsDigit(Digits(n)[0])
    ensures Digits(n)[0] == ZERO <==> n == 0
  {
    if n >= 10 {
      DigitsHead(n / 10);
    }
  }

  lemma {:induction false} NumberGrows(t: Text, acc: nat)
    ensures Number(t, acc).0 >= acc
    ensures t != [] && IsDigit(t[0]) && acc > 0 ==> Number(t, acc).0 > acc
  {
    if t != [] && IsDigit(t[0]) {
      NumberGrows(t[1..], acc * 10 + (t[0] - ZERO));
    }
  }

  lemma ParseNatDigits(n: nat, rest: Text)
    ensures ParseNat(Digits(n) + rest) == Some(if n == 0 then (0, rest) else Number(rest, n))
  {
    DigitsHead(n);
    NumberOfDigits(n, rest);
    ParseNatOf(n, Digits(n), rest);
  }

  lemma ParseNatOf(n: nat, digits: Text, rest: Text)
    requires digits != [] && IsDigit(digits[0]) && (digits[0] == ZERO <==> n == 0)
    requires n == 0 ==> digits == [ZERO]
    requires Number(digits + rest, 0) == Number(rest, n)
    ensures ParseNat(digits + rest) == Some(if n == 0 then (0, rest) else Number(rest, n))
  {
    var t := digits + rest;
    assert t[0] == digits[0];
    if n == 0 {
      assert t[1..] == rest;
    }
  }

  /** A printed integer is read back exactly when no digit runs on from it. */
  lemma ParseIntText(n: int, rest: Text)
    ensures ParseInt(IntText(n) + rest) == Some((n, rest)) <==> n == 0 || !StartsWithDigit(rest)
  {
    var t := IntText(n) + rest;
    var a: nat := if n < 0 then -n else n;
    DigitsHead(a);
    ParseNatDigits(a, rest);
    NumberGrows(rest, a);
    if n < 0 {
      assert t[1..] == Digits(a) + rest;
    } else {
      assert t[0] == Digits(a)[0];
    }
  }

  /** Text that cannot be more of a number. */
  predicate Continues(t: Text) { t != [] && (IsDigit(t[0]) || t[0] == POINT || IsExponentMark(t[0])) }

  lemma {:induction false} NumberExtends(t: Text, acc: nat, rest: Text)
    requires !StartsWithDigit(rest)
    ensures Number(t + rest, acc) == (Number(t, acc).0, Number(t, acc).1 + rest)
  {
    if StartsWithDigit(t) {
      assert (t + rest)[1..] == t[1..] + rest;
      NumberExtends(t[1..], acc * 10 + (t[0] - ZERO), rest);
    } else {
      assert t == [] ==> t + rest == rest;
    }
  }

  lemma IntExtends(t: Text, rest: Text)
    requires ParseInt(t).Some? && !StartsWithDigit(rest)
    ensures ParseInt(t + rest) == Some((ParseInt(t).value.0, ParseInt(t).value.1 + rest))
  {
    var u := if t[0] == MINUS then t[1..] else t;
    assert (t + rest)[1..] == t[1..] + rest;
    assert (u + rest)[1..] == u[1..] + rest;
    var d: nat := u[0] - ZERO;
    NumberExtends(u[1..], d, rest);
  }

  lemma {:induction false} DigitsExtend(t: Text, rest: Text)
    requires !StartsWithDigit(rest)
    ensures AfterDigits(t + rest) == AfterDigits(t) + rest
  {
    if StartsWithDigit(t) {
      assert (t + rest)[1..] == t[1..] + rest;
      DigitsExtend(t[1..], rest);
    } else {
      assert t == [] ==> t + rest == rest;
    }
  }

  lemma FractionExtends(t: Text, rest: Text)
    requires t != [] && AfterExponent(AfterFraction(t)) == [] && !Continues(rest)
    ensures AfterFraction(t + rest) == AfterFraction(t) + rest
  {
    assert (t + rest)[1..] == t[1..] + rest;
    if t[0] == POINT && StartsWithDigit(t[1..]) {
      DigitsExtend(t[1..], rest);
    }
  }

  lemma ExponentExtends(t: Text, rest: Text)
    requires AfterExponent(t) == [] && !Continues(rest)
    ensures AfterExponent(t + rest) == rest
  {
    if t == [] {
      assert t + rest == rest;
    } else {
      var u := AfterSign(t[1..]);
      assert (t + rest)[1..] == t[1..] + rest;
      assert t[1..] != [];
      assert (t[1..] + rest)[1..] == t[1..][1..] + rest;
      assert AfterSign((t + rest)[1..]) == u + rest;
      DigitsExtend(u, rest);
    }
  }

  /** A printed float is read back when nothing after it can be more of it. */
  lemma ParseFloatToken(m: Reader, t: Text, rest: Text)
    requires FloatToken(t) && !Continues(rest) && m.floats.Some? && m.floats.value.round(t) == t
    ensures ParseNumber(m, t + rest) == Some((Float(t), rest))
  {
    var a := ParseInt(t).value.1;
    IntExtends(t, rest);
    FractionExtends(a, rest);
    ExponentExtends(AfterFraction(a), rest);
    assert (t + rest)[..|t|] == t;
  }

  lemma ParseIntToken(m: Reader, n: int, rest: Text)
    requires n != 0 ==> !StartsWithDigit(rest)
    requires m.floats.Some? ==> !Continues(rest)
    ensures ParseNumber(m, IntText(n) + rest) == Some((Int(n), rest))
  {
    ParseIntText(n, rest);
  }

  // ----- reading a printed string

  lemma EscapeCharParses(k: Style, c: nat, rest: Text)
    requires EscapeChar(k, c) != [c] && (k.Ascii? ==> IsScalar(c))
    ensures ParseEscape(EscapeChar(k, c)[1..] + rest) == Some((c, rest))
  {
    hide HexDigit, HexValue;
    var t := EscapeChar(k, c)[1..] + rest;
    if |EscapeChar(k, c)| == 2 {
      assert t[1..] == rest;
    } else if c < 0x10000 {
      Hex4Parses(c);
      assert t[1..5] == Hex4(c) && t[5..] == rest;
    } else {
      var hi, lo := 0xD800 + (c - 0x10000) / 1024, 0xDC00 + (c - 0x10000) % 1024;
      Hex4Parses(hi);
      Hex4Parses(lo);
      assert t == [LETTER_U] + Hex4(hi) + UnicodeEscape(lo) + rest;
      assert t[1..5] == Hex4(hi) && t[7..11] == Hex4(lo) && t[11..] == rest;
    }
  }

  lemma HexDigitParses(d: nat)
    requires d < 16
    ensures HexValue(HexDigit(d)) == Some(d)
  {
  }

  lemma Hex4Parses(u: nat)
    requires u < 0x10000
    ensures ParseHex4(Hex4(u)) == Some(u)
  {
    hide HexDigit, HexValue;
    var a, b, c, d := u / 4096, u / 256 % 16, u / 16 % 16, u % 16;
    HexDigitParses(a);
    HexDigitParses(b);
    HexDigitParses(c);
    HexDigitParses(d);
    assert u / 256 == u / 4096 * 16 + u / 256 % 16;
    assert u / 16 == u / 256 * 16 + u / 16 % 16;
    assert u == a * 4096 + b * 256 + c * 16 + d;
  }

  lemma EscapeCharHead(k: Style, c: nat)
    ensures if EscapeChar(k, c) == [c] then c >= 32 && c != QUOTE && c != BACKSLASH
            else |EscapeChar(k, c)| >= 2 && EscapeChar(k, c)[0] == BACKSLASH
  {
  }

  lemma {:induction false} ParseQuoted(k: Style, s: Text, rest: Text)
    requires k.Ascii? ==> Scalar(s)
    ensures ParseString(Escapes(k, s) + [QUOTE] + rest) == Some((s, rest))
  {
    hide EscapeChar, ParseEscape;
    var t := Escapes(k, s) + [QUOTE] + rest;
    if s == [] {
      assert t[1..] == rest;
    } else {
      var head, tail := EscapeChar(k, s[0]), Escapes(k, s[1..]) + [QUOTE] + rest;
      assert t == head + tail;
      ParseQuoted(k, s[1..], rest);
      EscapeCharHead(k, s[0]);
      if head == [s[0]] {
        assert t[1..] == tail;
      } else {
        EscapeCharParses(k, s[0], tail);
        assert t[1..] == head[1..] + tail;
      }
      assert [s[0]] + s[1..] == s;
    }
  }

  // ----- reading a printed value

  lemma SkipNothing(m: Reader, t: Text)
    requires t != [] ==> !IsJsonSpace(t[0])
    ensures Skip(m, t) == t
  {
  }

  /** First characters: enough to know which branch of the parser a printed value takes. */
  lemma PrintHead(k: Style, v: Value)
    requires Valid(v)
    ensures Print(k, v) != []
    ensures !IsJsonSpace(Print(k, v)[0]) && Print(k, v)[0] != CLOSE_ARRAY
  {
    if v.Int? {
      DigitsHead(if v.n < 0 then -v.n else v.n);
    }
  }

  /** Every float in v is one that the reader makes of its own text. */
  ghost predicate ReadsBack(m: Reader, v: Value) {
    match v
    case Float(t) => m.floats.Some? && Settled(m.floats.value, t)
    case Arr(items) => forall x :: x in items ==> ReadsBack(m, x)
    case Obj(es) => forall e :: e in es ==> ReadsBack(m, e.value)
    case _ => true
  }

  /** A proper value, and one that the reader makes of its own text. */
  ghost predicate Proper(m: Reader, v: Value) { Valid(v) && ReadsBack(m, v) }

  /** What can be printed in a style and read back by a reader. */
  ghost predicate Faithful(m: Reader, k: Style, v: Value) {
    Proper(m, v) && (k.Ascii? ==> AllScalar(v))
  }

  lemma PrintEntriesHead(k: Style, es: seq<Entry>)
    requires es != []
    ensures PrintEntries(k, es) != [] && PrintEntries(k, es)[0] == QUOTE
  {
    assert PrintEntry(k, es[0])[0] == QUOTE;
  }

  /** A text to read on from: nothing in it can be taken for more of the value before it. */
  predicate Delimits(m: Reader, v: Value, rest: Text) {
    && (v.Int? && v.n != 0 ==> !StartsWithDigit(rest))
    && (m.floats.Some? && (v.Int? || v.Float?) ==> !Continues(rest))
  }

  lemma NotKeyword(t: Text)
    requires t != [] && t[0] != 110 && t[0] != 116 && t[0] != 102
    ensures !(Lit("null") <= t) && !(Lit("true") <= t) && !(Lit("false") <= t)
  {
    assert Lit("null")[0] == 110 && Lit("true")[0] == 116 && Lit("false")[0] == 102;
  }

  /** A number begins with a digit, or with a sign and a digit. */
  predicate NumberHead(t: Text) { StartsWithDigit(t) || (t != [] && t[0] == MINUS && StartsWithDigit(t[1..])) }

  lemma IntHead(n: int, rest: Text)
    ensures NumberHead(IntText(n) + rest)
  {
    var a: nat := if n < 0 then -n else n;
    DigitsHead(a);
    assert ([MINUS] + Digits(a) + rest)[1..] == Digits(a) + rest;
  }

  lemma NotConstant(t: Text)
    requires NumberHead(t)
    ensures !(NAN <= t) && !(INFINITY <= t) && !(MINUS_INFINITY <= t)
  {
    assert NAN[0] == 78 && INFINITY[0] == 73 && MINUS_INFINITY[1] == 73;
    assert |t| > 1 ==> t[1] == t[1..][0];
  }

  lemma ParseConstant(m: Reader, f: Text, rest: Text)
    requires IsConstant(f) && m.floats.Some?
    ensures ParseValue(m, f + rest) == Some((Float(f), rest))
  {
    var t := f + rest;
    assert t[..|f|] == f && t[|f|..] == rest;
    assert NAN[0] == 78 && INFINITY[0] == 73 && MINUS_INFINITY[0] == MINUS;
    NotKeyword(t);
  }

  lemma FloatHead(t: Text, rest: Text)
    requires FloatToken(t)
    ensures NumberHead(t + rest)
  {
    assert (t + rest)[1..] == t[1..] + rest;
  }

  lemma NumberParses(m: Reader, t: Text)
    requires NumberHead(t)
    ensures ParseValue(m, t) == ParseNumber(m, t)
  {
    hide ParseNumber, Lit, ParseString, ParseArray, ParseObject;
    NotKeyword(t);
    NotConstant(t);
  }

  lemma ParsePrintScalar(m: Reader, k: Style, v: Value, rest: Text)
    requires Faithful(m, k, v) && !v.Arr? && !v.Obj? && Delimits(m, v, rest)
    ensures ParseValue(m, Print(k, v) + rest) == Some((v, rest))
  {
    hide ParseNumber, ParseArray, ParseObject, IntText, FloatToken, Escapes, ParseString;
    var t := Print(k, v) + rest;
    match v
    case Null =>
      assert t[..4] == Lit("null") && t[4..] == rest;
    case Bool(b) =>
      var word := if b then Lit("true") else Lit("false");
      assert t[..|word|] == word && t[|word|..] == rest;
      assert t[0] == word[0];
    case Int(n) =>
      ParseIntToken(m, n, rest);
      IntHead(n, rest);
      NumberParses(m, t);
    case Float(f) =>
      if IsConstant(f) {
        ParseConstant(m, f, rest);
      } else {
        ParseFloatToken(m, f, rest);
        FloatHead(f, rest);
        NumberParses(m, t);
      }
    case Str(s) =>
      assert t[1..] == Escapes(k, s) + [QUOTE] + rest;
      NotKeyword(t);
      ParseQuoted(k, s, rest);
  }

  lemma ArrayStarts(m: Reader, k: Style, items: seq<Value>, rest: Text)
    requires forall x :: x in items ==> Valid(x)
    requires items != [] ==> ParseItems(m, PrintItems(k, items) + [CLOSE_ARRAY] + rest) == Some((items, rest))
    ensures ParseArray(m, Skip(m, PrintItems(k, items) + [CLOSE_ARRAY] + rest)) == Some((items, rest))
  {
    var u := PrintItems(k, items) + [CLOSE_ARRAY] + rest;
    if items == [] {
      assert u == [CLOSE_ARRAY] + rest;
      assert u[1..] == rest;
    } else {
      PrintHead(k, items[0]);
      assert u[0] == Print(k, items[0])[0];
    }
    SkipNothing(m, u);
  }

  lemma ObjectStarts(m: Reader, k: Style, es: seq<Entry>, rest: Text)
    requires es != [] ==> ParsePairs(m, PrintEntries(k, es) + [CLOSE_OBJECT] + rest) == Some((es, rest))
    ensures ParseObject(m, Skip(m, PrintEntries(k, es) + [CLOSE_OBJECT] + rest)) == Some((es, rest))
  {
    var u := PrintEntries(k, es) + [CLOSE_OBJECT] + rest;
    if es == [] {
      assert u == [CLOSE_OBJECT] + rest;
      assert u[1..] == rest;
    } else {
      PrintEntriesHead(k, es);
      assert u[0] == QUOTE;
    }
    SkipNothing(m, u);
  }

  lemma {:induction false} ParsePrint(m: Reader, k: Style, v: Value, rest: Text)
    requires Faithful(m, k, v) && Delimits(m, v, rest)
    ensures ParseValue(m, Print(k, v) + rest) == Some((v, rest))
    decreases v, 0
  {
    hide Lit, ParseArray, ParseObject, ParseString, ParseInt, PrintItems, PrintEntries, Skip;
    var t := Print(k, v) + rest;
    match v {
      case Arr(items) =>
        assert t[1..] == PrintItems(k, items) + [CLOSE_ARRAY] + rest;
        NotKeyword(t);
        if items != [] {
          ParsePrintItems(m, k, items, rest);
        }
        ArrayStarts(m, k, items, rest);
      case Obj(es) =>
        assert t[1..] == PrintEntries(k, es) + [CLOSE_OBJECT] + rest;
        NotKeyword(t);
        if es != [] {
          ParsePrintPairs(m, k, es, rest);
        }
        ObjectStarts(m, k, es, rest);
      case _ => ParsePrintScalar(m, k, v, rest);
    }
  }

  lemma {:induction false} ParsePrintItems(m: Reader, k: Style, items: seq<Value>, rest: Text)
    requires items != [] && Faithful(m, k, Arr(items))
    ensures ParseItems(m, PrintItems(k, items) + [CLOSE_ARRAY] + rest) == Some((items, rest))
    decreases items, 2
  {
    var after := ItemsAfterFirst(k, items, rest);
    assert PrintItems(k, items) + [CLOSE_ARRAY] + rest == Print(k, items[0]) + after;
    ParsePrint(m, k, items[0], after);
    SkipNothing(m, after);
    ParseMoreItems(m, k, items, rest);
    assert [items[0]] + items[1..] == items;
  }

  function ItemsAfterFirst(k: Style, items: seq<Value>, rest: Text): Text
    requires items != []
  {
    if |items| == 1 then [CLOSE_ARRAY] + rest
    else [COMMA] + (PrintItems(k, items[1..]) + [CLOSE_ARRAY] + rest)
  }

  lemma {:induction false} ParseMoreItems(m: Reader, k: Style, items: seq<Value>, rest: Text)
    requires items != [] && Faithful(m, k, Arr(items))
    ensures MoreItems(m, ItemsAfterFirst(k, items, rest)) == Some((items[1..], rest))
    decreases items, 1
  {
    var after := ItemsAfterFirst(k, items, rest);
    if |items| == 1 {
      assert after[1..] == rest && items[1..] == [];
    } else {
      var tail := PrintItems(k, items[1..]) + [CLOSE_ARRAY] + rest;
      assert after[1..] == tail;
      assert items[1] in items;
      PrintHead(k, items[1]);
      assert tail[0] == Print(k, items[1])[0];
      SkipNothing(m, tail);
      ParsePrintItems(m, k, items[1..], rest);
    }
  }

  lemma PrintEntryShape(k: Style, e: Entry, rest: Text)
    ensures PrintEntry(k, e) + rest == [QUOTE] + (Escapes(k, e.key) + [QUOTE] + ([COLON] + (Print(k, e.value) + rest)))
  {
  }

  /** A pair, given that its value reads back. */
  lemma ParsePairShape(m: Reader, k: Style, e: Entry, rest: Text)
    requires Valid(e.value) && (k.Ascii? ==> Scalar(e.key))
    requires ParseValue(m, Print(k, e.value) + rest) == Some((e.value, rest))
    ensures ParsePair(m, PrintEntry(k, e) + rest) == Some((e, rest))
  {
    var value := Print(k, e.value) + rest;
    var after := [COLON] + value;
    var t := PrintEntry(k, e) + rest;
    PrintEntryShape(k, e, rest);
    assert t[1..] == Escapes(k, e.key) + [QUOTE] + after;
    ParseQuoted(k, e.key, after);
    SkipNothing(m, after);
    assert after[1..] == value;
    PrintHead(k, e.value);
    assert value[0] == Print(k, e.value)[0];
    SkipNothing(m, value);
  }

  function PairsAfterFirst(k: Style, es: seq<Entry>, rest: Text): Text
    requires es != []
  {
    if |es| == 1 then [CLOSE_OBJECT] + rest
    else [COMMA] + (PrintEntries(k, es[1..]) + [CLOSE_OBJECT] + rest)
  }

  lemma FirstEntry(m: Reader, k: Style, es: seq<Entry>)
    requires es != [] && Faithful(m, k, Obj(es))
    ensures Faithful(m, k, es[0].value) && (k.Ascii? ==> Scalar(es[0].key))
    ensures |es| > 1 ==> Faithful(m, k, Obj(es[1..]))
  {
    assert es[0] in es && forall e :: e in es[1..] ==> e in es;
  }

  lemma {:induction false} ParsePrintPairs(m: Reader, k: Style, es: seq<Entry>, rest: Text)
    requires es != [] && Faithful(m, k, Obj(es))
    ensures ParsePairs(m, PrintEntries(k, es) + [CLOSE_OBJECT] + rest) == Some((es, rest))
    decreases es, 2
  {
    hide ParsePair, ParseValue, MorePairs, PrintEntry, Quote, Print, Skip;
    var after := PairsAfterFirst(k, es, rest);
    assert PrintEntries(k, es) + [CLOSE_OBJECT] + rest == PrintEntry(k, es[0]) + after;
    FirstEntry(m, k, es);
    ParsePrint(m, k, es[0].value, after);
    ParsePairShape(m, k, es[0], after);
    SkipNothing(m, after);
    ParseMorePairs(m, k, es, rest);
    assert [es[0]] + es[1..] == es;
  }

  lemma {:induction false} ParseMorePairs(m: Reader, k: Style, es: seq<Entry>, rest: Text)
    requires es != [] && Faithful(m, k, Obj(es))
    ensures MorePairs(m, PairsAfterFirst(k, es, rest)) == Some((es[1..], rest))
    decreases es, 1
  {
    var after := PairsAfterFirst(k, es, rest);
    if |es| == 1 {
      assert after[1..] == rest && es[1..] == [];
    } else {
      var tail := PrintEntries(k, es[1..]) + [CLOSE_OBJECT] + rest;
      assert after[1..] == tail;
      PrintEntriesHead(k, es[1..]);
      assert tail[0] == QUOTE;
      SkipNothing(m, tail);
      ParsePrintPairs(m, k, es[1..], rest);
    }
  }

  /** Whole documents: what is printed is what is loaded, by every reader. */
  lemma LoadsPrint(m: Reader, k: Style, v: Value)
    requires Faithful(m, k, v)
    ensures Loads(m, Print(k, v)) == Some(v)
  {
    ParsePrint(m, k, v, []);
    assert Print(k, v) + [] == Print(k, v);
    PrintHead(k, v);
    SkipNothing(m, Print(k, v));
  }

  // ----- what is loaded is a proper value

  lemma {:induction false} PutKeys(es: seq<Entry>, key: Text, value: Value)
    ensures forall e :: e in Put(es, key, value) ==> e.key == key || exists f :: f in es && f.key == e.key
  {
    if es != [] && es[0].key != key {
      PutKeys(es[1..], key, value);
      assert forall e :: e in es[1..] ==> e in es;
    }
  }

  lemma {:induction false} PutUnique(es: seq<Entry>, key: Text, value: Value)
    requires UniqueKeys(es)
    ensures UniqueKeys(Put(es, key, value))
  {
    if es != [] && es[0].key != key {
      PutUnique(es[1..], key, value);
      PutKeys(es[1..], key, value);
    }
  }

  lemma {:induction false} PutKeeps(es: seq<Entry>, key: Text, value: Value)
    requires UniqueKeys(es) && Valid(value) && forall e :: e in es ==> Valid(e.value)
    ensures UniqueKeys(Put(es, key, value))
    ensures forall e :: e in Put(es, key, value) ==> Valid(e.value)
  {
    hide Valid, UniqueKeys;
    PutUnique(es, key, value);
    PutMembers(es, key, value);
  }

  lemma {:induction false} PutMembers(es: seq<Entry>, key: Text, value: Value)
    ensures forall e :: e in Put(es, key, value) ==> e in es || e == Entry(key, value)
  {
    if es != [] && es[0].key != key {
      PutMembers(es[1..], key, value);
    }
  }

  lemma {:induction false} PutAllKeeps(es: seq<Entry>, pairs: seq<Entry>)
    requires UniqueKeys(es) && forall e :: e in es ==> Valid(e.value)
    requires forall e :: e in pairs ==> Valid(e.value)
    ensures UniqueKeys(PutAll(es, pairs)) && forall e :: e in PutAll(es, pairs) ==> Valid(e.value)
    decreases |pairs|
  {
    if pairs == [] {
    } else {
      PutKeeps(es, pairs[0].key, pairs[0].value);
      assert forall e :: e in pairs[1..] ==> e in pairs;
      PutAllKeeps(Put(es, pairs[0].key, pairs[0].value), pairs[1..]);
    }
  }

  lemma {:induction false} PutAllReads(m: Reader, es: seq<Entry>, pairs: seq<Entry>)
    requires forall e :: e in es + pairs ==> ReadsBack(m, e.value)
    ensures forall e :: e in PutAll(es, pairs) ==> ReadsBack(m, e.value)
    decreases |pairs|
  {
    hide ReadsBack;
    if pairs == [] {
      assert es + pairs == es;
    } else {
      PutMembers(es, pairs[0].key, pairs[0].value);
      forall e | e in Put(es, pairs[0].key, pairs[0].value) + pairs[1..]
        ensures ReadsBack(m, e.value)
      {
        assert e in es + pairs;
      }
      PutAllReads(m, Put(es, pairs[0].key, pairs[0].value), pairs[1..]);
    }
  }

  lemma ObjectProper(m: Reader, pairs: seq<Entry>)
    requires forall e :: e in pairs ==> Proper(m, e.value)
    ensures MakeObject(m, pairs).Some? ==> Proper(m, MakeObject(m, pairs).value)
  {
    PutAllKeeps([], pairs);
    PutAllReads(m, [], pairs);
  }

  lemma {:induction false} ParseValueProper(m: Reader, t: Text)
    ensures ParseValue(m, t).Some? ==> Proper(m, ParseValue(m, t).value.0)
    decreases |t|, 0
  {
    hide ParseNumber, ParseString, ParseItems, ParsePairs, MakeObject, Lit;
    NumberProper(m, t);
    if t != [] && t[0] == OPEN_ARRAY {
      ParseItemsProper(m, Skip(m, t[1..]));
    } else if t != [] && t[0] == OPEN_OBJECT {
      ParsePairsProper(m, Skip(m, t[1..]));
      if ParseObject(m, Skip(m, t[1..])).Some? {
        ObjectProper(m, ParseObject(m, Skip(m, t[1..])).value.0);
      }
    }
  }

  lemma NumberProper(m: Reader, t: Text)
    ensures ParseNumber(m, t).Some? ==> Proper(m, ParseNumber(m, t).value.0)
  {
    hide FloatToken, AfterExponent, AfterFraction, ParseInt;
  }

  lemma {:induction false} ParseItemsProper(m: Reader, t: Text)
    ensures ParseItems(m, t).Some? ==> forall x :: x in ParseItems(m, t).value.0 ==> Proper(m, x)
    decreases |t|, 1
  {
    ParseValueProper(m, t);
    if ParseValue(m, t).Some? {
      var u := Skip(m, ParseValue(m, t).value.1);
      if u != [] && u[0] == COMMA {
        ParseItemsProper(m, Skip(m, u[1..]));
      }
    }
  }

  lemma {:induction false} ParsePairsProper(m: Reader, t: Text)
    ensures ParsePairs(m, t).Some? ==> forall e :: e in ParsePairs(m, t).value.0 ==> Proper(m, e.value)
    decreases |t|, 1
  {
    if ParsePair(m, t).Some? {
      var a := Skip(m, ParseString(t[1..]).value.1);
      ParseValueProper(m, Skip(m, a[1..]));
      var e := ParsePair(m, t).value.0;
      assert ParseMember(m, a).Some? && e.value == ParseMember(m, a).value.0;
      var u := Skip(m, ParsePair(m, t).value.1);
      if u != [] && u[0] == COMMA {
        ParsePairsProper(m, Skip(m, u[1..]));
      }
      if ParsePairs(m, t).Some? {
        assert ParsePairs(m, t).value.0 == [e] + MorePairs(m, u).value.0;
      }
    }
  }

  /** Loading never invents a repeated key, under either treatment of repeats, and never a
      float that its own text would not stand for. */
  lemma LoadsValid(m: Reader, t: Text)
    ensures Loads(m, t).Some? ==> Proper(m, Loads(m, t).value)
  {
    ParseValueProper(m, Skip(m, t));
  }
}
