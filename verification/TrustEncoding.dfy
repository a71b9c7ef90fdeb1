/**
 `trust_bytes`: the integer-only subset of RFC 8785 that signed objects are written in.
 */
module TrustEncoding {
  import opened Wrappers
  import opened Ordering
  import opened Unicode
  import opened Json
  import opened Canonical
  import opened PrintedText

  const MAX_SAFE_INTEGER := 9007199254740991

  /** One member of an object, already encoded, with the key it is sorted by. */
  datatype Member = Member(key: Text, text: Text)

  function MemberKey(): Member -> seq<nat> {
    (p: Member) => SortKey(ByUtf16, p.key)
  }

  function Join(parts: seq<Text>): Text {
    if parts == [] then []
    else if |parts| == 1 then parts[0]
    else parts[0] + [COMMA] + Join(parts[1..])
  }

  function Texts(ps: seq<Member>): seq<Text> {
    if ps == [] then [] else [ps[0].text] + Texts(ps[1..])
  }

  /** The nested `encode`; None is the ValueError. */
  function Encode(v: Value): Option<Text>
    decreases v, 0
  {
    match v
    case Null => Some(Lit("null"))
    case Bool(b) => Some(if b then Lit("true") else Lit("false"))
    case Int(n) => if n > MAX_SAFE_INTEGER || n < -MAX_SAFE_INTEGER then None else Some(IntText(n))
    case Str(s) => Some(Quote(Raw, s))
    case Arr(items) =>
      var parts :- EncodeItems(items);
      Some([OPEN_ARRAY] + Join(parts) + [CLOSE_ARRAY])
    case Obj(es) =>
      var parts :- EncodeEntries(es);
      Some([OPEN_OBJECT] + Join(Texts(SortBy(MemberKey(), parts))) + [CLOSE_OBJECT])
    case Float(_) => None
    case Unsupported => None
  }

  function EncodeItems(items: seq<Value>): Option<seq<Text>>
    decreases items, 1
  {
    if items == [] then Some([])
    else
      var head :- Encode(items[0]);
      var tail :- EncodeItems(items[1..]);
      Some([head] + tail)
  }

  function EncodeEntries(es: seq<Entry>): Option<seq<Member>>
    decreases es, 1
  {
    if es == [] then Some([])
    else if !Scalar(es[0].key) then None
    else
      var head :- Encode(es[0].value);
      var tail :- EncodeEntries(es[1..]);
      Some([Member(es[0].key, Quote(Raw, es[0].key) + [COLON] + head)] + tail)
  }

  function TrustBytes(v: Value): Option<Bytes> {
    var text :- Encode(v);
    if Scalar(text) then Some(Utf8(text)) else None
  }

  /** The values the encoding is defined on. */
  ghost predicate Encodable(v: Value) {
    match v
    case Int(n) => -0x20_0000_0000_0000 < n < 0x20_0000_0000_0000
    case Str(s) => Scalar(s)
    case Arr(items) => forall x :: x in items ==> Encodable(x)
    case Obj(es) => forall e :: e in es ==> Scalar(e.key) && Encodable(e.value)
    case Float(_) => false
    case Unsupported => false
    case _ => true
  }

  /** A reader of trust texts: JSON of integers, without whitespace or repeated keys. */
  const STRICT := Reader(false, false, None)

  function TrustDecode(b: Bytes): Option<Value> {
    var text :- Utf8Decode(b);
    Loads(STRICT, text)
  }

  // ----- the encoder prints the normal form

  /** What Encode itself can tell: text encodability is only checked at the end. */
  ghost predicate Encodes(v: Value) {
    match v
    case Int(n) => -MAX_SAFE_INTEGER <= n <= MAX_SAFE_INTEGER
    case Arr(items) => forall x :: x in items ==> Encodes(x)
    case Obj(es) => forall e :: e in es ==> Scalar(e.key) && Encodes(e.value)
    case Float(_) => false
    case Unsupported => false
    case _ => true
  }

  function MemberOf(e: Entry): Member { Member(e.key, PrintEntry(Raw, e)) }

  function Members(es: seq<Entry>): seq<Member> {
    if es == [] then [] else [MemberOf(es[0])] + Members(es[1..])
  }

  lemma {:induction false} InsertMembers(x: Entry, es: seq<Entry>)
    ensures Insert(MemberKey(), MemberOf(x), Members(es)) == Members(Insert(EntryKey(ByUtf16), x, es))
  {
    if es != [] && Less(SortKey(ByUtf16, es[0].key), SortKey(ByUtf16, x.key)) {
      InsertMembers(x, es[1..]);
      assert Members(es)[1..] == Members(es[1..]);
      var r := Insert(EntryKey(ByUtf16), x, es[1..]);
      assert ([es[0]] + r)[1..] == r;
    } else {
      assert ([x] + es)[1..] == es;
    }
  }

  /** Sorting members by key is sorting entries by key. */
  lemma {:induction false} SortMembers(es: seq<Entry>)
    ensures SortBy(MemberKey(), Members(es)) == Members(SortBy(EntryKey(ByUtf16), es))
  {
    if es == [] {
    } else {
      SortMembers(es[1..]);
      assert Members(es)[1..] == Members(es[1..]);
      InsertMembers(es[0], SortBy(EntryKey(ByUtf16), es[1..]));
    }
  }

  lemma {:induction false} JoinMembers(es: seq<Entry>)
    ensures Join(Texts(Members(es))) == PrintEntries(Raw, es)
    ensures |Texts(Members(es))| == |es|
  {
    if es == [] {
    } else {
      JoinMembers(es[1..]);
      assert Members(es)[1..] == Members(es[1..]);
      assert Texts(Members(es))[1..] == Texts(Members(es[1..]));
    }
  }

  lemma {:induction false} EncodePrints(v: Value)
    ensures Encode(v).Some? <==> Encodes(v)
    ensures Encodes(v) ==> Encode(v) == Some(Print(Raw, Norm(ByUtf16, v)))
    decreases v, 0
  {
    match v
    case Arr(items) => EncodeItemsPrint(items);
    case Obj(es) =>
      EncodeEntriesPrint(es);
      if Encodes(v) {
        var ne := NormEntries(ByUtf16, es);
        SortMembers(ne);
        JoinMembers(SortBy(EntryKey(ByUtf16), ne));
      }
    case _ =>
  }

  lemma {:induction false} EncodeItemsPrint(items: seq<Value>)
    ensures EncodeItems(items).Some? <==> forall x :: x in items ==> Encodes(x)
    ensures EncodeItems(items).Some? ==> |EncodeItems(items).value| == |items|
    ensures EncodeItems(items).Some? ==>
              Join(EncodeItems(items).value) == PrintItems(Raw, NormItems(ByUtf16, items))
    decreases items, 1
  {
    if items == [] {
    } else {
      EncodePrints(items[0]);
      EncodeItemsPrint(items[1..]);
      assert items == [items[0]] + items[1..];
      assert NormItems(ByUtf16, items)[1..] == NormItems(ByUtf16, items[1..]);
      if EncodeItems(items).Some? {
        assert EncodeItems(items).value[1..] == EncodeItems(items[1..]).value;
      }
    }
  }

  lemma {:induction false} EncodeEntriesPrint(es: seq<Entry>)
    ensures EncodeEntries(es).Some? <==> forall e :: e in es ==> Scalar(e.key) && Encodes(e.value)
    ensures EncodeEntries(es).Some? ==> EncodeEntries(es).value == Members(NormEntries(ByUtf16, es))
    decreases es, 1
  {
    hide Encode, Encodes, Norm, Quote, Scalar, Members, NormEntries;
    NoMembers();
    if es == [] {
    } else {
      EncodePrints(es[0].value);
      EncodeEntriesPrint(es[1..]);
      assert es == [es[0]] + es[1..];
      FirstMember(es);
    }
  }

  lemma NoMembers()
    ensures Members(NormEntries(ByUtf16, [])) == []
  {
  }

  lemma FirstMember(es: seq<Entry>)
    requires es != []
    ensures Members(NormEntries(ByUtf16, es))
            == [Member(es[0].key, Quote(Raw, es[0].key) + [COLON] + Print(Raw, Norm(ByUtf16, es[0].value)))]
               + Members(NormEntries(ByUtf16, es[1..]))
  {
    hide Quote, Print, Norm;
    assert NormEntries(ByUtf16, es)[1..] == NormEntries(ByUtf16, es[1..]);
  }

  lemma {:induction false} EncodableSplits(v: Value)
    ensures Encodable(v) <==> Encodes(v) && AllScalar(v)
  {
    match v
    case Arr(items) =>
      forall x | x in items
        ensures Encodable(x) <==> Encodes(x) && AllScalar(x)
      {
        EncodableSplits(x);
      }
    case Obj(es) =>
      forall e | e in es
        ensures Encodable(e.value) <==> Encodes(e.value) && AllScalar(e.value)
      {
        EncodableSplits(e.value);
      }
    case _ =>
  }

  /** The integer-only encoding needs no floats to be read. */
  lemma {:induction false} EncodableReads(v: Value)
    requires Encodable(v)
    ensures ReadsBack(STRICT, v)
  {
    match v
    case Arr(items) =>
      forall x | x in items
        ensures ReadsBack(STRICT, x)
      {
        EncodableReads(x);
      }
    case Obj(es) =>
      forall e | e in es
        ensures ReadsBack(STRICT, e.value)
      {
        EncodableReads(e.value);
      }
    case _ =>
  }

  // ----- main results

  /** `trust_bytes` succeeds exactly on the encodable values, and then writes the UTF-8
      of the value with its keys in UTF-16 order. */
  lemma TrustBytesDefined(v: Value)
    requires Valid(v)
    ensures TrustBytes(v).Some? <==> Encodable(v)
    ensures Encodable(v) ==>
              var text := Print(Raw, Norm(ByUtf16, v));
              Scalar(text) && TrustBytes(v) == Some(Utf8(text))
  {
    EncodableSplits(v);
    EncodePrints(v);
    if Encodes(v) {
      NormValid(ByUtf16, v);
      ScalarPrint(Norm(ByUtf16, v));
      NormScalar(ByUtf16, v);
    }
  }

  /** Signed bytes decode to the value that was encoded. */
  lemma TrustRoundTrip(v: Value)
    requires Valid(v) && Encodable(v)
    ensures TrustBytes(v).Some?
    ensures TrustDecode(TrustBytes(v).value) == Some(Norm(ByUtf16, v))
    ensures Same(Norm(ByUtf16, v), v)
  {
    TrustBytesDefined(v);
    NormValid(ByUtf16, v);
    EncodableReads(v);
    NormReads(ByUtf16, STRICT, v);
    Utf8RoundTrip(Print(Raw, Norm(ByUtf16, v)));
    LoadsPrint(STRICT, Raw, Norm(ByUtf16, v));
    NormSame(ByUtf16, v);
  }

  /** Equal bytes mean equal values, and equal values in any insertion order mean equal bytes. */
  lemma TrustInjective(v: Value, w: Value)
    requires Valid(v) && Valid(w) && Encodable(v) && Encodable(w)
    ensures TrustBytes(v) == TrustBytes(w) <==> Same(v, w)
  {
    TrustRoundTrip(v);
    TrustRoundTrip(w);
    if TrustBytes(v) == TrustBytes(w) {
      NormEqualSame(ByUtf16, v, w);
    }
    if Same(v, w) {
      EncodableSplits(v);
      EncodableSplits(w);
      SameNormEqual(ByUtf16, v, w);
      TrustBytesDefined(v);
      TrustBytesDefined(w);
    }
  }

  /** Reading a value off the front of a longer text works exactly when the value is not
      a non-zero integer that the text continues with a digit. */
  lemma TrustPrefixDecodes(v: Value, rest: Text)
    requires Valid(v) && Encodable(v)
    ensures Encode(v).Some?
    ensures ParseValue(STRICT, Encode(v).value + rest) == Some((Norm(ByUtf16, v), rest))
            <==> Delimits(STRICT, v, rest)
  {
    EncodableSplits(v);
    EncodePrints(v);
    NormValid(ByUtf16, v);
    if Delimits(STRICT, v, rest) {
      EncodableReads(v);
      NormReads(ByUtf16, STRICT, v);
      ParsePrint(STRICT, Raw, Norm(ByUtf16, v), rest);
    } else {
      ParseIntText(v.n, rest);
      IntHead(v.n, rest);
      NumberParses(STRICT, IntText(v.n) + rest);
    }
  }

  /** No reader at all could do better: a non-zero integer followed by a digit is another integer. */
  lemma TrustPrefixAmbiguous(n: int, d: nat)
    requires n != 0 && d < 10
    requires -MAX_SAFE_INTEGER <= 10 * n - 9 && 10 * n + 9 <= MAX_SAFE_INTEGER
    ensures Encode(Int(n)).Some?
    ensures Encode(Int(if n > 0 then 10 * n + d else 10 * n - d)) == Some(Encode(Int(n)).value + [ZERO + d])
  {
    var a: nat := if n < 0 then -n else n;
    assert (10 * a + d) / 10 == a && (10 * a + d) % 10 == d;
    if n < 0 {
      assert [MINUS] + (Digits(a) + [ZERO + d]) == [MINUS] + Digits(a) + [ZERO + d];
    }
  }

  // ----- UTF-16 order against code point order

  /** One side of the first difference is a supplementary character, the other lies in
      U+E000..U+FFFF: the one case where surrogate pairs reverse the order. */
  predicate Crossed(a: Text, b: Text) {
    a != [] && b != [] &&
    if a[0] == b[0] then Crossed(a[1..], b[1..])
    else (a[0] >= 0x10000 && 0xE000 <= b[0] < 0x10000) || (b[0] >= 0x10000 && 0xE000 <= a[0] < 0x10000)
  }

  lemma LessPrefix(p: seq<nat>, x: seq<nat>, y: seq<nat>)
    ensures Less(p + x, p + y) <==> Less(x, y)
  {
    if p == [] {
      assert p + x == x && p + y == y;
    } else {
      assert (p + x)[1..] == p[1..] + x && (p + y)[1..] == p[1..] + y;
      LessPrefix(p[1..], x, y);
    }
  }

  lemma LessUnits(u: nat, w: nat, x: Bytes, y: Bytes)
    requires u != w
    ensures Less(Utf16Unit(u) + x, Utf16Unit(w) + y) <==> u < w
  {
    var l, r := Utf16Unit(u) + x, Utf16Unit(w) + y;
    assert l[0] == u / 256 && r[0] == w / 256;
    assert l[1..][0] == u % 256 && r[1..][0] == w % 256;
  }

  function LeadUnit(c: nat): nat
    requires IsScalar(c)
  {
    if c < 0x10000 then c else 0xD800 + (c - 0x10000) / 1024
  }

  lemma LessChars(c: nat, d: nat, x: Bytes, y: Bytes)
    requires IsScalar(c) && IsScalar(d) && c != d
    ensures Less(Utf16Char(c) + x, Utf16Char(d) + y) <==> (if Crossed([c], [d]) then d < c else c < d)
  {
    var uc, ud := Utf16Unit(LeadUnit(c)), Utf16Unit(LeadUnit(d));
    var tc := if c < 0x10000 then x else Utf16Unit(0xDC00 + (c - 0x10000) % 1024) + x;
    var td := if d < 0x10000 then y else Utf16Unit(0xDC00 + (d - 0x10000) % 1024) + y;
    assert Utf16Char(c) + x == uc + tc && Utf16Char(d) + y == ud + td;
    if LeadUnit(c) != LeadUnit(d) {
      LessUnits(LeadUnit(c), LeadUnit(d), tc, td);
    } else {
      LessPrefix(uc, tc, td);
      LessUnits(0xDC00 + (c - 0x10000) % 1024, 0xDC00 + (d - 0x10000) % 1024, x, y);
    }
  }

  /** `trust_bytes` and `canonical_json` order two keys differently exactly when they cross. */
  lemma {:induction false} KeyOrdersDiffer(a: Text, b: Text)
    requires Scalar(a) && Scalar(b) && a != b
    ensures (Less(Utf16(a), Utf16(b)) <==> Less(a, b)) <==> !Crossed(a, b)
  {
    if a != [] && b != [] {
      if a[0] == b[0] {
        assert a == [a[0]] + a[1..] && b == [b[0]] + b[1..];
        KeyOrdersDiffer(a[1..], b[1..]);
        LessPrefix(Utf16Char(a[0]), Utf16(a[1..]), Utf16(b[1..]));
      } else {
        LessChars(a[0], b[0], Utf16(a[1..]), Utf16(b[1..]));
      }
    }
  }
}
