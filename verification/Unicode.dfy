/**
 Text is a Python `str`: a sequence of code points, which may include lone surrogates.
 `str.encode("utf-8")` and `str.encode("utf-16-be")` raise on a surrogate, so both
 encoders below are meant for scalar text only; Scalar is the test a caller makes.
 */
module Unicode {
  import opened Wrappers

  type Text = seq<nat>
  type Bytes = seq<nat>

  predicate IsSurrogate(c: nat) { 0xD800 <= c <= 0xDFFF }

  predicate IsScalar(c: nat) { c <= 0x10FFFF && !IsSurrogate(c) }

  predicate Scalar(t: Text) {
    forall c :: c in t ==> IsScalar(c)
  }

  /** The code points of an ASCII or BMP literal. */
  function Lit(s: string): (t: Text)
    ensures |t| == |s|
    ensures forall i :: 0 <= i < |s| ==> t[i] == s[i] as int
  {
    seq(|s|, i requires 0 <= i < |s| => s[i] as int)
  }

  /** `text.partition(".")[0]`. */
  function BeforeDot(t: Text): Text {
    if t == [] || t[0] == '.' as int then [] else [t[0]] + BeforeDot(t[1..])
  }

  /** id is what stands before the first dot of t. */
  ghost predicate BeforeFirstDot(t: Text, id: Text) {
    '.' as int !in id && (t == id || (|id| < |t| && t[..|id|] == id && t[|id|] == '.' as int))
  }

  lemma {:induction false} BeforeDotIs(t: Text, id: Text)
    ensures BeforeDot(t) == id <==> BeforeFirstDot(t, id)
  {
    if t == [] || t[0] == '.' as int {
      assert id != [] ==> id[0] in id;
    } else if id == [] {
    } else {
      BeforeDotIs(t[1..], id[1..]);
      assert t == [t[0]] + t[1..] && id == [id[0]] + id[1..];
      if BeforeFirstDot(t, id) && t != id {
        assert t[1..][..|id| - 1] == t[..|id|][1..];
      }
      if BeforeFirstDot(t[1..], id[1..]) && t[1..] != id[1..] && t[0] == id[0] {
        assert t[..|id|] == [t[0]] + t[1..][..|id| - 1];
      }
    }
  }

  // ----- UTF-8 (section 3 of RFC 3629)

  function Utf8Char(c: nat): (b: Bytes)
    requires IsScalar(c)
  {
    if c < 0x80 then [c]
    else if c < 0x800 then [0xC0 + c / 64, 0x80 + c % 64]
    else if c < 0x10000 then [0xE0 + c / 4096, 0x80 + c / 64 % 64, 0x80 + c % 64]
    else [0xF0 + c / 262144, 0x80 + c / 4096 % 64, 0x80 + c / 64 % 64, 0x80 + c % 64]
  }

  function Utf8(t: Text): Bytes
    requires Scalar(t)
  {
    if t == [] then [] else Utf8Char(t[0]) + Utf8(t[1..])
  }

  /** Length of the sequence a lead byte announces. */
  function Utf8Width(lead: nat): nat {
    if lead < 0x80 then 1 else if lead < 0xE0 then 2 else if lead < 0xF0 then 3 else 4
  }

  function Utf8Point(b: Bytes): nat
    requires b != [] && |b| == Utf8Width(b[0])
  {
    if |b| == 1 then b[0]
    else if |b| == 2 then b[0] % 32 * 64 + b[1] % 64
    else if |b| == 3 then b[0] % 16 * 4096 + b[1] % 64 * 64 + b[2] % 64
    else b[0] % 8 * 262144 + b[1] % 64 * 4096 + b[2] % 64 * 64 + b[3] % 64
  }

  function Utf8Decode(b: Bytes): Option<Text> {
    if b == [] then Some([])
    else
      var w := Utf8Width(b[0]);
      if w > |b| then None
      else
        var c := Utf8Point(b[..w]);
        if !IsScalar(c) || Utf8Char(c) != b[..w] then None
        else
          var rest :- Utf8Decode(b[w..]);
          Some([c] + rest)
  }

  /** The six-bit digits of a code point put it together again. */
  lemma SixBitDigits(c: nat)
    ensures c == c / 64 * 64 + c % 64
    ensures c == c / 4096 * 4096 + c / 64 % 64 * 64 + c % 64
    ensures c == c / 262144 * 262144 + c / 4096 % 64 * 4096 + c / 64 % 64 * 64 + c % 64
  {
    var d, e := c / 64, c / 4096;
    assert e == d / 64;
    assert c / 262144 == e / 64;
    assert d == e * 64 + d % 64;
    assert e == e / 64 * 64 + e % 64;
  }

  /** Masking a lead or continuation byte removes its marker. */
  lemma Masks(x: nat)
    ensures x < 64 ==> (0x80 + x) % 64 == x
    ensures x < 32 ==> (0xC0 + x) % 32 == x
    ensures x < 16 ==> (0xE0 + x) % 16 == x
    ensures x < 8 ==> (0xF0 + x) % 8 == x
  {
  }

  lemma ThreeBytes(c: nat)
    requires 0x800 <= c < 0x10000
    ensures (0xE0 + c / 4096) % 16 * 4096 + (0x80 + c / 64 % 64) % 64 * 64 + (0x80 + c % 64) % 64 == c
  {
    SixBitDigits(c);
    Masks(c % 64);
    Masks(c / 64 % 64);
    Masks(c / 4096);
  }

  lemma FourBytes(c: nat)
    requires 0x10000 <= c < 0x200000
    ensures (0xF0 + c / 262144) % 8 * 262144 + (0x80 + c / 4096 % 64) % 64 * 4096
            + (0x80 + c / 64 % 64) % 64 * 64 + (0x80 + c % 64) % 64 == c
  {
    SixBitDigits(c);
    Masks(c % 64);
    Masks(c / 64 % 64);
    Masks(c / 4096 % 64);
    Masks(c / 262144);
  }

  lemma Utf8CharDecodes(c: nat)
    requires IsScalar(c)
    ensures Utf8Width(Utf8Char(c)[0]) == |Utf8Char(c)|
    ensures Utf8Point(Utf8Char(c)) == c
  {
    if c < 0x80 {
    } else if c < 0x800 {
      Masks(c / 64);
      Masks(c % 64);
    } else if c < 0x10000 {
      ThreeBytes(c);
    } else {
      FourBytes(c);
    }
  }

  lemma {:induction false} Utf8RoundTrip(t: Text)
    requires Scalar(t)
    ensures Utf8Decode(Utf8(t)) == Some(t)
  {
    if t == [] {
    } else {
      var head := Utf8Char(t[0]);
      var b := Utf8(t);
      Utf8CharDecodes(t[0]);
      assert b[..|head|] == head && b[|head|..] == Utf8(t[1..]);
      Utf8RoundTrip(t[1..]);
      assert [t[0]] + t[1..] == t;
    }
  }

  lemma Utf8Injective(a: Text, b: Text)
    requires Scalar(a) && Scalar(b) && Utf8(a) == Utf8(b)
    ensures a == b
  {
    Utf8RoundTrip(a);
    Utf8RoundTrip(b);
  }

  // ----- UTF-16, big-endian bytes (section 2 of RFC 2781)

  function Utf16Unit(u: nat): Bytes { [u / 256, u % 256] }

  function Utf16Char(c: nat): Bytes
    requires IsScalar(c)
  {
    if c < 0x10000 then Utf16Unit(c)
    else Utf16Unit(0xD800 + (c - 0x10000) / 1024) + Utf16Unit(0xDC00 + (c - 0x10000) % 1024)
  }

  function Utf16(t: Text): Bytes
    requires Scalar(t)
  {
    if t == [] then [] else Utf16Char(t[0]) + Utf16(t[1..])
  }

  lemma Utf16CharPrefix(c: nat, d: nat, x: Bytes, y: Bytes)
    requires IsScalar(c) && IsScalar(d)
    requires Utf16Char(c) + x == Utf16Char(d) + y
    ensures c == d && x == y
  {
    var l, r := Utf16Char(c) + x, Utf16Char(d) + y;
    assert l[0] == Utf16Char(c)[0] && r[0] == Utf16Char(d)[0];
    assert l[1] == Utf16Char(c)[1] && r[1] == Utf16Char(d)[1];
    assert |Utf16Char(c)| == |Utf16Char(d)|;
    if c >= 0x10000 {
      assert l[2] == Utf16Char(c)[2] && r[2] == Utf16Char(d)[2];
      assert l[3] == Utf16Char(c)[3] && r[3] == Utf16Char(d)[3];
    }
    assert x == l[|Utf16Char(c)|..] && y == r[|Utf16Char(d)|..];
  }

  lemma {:induction false} Utf16Injective(a: Text, b: Text)
    requires Scalar(a) && Scalar(b) && Utf16(a) == Utf16(b)
    ensures a == b
  {
    if a != [] && b != [] {
      Utf16CharPrefix(a[0], b[0], Utf16(a[1..]), Utf16(b[1..]));
      Utf16Injective(a[1..], b[1..]);
      assert a == [a[0]] + a[1..] && b == [b[0]] + b[1..];
    }
  }
}
