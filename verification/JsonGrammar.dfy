/**
 The reader against the grammar of RFC 8259, with the three words Python adds for floats: a text
 loads exactly when it is a text of the value, whatever escapes, numbers and white space it uses.
 */
module JsonGrammar {
  import opened Wrappers
  import opened Unicode
  import opened Json
  import opened PrintedForm

  // ----- numbers (section 6)

  predicate AllDigits(d: Text) { forall i :: 0 <= i < |d| ==> '0' as int <= d[i] <= '9' as int }

  /** A minus sign or none, then decimal digits without a leading zero. */
  predicate Integer(t: Text, n: int) {
    if t != [] && t[0] == '-' as int then Decimal(t[1..]) && n == -DecimalValue(t[1..])
    else Decimal(t) && n == DecimalValue(t)
  }

  predicate Fraction(t: Text) { t == [] || (t[0] == '.' as int && |t| > 1 && AllDigits(t[1..])) }

  predicate Signed(t: Text) {
    |t| > 0 && AllDigits(if t[0] == '+' as int || t[0] == '-' as int then t[1..] else t)
    && (t[0] == '+' as int || t[0] == '-' as int ==> |t| > 1)
  }

  predicate Exponent(t: Text) { t == [] || ((t[0] == 'e' as int || t[0] == 'E' as int) && Signed(t[1..])) }

  /** An integer up to i, a fraction up to j, an exponent from there on; one of them is there. */
  predicate FloatParts(t: Text, n: int, i: nat, j: nat) {
    i <= j <= |t| && i < |t| && Integer(t[..i], n) && Fraction(t[i..j]) && Exponent(t[j..])
  }

  ghost predicate FloatLiteral(t: Text) { exists n, i: nat, j: nat :: FloatParts(t, n, i, j) }

  lemma {:induction false} DigitsEnd(t: Text)
    ensures var k := |t| - |AfterDigits(t)|;
            k >= 0 && AllDigits(t[..k]) && t[k..] == AfterDigits(t) && !StartsWithDigit(AfterDigits(t))
    ensures StartsWithDigit(t) ==> |AfterDigits(t)| < |t|
  {
    if StartsWithDigit(t) {
      DigitsEnd(t[1..]);
      var k := |t| - |AfterDigits(t)|;
      assert t[k..] == t[1..][k - 1..];
      forall i | 0 <= i < k
        ensures '0' as int <= t[i] <= '9' as int
      {
        assert i > 0 ==> t[i] == t[1..][..k - 1][i - 1];
      }
    }
  }

  lemma {:induction false} DigitsAll(d: Text, rest: Text)
    requires AllDigits(d) && !StartsWithDigit(rest)
    ensures AfterDigits(d + rest) == rest
  {
    if d == [] {
      assert d + rest == rest;
    } else {
      assert (d + rest)[1..] == d[1..] + rest;
      DigitsAll(d[1..], rest);
    }
  }

  /** Reading on from the digits p adds the digits that follow. */
  lemma {:induction false} NumberIs(p: Text, t: Text)
    requires AllDigits(p)
    ensures DecimalValue(p) >= 0
    ensures var k := |t| - |AfterDigits(t)|;
            k >= 0 && Number(t, DecimalValue(p)) == (DecimalValue(p + t[..k]), AfterDigits(t))
    decreases |t|
  {
    hide DecimalValue;
    ValuePositive(p);
    if StartsWithDigit(t) {
      var q := p + [t[0]];
      ValueMore(p, t[0]);
      NumberIs(q, t[1..]);
      DigitsEnd(t);
      Shift(p, t, |t| - |AfterDigits(t)|);
    } else {
      assert p + t[..0] == p;
    }
  }

  lemma ValueMore(p: Text, c: nat)
    requires IsDigit(c)
    ensures DecimalValue(p + [c]) == 10 * DecimalValue(p) + (c - 48)
  {
    assert (p + [c])[..|p|] == p;
  }

  lemma Shift(p: Text, t: Text, k: nat)
    requires 0 < k <= |t|
    ensures p + [t[0]] + t[1..][..k - 1] == p + t[..k]
  {
  }

  lemma {:induction false} ValuePositive(p: Text)
    requires AllDigits(p)
    ensures DecimalValue(p) >= 0
  {
    if p == [] {
    } else {
      ValuePositive(p[..|p| - 1]);
    }
  }

  lemma DecimalIs(d: Text)
    ensures Decimal(d) <==> d != [] && AllDigits(d) && (|d| > 1 ==> d[0] != 48)
  {
    if Decimal(d) {
      forall i | 0 <= i < |d|
        ensures '0' as int <= d[i] <= '9' as int
      {
        assert d[i] in d;
      }
    }
  }

  /** What the integer reader takes off a text is an integer. */
  lemma NatSound(t: Text)
    requires ParseNat(t).Some?
    ensures var (n, rest) := ParseNat(t).value;
            var k := |t| - |rest|;
            0 < k <= |t| && t[k..] == rest && Decimal(t[..k]) && DecimalValue(t[..k]) == n
  {
    var first := t[..1];
    assert first[..0] == [] && DecimalValue(first) == t[0] as int - 48;
    if t[0] == ZERO {
      DecimalIs(t[..1]);
    } else {
      NumberIs(first, t[1..]);
      DigitsEnd(t[1..]);
      var k := |t| - |AfterDigits(t[1..])|;
      assert first + t[1..][..k - 1] == t[..k];
      assert t[1..][k - 1..] == t[k..];
      forall i | 0 <= i < k
        ensures '0' as int <= t[..k][i] <= '9' as int
      {
        assert i > 0 ==> t[i] == t[1..][..k - 1][i - 1];
      }
      DecimalIs(t[..k]);
    }
  }

  lemma IntSound(t: Text)
    requires ParseInt(t).Some?
    ensures var (n, rest) := ParseInt(t).value;
            var k := |t| - |rest|;
            0 < k <= |t| && t[k..] == rest && Integer(t[..k], n)
  {
    if t[0] == MINUS {
      NatSound(t[1..]);
      var k := |t| - |ParseInt(t).value.1|;
      assert t[..k][1..] == t[1..][..k - 1] && t[1..][k - 1..] == t[k..];
    } else {
      NatSound(t);
      var k := |t| - |ParseInt(t).value.1|;
      assert t[..k][0] == t[0];
    }
  }

  lemma NatComplete(d: Text, rest: Text)
    requires Decimal(d) && !StartsWithDigit(rest)
    ensures DecimalValue(d) >= 0 && ParseNat(d + rest) == Some((DecimalValue(d), rest))
  {
    DecimalDigits(d);
    ParseNatDigits(DecimalValue(d), rest);
  }

  lemma IntComplete(t: Text, n: int, rest: Text)
    requires Integer(t, n) && !StartsWithDigit(rest)
    ensures ParseInt(t + rest) == Some((n, rest))
  {
    if t != [] && t[0] == '-' as int {
      NatComplete(t[1..], rest);
      assert (t + rest)[1..] == t[1..] + rest;
    } else {
      NatComplete(t, rest);
      DecimalIs(t);
      assert (t + rest)[0] == t[0];
    }
  }

  lemma FractionSound(t: Text)
    ensures var k := |t| - |AfterFraction(t)|;
            k >= 0 && t[k..] == AfterFraction(t) && Fraction(t[..k])
  {
    if t != [] && t[0] == POINT && StartsWithDigit(t[1..]) {
      DigitsEnd(t[1..]);
      var k := |t| - |AfterFraction(t)|;
      assert t[..k][1..] == t[1..][..k - 1] && t[1..][k - 1..] == t[k..];
    }
  }

  lemma ExponentSound(t: Text)
    ensures var k := |t| - |AfterExponent(t)|;
            k >= 0 && t[k..] == AfterExponent(t) && Exponent(t[..k])
  {
    if t != [] && IsExponentMark(t[0]) && StartsWithDigit(AfterSign(t[1..])) {
      var u := AfterSign(t[1..]);
      var s := |t| - |u|;
      DigitsEnd(u);
      var k := |t| - |AfterExponent(t)|;
      assert u == t[s..];
      assert t[k..] == u[k - s..] && t[..k][s..] == u[..k - s];
      assert t[..k][1..][0] == t[1];
      assert s == 2 ==> t[..k][1..][1..] == t[..k][2..];
    }
  }

  lemma FractionComplete(f: Text, rest: Text)
    requires Fraction(f) && (rest != [] ==> rest[0] != POINT && !IsDigit(rest[0]))
    ensures AfterFraction(f + rest) == rest
  {
    if f == [] {
      assert f + rest == rest;
    } else {
      assert (f + rest)[1..] == f[1..] + rest;
      DigitsAll(f[1..], rest);
    }
  }

  lemma ExponentComplete(e: Text, rest: Text)
    requires Exponent(e) && !Continues(rest)
    ensures AfterExponent(e + rest) == rest
  {
    if e == [] {
      assert e + rest == rest;
    } else {
      var t := e + rest;
      var sign := if e[1] == PLUS || e[1] == MINUS then 2 else 1;
      assert t[1..] == e[1..] + rest && t[1..][0] == e[1];
      assert sign == 2 ==> e[1..][1..] == e[2..] && t[1..][1..] == e[2..] + rest;
      assert AfterSign(t[1..]) == e[sign..] + rest;
      DigitsAll(e[sign..], rest);
    }
  }

  /** A number as a reader with these floats understands it. */
  ghost predicate NumberText(a: Floats, t: Text, v: Value) {
    match v
    case Int(n) => Integer(t, n)
    case Float(r) => FloatLiteral(t) && r == a.round(t)
    case _ => false
  }

  lemma Slices(t: Text, i: nat, j: nat, k: nat)
    requires i <= j <= k <= |t|
    ensures t[..k][..i] == t[..i] && t[..k][i..j] == t[i..][..j - i] && t[..k][j..] == t[j..][..k - j]
    ensures t[i..][j - i..] == t[j..] && t[j..][k - j..] == t[k..]
  {
  }

  /** Where fraction and exponent of a number end. */
  lemma PartsEnd(t: Text, i: nat)
    requires i <= |t|
    ensures var j, k := |t| - |AfterFraction(t[i..])|, |t| - |AfterExponent(AfterFraction(t[i..]))|;
            && i <= j <= k <= |t| && t[k..] == AfterExponent(AfterFraction(t[i..]))
            && Fraction(t[..k][i..j]) && Exponent(t[..k][j..])
  {
    hide AfterFraction, AfterExponent, Fraction, Exponent;
    var a := t[i..];
    var b := AfterFraction(a);
    var c := AfterExponent(b);
    FractionSound(a);
    ExponentSound(b);
    var j, k := |t| - |b|, |t| - |c|;
    assert j - i == |a| - |b| && k - j == |b| - |c|;
    Slices(t, i, j, k);
  }

  lemma NumberSound(m: Reader, t: Text)
    requires m.floats.Some? && ParseNumber(m, t).Some?
    ensures var (v, rest) := ParseNumber(m, t).value;
            var k := |t| - |rest|;
            0 < k <= |t| && t[k..] == rest && NumberText(m.floats.value, t[..k], v)
  {
    hide ParseInt, AfterFraction, AfterExponent, Integer, Fraction, Exponent, FloatLiteral;
    IntSound(t);
    var (n, a) := ParseInt(t).value;
    var i, j := |t| - |a|, |t| - |AfterFraction(a)|;
    var k := |t| - |AfterExponent(AfterFraction(a))|;
    PartsEnd(t, i);
    if AfterExponent(AfterFraction(a)) != a {
      assert t[..k][..i] == t[..i];
      LiteralIs(t[..k], n, i, j);
    }
  }

  lemma LiteralIs(t: Text, n: int, i: nat, j: nat)
    requires FloatParts(t, n, i, j)
    ensures FloatLiteral(t)
  {
  }

  lemma IntegerComplete(m: Reader, u: Text, n: int, rest: Text)
    requires m.floats.Some? && Integer(u, n) && !Continues(rest)
    ensures ParseNumber(m, u + rest) == Some((Int(n), rest))
  {
    hide ParseInt, Integer;
    IntComplete(u, n, rest);
  }

  lemma FloatComplete(m: Reader, u: Text, n: int, i: nat, j: nat, rest: Text)
    requires m.floats.Some? && FloatParts(u, n, i, j) && !Continues(rest)
    ensures ParseNumber(m, u + rest) == Some((Float(m.floats.value.round(u)), rest))
  {
    hide ParseInt, AfterFraction, AfterExponent, Integer, Fraction, Exponent, IsDigit;
    var d, f, e := u[..i], u[i..j], u[j..];
    TailComplete(f, e, rest);
    IntComplete(d, n, f + (e + rest));
    assert u + rest == d + (f + (e + rest)) && (u + rest)[..|u|] == u;
  }

  lemma TailComplete(f: Text, e: Text, rest: Text)
    requires Fraction(f) && Exponent(e) && !Continues(rest)
    ensures AfterExponent(AfterFraction(f + (e + rest))) == rest
    ensures f + e != [] ==> !StartsWithDigit(f + (e + rest))
  {
    hide AfterFraction, AfterExponent, Fraction, Exponent;
    FractionHead(f);
    ExponentHead(e);
    HeadOf(e, rest);
    HeadOf(f, e + rest);
    FractionComplete(f, e + rest);
    ExponentComplete(e, rest);
  }

  lemma HeadOf(x: Text, y: Text)
    ensures x == [] ==> x + y == y
    ensures x != [] ==> x + y != [] && (x + y)[0] == x[0]
  {
  }

  lemma FractionHead(f: Text)
    requires Fraction(f)
    ensures f != [] ==> f[0] == POINT
  {
  }

  lemma ExponentHead(e: Text)
    requires Exponent(e)
    ensures e != [] ==> IsExponentMark(e[0])
  {
  }

  lemma NumberComplete(m: Reader, u: Text, v: Value, rest: Text)
    requires m.floats.Some? && NumberText(m.floats.value, u, v) && !Continues(rest)
    ensures ParseNumber(m, u + rest) == Some((v, rest))
  {
    hide ParseNumber, FloatParts, Integer;
    if v.Int? {
      IntegerComplete(m, u, v.n, rest);
    } else {
      var n, i: nat, j: nat :| FloatParts(u, n, i, j);
      FloatComplete(m, u, n, i, j, rest);
    }
  }

  // ----- strings (section 7)

  const ESCAPED: map<char, nat> :=
    map['"' := 0x22, '\\' := 0x5C, '/' := 0x2F, 'b' := 0x08, 'f' := 0x0C, 'n' := 0x0A, 'r' := 0x0D, 't' := 0x09]

  /** The value of a hexadecimal digit in either case. */
  predicate HexDigitIs(c: nat, d: nat) {
    || ('0' as int <= c <= '9' as int && d == c - '0' as int)
    || ('a' as int <= c <= 'f' as int && d == c - 'a' as int + 10)
    || ('A' as int <= c <= 'F' as int && d == c - 'A' as int + 10)
  }

  /** A backslash, a u and four hexadecimal digits. */
  predicate UnitText(p: Text, u: nat) {
    && |p| == 6 && p[0] == '\\' as int && p[1] == 'u' as int
    && exists a, b, c, d | 0 <= a < 16 && 0 <= b < 16 && 0 <= c < 16 && 0 <= d < 16 ::
         HexDigitIs(p[2], a) && HexDigitIs(p[3], b) && HexDigitIs(p[4], c) && HexDigitIs(p[5], d)
         && u == 0x1000 * a + 0x100 * b + 0x10 * c + d
  }

  predicate High(u: nat) { 0xD800 <= u <= 0xDBFF }

  predicate Low(u: nat) { 0xDC00 <= u <= 0xDFFF }

  predicate ShortText(p: Text, c: nat) {
    |p| == 2 && p[0] == '\\' as int && exists e <- ESCAPED :: p[1] == e as int && ESCAPED[e] == c
  }

  /** Two escapes that stand for one character beyond U+FFFF. */
  ghost predicate PairText(p: Text, c: nat) {
    |p| == 12 &&
    exists hi: nat, lo: nat ::
      UnitText(p[..6], hi) && High(hi) && UnitText(p[6..], lo) && Low(lo)
      && c == 0x1_0000 + 0x400 * (hi - 0xD800) + (lo - 0xDC00)
  }

  /** p stands for the character c inside a string. */
  ghost predicate CharText(p: Text, c: nat) {
    || (p == [c] && c >= 0x20 && c != '"' as int && c != '\\' as int)
    || ShortText(p, c) || UnitText(p, c) || PairText(p, c)
  }

  /** The escape of a high surrogate in front of that of a low one: together they are one character. */
  ghost predicate Pairs(p: Text, after: Text) {
    |after| >= 6 && exists hi: nat, lo: nat :: UnitText(p, hi) && High(hi) && UnitText(after[..6], lo) && Low(lo)
  }

  /** body is the inside of a literal for s. */
  ghost predicate StringText(body: Text, s: Text)
    decreases |body|
  {
    if body == [] then s == []
    else s != [] && exists n: nat :: StringStarts(body, s, n) && StringText(body[n..], s[1..])
  }

  ghost predicate StringStarts(body: Text, s: Text, n: nat)
    requires s != []
  {
    0 < n <= |body| && CharText(body[..n], s[0]) && !Pairs(body[..n], body[n..])
  }

  lemma HexIs(c: nat, d: nat)
    ensures HexValue(c) == Some(d) <==> HexDigitIs(c, d)
  {
  }

  lemma UnitIs(p: Text, u: nat)
    requires |p| == 6 && p[0] == BACKSLASH && p[1] == LETTER_U
    ensures ParseHex4(p[2..6]) == Some(u) <==> UnitText(p, u)
  {
    hide HexValue, HexDigitIs;
    forall d: nat
      ensures HexValue(p[2]) == Some(d) <==> HexDigitIs(p[2], d)
      ensures HexValue(p[3]) == Some(d) <==> HexDigitIs(p[3], d)
      ensures HexValue(p[4]) == Some(d) <==> HexDigitIs(p[4], d)
      ensures HexValue(p[5]) == Some(d) <==> HexDigitIs(p[5], d)
    {
      HexIs(p[2], d);
      HexIs(p[3], d);
      HexIs(p[4], d);
      HexIs(p[5], d);
    }
    HexBelow(p);
    if ParseHex4(p[2..6]).Some? {
      var a, b, c, d := HexValue(p[2]).value, HexValue(p[3]).value, HexValue(p[4]).value, HexValue(p[5]).value;
      assert HexDigitIs(p[2], a) && HexDigitIs(p[3], b) && HexDigitIs(p[4], c) && HexDigitIs(p[5], d);
    }
  }

  lemma HexBelow(p: Text)
    ensures forall c: nat :: HexValue(c).Some? ==> HexValue(c).value < 16
  {
  }

  lemma UnitHead(p: Text, u: nat)
    requires UnitText(p, u)
    ensures |p| == 6 && p[0] == BACKSLASH && p[1] == LETTER_U
  {
  }

  lemma ShortIs(p: Text, c: nat)
    requires |p| == 2 && p[0] == BACKSLASH
    ensures SimpleEscape(p[1]) == Some(c) <==> ShortText(p, c)
    ensures ShortText(p, c) ==> p[1] != LETTER_U
  {
    if SimpleEscape(p[1]) == Some(c) {
      var e :=
        if p[1] == 0x22 then '"' else if p[1] == 0x5C then '\\' else if p[1] == 0x2F then '/'
        else if p[1] == 98 then 'b' else if p[1] == 102 then 'f' else if p[1] == 110 then 'n'
        else if p[1] == 114 then 'r' else 't';
      assert e in ESCAPED && p[1] == e as int && ESCAPED[e] == c;
    }
  }

  /** The escape at the front of t, if there is one. */
  function NextUnit(t: Text): Option<nat> {
    if |t| >= 6 && t[0] == BACKSLASH && t[1] == LETTER_U then ParseHex4(t[2..6]) else None
  }

  lemma NextIs(t: Text)
    requires |t| >= 6
    ensures forall u: nat :: NextUnit(t) == Some(u) <==> UnitText(t[..6], u)
  {
    hide ParseHex4, UnitText;
    forall u: nat
      ensures NextUnit(t) == Some(u) <==> UnitText(t[..6], u)
    {
      assert t[..6][2..6] == t[2..6];
      if UnitText(t[..6], u) {
        UnitHead(t[..6], u);
      }
      if t[0] == BACKSLASH && t[1] == LETTER_U {
        UnitIs(t[..6], u);
      }
    }
  }

  /** t starts with a backslash and a u. */
  predicate Escaped(t: Text) { |t| >= 6 && t[0] == BACKSLASH && t[1] == LETTER_U }

  /** The reader of escapes in terms of the units it meets. */
  lemma EscapeByUnits(t: Text)
    requires |t| >= 2 && t[0] == BACKSLASH && t[1] == LETTER_U
    ensures ParseEscape(t[1..]) ==
            if NextUnit(t).None? then None
            else if !High(NextUnit(t).value) || !Escaped(t[6..]) then Some((NextUnit(t).value, t[6..]))
            else if NextUnit(t[6..]).None? then None
            else if Low(NextUnit(t[6..]).value) then Some((Paired(NextUnit(t).value, NextUnit(t[6..]).value), t[12..]))
            else Some((NextUnit(t).value, t[6..]))
  {
    hide ParseHex4;
    var u := t[1..];
    if |t| >= 6 {
      assert u[1..5] == t[2..6] && u[5..] == t[6..];
      if |t| >= 12 {
        assert u[7..11] == t[6..][2..6] && u[11..] == t[12..] && u[5] == t[6..][0] && u[6] == t[6..][1];
      }
    }
  }

  function Paired(hi: nat, lo: nat): int { 0x1_0000 + 0x400 * (hi - 0xD800) + (lo - 0xDC00) }

  lemma PairsExactly(t: Text)
    requires |t| >= 6
    ensures Pairs(t[..6], t[6..]) <==>
            NextUnit(t).Some? && High(NextUnit(t).value) && NextUnit(t[6..]).Some? && Low(NextUnit(t[6..]).value)
    ensures forall c :: |t| >= 12 ==> (PairText(t[..12], c) <==>
            Pairs(t[..6], t[6..]) && c == Paired(NextUnit(t).value, NextUnit(t[6..]).value))
  {
    hide NextUnit, UnitText;
    NextIs(t);
    if |t| >= 12 {
      NextIs(t[6..]);
      assert t[..12][..6] == t[..6] && t[..12][6..] == t[6..][..6];
    }
    NextLong(t[6..]);
  }

  lemma NextLong(t: Text)
    ensures NextUnit(t).Some? ==> Escaped(t)
  {
  }

  /** What the reader of escapes takes off a text that starts with a backslash is the text of its
      character, and no half of a pair. */
  lemma EscapeSound(t: Text)
    requires t != [] && t[0] == BACKSLASH && ParseEscape(t[1..]).Some?
    ensures var (c, rest) := ParseEscape(t[1..]).value;
            var n := |t| - |rest|;
            0 < n <= |t| && t[n..] == rest && CharText(t[..n], c) && !Pairs(t[..n], rest)
  {
    hide NextUnit, SimpleEscape, UnitText, ShortText;
    if t[1] != LETTER_U {
      hide Pairs;
      assert t[..2][1] == t[1] && t[1..][1..] == t[2..];
      ShortIs(t[..2], ParseEscape(t[1..]).value.0);
      NotUnit(t[..2]);
    } else {
      hide ParseEscape, Pairs, PairText;
      EscapeByUnits(t);
      NextLong(t);
      NextIs(t);
      NextLong(t[6..]);
      PairsExactly(t);
      assert t[6..] != [] ==> |t| > 6;
      if |t| >= 12 {
        NotUnit(t[..12]);
      }
    }
  }

  lemma NotUnit(p: Text)
    requires |p| != 6
    ensures forall after :: !Pairs(p, after)
  {
  }

  /** The text of a character that is not written as itself is read back, when the text after it
      neither completes a pair nor is a broken escape. */
  lemma EscapeComplete(p: Text, c: nat, after: Text)
    requires p != [] && p[0] == BACKSLASH && CharText(p, c) && !Pairs(p, after)
    requires Escaped(after) ==> NextUnit(after).Some?
    ensures ParseEscape(p[1..] + after) == Some((c, after))
  {
    hide NextUnit, SimpleEscape, UnitText, ShortText;
    var t := p + after;
    assert t[1..] == p[1..] + after && t[|p|..] == after && t[..|p|] == p;
    if ShortText(p, c) {
      ShortHead(p, c);
      ShortIs(p, c);
      assert t[1..][1..] == after;
    } else {
      hide ParseEscape, Pairs, PairText;
      PieceHead(p, c);
      EscapeByUnits(t);
      NextIs(t);
      NextLong(t[6..]);
      PairsExactly(t);
    }
  }

  lemma ShortHead(p: Text, c: nat)
    requires ShortText(p, c)
    ensures |p| == 2 && p[0] == BACKSLASH
  {
  }

  lemma PieceHead(p: Text, c: nat)
    requires UnitText(p, c) || PairText(p, c)
    ensures |p| >= 6 && p[0] == BACKSLASH && p[1] == LETTER_U && exists u: nat :: UnitText(p[..6], u)
    ensures |p| == 6 || |p| == 12
    ensures UnitText(p, c) ==> p[..6] == p
  {
    hide UnitText;
    if UnitText(p, c) {
      UnitHead(p, c);
      assert p[..6] == p;
    } else {
      var hi: nat, lo: nat :| UnitText(p[..6], hi) && High(hi) && UnitText(p[6..], lo) && Low(lo)
                              && c == 0x1_0000 + 0x400 * (hi - 0xD800) + (lo - 0xDC00);
      UnitHead(p[..6], hi);
    }
  }

  /** What the reader of strings takes off a text is the inside of a literal and a quote. */
  lemma {:induction false} StringSound(t: Text)
    requires ParseString(t).Some?
    ensures var (s, rest) := ParseString(t).value;
            var n := |t| - |rest| - 1;
            0 <= n < |t| && StringText(t[..n], s) && t[n] == QUOTE && t[n + 1..] == rest
    decreases |t|
  {
    hide ParseEscape, CharText, Pairs, StringText;
    var (s, rest) := ParseString(t).value;
    var n := |t| - |rest| - 1;
    if t[0] == QUOTE {
      NoText();
      assert t[..0] == [] && rest == t[1..] && n == 0;
    } else {
      var u := if t[0] == BACKSLASH then ParseEscape(t[1..]).value.1 else t[1..];
      StringSound(u);
      if t[0] == BACKSLASH {
        EscapeSound(t);
      } else {
        PlainIs(t);
      }
      StringReads(t, u);
      StringStep(t, u, s, n);
    }
  }

  /** The character and the string behind it. */
  lemma StringReads(t: Text, u: Text)
    requires ParseString(t).Some? && t[0] != QUOTE
    requires if t[0] == BACKSLASH then ParseEscape(t[1..]).Some? && ParseEscape(t[1..]).value.1 == u else u == t[1..]
    ensures ParseString(u).Some?
    ensures var (s, rest) := ParseString(t).value;
            s != [] && ParseString(u).value == (s[1..], rest)
            && s[0] == if t[0] == BACKSLASH then ParseEscape(t[1..]).value.0 else t[0]
  {
    hide ParseEscape;
    var tail := ParseString(u).value.0;
    var c := if t[0] == BACKSLASH then ParseEscape(t[1..]).value.0 else t[0];
    assert ([c] + tail)[1..] == tail;
  }

  lemma NoText()
    ensures StringText([], [])
  {
  }

  /** One more character in front. */
  lemma StringStep(t: Text, u: Text, s: Text, n: nat)
    requires s != [] && |u| < |t| && t[|t| - |u|..] == u && |t| - |u| <= n <= |t|
    requires CharText(t[..|t| - |u|], s[0]) && !Pairs(t[..|t| - |u|], u)
    requires StringText(u[..n - (|t| - |u|)], s[1..])
    ensures StringText(t[..n], s)
    ensures n < |t| ==> u[n - (|t| - |u|)] == t[n] && u[n - (|t| - |u|) + 1..] == t[n + 1..]
  {
    hide CharText, Pairs;
    var k := |t| - |u|;
    PairsShorter(t[..k], u, u[..n - k]);
    assert t[..n][..k] == t[..k] && t[..n][k..] == u[..n - k];
    assert StringStarts(t[..n], s, k);
  }

  lemma PlainIs(t: Text)
    requires t != [] && t[0] >= 0x20 && t[0] != QUOTE && t[0] != BACKSLASH
    ensures CharText(t[..1], t[0]) && forall after :: !Pairs(t[..1], after)
  {
    NotUnit(t[..1]);
  }

  lemma PairsShorter(p: Text, after: Text, fewer: Text)
    requires !Pairs(p, after) && fewer <= after
    ensures !Pairs(p, fewer)
  {
    assert |fewer| >= 6 ==> fewer[..6] == after[..6];
  }

  /** A literal is read back. */
  lemma {:induction false} StringComplete(body: Text, s: Text, rest: Text)
    requires StringText(body, s)
    ensures ParseString(body + [QUOTE] + rest) == Some((s, rest))
    ensures var t := body + [QUOTE] + rest; Escaped(t) ==> NextUnit(t).Some?
    decreases |body|
  {
    hide ParseEscape, CharText, Pairs, NextUnit;
    var t := body + [QUOTE] + rest;
    if body == [] {
      assert t[1..] == rest;
    } else {
      var n: nat :| StringStarts(body, s, n) && StringText(body[n..], s[1..]);
      var p := body[..n];
      var after := body[n..] + [QUOTE] + rest;
      assert t == p + after;
      StringComplete(body[n..], s[1..], rest);
      PairsLonger(p, body[n..], [QUOTE] + rest);
      assert after == body[n..] + ([QUOTE] + rest);
      CharHead(p, s[0], after);
      if p[0] == BACKSLASH {
        EscapeComplete(p, s[0], after);
        assert t[1..] == p[1..] + after;
      } else {
        assert t[1..] == after;
      }
      assert [s[0]] + s[1..] == s;
    }
  }

  /** A quote is no part of an escape. */
  lemma PairsLonger(p: Text, body: Text, quoted: Text)
    requires !Pairs(p, body) && quoted != [] && quoted[0] == QUOTE
    ensures !Pairs(p, body + quoted)
  {
    hide UnitText;
    var t := body + quoted;
    if |body| >= 6 {
      assert t[..6] == body[..6];
    } else if |t| >= 6 {
      assert t[..6][|body|] == QUOTE;
      forall lo: nat
        ensures !UnitText(t[..6], lo)
      {
        if UnitText(t[..6], lo) {
          UnitNoQuote(t[..6], lo);
        }
      }
    }
  }

  lemma UnitNoQuote(p: Text, u: nat)
    requires UnitText(p, u)
    ensures QUOTE !in p
  {
  }

  lemma CharHead(p: Text, c: nat, after: Text)
    requires CharText(p, c)
    ensures p != []
    ensures p[0] != BACKSLASH ==> p == [c] && c >= 32 && c != QUOTE
    ensures Escaped(p + after) ==> NextUnit(p + after).Some?
  {
    hide NextUnit, UnitText, PairText, ShortText;
    var t := p + after;
    if UnitText(p, c) || PairText(p, c) {
      PieceHead(p, c);
      assert t[..6] == p[..6];
      NextIs(t);
    } else if ShortText(p, c) {
      ShortHead(p, c);
      ShortIs(p, c);
    }
  }

  // ----- objects (section 4)

  /** The value under a key is the last one given. */
  function LastValue(pairs: seq<Entry>, key: Text, otherwise: Value): Value {
    if pairs == [] then otherwise
    else if pairs[|pairs| - 1].key == key then pairs[|pairs| - 1].value
    else LastValue(pairs[..|pairs| - 1], key, otherwise)
  }

  function Without(pairs: seq<Entry>, key: Text): (r: seq<Entry>)
    ensures |r| <= |pairs|
  {
    if pairs == [] then []
    else if pairs[0].key == key then Without(pairs[1..], key)
    else [pairs[0]] + Without(pairs[1..], key)
  }

  /** Each key once, where it is first given, with the value given last. */
  function Merged(pairs: seq<Entry>): seq<Entry>
    decreases |pairs|
  {
    if pairs == [] then []
    else
      var key := pairs[0].key;
      [Entry(key, LastValue(pairs, key, Null))] + Merged(Without(pairs[1..], key))
  }

  /** The entries of an object whose members are pairs, where a repeated key may be refused. */
  predicate Merges(m: Reader, pairs: seq<Entry>, es: seq<Entry>) {
    es == Merged(pairs) && (m.repeats || UniqueKeys(pairs))
  }

  lemma {:induction false} LastOfTail(pairs: seq<Entry>, key: Text, otherwise: Value)
    requires pairs != []
    ensures LastValue(pairs, key, otherwise) ==
            LastValue(pairs[1..], key, if pairs[0].key == key then pairs[0].value else otherwise)
  {
    if |pairs| == 1 {
      assert pairs[..0] == [] == pairs[1..];
    } else {
      var front := pairs[..|pairs| - 1];
      LastOfTail(front, key, otherwise);
      assert front[1..] == pairs[1..][..|pairs| - 2];
    }
  }

  /** The entry in front takes every pair of its key, and the others settle behind it. */
  lemma {:induction false} PutFront(e: Entry, es: seq<Entry>, pairs: seq<Entry>)
    ensures PutAll([e] + es, pairs)
            == [Entry(e.key, LastValue(pairs, e.key, e.value))] + PutAll(es, Without(pairs, e.key))
    decreases |pairs|
  {
    var before := [e] + es;
    assert before[1..] == es;
    if pairs != [] {
      var p := pairs[0];
      LastOfTail(pairs, e.key, e.value);
      if p.key == e.key {
        assert Put(before, p.key, p.value) == [Entry(e.key, p.value)] + es;
        PutFront(Entry(e.key, p.value), es, pairs[1..]);
      } else {
        var w := [p] + Without(pairs[1..], e.key);
        assert w[1..] == Without(pairs[1..], e.key);
        PutFront(e, Put(es, p.key, p.value), pairs[1..]);
      }
    }
  }

  lemma {:induction false} PutAllMerges(pairs: seq<Entry>)
    ensures PutAll([], pairs) == Merged(pairs)
    decreases |pairs|
  {
    if pairs != [] {
      var p := pairs[0];
      LastOfTail(pairs, p.key, Null);
      assert Put([], p.key, p.value) == [p] + [];
      PutFront(p, [], pairs[1..]);
      PutAllMerges(Without(pairs[1..], p.key));
    }
  }

  lemma {:induction false} LastAbsent(pairs: seq<Entry>, key: Text, otherwise: Value)
    requires forall i :: 0 <= i < |pairs| ==> pairs[i].key != key
    ensures LastValue(pairs, key, otherwise) == otherwise
  {
    if pairs != [] {
      LastAbsent(pairs[..|pairs| - 1], key, otherwise);
    }
  }

  lemma {:induction false} WithoutAbsent(pairs: seq<Entry>, key: Text)
    requires forall i :: 0 <= i < |pairs| ==> pairs[i].key != key
    ensures Without(pairs, key) == pairs
  {
    if pairs != [] {
      WithoutAbsent(pairs[1..], key);
    }
  }

  lemma {:induction false} MergedUnique(pairs: seq<Entry>)
    requires UniqueKeys(pairs)
    ensures Merged(pairs) == pairs
    decreases |pairs|
  {
    if pairs != [] {
      var key := pairs[0].key;
      LastOfTail(pairs, key, Null);
      LastAbsent(pairs[1..], key, pairs[0].value);
      WithoutAbsent(pairs[1..], key);
      MergedUnique(pairs[1..]);
    }
  }

  lemma ObjectIs(m: Reader, pairs: seq<Entry>, v: Value)
    ensures MakeObject(m, pairs) == Some(v) <==> v.Obj? && Merges(m, pairs, v.entries)
  {
    PutAllMerges(pairs);
    if UniqueKeys(pairs) {
      MergedUnique(pairs);
    }
  }

  // ----- values (sections 2 to 5)

  type Full = m: Reader | m.floats.Some? witness Reader(true, true, Some(EXACT))

  /** White space, where the reader passes over it. */
  predicate Blank(m: Full, t: Text) {
    t == [] || (m.spaces && forall i :: 0 <= i < |t| ==> t[i] in {0x20, 0x09, 0x0A, 0x0D})
  }

  ghost predicate Literal(t: Text, s: Text) {
    |t| >= 2 && t[0] == '"' as int && t[|t| - 1] == '"' as int && StringText(t[1..|t| - 1], s)
  }

  predicate Enclosed(t: Text, open: char, close: char) {
    |t| >= 2 && t[0] == open as int && t[|t| - 1] == close as int
  }

  /** t is a text of v, from the first character of the value to its last. */
  ghost predicate Denotes(m: Full, t: Text, v: Value)
    decreases |t|, 0
  {
    match v
    case Null => t == Lit("null")
    case Bool(b) => t == Lit(if b then "true" else "false")
    case Int(_) => NumberText(m.floats.value, t, v)
    case Float(r) =>
      (r == t && t in {Lit("NaN"), Lit("Infinity"), Lit("-Infinity")}) || NumberText(m.floats.value, t, v)
    case Str(s) => Literal(t, s)
    case Arr(items) =>
      && Enclosed(t, '[', ']')
      && if items == [] then Blank(m, t[1..|t| - 1]) else Elements(m, t[1..|t| - 1], items)
    case Obj(es) =>
      && Enclosed(t, '{', '}')
      && exists pairs ::
           Merges(m, pairs, es) && if pairs == [] then Blank(m, t[1..|t| - 1]) else Members(m, t[1..|t| - 1], pairs)
    case Unsupported => false
  }

  /** White space, v and white space. */
  ghost predicate Padded(m: Full, t: Text, v: Value)
    decreases |t|, 2
  {
    exists i: nat, j: nat :: Inside(m, t, v, i, j)
  }

  ghost predicate Inside(m: Full, t: Text, v: Value, i: nat, j: nat)
    decreases |t|, 1
  {
    i <= j <= |t| && Blank(m, t[..i]) && Denotes(m, t[i..j], v) && Blank(m, t[j..])
  }

  /** Values with commas between them. */
  ghost predicate Elements(m: Full, t: Text, items: seq<Value>)
    requires items != []
    decreases |t|, 3
  {
    if |items| == 1 then Padded(m, t, items[0])
    else exists k: nat ::
      k < |t| && t[k] == ',' as int && Padded(m, t[..k], items[0]) && Elements(m, t[k + 1..], items[1..])
  }

  /** A key, a colon and a value. */
  ghost predicate Member(m: Full, t: Text, e: Entry)
    decreases |t|, 3
  {
    exists i: nat, j: nat, k: nat :: MemberAt(m, t, e, i, j, k)
  }

  ghost predicate MemberAt(m: Full, t: Text, e: Entry, i: nat, j: nat, k: nat)
    decreases |t|, 2
  {
    && i <= j <= k < |t| && t[k] == ':' as int
    && Blank(m, t[..i]) && Literal(t[i..j], e.key) && Blank(m, t[j..k]) && Padded(m, t[k + 1..], e.value)
  }

  ghost predicate Members(m: Full, t: Text, pairs: seq<Entry>)
    requires pairs != []
    decreases |t|, 4
  {
    if |pairs| == 1 then Member(m, t, pairs[0])
    else exists k: nat ::
      k < |t| && t[k] == ',' as int && Member(m, t[..k], pairs[0]) && Members(m, t[k + 1..], pairs[1..])
  }

  // ----- putting texts together

  lemma PaddedOf(m: Full, b: Text, x: Text, v: Value, c: Text)
    requires Blank(m, b) && Denotes(m, x, v) && Blank(m, c)
    ensures Padded(m, b + x + c, v)
  {
    hide Denotes, Blank;
    var t := b + x + c;
    var i, j := |b|, |b| + |x|;
    assert t[..i] == b && t[i..j] == x && t[j..] == c;
    assert Inside(m, t, v, i, j);
  }

  lemma BlankJoin(m: Full, b: Text, c: Text)
    ensures Blank(m, b) && Blank(m, c) ==> Blank(m, b + c)
  {
  }

  lemma PaddedMore(m: Full, b: Text, t: Text, v: Value)
    requires Blank(m, b) && Padded(m, t, v)
    ensures Padded(m, b + t, v)
  {
    hide Denotes, Blank;
    var i: nat, j: nat :| Inside(m, t, v, i, j);
    BlankJoin(m, b, t[..i]);
    PaddedOf(m, b + t[..i], t[i..j], v, t[j..]);
    assert b + t == b + t[..i] + t[i..j] + t[j..];
  }

  lemma OneElement(m: Full, t: Text, v: Value)
    requires Padded(m, t, v)
    ensures Elements(m, t, [v])
  {
  }

  lemma MoreElements(m: Full, t: Text, v: Value, u: Text, vs: seq<Value>)
    requires Padded(m, t, v) && vs != [] && Elements(m, u, vs)
    ensures Elements(m, t + [COMMA] + u, [v] + vs)
  {
    hide Padded;
    var w, all := t + [COMMA] + u, [v] + vs;
    assert w[..|t|] == t && w[|t| + 1..] == u && w[|t|] == COMMA && all[1..] == vs;
  }

  lemma ElementsMore(m: Full, b: Text, t: Text, items: seq<Value>)
    requires items != [] && Blank(m, b) && Elements(m, t, items)
    ensures Elements(m, b + t, items)
  {
    hide Padded, Blank;
    if |items| == 1 {
      PaddedMore(m, b, t, items[0]);
    } else {
      var k: nat :| k < |t| && t[k] == COMMA && Padded(m, t[..k], items[0]) && Elements(m, t[k + 1..], items[1..]);
      PaddedMore(m, b, t[..k], items[0]);
      assert (b + t)[..|b| + k] == b + t[..k] && (b + t)[|b| + k + 1..] == t[k + 1..] && (b + t)[|b| + k] == COMMA;
    }
  }

  lemma MemberOf(m: Full, b: Text, x: Text, c: Text, t: Text, e: Entry)
    requires Blank(m, b) && Literal(x, e.key) && Blank(m, c) && Padded(m, t, e.value)
    ensures Member(m, b + x + c + [COLON] + t, e)
  {
    hide Padded, Blank, Literal;
    var w := b + x + c + [COLON] + t;
    var i, j, k := |b|, |b| + |x|, |b| + |x| + |c|;
    assert w[..i] == b && w[i..j] == x && w[j..k] == c && w[k + 1..] == t && w[k] == COLON;
    assert MemberAt(m, w, e, i, j, k);
  }

  lemma MemberMore(m: Full, b: Text, t: Text, e: Entry)
    requires Blank(m, b) && Member(m, t, e)
    ensures Member(m, b + t, e)
  {
    hide Padded, Blank, Literal;
    var i: nat, j: nat, k: nat :| MemberAt(m, t, e, i, j, k);
    BlankJoin(m, b, t[..i]);
    MemberOf(m, b + t[..i], t[i..j], t[j..k], t[k + 1..], e);
    assert b + t == b + t[..i] + t[i..j] + t[j..k] + [COLON] + t[k + 1..];
  }

  lemma MoreMembers(m: Full, t: Text, e: Entry, u: Text, es: seq<Entry>)
    requires Member(m, t, e) && es != [] && Members(m, u, es)
    ensures Members(m, t + [COMMA] + u, [e] + es)
  {
    hide Member;
    var w, all := t + [COMMA] + u, [e] + es;
    assert w[..|t|] == t && w[|t| + 1..] == u && w[|t|] == COMMA && all[1..] == es;
  }

  lemma MembersMore(m: Full, b: Text, t: Text, pairs: seq<Entry>)
    requires pairs != [] && Blank(m, b) && Members(m, t, pairs)
    ensures Members(m, b + t, pairs)
  {
    hide Member, Blank;
    if |pairs| == 1 {
      MemberMore(m, b, t, pairs[0]);
    } else {
      var k: nat :| k < |t| && t[k] == COMMA && Member(m, t[..k], pairs[0]) && Members(m, t[k + 1..], pairs[1..]);
      MemberMore(m, b, t[..k], pairs[0]);
      assert (b + t)[..|b| + k] == b + t[..k] && (b + t)[|b| + k + 1..] == t[k + 1..] && (b + t)[|b| + k] == COMMA;
    }
  }

  // ----- what is read is a text of the value

  /** The part of t in front of rest. */
  function Front(t: Text, rest: Text): Text
    requires |rest| <= |t|
  {
    t[..|t| - |rest|]
  }

  lemma FrontIs(x: Text, rest: Text)
    ensures Front(x + rest, rest) == x
  {
  }

  lemma {:induction false} SkipIs(m: Full, t: Text)
    ensures t == Front(t, Skip(m, t)) + Skip(m, t) && Blank(m, Front(t, Skip(m, t)))
  {
    hide Blank;
    BlankNothing(m);
    if m.spaces && t != [] && IsJsonSpace(t[0]) {
      SkipIs(m, t[1..]);
      BlankStep(m, t, Skip(m, t[1..]));
    }
  }

  lemma BlankStep(m: Full, t: Text, s: Text)
    requires m.spaces && t != [] && IsJsonSpace(t[0]) && |s| < |t|
    requires t[1..] == Front(t[1..], s) + s && Blank(m, Front(t[1..], s))
    ensures t == Front(t, s) + s && Blank(m, Front(t, s))
  {
    assert Front(t, s) == [t[0]] + Front(t[1..], s);
    BlankJoin(m, [t[0]], Front(t[1..], s));
  }

  lemma LiteralSound(t: Text)
    requires t != [] && t[0] == QUOTE && ParseString(t[1..]).Some?
    ensures var (s, rest) := ParseString(t[1..]).value;
            t == Front(t, rest) + rest && Literal(Front(t, rest), s)
  {
    hide StringText, ParseString;
    var (s, rest) := ParseString(t[1..]).value;
    StringSound(t[1..]);
    var n := |t| - |rest| - 2;
    var x := t[..n + 2];
    assert x[1..|x| - 1] == t[1..][..n] && t[1..][n + 1..] == t[n + 2..] && t[1..][n] == t[n + 1];
  }

  lemma WordSound(m: Full, t: Text)
    requires Lit("null") <= t || Lit("true") <= t || Lit("false") <= t
    ensures ParseValue(m, t).Some?
    ensures var (v, rest) := ParseValue(m, t).value;
            t == Front(t, rest) + rest && Denotes(m, Front(t, rest), v)
  {
    hide ParseArray, ParseObject, ParseNumber, ParseString;
    NotTwo(t);
  }

  lemma NotTwo(t: Text)
    ensures Lit("true") <= t ==> !(Lit("null") <= t)
    ensures Lit("false") <= t ==> !(Lit("null") <= t) && !(Lit("true") <= t)
  {
    assert Lit("null")[0] == 110 && Lit("true")[0] == 116 && Lit("false")[0] == 102;
  }

  lemma ConstantSound(m: Full, t: Text)
    requires NAN <= t || INFINITY <= t || MINUS_INFINITY <= t
    ensures ParseValue(m, t).Some?
    ensures var (v, rest) := ParseValue(m, t).value;
            t == Front(t, rest) + rest && Denotes(m, Front(t, rest), v)
  {
    hide ParseArray, ParseObject, ParseNumber, ParseString, NumberText;
    var w := if NAN <= t then NAN else if INFINITY <= t then INFINITY else MINUS_INFINITY;
    assert NAN[0] == 78 && INFINITY[0] == 73 && MINUS_INFINITY[0] == MINUS;
    assert t == w + t[|w|..];
    ParseConstant(m, w, t[|w|..]);
  }

  lemma ArrayOf(m: Full, t: Text, items: seq<Value>)
    requires if items == [] then Blank(m, t) else Elements(m, t, items)
    ensures Denotes(m, [OPEN_ARRAY] + t + [CLOSE_ARRAY], Arr(items))
  {
    hide Blank, Elements;
    var x := [OPEN_ARRAY] + t + [CLOSE_ARRAY];
    assert x[1..|x| - 1] == t;
  }

  lemma ObjectOf(m: Full, t: Text, pairs: seq<Entry>, es: seq<Entry>)
    requires Merges(m, pairs, es)
    requires if pairs == [] then Blank(m, t) else Members(m, t, pairs)
    ensures Denotes(m, [OPEN_OBJECT] + t + [CLOSE_OBJECT], Obj(es))
  {
    hide Blank, Members, Merges;
    var x := [OPEN_OBJECT] + t + [CLOSE_OBJECT];
    assert x[1..|x| - 1] == t;
  }

  lemma {:induction false} ValueSound(m: Full, t: Text)
    requires ParseValue(m, t).Some?
    ensures var (v, rest) := ParseValue(m, t).value;
            t == Front(t, rest) + rest && Denotes(m, Front(t, rest), v)
    decreases |t|, 1
  {
    hide ParseNumber, NumberText, ParseString, Literal, MakeObject, ParseArray, ParseObject, Lit, Front, Denotes;
    if Lit("null") <= t || Lit("true") <= t || Lit("false") <= t {
      WordSound(m, t);
    } else if t[0] == QUOTE {
      LiteralSound(t);
      var (s, rest) := ParseString(t[1..]).value;
      LiteralDenotes(m, Front(t, rest), s);
    } else if t[0] == OPEN_ARRAY {
      ArraySound(m, t);
    } else if t[0] == OPEN_OBJECT {
      ObjectSound(m, t);
    } else if NAN <= t || INFINITY <= t || MINUS_INFINITY <= t {
      ConstantSound(m, t);
    } else {
      NumberRead(m, t);
      var (v, rest) := ParseNumber(m, t).value;
      NumberDenotes(m, Front(t, rest), v);
    }
  }

  lemma NumberRead(m: Full, t: Text)
    requires ParseNumber(m, t).Some?
    ensures var (v, rest) := ParseNumber(m, t).value;
            t == Front(t, rest) + rest && NumberText(m.floats.value, Front(t, rest), v)
  {
    hide ParseNumber, NumberText;
    NumberSound(m, t);
  }

  lemma LiteralDenotes(m: Full, t: Text, s: Text)
    requires Literal(t, s)
    ensures Denotes(m, t, Str(s))
  {
  }

  lemma NumberDenotes(m: Full, t: Text, v: Value)
    requires NumberText(m.floats.value, t, v)
    ensures Denotes(m, t, v)
  {
  }

  lemma {:induction false} ArraySound(m: Full, t: Text)
    requires t != [] && t[0] == OPEN_ARRAY && ParseArray(m, Skip(m, t[1..])).Some?
    ensures var (items, rest) := ParseArray(m, Skip(m, t[1..])).value;
            t == Front(t, rest) + rest && Denotes(m, Front(t, rest), Arr(items))
    decreases |t|, 0
  {
    hide ParseItems, Denotes, Elements, Blank, Skip, Front;
    var s := Skip(m, t[1..]);
    var (items, rest) := ParseArray(m, s).value;
    SkipIs(m, t[1..]);
    var inner := Front(t[1..], s);
    if s != [] && s[0] == CLOSE_ARRAY {
      assert s == [CLOSE_ARRAY] + rest;
    } else {
      ItemsSound(m, s);
      var e := Front(s, [CLOSE_ARRAY] + rest);
      ElementsMore(m, inner, e, items);
      inner := inner + e;
    }
    ArrayOf(m, inner, items);
    Enclose(t, inner, CLOSE_ARRAY, rest);
  }

  lemma Enclose(t: Text, inner: Text, c: nat, rest: Text)
    requires t != [] && t[1..] == inner + [c] + rest
    ensures |rest| <= |t| && t == ([t[0]] + inner + [c]) + rest && Front(t, rest) == [t[0]] + inner + [c]
  {
  }

  /** The elements up to the closing bracket. */
  lemma {:induction false} ItemsSound(m: Full, t: Text)
    requires ParseItems(m, t).Some?
    ensures var (items, rest) := ParseItems(m, t).value;
            var e := Front(t, [CLOSE_ARRAY] + rest);
            t == e + [CLOSE_ARRAY] + rest && items != [] && Elements(m, e, items)
    decreases |t|, 2
  {
    hide ParseValue, ParseItems, Denotes, Elements, Blank, Skip, Padded, Front;
    ItemsRead(m, t);
    var (items, rest) := ParseItems(m, t).value;
    var (v, a) := ParseValue(m, t).value;
    var s := Skip(m, a);
    ValueSound(m, t);
    SkipIs(m, a);
    var x, c := Front(t, a), Front(a, s);
    DenotesPadded(m, x, v, c);
    var e := x + c;
    if s[0] == CLOSE_ARRAY {
      OneElement(m, e, v);
    } else {
      var w := Skip(m, s[1..]);
      ItemsSound(m, w);
      SkipIs(m, s[1..]);
      var b, f := Front(s[1..], w), Front(w, [CLOSE_ARRAY] + rest);
      ElementsMore(m, b, f, items[1..]);
      MoreElements(m, e, v, b + f, items[1..]);
      Regroup(s, COMMA, b, w, f, [CLOSE_ARRAY] + rest);
      e := e + [COMMA] + (b + f);
    }
    FrontIs(e, [CLOSE_ARRAY] + rest);
    assert t == e + ([CLOSE_ARRAY] + rest);
  }

  lemma Regroup(s: Text, c: nat, b: Text, w: Text, f: Text, rest: Text)
    requires s != [] && s[0] == c && s[1..] == b + w && w == f + rest
    ensures s == [c] + (b + f) + rest
  {
  }

  lemma ItemsRead(m: Full, t: Text)
    requires ParseItems(m, t).Some?
    ensures ParseValue(m, t).Some?
    ensures var (items, rest) := ParseItems(m, t).value;
            var (v, a) := ParseValue(m, t).value;
            var s := Skip(m, a);
            s != [] && if s[0] == CLOSE_ARRAY then items == [v] && s == [CLOSE_ARRAY] + rest
                       else s[0] == COMMA && items != [] && items == [v] + items[1..]
                            && ParseItems(m, Skip(m, s[1..])) == Some((items[1..], rest))
  {
    hide ParseValue, Skip;
  }

  lemma DenotesPadded(m: Full, x: Text, v: Value, c: Text)
    requires Denotes(m, x, v) && Blank(m, c)
    ensures Padded(m, x + c, v)
  {
    hide Denotes, Padded, Blank;
    BlankNothing(m);
    PaddedOf(m, [], x, v, c);
    assert [] + x == x;
  }

  lemma BlankNothing(m: Full)
    ensures Blank(m, [])
  {
  }

  lemma {:induction false} ObjectSound(m: Full, t: Text)
    requires t != [] && t[0] == OPEN_OBJECT && ParseObject(m, Skip(m, t[1..])).Some?
    ensures var (pairs, rest) := ParseObject(m, Skip(m, t[1..])).value;
            t == Front(t, rest) + rest &&
            forall v :: MakeObject(m, pairs) == Some(v) ==> Denotes(m, Front(t, rest), v)
    decreases |t|, 0
  {
    hide ParsePairs, Denotes, Members, Blank, Skip, MakeObject, Merges, Front;
    var s := Skip(m, t[1..]);
    var (pairs, rest) := ParseObject(m, s).value;
    SkipIs(m, t[1..]);
    var inner := Front(t[1..], s);
    if s != [] && s[0] == CLOSE_OBJECT {
      assert s == [CLOSE_OBJECT] + rest;
    } else {
      PairsSound(m, s);
      var e := Front(s, [CLOSE_OBJECT] + rest);
      MembersMore(m, inner, e, pairs);
      inner := inner + e;
    }
    Enclose(t, inner, CLOSE_OBJECT, rest);
    forall v | MakeObject(m, pairs) == Some(v)
      ensures Denotes(m, Front(t, rest), v)
    {
      ObjectIs(m, pairs, v);
      ObjectOf(m, inner, pairs, v.entries);
    }
  }

  /** The members up to the closing brace. */
  lemma {:induction false} PairsSound(m: Full, t: Text)
    requires ParsePairs(m, t).Some?
    ensures var (pairs, rest) := ParsePairs(m, t).value;
            var e := Front(t, [CLOSE_OBJECT] + rest);
            t == e + [CLOSE_OBJECT] + rest && pairs != [] && Members(m, e, pairs)
    decreases |t|, 3
  {
    hide ParsePair, ParsePairs, Member, Members, Blank, Skip, Padded, Front;
    PairsRead(m, t);
    var (pairs, rest) := ParsePairs(m, t).value;
    var (p, a) := ParsePair(m, t).value;
    var s := Skip(m, a);
    PairSound(m, t);
    SkipIs(m, a);
    var x, c := Front(t, a), Front(a, s);
    MemberAfter(m, x, c, p);
    var e := x + c;
    if s[0] == CLOSE_OBJECT {
      OneMember(m, e, p);
    } else {
      var w := Skip(m, s[1..]);
      PairsSound(m, w);
      SkipIs(m, s[1..]);
      var b, f := Front(s[1..], w), Front(w, [CLOSE_OBJECT] + rest);
      MembersMore(m, b, f, pairs[1..]);
      MoreMembers(m, e, p, b + f, pairs[1..]);
      Regroup(s, COMMA, b, w, f, [CLOSE_OBJECT] + rest);
      e := e + [COMMA] + (b + f);
    }
    FrontIs(e, [CLOSE_OBJECT] + rest);
    assert t == e + ([CLOSE_OBJECT] + rest);
  }

  lemma PairsRead(m: Full, t: Text)
    requires ParsePairs(m, t).Some?
    ensures ParsePair(m, t).Some?
    ensures var (pairs, rest) := ParsePairs(m, t).value;
            var (p, a) := ParsePair(m, t).value;
            var s := Skip(m, a);
            s != [] && if s[0] == CLOSE_OBJECT then pairs == [p] && s == [CLOSE_OBJECT] + rest
                       else s[0] == COMMA && pairs != [] && pairs == [p] + pairs[1..]
                            && ParsePairs(m, Skip(m, s[1..])) == Some((pairs[1..], rest))
  {
    hide ParsePair, Skip;
  }

  lemma OneMember(m: Full, t: Text, e: Entry)
    requires Member(m, t, e)
    ensures Members(m, t, [e])
  {
  }

  lemma MemberAfter(m: Full, t: Text, c: Text, e: Entry)
    requires Member(m, t, e) && Blank(m, c)
    ensures Member(m, t + c, e)
  {
    hide Padded, Blank, Literal;
    var i: nat, j: nat, k: nat :| MemberAt(m, t, e, i, j, k);
    PaddedAfter(m, t[k + 1..], e.value, c);
    MemberOf(m, t[..i], t[i..j], t[j..k], t[k + 1..] + c, e);
    assert t + c == t[..i] + t[i..j] + t[j..k] + [COLON] + (t[k + 1..] + c);
  }

  lemma PaddedAfter(m: Full, t: Text, v: Value, c: Text)
    requires Padded(m, t, v) && Blank(m, c)
    ensures Padded(m, t + c, v)
  {
    hide Denotes, Blank;
    var i: nat, j: nat :| Inside(m, t, v, i, j);
    BlankJoin(m, t[j..], c);
    PaddedOf(m, t[..i], t[i..j], v, t[j..] + c);
    assert t + c == t[..i] + t[i..j] + (t[j..] + c);
  }

  lemma {:induction false} PairSound(m: Full, t: Text)
    requires ParsePair(m, t).Some?
    ensures var (e, rest) := ParsePair(m, t).value;
            t == Front(t, rest) + rest && Member(m, Front(t, rest), e)
    decreases |t|, 2
  {
    hide ParseValue, ParseString, ParsePair, Denotes, Blank, Skip, Padded, Literal, Member, Front;
    var (e, rest) := ParsePair(m, t).value;
    PairReads(m, t);
    var a := ParseString(t[1..]).value.1;
    var s := Skip(m, a);
    var w := Skip(m, s[1..]);
    LiteralSound(t);
    SkipIs(m, a);
    SkipIs(m, s[1..]);
    ValueSound(m, w);
    var x, c, b, y := Front(t, a), Front(a, s), Front(s[1..], w), Front(w, rest);
    MemberJoins(m, x, c, b, y, e);
    FrontIs(x + c + [COLON] + (b + y), rest);
    Regroup(s, COLON, b, w, y, rest);
    assert t == (x + c + [COLON] + (b + y)) + rest;
  }

  lemma PairReads(m: Full, t: Text)
    requires ParsePair(m, t).Some?
    ensures t[0] == QUOTE && ParseString(t[1..]).Some?
    ensures var (e, rest) := ParsePair(m, t).value;
            var (key, a) := ParseString(t[1..]).value;
            var s := Skip(m, a);
            key == e.key && s != [] && s[0] == COLON && ParseValue(m, Skip(m, s[1..])) == Some((e.value, rest))
  {
    hide ParseValue, Skip, ParseString;
  }

  lemma MemberJoins(m: Full, x: Text, c: Text, b: Text, y: Text, e: Entry)
    requires Literal(x, e.key) && Blank(m, c) && Blank(m, b) && Denotes(m, y, e.value)
    ensures Member(m, x + c + [COLON] + (b + y), e)
  {
    hide Denotes, Blank, Padded, Literal, Member;
    BlankNothing(m);
    PaddedOf(m, b, y, e.value, []);
    assert b + y + [] == b + y && [] + x == x;
    MemberOf(m, [], x, c, b + y, e);
  }

  // ----- a text of the value is read

  /** Nothing in rest can be more of what is before it, not even white space. */
  predicate Stops(rest: Text) { rest == [] || rest[0] in {COMMA, CLOSE_ARRAY, CLOSE_OBJECT} }

  lemma {:induction false} SkipBlank(m: Full, b: Text, rest: Text)
    requires Blank(m, b) && (rest == [] || !IsJsonSpace(rest[0]))
    ensures Skip(m, b + rest) == rest
  {
    if b == [] {
      assert b + rest == rest;
    } else {
      assert (b + rest)[1..] == b[1..] + rest;
      SkipBlank(m, b[1..], rest);
    }
  }

  lemma BlankHead(m: Full, b: Text, rest: Text)
    requires Blank(m, b) && (b == [] ==> !Continues(rest))
    ensures !Continues(b + rest)
  {
    if b == [] {
      assert b + rest == rest;
    }
  }

  lemma LiteralComplete(x: Text, s: Text, rest: Text)
    requires Literal(x, s)
    ensures x != [] && (x + rest)[0] == QUOTE && ParseString((x + rest)[1..]) == Some((s, rest))
  {
    hide StringText, ParseString;
    var body := x[1..|x| - 1];
    StringComplete(body, s, rest);
    assert (x + rest)[1..] == body + [QUOTE] + rest;
  }

  lemma NumberStarts(m: Full, x: Text, v: Value, rest: Text)
    requires NumberText(m.floats.value, x, v)
    ensures x != [] && NumberHead(x + rest)
  {
    hide FloatLiteral;
    if v.Int? {
      IntegerStarts(x, v.n, rest);
    } else {
      FloatStarts(x, rest);
    }
  }

  lemma IntegerStarts(x: Text, n: int, rest: Text)
    requires Integer(x, n)
    ensures x != [] && NumberHead(x + rest)
  {
    var d := if x != [] && x[0] == MINUS then x[1..] else x;
    DecimalIs(d);
    assert (x + rest)[1..] == x[1..] + rest;
  }

  lemma FloatStarts(x: Text, rest: Text)
    requires FloatLiteral(x)
    ensures x != [] && NumberHead(x + rest)
  {
    hide Integer, Fraction, Exponent, NumberHead;
    var n, i: nat, j: nat :| FloatParts(x, n, i, j);
    IntegerStarts(x[..i], n, x[i..] + rest);
    assert x + rest == x[..i] + (x[i..] + rest);
  }

  lemma WordComplete(m: Full, v: Value, rest: Text)
    requires v.Null? || v.Bool?
    ensures ParseValue(m, Lit(if v.Null? then "null" else if v.b then "true" else "false") + rest) == Some((v, rest))
  {
    hide ParseArray, ParseObject, ParseNumber, ParseString;
    var w := Lit(if v.Null? then "null" else if v.b then "true" else "false");
    assert w <= w + rest && (w + rest)[|w|..] == rest;
    NotTwo(w + rest);
  }

  /** How a value begins. */
  lemma DenotesHead(m: Full, x: Text, v: Value)
    requires Denotes(m, x, v)
    ensures x != [] && !IsJsonSpace(x[0]) && x[0] != CLOSE_ARRAY
  {
    hide NumberText, Elements, Members, Blank;
    if v.Int? || (v.Float? && NumberText(m.floats.value, x, v)) {
      NumberStarts(m, x, v, []);
      assert x + [] == x;
    }
  }

  lemma {:induction false} ValueComplete(m: Full, x: Text, v: Value, rest: Text)
    requires Denotes(m, x, v) && !Continues(rest)
    ensures ParseValue(m, x + rest) == Some((v, rest))
    decreases |x|, 1
  {
    hide ParseNumber, NumberText, ParseString, Literal, Members, Elements, Merges, MakeObject, ParseArray, ParseObject,
      Blank, Lit, Continues;
    match v
    case Null => WordComplete(m, v, rest);
    case Bool(_) => WordComplete(m, v, rest);
    case Int(_) => NumberValue(m, x, v, rest);
    case Float(r) =>
      if NumberText(m.floats.value, x, v) {
        NumberValue(m, x, v, rest);
      } else {
        ParseConstant(m, r, rest);
      }
    case Str(s) =>
      LiteralComplete(x, s, rest);
      NotKeyword(x + rest);
    case Arr(items) =>
      ArrayComplete(m, x, items, rest);
      NotKeyword(x + rest);
    case Obj(es) =>
      ObjectComplete(m, x, es, rest);
      NotKeyword(x + rest);
  }

  lemma NumberValue(m: Full, x: Text, v: Value, rest: Text)
    requires NumberText(m.floats.value, x, v) && !Continues(rest)
    ensures ParseValue(m, x + rest) == Some((v, rest))
  {
    hide NumberText, ParseNumber, Continues, ParseValue;
    NumberStarts(m, x, v, rest);
    NumberParses(m, x + rest);
    NumberComplete(m, x, v, rest);
  }

  lemma {:induction false} ArrayComplete(m: Full, x: Text, items: seq<Value>, rest: Text)
    requires Denotes(m, x, Arr(items))
    ensures x[0] == OPEN_ARRAY && ParseArray(m, Skip(m, (x + rest)[1..])) == Some((items, rest))
    decreases |x|, 0
  {
    hide ParseItems, Elements, Blank, Skip;
    var e := x[1..|x| - 1];
    var tail := [CLOSE_ARRAY] + rest;
    assert (x + rest)[1..] == e + tail;
    if items == [] {
      SkipBlank(m, e, tail);
      assert tail[1..] == rest;
    } else {
      ElementsComplete(m, e, items, rest);
      assert e + tail == e + [CLOSE_ARRAY] + rest;
    }
  }

  /** A padded value is read behind its white space, and with the white space after it. */
  lemma {:induction false} PaddedComplete(m: Full, t: Text, v: Value, rest: Text)
    requires Padded(m, t, v) && Stops(rest)
    ensures var u := Skip(m, t + rest);
            && u != [] && u[0] != CLOSE_ARRAY && ParseValue(m, u).Some?
            && ParseValue(m, u).value.0 == v && Skip(m, ParseValue(m, u).value.1) == rest
    decreases |t|, 2
  {
    hide Denotes, ParseValue, Skip, Blank;
    var i: nat, j: nat :| Inside(m, t, v, i, j);
    var b, x, c := t[..i], t[i..j], t[j..];
    assert t + rest == b + (x + (c + rest));
    DenotesHead(m, x, v);
    HeadOf(x, c + rest);
    SkipBlank(m, b, x + (c + rest));
    BlankHead(m, c, rest);
    ValueComplete(m, x, v, c + rest);
    SkipBlank(m, c, rest);
  }

  lemma {:induction false} ElementsComplete(m: Full, t: Text, items: seq<Value>, rest: Text)
    requires items != [] && Elements(m, t, items)
    ensures var u := Skip(m, t + [CLOSE_ARRAY] + rest);
            u != [] && u[0] != CLOSE_ARRAY && ParseItems(m, u) == Some((items, rest))
    decreases |t|, 3
  {
    hide ParseValue, ParseItems, Skip, Padded;
    if |items| == 1 {
      var tail := [CLOSE_ARRAY] + rest;
      PaddedComplete(m, t, items[0], tail);
      assert t + [CLOSE_ARRAY] + rest == t + tail;
      LastItem(m, Skip(m, t + tail), items[0], rest);
      assert [items[0]] == items;
    } else {
      var k: nat :| k < |t| && t[k] == COMMA && Padded(m, t[..k], items[0]) && Elements(m, t[k + 1..], items[1..]);
      var more := t[k + 1..] + [CLOSE_ARRAY] + rest;
      var tail := [COMMA] + more;
      PaddedComplete(m, t[..k], items[0], tail);
      ElementsComplete(m, t[k + 1..], items[1..], rest);
      assert t + [CLOSE_ARRAY] + rest == t[..k] + tail;
      NextItem(m, Skip(m, t[..k] + tail), items[0], more, items[1..], rest);
      assert [items[0]] + items[1..] == items;
    }
  }

  lemma LastItem(m: Full, u: Text, v: Value, rest: Text)
    requires ParseValue(m, u).Some? && ParseValue(m, u).value.0 == v
    requires Skip(m, ParseValue(m, u).value.1) == [CLOSE_ARRAY] + rest
    ensures ParseItems(m, u) == Some(([v], rest))
  {
    hide ParseValue, Skip;
    var s := Skip(m, ParseValue(m, u).value.1);
    assert s[1..] == rest && MoreItems(m, s) == Some(([], rest)) && [v] + [] == [v];
  }

  lemma NextItem(m: Full, u: Text, v: Value, more: Text, vs: seq<Value>, rest: Text)
    requires ParseValue(m, u).Some? && ParseValue(m, u).value.0 == v
    requires Skip(m, ParseValue(m, u).value.1) == [COMMA] + more
    requires ParseItems(m, Skip(m, more)) == Some((vs, rest))
    ensures ParseItems(m, u) == Some(([v] + vs, rest))
  {
    hide ParseValue, Skip;
    var s := Skip(m, ParseValue(m, u).value.1);
    assert s[1..] == more && MoreItems(m, s) == ParseItems(m, Skip(m, more));
  }

  lemma {:induction false} ObjectComplete(m: Full, x: Text, es: seq<Entry>, rest: Text)
    requires Denotes(m, x, Obj(es))
    ensures x[0] == OPEN_OBJECT
    ensures var p := ParseObject(m, Skip(m, (x + rest)[1..]));
            p.Some? && p.value.1 == rest && MakeObject(m, p.value.0) == Some(Obj(es))
    decreases |x|, 0
  {
    hide ParsePairs, Members, Blank, Skip, Merges, MakeObject;
    var e := x[1..|x| - 1];
    var tail := [CLOSE_OBJECT] + rest;
    assert (x + rest)[1..] == e + tail;
    var pairs :| Merges(m, pairs, es) && if pairs == [] then Blank(m, e) else Members(m, e, pairs);
    ObjectIs(m, pairs, Obj(es));
    if pairs == [] {
      SkipBlank(m, e, tail);
      assert tail[1..] == rest;
    } else {
      MembersComplete(m, e, pairs, rest);
      assert e + tail == e + [CLOSE_OBJECT] + rest;
    }
  }

  lemma {:induction false} MemberComplete(m: Full, t: Text, e: Entry, rest: Text)
    requires Member(m, t, e) && Stops(rest)
    ensures var u := Skip(m, t + rest);
            && u != [] && u[0] == QUOTE && ParsePair(m, u).Some?
            && ParsePair(m, u).value.0 == e && Skip(m, ParsePair(m, u).value.1) == rest
    decreases |t|, 3
  {
    hide ParseValue, Skip, Padded, Literal, Blank, ParseString;
    var i: nat, j: nat, k: nat :| MemberAt(m, t, e, i, j, k);
    var b, x, c, y := t[..i], t[i..j], t[j..k], t[k + 1..];
    var after := [COLON] + (y + rest);
    assert t + rest == b + (x + (c + after)) && after[1..] == y + rest;
    LiteralComplete(x, e.key, c + after);
    SkipBlank(m, b, x + (c + after));
    SkipBlank(m, c, after);
    PaddedComplete(m, y, e.value, rest);
  }

  lemma {:induction false} MembersComplete(m: Full, t: Text, pairs: seq<Entry>, rest: Text)
    requires pairs != [] && Members(m, t, pairs)
    ensures var u := Skip(m, t + [CLOSE_OBJECT] + rest);
            u != [] && u[0] == QUOTE && ParsePairs(m, u) == Some((pairs, rest))
    decreases |t|, 4
  {
    hide ParsePair, Skip, Member;
    if |pairs| == 1 {
      var tail := [CLOSE_OBJECT] + rest;
      MemberComplete(m, t, pairs[0], tail);
      assert t + [CLOSE_OBJECT] + rest == t + tail && tail[1..] == rest;
      assert [pairs[0]] + [] == pairs;
    } else {
      var k: nat :| k < |t| && t[k] == COMMA && Member(m, t[..k], pairs[0]) && Members(m, t[k + 1..], pairs[1..]);
      var more := t[k + 1..] + [CLOSE_OBJECT] + rest;
      var tail := [COMMA] + more;
      MemberComplete(m, t[..k], pairs[0], tail);
      MembersComplete(m, t[k + 1..], pairs[1..], rest);
      assert t + [CLOSE_OBJECT] + rest == t[..k] + tail && tail[1..] == more;
      assert [pairs[0]] + pairs[1..] == pairs;
    }
  }

  /** A text loads exactly when it is a text of the value, with white space around it. */
  lemma LoadsExactly(m: Full, t: Text, v: Value)
    ensures Loads(m, t) == Some(v) <==> Padded(m, t, v)
  {
    hide Denotes, ParseValue, Skip, Padded, Blank;
    if Padded(m, t, v) {
      PaddedComplete(m, t, v, []);
      assert t + [] == t;
    }
    if Loads(m, t) == Some(v) {
      var s := Skip(m, t);
      var rest := ParseValue(m, s).value.1;
      SkipIs(m, t);
      ValueSound(m, s);
      SkipIs(m, rest);
      assert Front(rest, []) == rest;
      DenotesPadded(m, Front(s, rest), v, rest);
      PaddedMore(m, Front(t, s), s, v);
    }
  }
}
