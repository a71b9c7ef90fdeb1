/**
 `_is_compact_json`: a two-flag scan that decides whether JSON text carries insignificant
 whitespace, and what that scan means for texts that do parse.
 */
module CompactScanner {
  import opened Wrappers
  import opened Unicode
  import opened Json
  import opened Canonical

  /** `str.isspace` on one character. */
  predicate IsSpace(c: nat) {
    || 9 <= c <= 13 || 28 <= c <= 32 || c == 0x85 || c == 0xA0 || c == 0x1680
    || 0x2000 <= c <= 0x200A || c == 0x2028 || c == 0x2029 || c == 0x202F || c == 0x205F || c == 0x3000
  }

  /** The flags `in_string` and `escaped`; Spaced is the early `return False`. */
  datatype Mode = Outside | Inside | Escaped | Spaced

  function Step(m: Mode, c: nat): Mode {
    match m
    case Inside => if c == BACKSLASH then Escaped else if c == QUOTE then Outside else Inside
    case Escaped => Inside
    case Outside => if c == QUOTE then Inside else if IsSpace(c) then Spaced else Outside
    case Spaced => Spaced
  }

  function Run(m: Mode, t: Text): Mode
    decreases |t|
  {
    if t == [] then m else Run(Step(m, t[0]), t[1..])
  }

  predicate Compact(t: Text) { Run(Outside, t) == Outside }

  lemma {:induction false} RunConcat(m: Mode, a: Text, b: Text)
    ensures Run(m, a + b) == Run(Run(m, a), b)
    decreases |a|
  {
    if a == [] {
      assert a + b == b;
    } else {
      assert (a + b)[1..] == a[1..] + b;
      RunConcat(Step(m, a[0]), a[1..], b);
    }
  }

  lemma RunSnoc(t: Text, i: nat)
    requires i < |t|
    ensures Run(Outside, t[..i + 1]) == Step(Run(Outside, t[..i]), t[i])
  {
    assert t[..i + 1] == t[..i] + [t[i]];
    RunConcat(Outside, t[..i], [t[i]]);
  }

  lemma {:induction false} RunSpaced(t: Text)
    ensures Run(Spaced, t) == Spaced
  {
    if t == [] {
    } else {
      RunSpaced(t[1..]);
    }
  }

  method IsCompactJson(value: Text) returns (ok: bool)
    ensures ok <==> Compact(value)
  {
    var inString, escaped := false, false;
    for i := 0 to |value|
      invariant !(escaped && !inString)
      invariant Run(Outside, value[..i]) == (if escaped then Escaped else if inString then Inside else Outside)
    {
      var character := value[i];
      RunSnoc(value, i);
      if inString {
        if escaped {
          escaped := false;
        } else if character == BACKSLASH {
          escaped := true;
        } else if character == QUOTE {
          inString := false;
        }
      } else if character == QUOTE {
        inString := true;
      } else if IsSpace(character) {
        RunConcat(Outside, value[..i + 1], value[i + 1..]);
        RunSpaced(value[i + 1..]);
        assert value[..i + 1] + value[i + 1..] == value;
        return false;
      }
    }
    assert value[..|value|] == value;
    return !inString && !escaped;
  }

  // ----- an independent reading: the text is a row of bare characters and closed literals

  datatype LiteralChar = Plain(c: nat) | Pair(c: nat)
  datatype Piece = Bare(c: nat) | Literal(body: seq<LiteralChar>)

  predicate GoodPiece(p: Piece) {
    match p
    case Bare(c) => c != QUOTE && !IsSpace(c)
    case Literal(body) => forall x :: x in body && x.Plain? ==> x.c != QUOTE && x.c != BACKSLASH
  }

  function RenderBody(body: seq<LiteralChar>): Text {
    if body == [] then []
    else (if body[0].Plain? then [body[0].c] else [BACKSLASH, body[0].c]) + RenderBody(body[1..])
  }

  function RenderPiece(p: Piece): Text {
    match p
    case Bare(c) => [c]
    case Literal(body) => [QUOTE] + RenderBody(body) + [QUOTE]
  }

  function Render(ps: seq<Piece>): Text {
    if ps == [] then [] else RenderPiece(ps[0]) + Render(ps[1..])
  }

  ghost predicate Reads(ps: seq<Piece>, t: Text) {
    (forall p :: p in ps ==> GoodPiece(p)) && Render(ps) == t
  }

  lemma {:induction false} RunBody(body: seq<LiteralChar>)
    requires GoodPiece(Literal(body))
    ensures Run(Inside, RenderBody(body)) == Inside
  {
    if body == [] {
    } else {
      assert GoodPiece(Literal(body[1..])) by {
        forall x | x in body[1..] ensures x in body {}
      }
      RunBody(body[1..]);
      var head := if body[0].Plain? then [body[0].c] else [BACKSLASH, body[0].c];
      assert body[0] in body;
      RunConcat(Inside, head, RenderBody(body[1..]));
      assert head[1..] == if body[0].Plain? then [] else [body[0].c];
    }
  }

  lemma RunPiece(p: Piece)
    requires GoodPiece(p)
    ensures Run(Outside, RenderPiece(p)) == Outside
  {
    match p
    case Bare(c) =>
    case Literal(body) =>
      RunBody(body);
      RunConcat(Outside, [QUOTE] + RenderBody(body), [QUOTE]);
      RunConcat(Outside, [QUOTE], RenderBody(body));
  }

  lemma {:induction false} RunRender(ps: seq<Piece>)
    requires forall p :: p in ps ==> GoodPiece(p)
    ensures Compact(Render(ps))
  {
    if ps == [] {
    } else {
      RunPiece(ps[0]);
      RunConcat(Outside, RenderPiece(ps[0]), Render(ps[1..]));
      RunRender(ps[1..]);
    }
  }

  lemma RenderCons(p: Piece, rest: seq<Piece>)
    ensures Render([p] + rest) == RenderPiece(p) + Render(rest)
  {
    assert ([p] + rest)[1..] == rest;
  }

  lemma BodyCons(x: LiteralChar, rest: seq<LiteralChar>)
    ensures RenderBody([x] + rest) == (if x.Plain? then [x.c] else [BACKSLASH, x.c]) + RenderBody(rest)
  {
    assert ([x] + rest)[1..] == rest;
  }

  /** Cutting a compact text into pieces, from outside a literal. */
  lemma {:induction false} CutOutside(t: Text) returns (ps: seq<Piece>)
    requires Run(Outside, t) == Outside
    ensures Reads(ps, t)
    decreases |t|
  {
    hide Render, RenderBody;
    if t == [] {
      ps := [];
      RenderNothing();
    } else if t[0] == QUOTE {
      var body, rest := CutInside(t[1..]);
      ps := [Literal(body)] + rest;
      RenderCons(Literal(body), rest);
      assert t == [QUOTE] + t[1..];
    } else {
      if IsSpace(t[0]) {
        RunSpaced(t[1..]);
      }
      var rest := CutOutside(t[1..]);
      ps := [Bare(t[0])] + rest;
      RenderCons(Bare(t[0]), rest);
      assert t == [t[0]] + t[1..];
    }
  }

  lemma RenderNothing()
    ensures Render([]) == [] && RenderBody([]) == []
  {
  }

  lemma {:induction false} CutInside(t: Text) returns (body: seq<LiteralChar>, ps: seq<Piece>)
    requires Run(Inside, t) == Outside
    ensures GoodPiece(Literal(body)) && forall p :: p in ps ==> GoodPiece(p)
    ensures t == RenderBody(body) + [QUOTE] + Render(ps)
    decreases |t|
  {
    hide Render, RenderBody;
    if t[0] == QUOTE {
      body := [];
      RenderNothing();
      ps := CutOutside(t[1..]);
      assert t == [QUOTE] + t[1..];
    } else if t[0] == BACKSLASH {
      assert t[1..] != [];
      var rest;
      rest, ps := CutInside(t[1..][1..]);
      body := [Pair(t[1])] + rest;
      BodyCons(Pair(t[1]), rest);
      assert t == [t[0], t[1]] + t[1..][1..];
      var pair := [t[0], t[1]];
      assert pair + (RenderBody(rest) + [QUOTE] + Render(ps)) == (pair + RenderBody(rest)) + [QUOTE] + Render(ps);
    } else {
      var rest;
      rest, ps := CutInside(t[1..]);
      body := [Plain(t[0])] + rest;
      BodyCons(Plain(t[0]), rest);
      assert t == [t[0]] + t[1..];
      assert [t[0]] + (RenderBody(rest) + [QUOTE] + Render(ps)) == ([t[0]] + RenderBody(rest)) + [QUOTE] + Render(ps);
    }
  }

  /** The scan accepts exactly the texts made of non-space characters and closed literals. */
  lemma CompactExact(t: Text)
    ensures Compact(t) <==> exists ps :: Reads(ps, t)
  {
    if Compact(t) {
      var ps := CutOutside(t);
    }
    if exists ps :: Reads(ps, t) {
      var ps :| Reads(ps, t);
      RunRender(ps);
    }
  }

  // ----- what the parser consumes, the scan crosses

  predicate Suffix(u: Text, t: Text) { |u| <= |t| && t[|t| - |u|..] == u }

  function Used(t: Text, u: Text): Text
    requires |u| <= |t|
  {
    t[..|t| - |u|]
  }

  /** From t down to u the scan goes from outside to outside, or trips on whitespace. */
  ghost predicate Crosses(t: Text, u: Text, tight: bool) {
    Suffix(u, t) && Run(Outside, Used(t, u)) == if tight then Outside else Spaced
  }

  lemma CrossesThen(t: Text, a: Text, b: Text, x: bool, y: bool)
    requires Crosses(t, a, x) && Crosses(a, b, y)
    ensures Crosses(t, b, x && y)
  {
    assert t == Used(t, a) + a && a == Used(a, b) + b;
    assert Used(t, b) == Used(t, a) + Used(a, b);
    RunConcat(Outside, Used(t, a), Used(a, b));
    RunSpaced(Used(a, b));
  }

  lemma CrossesChar(t: Text)
    requires t != [] && t[0] != QUOTE && !IsSpace(t[0])
    ensures Crosses(t, t[1..], true)
  {
    assert Used(t, t[1..]) == [t[0]];
  }

  lemma CrossesSelf(t: Text)
    ensures Crosses(t, t, true)
  {
    assert Used(t, t) == [];
  }

  lemma {:induction false} CrossesSkip(m: Reader, t: Text)
    ensures Crosses(t, Skip(m, t), Skip(m, t) == t)
    ensures Skip(m, t) != t ==> t != [] && IsJsonSpace(t[0])
    decreases |t|
  {
    var u := Skip(m, t);
    if m.spaces && t != [] && IsJsonSpace(t[0]) {
      CrossesSkip(m, t[1..]);
      assert Used(t, t[1..]) == [t[0]];
      assert Run(Outside, [t[0]]) == Spaced;
      assert Crosses(t, t[1..], false);
      CrossesThen(t, t[1..], u, false, Skip(m, t[1..]) == t[1..]);
    } else {
      CrossesSelf(t);
    }
  }

  lemma {:induction false} CrossesNumber(t: Text, acc: nat)
    ensures Crosses(t, Number(t, acc).1, true)
  {
    if t != [] && IsDigit(t[0]) {
      CrossesChar(t);
      CrossesNumber(t[1..], acc * 10 + (t[0] - ZERO));
      CrossesThen(t, t[1..], Number(t, acc).1, true, true);
    } else {
      CrossesSelf(t);
    }
  }

  lemma CrossesInt(t: Text)
    requires ParseInt(t).Some?
    ensures Crosses(t, ParseInt(t).value.1, true)
  {
    var u := if t[0] == MINUS then t[1..] else t;
    if t[0] == MINUS {
      CrossesChar(t);
    } else {
      CrossesSelf(t);
    }
    CrossesChar(u);
    var d: nat := u[0] - ZERO;
    CrossesNumber(u[1..], d);
    var r := ParseNat(u).value.1;
    if d != 0 {
      CrossesThen(u, u[1..], r, true, true);
    }
    CrossesThen(t, u, r, true, true);
  }

  lemma {:induction false} CrossesDigits(t: Text)
    ensures Crosses(t, AfterDigits(t), true)
  {
    if StartsWithDigit(t) {
      CrossesChar(t);
      CrossesDigits(t[1..]);
      CrossesThen(t, t[1..], AfterDigits(t), true, true);
    } else {
      CrossesSelf(t);
    }
  }

  lemma CrossesFraction(t: Text)
    ensures Crosses(t, AfterFraction(t), true)
  {
    if t != [] && t[0] == POINT && StartsWithDigit(t[1..]) {
      CrossesChar(t);
      CrossesDigits(t[1..]);
      CrossesThen(t, t[1..], AfterFraction(t), true, true);
    } else {
      CrossesSelf(t);
    }
  }

  lemma CrossesExponent(t: Text)
    ensures Crosses(t, AfterExponent(t), true)
  {
    CrossesSelf(t);
    if t != [] && IsExponentMark(t[0]) && StartsWithDigit(AfterSign(t[1..])) {
      var u := AfterSign(t[1..]);
      CrossesChar(t);
      CrossesSelf(u);
      if u != t[1..] {
        CrossesChar(t[1..]);
      }
      CrossesThen(t, t[1..], u, true, true);
      CrossesDigits(u);
      CrossesThen(t, u, AfterExponent(t), true, true);
    }
  }

  lemma CrossesToken(m: Reader, t: Text)
    requires ParseNumber(m, t).Some?
    ensures Crosses(t, ParseNumber(m, t).value.1, true)
  {
    hide ParseInt, AfterFraction, AfterExponent, Crosses;
    var a := ParseInt(t).value.1;
    var b := AfterFraction(a);
    CrossesInt(t);
    CrossesFraction(a);
    CrossesExponent(b);
    CrossesThen(a, b, AfterExponent(b), true, true);
    CrossesThen(t, a, AfterExponent(b), true, true);
  }

  /** An escape and what follows it. */
  lemma RunEscaped(t: Text, u: Text, r: Text)
    requires t != [] && t[0] == BACKSLASH && Suffix(u, t[1..]) && Suffix(r, u)
    requires Run(Escaped, Used(t[1..], u)) == Inside && Run(Inside, Used(u, r)) == Outside
    ensures Suffix(r, t) && Run(Inside, Used(t, r)) == Outside
  {
    assert t == [t[0]] + Used(t[1..], u) + u;
    assert u == Used(u, r) + r;
    assert Used(t, r) == [t[0]] + (Used(t[1..], u) + Used(u, r));
    RunConcat(Escaped, Used(t[1..], u), Used(u, r));
    RunConcat(Inside, [t[0]], Used(t[1..], u) + Used(u, r));
    assert [t[0]][1..] == [];
  }

  /** Inside a literal: from t to the text after the closing quote. */
  lemma {:induction false} RunString(t: Text)
    requires ParseString(t).Some?
    ensures Suffix(ParseString(t).value.1, t)
    ensures Run(Inside, Used(t, ParseString(t).value.1)) == Outside
    decreases |t|
  {
    hide ParseEscape, Lit;
    var r := ParseString(t).value.1;
    if t[0] == QUOTE {
      assert Used(t, r) == [QUOTE];
    } else if t[0] == BACKSLASH {
      var u := ParseEscape(t[1..]).value.1;
      RunEscape(t[1..]);
      RunString(u);
      RunEscaped(t, u, r);
    } else {
      RunString(t[1..]);
      assert Used(t, r) == [t[0]] + Used(t[1..], r);
    }
  }

  lemma {:induction false} RunPlain(t: Text)
    requires forall c :: c in t ==> c != QUOTE && c != BACKSLASH
    ensures Run(Inside, t) == Inside
  {
    if t == [] {
    } else {
      assert t[0] in t;
      assert forall c :: c in t[1..] ==> c in t;
      RunPlain(t[1..]);
    }
  }

  lemma RunHexDigits(t: Text)
    requires |t| == 4 && ParseHex4(t).Some?
    ensures Run(Inside, t) == Inside
  {
    assert t == [t[0], t[1], t[2], t[3]];
    assert HexValue(t[0]).Some? && HexValue(t[1]).Some? && HexValue(t[2]).Some? && HexValue(t[3]).Some?;
    RunPlain(t);
  }

  lemma RunEscape(t: Text)
    requires ParseEscape(t).Some?
    ensures Suffix(ParseEscape(t).value.1, t)
    ensures Run(Escaped, Used(t, ParseEscape(t).value.1)) == Inside
  {
    var u := ParseEscape(t).value.1;
    if t[0] != LETTER_U {
      assert Used(t, u) == [t[0]];
    } else {
      RunHexDigits(t[1..5]);
      RunConcat(Escaped, [t[0]], t[1..5]);
      assert t[..5] == [t[0]] + t[1..5];
      if u == t[5..] {
        assert Used(t, u) == t[..5];
      } else {
        RunHexDigits(t[7..11]);
        assert Used(t, u) == t[..5] + [t[5], t[6]] + t[7..11];
        RunConcat(Escaped, t[..5] + [t[5], t[6]], t[7..11]);
        RunConcat(Escaped, t[..5], [t[5], t[6]]);
      }
    }
  }

  lemma CrossesLiteral(t: Text)
    requires t != [] && t[0] == QUOTE && ParseString(t[1..]).Some?
    ensures Crosses(t, ParseString(t[1..]).value.1, true)
  {
    var u := ParseString(t[1..]).value.1;
    RunString(t[1..]);
    assert Used(t, u) == [QUOTE] + Used(t[1..], u);
  }

  lemma CrossesWord(t: Text, w: Text)
    requires w <= t && forall c :: c in w ==> c != QUOTE && !IsSpace(c)
    ensures Crosses(t, t[|w|..], true)
  {
    assert Used(t, t[|w|..]) == w;
    RunBare(w);
  }

  predicate Lettered(w: Text) { forall c :: c in w ==> c == MINUS || 65 <= c <= 122 }

  lemma WordsLettered()
    ensures Lettered(Lit("null")) && Lettered(Lit("true")) && Lettered(Lit("false"))
    ensures Lettered(NAN) && Lettered(INFINITY) && Lettered(MINUS_INFINITY)
  {
  }

  lemma {:induction false} RunBare(t: Text)
    requires forall c :: c in t ==> c != QUOTE && !IsSpace(c)
    ensures Run(Outside, t) == Outside
  {
    if t == [] {
    } else {
      assert t[0] in t;
      assert forall c :: c in t[1..] ==> c in t;
      RunBare(t[1..]);
    }
  }

  /** The same reader with whitespace forbidden. */
  function Tight(m: Reader): Reader { m.(spaces := false) }

  /** What a parse step owes: the tight reader agrees when it succeeds, and the scan trips
      exactly when it does not. */
  ghost predicate Follows<T(!new)>(t: Text, loose: Option<(T, Text)>, tight: Option<(T, Text)>) {
    && (tight.Some? ==> tight == loose)
    && (loose.Some? ==> Crosses(t, loose.value.1, tight.Some?))
  }

  /** Without skipping, nothing parses from a space. */
  lemma TightStart(m: Reader, t: Text)
    requires !m.spaces && t != [] && IsJsonSpace(t[0])
    ensures ParseValue(m, t).None? && ParseArray(m, t).None? && MoreItems(m, t).None?
    ensures ParseObject(m, t).None? && MorePairs(m, t).None? && ParseMember(m, t).None?
    ensures ParseItems(m, t).None? && ParsePairs(m, t).None?
  {
    NotKeyword(t);
    assert ParsePair(m, t).None?;
  }

  lemma SkipFollows<T(!new)>(m: Reader, t: Text,
        loose: Option<(T, Text)>, there: Option<(T, Text)>, tight: Option<(T, Text)>)
    requires Follows(Skip(m, t), loose, there)
    requires if Skip(m, t) == t then tight == there else tight.None?
    ensures Follows(t, loose, tight)
  {
    CrossesSkip(m, t);
    if loose.Some? {
      CrossesThen(t, Skip(m, t), loose.value.1, Skip(m, t) == t, there.Some?);
    }
  }

  /** Optional whitespace before a part the tight reader cannot begin with whitespace. */
  lemma TightAfterSkip(m: Reader, t: Text)
    ensures Skip(m, t) != t ==> t != [] && IsJsonSpace(t[0])
    ensures Skip(m, t) == t ==> Skip(Tight(m), t) == t
  {
    CrossesSkip(m, t);
  }

  lemma CharFollows<T(!new)>(t: Text, loose: Option<(T, Text)>, tight: Option<(T, Text)>)
    requires t != [] && t[0] != QUOTE && !IsSpace(t[0])
    requires Follows(t[1..], loose, tight)
    ensures Follows(t, loose, tight)
  {
    CrossesChar(t);
    if loose.Some? {
      CrossesThen(t, t[1..], loose.value.1, true, tight.Some?);
    }
  }

  /** Numbers are read alike with and without whitespace around them. */
  lemma TightNumber(m: Reader, t: Text)
    ensures ParseNumber(Tight(m), t) == ParseNumber(m, t)
  {
  }

  lemma {:induction false} ValueFollows(m: Reader, t: Text)
    ensures Follows(t, ParseValue(m, t), ParseValue(Tight(m), t))
    decreases |t|, 0
  {
    hide Crosses, ParseArray, ParseObject, ParseString, ParseNumber, Lit;
    WordsLettered();
    TightNumber(m, t);
    if t == [] {
    } else if Lit("null") <= t {
      CrossesWord(t, Lit("null"));
    } else if Lit("true") <= t {
      CrossesWord(t, Lit("true"));
    } else if Lit("false") <= t {
      CrossesWord(t, Lit("false"));
    } else if t[0] == QUOTE {
      if ParseString(t[1..]).Some? {
        CrossesLiteral(t);
      }
    } else if t[0] == OPEN_ARRAY {
      ArrayFollows(m, t[1..]);
      CharFollows(t, ParseArray(m, Skip(m, t[1..])), ParseArray(Tight(m), t[1..]));
    } else if t[0] == OPEN_OBJECT {
      ObjectFollows(m, t[1..]);
      CharFollows(t, ParseObject(m, Skip(m, t[1..])), ParseObject(Tight(m), t[1..]));
    } else if m.floats.Some? && NAN <= t {
      CrossesWord(t, NAN);
    } else if m.floats.Some? && INFINITY <= t {
      CrossesWord(t, INFINITY);
    } else if m.floats.Some? && MINUS_INFINITY <= t {
      CrossesWord(t, MINUS_INFINITY);
    } else if ParseNumber(m, t).Some? {
      CrossesToken(m, t);
    }
  }

  lemma SkippedValueFollows(m: Reader, t: Text)
    ensures Follows(t, ParseValue(m, Skip(m, t)), ParseValue(Tight(m), t))
    decreases |t|, 1
  {
    var u := Skip(m, t);
    ValueFollows(m, u);
    TightAfterSkip(m, t);
    if u != t {
      TightStart(Tight(m), t);
    }
    SkipFollows(m, t, ParseValue(m, u), ParseValue(Tight(m), u), ParseValue(Tight(m), t));
  }

  lemma {:induction false} ArrayFollows(m: Reader, t: Text)
    ensures Follows(t, ParseArray(m, Skip(m, t)), ParseArray(Tight(m), t))
    decreases |t|, 5
  {
    var u := Skip(m, t);
    if u != [] && u[0] == CLOSE_ARRAY {
      CrossesChar(u);
    } else {
      ItemsFollow(m, u);
    }
    TightAfterSkip(m, t);
    if u != t {
      TightStart(Tight(m), t);
    }
    SkipFollows(m, t, ParseArray(m, u), ParseArray(Tight(m), u), ParseArray(Tight(m), t));
  }

  lemma {:induction false} ItemsFollow(m: Reader, t: Text)
    ensures Follows(t, ParseItems(m, t), ParseItems(Tight(m), t))
    decreases |t|, 4
  {
    ValueFollows(m, t);
    if ParseValue(m, t).Some? {
      var a := ParseValue(m, t).value.1;
      MoreItemsFollow(m, a);
      if ParseItems(m, t).Some? {
        CrossesThen(t, a, ParseItems(m, t).value.1,
                    ParseValue(Tight(m), t).Some?, MoreItems(Tight(m), a).Some?);
      }
    }
  }

  lemma {:induction false} MoreItemsFollow(m: Reader, t: Text)
    ensures Follows(t, MoreItems(m, Skip(m, t)), MoreItems(Tight(m), t))
    decreases |t|, 3
  {
    var u := Skip(m, t);
    if u != [] && u[0] == CLOSE_ARRAY {
      CrossesChar(u);
    } else if u != [] && u[0] == COMMA {
      var w := Skip(m, u[1..]);
      ItemsFollow(m, w);
      TightAfterSkip(m, u[1..]);
      if w != u[1..] {
        TightStart(Tight(m), u[1..]);
      }
      SkipFollows(m, u[1..], ParseItems(m, w), ParseItems(Tight(m), w), ParseItems(Tight(m), u[1..]));
      CharFollows(u, ParseItems(m, w), ParseItems(Tight(m), u[1..]));
    }
    TightAfterSkip(m, t);
    if u != t {
      TightStart(Tight(m), t);
    }
    SkipFollows(m, t, MoreItems(m, u), MoreItems(Tight(m), u), MoreItems(Tight(m), t));
  }

  lemma {:induction false} ObjectFollows(m: Reader, t: Text)
    ensures Follows(t, ParseObject(m, Skip(m, t)), ParseObject(Tight(m), t))
    decreases |t|, 5
  {
    var u := Skip(m, t);
    if u != [] && u[0] == CLOSE_OBJECT {
      CrossesChar(u);
    } else {
      PairsFollow(m, u);
    }
    TightAfterSkip(m, t);
    if u != t {
      TightStart(Tight(m), t);
    }
    SkipFollows(m, t, ParseObject(m, u), ParseObject(Tight(m), u), ParseObject(Tight(m), t));
  }

  lemma {:induction false} PairsFollow(m: Reader, t: Text)
    ensures Follows(t, ParsePairs(m, t), ParsePairs(Tight(m), t))
    decreases |t|, 4
  {
    PairFollows(m, t);
    if ParsePair(m, t).Some? {
      var a := ParsePair(m, t).value.1;
      MorePairsFollow(m, a);
      if ParsePairs(m, t).Some? {
        CrossesThen(t, a, ParsePairs(m, t).value.1,
                    ParsePair(Tight(m), t).Some?, MorePairs(Tight(m), a).Some?);
      }
    }
  }

  lemma {:induction false} MorePairsFollow(m: Reader, t: Text)
    ensures Follows(t, MorePairs(m, Skip(m, t)), MorePairs(Tight(m), t))
    decreases |t|, 3
  {
    var u := Skip(m, t);
    if u != [] && u[0] == CLOSE_OBJECT {
      CrossesChar(u);
    } else if u != [] && u[0] == COMMA {
      var w := Skip(m, u[1..]);
      PairsFollow(m, w);
      TightAfterSkip(m, u[1..]);
      if w != u[1..] {
        TightStart(Tight(m), u[1..]);
      }
      SkipFollows(m, u[1..], ParsePairs(m, w), ParsePairs(Tight(m), w), ParsePairs(Tight(m), u[1..]));
      CharFollows(u, ParsePairs(m, w), ParsePairs(Tight(m), u[1..]));
    }
    TightAfterSkip(m, t);
    if u != t {
      TightStart(Tight(m), t);
    }
    SkipFollows(m, t, MorePairs(m, u), MorePairs(Tight(m), u), MorePairs(Tight(m), t));
  }

  lemma {:induction false} PairFollows(m: Reader, t: Text)
    ensures Follows(t, ParsePair(m, t), ParsePair(Tight(m), t))
    decreases |t|, 3
  {
    if t != [] && t[0] == QUOTE && ParseString(t[1..]).Some? {
      var a := ParseString(t[1..]).value.1;
      CrossesLiteral(t);
      MemberFollows(m, a);
      if ParsePair(m, t).Some? {
        CrossesThen(t, a, ParsePair(m, t).value.1, true, ParseMember(Tight(m), a).Some?);
      }
    }
  }

  lemma {:induction false} MemberFollows(m: Reader, t: Text)
    ensures Follows(t, ParseMember(m, Skip(m, t)), ParseMember(Tight(m), t))
    decreases |t|, 2
  {
    var u := Skip(m, t);
    if u != [] && u[0] == COLON {
      SkippedValueFollows(m, u[1..]);
      CharFollows(u, ParseValue(m, Skip(m, u[1..])), ParseValue(Tight(m), u[1..]));
    }
    TightAfterSkip(m, t);
    if u != t {
      TightStart(Tight(m), t);
    }
    SkipFollows(m, t, ParseMember(m, u), ParseMember(Tight(m), u), ParseMember(Tight(m), t));
  }

  // ----- main results

  /** On a text that loads, the scan answers exactly whether whitespace had to be skipped. */
  lemma CompactMeansTight(m: Reader, t: Text)
    requires Loads(m, t).Some?
    ensures Compact(t) <==> Loads(Tight(m), t).Some?
    ensures Compact(t) ==> Loads(Tight(m), t) == Loads(m, t)
    ensures Run(Outside, t) == Outside || Run(Outside, t) == Spaced
  {
    var r := ParseValue(m, Skip(m, t)).value.1;
    SkippedValueFollows(m, t);
    CrossesSkip(m, r);
    CrossesThen(t, r, [], ParseValue(Tight(m), t).Some?, r == []);
    assert Used(t, []) == t;
  }

  /** A text that stops inside a string literal does not load. */
  lemma UnclosedDoesNotLoad(m: Reader, t: Text)
    requires Run(Outside, t) == Inside || Run(Outside, t) == Escaped
    ensures Loads(m, t).None?
  {
    if Loads(m, t).Some? {
      CompactMeansTight(m, t);
    }
  }

  /** Whatever the canonical printers write is compact. */
  lemma PrintCompact(v: Value)
    requires Valid(v)
    ensures Compact(Print(Raw, v))
  {
    PlainReads(v);
    LoadsPrint(PLAIN, Raw, v);
    CompactMeansTight(PLAIN, Print(Raw, v));
  }

  /** `_parse_canonical_value` accepts a loaded text when it is canonical or compact: the
      first test never decides. */
  predicate AcceptsLayout(t: Text, parsed: Value) { CanonicalJson(parsed) == t || Compact(t) }

  lemma CanonicalTestRedundant(t: Text, parsed: Value)
    requires Valid(parsed)
    ensures AcceptsLayout(t, parsed) <==> Compact(t)
  {
    NormValid(ByCodePoint, parsed);
    PrintCompact(Norm(ByCodePoint, parsed));
  }
}
