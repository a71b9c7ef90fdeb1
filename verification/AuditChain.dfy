/**
 The hash-chained audit logs, down to their text: splitting into lines, verifying, and what the
 final hash commits to. The digest function is a parameter; commitment is stated as
 "equal, or here are two byte strings with one digest".
 */
module AuditChain {
  import opened Wrappers
  import opened Unicode
  import opened Json
  import opened Canonical
  import opened Fields
  import opened PythonValues

  /** SHA-256 as a hexadecimal string, and the interpreter the log is read with. */
  datatype Host = Host(sha256: Bytes -> Text, python: Python)

  ghost predicate Hexadecimal(h: Host) {
    forall b :: h.sha256(b) != [] && forall c :: c in h.sha256(b) ==> HexValue(c).Some?
  }

  datatype AuditError =
    | NoLog
    | EmptyLog
    | BadJson
    | NotAnObject
    | LinkMismatch
    | HashMismatch
    | NotEncodable
    | ForbiddenKey
    | SensitiveDetail
    | WrongFinalHash
    | MissingStart
    | MissingTerminal

  /** Plain `json.loads`. */
  function Lax(h: Host): Reader { Reader(true, true, Some(h.python.floats)) }

  /** `sha256_value` writes a "sha256:" prefix, `sha256_digest` none. */
  function Digest(h: Host, prefix: Text, v: Value): Option<Text> {
    var text := CanonicalJson(v);
    if Scalar(text) then Some(prefix + h.sha256(Utf8(text))) else None
  }

  // ----- lines

  /** `str.splitlines`, or the lines a text file is read by, each without its newline. */
  datatype Splitting = OfText | OfFile

  predicate IsLineBreak(k: Splitting, c: nat) {
    c == 10 || c == 13
    || (k.OfText? && (11 <= c <= 12 || 28 <= c <= 30 || c == 0x85 || c == 0x2028 || c == 0x2029))
  }

  function FirstBreak(k: Splitting, t: Text): (i: nat)
    ensures i <= |t|
    ensures forall j :: 0 <= j < i ==> !IsLineBreak(k, t[j])
    ensures i < |t| ==> IsLineBreak(k, t[i])
  {
    if t == [] || IsLineBreak(k, t[0]) then 0 else 1 + FirstBreak(k, t[1..])
  }

  function AfterBreak(t: Text, i: nat): (j: nat)
    requires i < |t|
    ensures i < j <= |t|
  {
    if t[i] == 13 && i + 1 < |t| && t[i + 1] == 10 then i + 2 else i + 1
  }

  function SplitLines(k: Splitting, t: Text): seq<Text>
    decreases |t|
  {
    if t == [] then []
    else
      var i := FirstBreak(k, t);
      if i == |t| then [t] else [t[..i]] + SplitLines(k, t[AfterBreak(t, i)..])
  }

  predicate HasBreak(k: Splitting, t: Text) { exists c :: c in t && IsLineBreak(k, c) }

  /** What every append leaves behind: nothing, or a text closed by a newline. */
  predicate Closed(text: Text) { text == [] || text[|text| - 1] == 10 }

  lemma {:induction false} FirstBreakConcat(k: Splitting, a: Text, b: Text)
    requires FirstBreak(k, a) < |a|
    ensures FirstBreak(k, a + b) == FirstBreak(k, a)
    decreases |a|
  {
    assert (a + b)[0] == a[0];
    if !IsLineBreak(k, a[0]) {
      assert (a + b)[1..] == a[1..] + b;
      FirstBreakConcat(k, a[1..], b);
    }
  }

  lemma NoLines(k: Splitting)
    ensures SplitLines(k, []) == []
  {
  }

  lemma SplitNothing(k: Splitting, b: Text)
    ensures SplitLines(k, [] + b) == SplitLines(k, []) + SplitLines(k, b)
  {
    hide SplitLines;
    NoLines(k);
    calc {
      SplitLines(k, [] + b);
    == { assert [] + b == b; }
      SplitLines(k, b);
    ==
      [] + SplitLines(k, b);
    }
  }

  /** A text with a break is its first line and the lines of the rest. */
  lemma SplitFirst(k: Splitting, t: Text, i: nat)
    requires i == FirstBreak(k, t) < |t|
    ensures SplitLines(k, t) == [t[..i]] + SplitLines(k, t[AfterBreak(t, i)..])
  {
  }

  lemma SplitHead(k: Splitting, a: Text, b: Text, i: nat, j: nat)
    requires Closed(a) && i == FirstBreak(k, a) < |a| && j == AfterBreak(a, i)
    ensures SplitLines(k, a + b) == [a[..i]] + SplitLines(k, a[j..] + b)
  {
    hide SplitLines, FirstBreak;
    FirstBreakConcat(k, a, b);
    SplitFirst(k, a + b, i);
    assert AfterBreak(a + b, i) == j;
    assert (a + b)[..i] == a[..i] && (a + b)[j..] == a[j..] + b;
  }

  lemma ClosedHasBreak(k: Splitting, a: Text)
    requires Closed(a) && a != []
    ensures FirstBreak(k, a) < |a|
    ensures Closed(a[AfterBreak(a, FirstBreak(k, a))..])
  {
    hide FirstBreak;
  }

  /** A text closed by a newline splits on its own, whatever follows. */
  lemma {:induction false} SplitConcat(k: Splitting, a: Text, b: Text)
    requires Closed(a)
    ensures SplitLines(k, a + b) == SplitLines(k, a) + SplitLines(k, b)
    decreases |a|
  {
    hide SplitLines, FirstBreak, AfterBreak, Closed;
    if a == [] {
      SplitNothing(k, b);
    } else {
      ClosedHasBreak(k, a);
      var i := FirstBreak(k, a);
      var j := AfterBreak(a, i);
      var head, rest := [a[..i]], a[j..];
      calc {
        SplitLines(k, a + b);
      == { SplitHead(k, a, b, i, j); }
        head + SplitLines(k, rest + b);
      == { SplitConcat(k, rest, b); }
        head + (SplitLines(k, rest) + SplitLines(k, b));
      ==
        (head + SplitLines(k, rest)) + SplitLines(k, b);
      == { SplitFirst(k, a, i); }
        SplitLines(k, a) + SplitLines(k, b);
      }
    }
  }

  lemma SplitOne(k: Splitting, line: Text)
    requires !HasBreak(k, line)
    ensures SplitLines(k, line + [10]) == [line]
  {
    var t := line + [10];
    var i := FirstBreak(k, t);
    forall j | 0 <= j < |line|
      ensures !IsLineBreak(k, t[j])
    {
      assert line[j] in line;
    }
    assert t[|line|] == 10 && IsLineBreak(k, t[|line|]);
    assert i == |line|;
    assert t[..|line|] == line && t[|line| + 1..] == [];
  }

  // ----- the chain

  const ENTRY_HASH := Lit("entryHash")
  const PREVIOUS := Lit("previousEntryHash")

  /** One line: its stored hash, or what is wrong with it. */
  function VerifyLine(h: Host, prefix: Text, line: Text, previous: Value): Result<Value, AuditError> {
    match Loads(Lax(h), line)
    case None => Failure(BadJson)
    case Some(Obj(es)) =>
      var stored, body := Get(es, ENTRY_HASH), Remove(es, ENTRY_HASH);
      if Get(body, PREVIOUS) != previous then Failure(LinkMismatch)
      else (
        match Digest(h, prefix, Obj(body))
        case None => Failure(NotEncodable)
        case Some(d) => if stored != Str(d) then Failure(HashMismatch) else Success(stored)
      )
    case Some(_) => Failure(NotAnObject)
  }

  function VerifyLines(h: Host, prefix: Text, lines: seq<Text>): Result<Value, AuditError> {
    if lines == [] then Success(Null)
    else
      var previous :- VerifyLines(h, prefix, lines[..|lines| - 1]);
      VerifyLine(h, prefix, lines[|lines| - 1], previous)
  }

  lemma VerifySnoc(h: Host, prefix: Text, lines: seq<Text>, i: nat)
    requires i < |lines|
    ensures var before := VerifyLines(h, prefix, lines[..i]);
            VerifyLines(h, prefix, lines[..i + 1]) ==
            if before.Success? then VerifyLine(h, prefix, lines[i], before.value) else before
  {
    assert lines[..i + 1][..i] == lines[..i];
  }

  /** A failure at one line is the failure of the log. */
  lemma {:induction false} VerifyFails(h: Host, prefix: Text, lines: seq<Text>, i: nat)
    requires i <= |lines| && VerifyLines(h, prefix, lines[..i]).Failure?
    ensures VerifyLines(h, prefix, lines) == VerifyLines(h, prefix, lines[..i])
    decreases |lines|
  {
    if i == |lines| {
      assert lines[..i] == lines;
    } else {
      var init := lines[..|lines| - 1];
      assert init[..i] == lines[..i];
      VerifyFails(h, prefix, init, i);
    }
  }

  /** Everything before a verified line is verified. */
  lemma {:induction false} PrefixVerifies(h: Host, prefix: Text, lines: seq<Text>, i: nat)
    requires VerifyLines(h, prefix, lines).Success? && i <= |lines|
    ensures VerifyLines(h, prefix, lines[..i]).Success?
  {
    if i == |lines| {
      assert lines[..i] == lines;
    } else {
      var init := lines[..|lines| - 1];
      PrefixVerifies(h, prefix, init, i);
      assert init[..i] == lines[..i];
    }
  }

  // ----- commitment

  ghost predicate SameEntries(h: Host, a: seq<Text>, b: seq<Text>) {
    && |a| == |b|
    && forall i :: 0 <= i < |a| ==>
         && Loads(Lax(h), a[i]).Some? && Loads(Lax(h), b[i]).Some?
         && Same(Loads(Lax(h), a[i]).value, Loads(Lax(h), b[i]).value)
  }

  lemma SameEntriesConcat(h: Host, a: seq<Text>, b: seq<Text>, c: seq<Text>, d: seq<Text>)
    requires SameEntries(h, a, b) && SameEntries(h, c, d)
    ensures SameEntries(h, a + c, b + d)
  {
    forall i | |a| <= i < |a + c|
      ensures (a + c)[i] == c[i - |a|] && (b + d)[i] == d[i - |a|]
    {
    }
  }

  ghost predicate Collision(h: Host, x: Bytes, y: Bytes) { x != y && h.sha256(x) == h.sha256(y) }

  /** Two lines with one stored hash: the same entry on the same predecessor, or a collision. */
  lemma LineCommits(h: Host, prefix: Text, a: Text, b: Text, p: Value, q: Value) returns (x: Bytes, y: Bytes)
    requires VerifyLine(h, prefix, a, p).Success?
    requires VerifyLine(h, prefix, a, p) == VerifyLine(h, prefix, b, q)
    requires (p.Null? || p.Str?) && (q.Null? || q.Str?)
    ensures Collision(h, x, y) || (p == q && SameEntries(h, [a], [b]))
  {
    hide Same, Loads, CanonicalJson, Get, Remove, Utf8;
    var ea, eb := Loads(Lax(h), a).value.entries, Loads(Lax(h), b).value.entries;
    var ba, bb := Remove(ea, ENTRY_HASH), Remove(eb, ENTRY_HASH);
    var ta, tb := CanonicalJson(Obj(ba)), CanonicalJson(Obj(bb));
    x, y := Utf8(ta), Utf8(tb);
    assert prefix + h.sha256(x) == prefix + h.sha256(y);
    assert (prefix + h.sha256(x))[|prefix|..] == h.sha256(x) && (prefix + h.sha256(y))[|prefix|..] == h.sha256(y);
    if x == y {
      Utf8Injective(ta, tb);
      LoadsValid(Lax(h), a);
      LoadsValid(Lax(h), b);
      RemoveValid(ea, ENTRY_HASH);
      RemoveValid(eb, ENTRY_HASH);
      CanonicalJsonInjective(Obj(ba), Obj(bb));
      SameGetBoth(ba, bb, PREVIOUS);
      SameRestore(ea, eb, ENTRY_HASH);
    }
  }

  lemma VerifiedHash(h: Host, prefix: Text, lines: seq<Text>)
    requires VerifyLines(h, prefix, lines).Success?
    ensures if lines == [] then VerifyLines(h, prefix, lines).value == Null
            else VerifyLines(h, prefix, lines).value.Str?
  {
  }

  lemma LastLine(h: Host, prefix: Text, lines: seq<Text>) returns (previous: Value)
    requires VerifyLines(h, prefix, lines).Success? && lines != []
    ensures VerifyLines(h, prefix, lines[..|lines| - 1]) == Success(previous)
    ensures VerifyLine(h, prefix, lines[|lines| - 1], previous) == VerifyLines(h, prefix, lines)
    ensures previous.Null? || previous.Str?
    ensures previous.Null? <==> |lines| == 1
  {
    previous := VerifyLines(h, prefix, lines[..|lines| - 1]).value;
    VerifiedHash(h, prefix, lines[..|lines| - 1]);
  }

  /** Any two logs that verify to the same final hash hold the same entries in the same
      number, or a collision is exhibited. */
  lemma {:induction false} FinalHashCommits(h: Host, prefix: Text, a: seq<Text>, b: seq<Text>)
    returns (x: Bytes, y: Bytes)
    requires VerifyLines(h, prefix, a).Success?
    requires VerifyLines(h, prefix, a) == VerifyLines(h, prefix, b)
    ensures Collision(h, x, y) || SameEntries(h, a, b)
    decreases |a|
  {
    hide VerifyLine, Same, Loads;
    VerifiedHash(h, prefix, a);
    VerifiedHash(h, prefix, b);
    if a == [] {
      return [], [];
    }
    var p := LastLine(h, prefix, a);
    var q := LastLine(h, prefix, b);
    var ia, ib, la, lb := a[..|a| - 1], b[..|b| - 1], a[|a| - 1], b[|b| - 1];
    x, y := LineCommits(h, prefix, la, lb, p, q);
    if !Collision(h, x, y) {
      x, y := FinalHashCommits(h, prefix, ia, ib);
      if !Collision(h, x, y) {
        SameEntriesConcat(h, ia, ib, [la], [lb]);
        assert a == ia + [la] && b == ib + [lb];
      }
    }
  }
}
