/**
 The audit logs in the fields of their entries: what the lines of a text are, which logs verify,
 what an append writes, and which appends are refused.
 */
module AuditRules {
  import opened Wrappers
  import opened Unicode
  import opened Json
  import opened Canonical
  import opened Fields
  import opened PythonValues
  import opened AuditChain
  import opened AuditEntry
  import Ordering
  import ActiveAudit
  import ConsoleAudit

  // ----- lines

  /** A newline, a carriage return, both, or one of the other characters `str.splitlines` knows. */
  predicate Separator(k: Splitting, b: Text) {
    || b == Lit("\n") || b == Lit("\r") || b == Lit("\r\n")
    || (k.OfText? && |b| == 1 && b[0] in {0x0B, 0x0C, 0x1C, 0x1D, 0x1E, 0x85, 0x2028, 0x2029})
  }

  /** No character of the line separates. */
  predicate Unbroken(k: Splitting, line: Text) { forall i :: 0 <= i < |line| ==> !Separator(k, [line[i]]) }

  /** The text is these lines, each followed by its separator; the last may stand without one. */
  predicate Rejoins(k: Splitting, t: Text, lines: seq<Text>, seps: seq<Text>) {
    if lines == [] then t == [] && seps == []
    else
      && Unbroken(k, lines[0])
      && if seps == [] then lines == [t] && t != []
         else
           && Separator(k, seps[0]) && lines[0] + seps[0] <= t
           && var rest := t[|lines[0] + seps[0]|..];
              !(seps[0] == Lit("\r") && rest != [] && rest[0] == '\n' as int) && Rejoins(k, rest, lines[1..], seps[1..])
  }

  lemma BreaksAre(k: Splitting, c: nat)
    ensures IsLineBreak(k, c) <==> Separator(k, [c])
  {
    assert Lit("\n") == [10] && Lit("\r") == [13] && |Lit("\r\n")| == 2;
  }

  lemma SeparatorIs(k: Splitting, b: Text)
    ensures Separator(k, b) <==> (|b| == 1 && IsLineBreak(k, b[0])) || b == [13, 10]
  {
    assert Lit("\n") == [10] && Lit("\r") == [13] && Lit("\r\n") == [13, 10];
  }

  lemma UnbrokenIs(k: Splitting, t: Text, i: nat)
    requires i <= |t| && Unbroken(k, t[..i]) && (i < |t| ==> IsLineBreak(k, t[i]))
    ensures FirstBreak(k, t) == i
  {
    hide Separator, IsLineBreak;
    forall j | 0 <= j < i
      ensures !IsLineBreak(k, t[j])
    {
      assert t[..i][j] == t[j];
      BreaksAre(k, t[j]);
    }
  }

  /** The lines of a text are exactly the ones that it is put together from. */
  lemma {:induction false} LinesExact(k: Splitting, t: Text, lines: seq<Text>, seps: seq<Text>)
    requires Rejoins(k, t, lines, seps)
    ensures SplitLines(k, t) == lines
    decreases |lines|
  {
    hide Separator, IsLineBreak, Lit;
    if lines == [] {
    } else if seps == [] {
      UnbrokenIs(k, t, |t|);
      assert t[..|t|] == t;
    } else {
      var used := |lines[0] + seps[0]|;
      FirstLine(k, t, lines[0], seps[0]);
      LinesExact(k, t[used..], lines[1..], seps[1..]);
    }
  }

  lemma FirstLine(k: Splitting, t: Text, line: Text, sep: Text)
    requires Unbroken(k, line) && Separator(k, sep) && line + sep <= t
    requires var rest := t[|line + sep|..]; !(sep == Lit("\r") && rest != [] && rest[0] == '\n' as int)
    ensures FirstBreak(k, t) == |line| < |t| && AfterBreak(t, |line|) == |line + sep| && t[..|line|] == line
  {
    hide Separator, IsLineBreak, Lit, Unbroken, FirstBreak;
    var i, used := |line|, |line + sep|;
    SeparatorIs(k, sep);
    CarriageReturn();
    BreaksAre(k, 13);
    IsBreak13(k);
    assert t[..used] == line + sep;
    assert t[..i] == line && t[i..used] == sep;
    assert t[i] == sep[0];
    UnbrokenIs(k, t, i);
    assert |sep| == 2 ==> t[i + 1] == sep[1];
    assert used < |t| ==> t[used..][0] == t[used];
  }

  lemma CarriageReturn()
    ensures Lit("\r") == [13]
  {
  }

  lemma IsBreak13(k: Splitting)
    ensures IsLineBreak(k, 13)
  {
  }

  lemma {:induction false} LinesRejoin(k: Splitting, t: Text) returns (seps: seq<Text>)
    ensures Rejoins(k, t, SplitLines(k, t), seps)
    decreases |t|
  {
    hide Separator, IsLineBreak, Lit;
    var i := FirstBreak(k, t);
    forall j | 0 <= j < i
      ensures !Separator(k, [t[j]])
    {
      BreaksAre(k, t[j]);
    }
    if t == [] {
      seps := [];
    } else if i == |t| {
      assert t[..i] == t;
      seps := [];
    } else {
      var j := AfterBreak(t, i);
      var more := LinesRejoin(k, t[j..]);
      seps := [t[i..j]] + more;
      CarriageReturn();
      SeparatorIs(k, t[i..j]);
      assert t[..i] + t[i..j] == t[..j];
      assert seps[1..] == more && SplitLines(k, t)[1..] == SplitLines(k, t[j..]);
      assert t[j..] != [] ==> t[j..][0] == t[j];
    }
  }

  // ----- the chain

  /** Plain `json.loads`: white space is skipped, and of repeated keys the last one counts. */
  function Tolerant(h: Host): Reader { Reader(spaces := true, repeats := true, floats := Some(h.python.floats)) }

  /** rest holds the same entries except the one for the key. */
  ghost predicate Without(es: seq<Entry>, name: string, rest: seq<Entry>) {
    UniqueKeys(rest) && forall e :: e in rest <==> e in es && e.key != Lit(name)
  }

  /** The hash stands for these entries. */
  ghost predicate Hashes(h: Host, prefix: Text, es: seq<Entry>, hash: Text) {
    Scalar(CanonicalJson(Obj(es))) && hash == prefix + h.sha256(Utf8(CanonicalJson(Obj(es))))
  }

  /** The line is a dict that names what comes before it and holds the hash of all else in it. */
  ghost predicate Links(h: Host, prefix: Text, line: Text, previous: Value, hash: Text) {
    exists es, rest ::
      && Loads(Tolerant(h), line) == Some(Obj(es))
      && Field(es, "previousEntryHash") == previous && Field(es, "entryHash") == Str(hash)
      && Without(es, "entryHash", rest) && Hashes(h, prefix, rest, hash)
  }

  lemma RestHashes(h: Host, prefix: Text, es: seq<Entry>, rest: seq<Entry>)
    requires Valid(Obj(es)) && Without(es, "entryHash", rest)
    ensures CanonicalJson(Obj(rest)) == CanonicalJson(Obj(Remove(es, ENTRY_HASH)))
  {
    hide Lit, CanonicalJson;
    var gone := Remove(es, ENTRY_HASH);
    RemoveValid(es, ENTRY_HASH);
    RemoveMembers(es, ENTRY_HASH);
    RestSame(rest, gone);
    CanonicalJsonInjective(Obj(rest), Obj(gone));
  }

  lemma RestSame(a: seq<Entry>, b: seq<Entry>)
    requires Valid(Obj(b)) && UniqueKeys(a) && forall e :: e in a <==> e in b
    ensures Valid(Obj(a)) && Same(Obj(a), Obj(b))
  {
    UniqueKeysNoDuplicates(a);
    UniqueKeysNoDuplicates(b);
    SizesAgree(a, b);
    forall e | e in a
      ensures exists f :: f in b && e.key == f.key && Same(e.value, f.value)
    {
      SameSelf(e.value);
    }
  }

  lemma SizesAgree(a: seq<Entry>, b: seq<Entry>)
    requires Ordering.NoDuplicates(a) && Ordering.NoDuplicates(b) && forall e :: e in a <==> e in b
    ensures |a| == |b|
  {
    if |a| >= |b| {
      Ordering.SubsetMultiset(a, b);
    } else {
      Ordering.SubsetMultiset(b, a);
    }
    assert |multiset(a)| == |a| && |multiset(b)| == |b|;
  }

  lemma SameSelf(v: Value)
    requires Valid(v)
    ensures Same(v, v)
  {
    CanonicalJsonInjective(v, v);
  }

  lemma PreviousField(es: seq<Entry>)
    requires Valid(Obj(es))
    ensures Get(Remove(es, ENTRY_HASH), PREVIOUS) == Field(es, "previousEntryHash")
    ensures Get(es, ENTRY_HASH) == Field(es, "entryHash")
    ensures Without(es, "entryHash", Remove(es, ENTRY_HASH))
  {
    NamesDiffer();
    var names := [Lit("schemaVersion"), Lit("timestamp"), EVENT_TYPE, Lit("details"), PREVIOUS, ENTRY_HASH];
    assert names[4] != names[5];
    hide Lit;
    FieldIs(es, "entryHash");
    FieldIs(es, "previousEntryHash");
    RemoveUnique(es, ENTRY_HASH);
    RemoveMembers(es, ENTRY_HASH);
    GetOther(es, ENTRY_HASH, PREVIOUS);
  }

  lemma {:induction false} GetOther(es: seq<Entry>, gone: Text, key: Text)
    requires gone != key
    ensures Get(Remove(es, gone), key) == Get(es, key)
  {
    if es == [] {
    } else {
      GetOther(es[1..], gone, key);
    }
  }

  lemma LinkIs(h: Host, prefix: Text, line: Text, previous: Value, hash: Text)
    ensures VerifyLine(h, prefix, line, previous) == Success(Str(hash)) <==> Links(h, prefix, line, previous, hash)
  {
    hide Loads, CanonicalJson, Scalar, Get, Field, Remove, Lit, Valid, Utf8;
    LoadsValid(Lax(h), line);
    if Loads(Lax(h), line).Some? && Loads(Lax(h), line).value.Obj? {
      var es := Loads(Lax(h), line).value.entries;
      PreviousField(es);
      forall rest | Without(es, "entryHash", rest)
        ensures CanonicalJson(Obj(rest)) == CanonicalJson(Obj(Remove(es, ENTRY_HASH)))
      {
        RestHashes(h, prefix, es, rest);
      }
      if VerifyLine(h, prefix, line, previous) == Success(Str(hash)) {
        assert Hashes(h, prefix, Remove(es, ENTRY_HASH), hash);
      }
    }
  }

  /** hashes[i] is the hash of line i, and line i names the one before it; the first names none. */
  ghost predicate LinkAt(h: Host, prefix: Text, lines: seq<Text>, hashes: seq<Text>, i: nat)
    requires i < |lines| == |hashes|
  {
    Links(h, prefix, lines[i], if i == 0 then Null else Str(hashes[i - 1]), hashes[i])
  }

  ghost predicate Chain(h: Host, prefix: Text, lines: seq<Text>, hashes: seq<Text>) {
    |hashes| == |lines| && forall i :: 0 <= i < |lines| ==> LinkAt(h, prefix, lines, hashes, i)
  }

  function LastOf(hashes: seq<Text>): Value { if hashes == [] then Null else Str(hashes[|hashes| - 1]) }

  ghost predicate ChainTo(h: Host, prefix: Text, lines: seq<Text>, last: Value) {
    exists hashes :: Chain(h, prefix, lines, hashes) && last == LastOf(hashes)
  }

  /** The lines verify exactly when they are a chain, up to the hash of the last one. */
  lemma {:induction false} ChainExact(h: Host, prefix: Text, lines: seq<Text>, last: Value)
    ensures VerifyLines(h, prefix, lines) == Success(last) <==> ChainTo(h, prefix, lines, last)
    decreases |lines|
  {
    hide Links, VerifyLine;
    if lines == [] {
      assert Chain(h, prefix, [], []) && LastOf([]) == Null;
    } else {
      var init, line := lines[..|lines| - 1], lines[|lines| - 1];
      forall previous
        ensures VerifyLines(h, prefix, init) == Success(previous) <==> ChainTo(h, prefix, init, previous)
      {
        ChainExact(h, prefix, init, previous);
      }
      forall previous, hash
        ensures VerifyLine(h, prefix, line, previous) == Success(Str(hash)) <==>
                  Links(h, prefix, line, previous, hash)
      {
        LinkIs(h, prefix, line, previous, hash);
      }
      if VerifyLines(h, prefix, lines) == Success(last) {
        ChainGrows(h, prefix, lines, last);
      }
      if hashes :| Chain(h, prefix, lines, hashes) && last == LastOf(hashes) {
        ChainShrinks(h, prefix, lines, hashes);
        var before := hashes[..|hashes| - 1];
        assert ChainTo(h, prefix, init, LastOf(before));
      }
    }
  }

  lemma ChainGrows(h: Host, prefix: Text, lines: seq<Text>, last: Value)
    requires lines != [] && VerifyLines(h, prefix, lines) == Success(last)
    requires forall previous :: VerifyLines(h, prefix, lines[..|lines| - 1]) == Success(previous) ==>
               ChainTo(h, prefix, lines[..|lines| - 1], previous)
    ensures ChainTo(h, prefix, lines, last)
  {
    hide Links, VerifyLine;
    var init := lines[..|lines| - 1];
    VerifiedHash(h, prefix, lines);
    var previous := VerifyLines(h, prefix, init).value;
    var before :| Chain(h, prefix, init, before)
                  && previous == LastOf(before);
    LinkIs(h, prefix, lines[|lines| - 1], previous, last.s);
    var hashes := before + [last.s];
    assert Chain(h, prefix, lines, hashes) by {
      forall i | 0 <= i < |init|
        ensures LinkAt(h, prefix, lines, hashes, i)
      {
        assert LinkAt(h, prefix, init, before, i);
      }
    }
    assert last == LastOf(hashes);
  }

  lemma ChainShrinks(h: Host, prefix: Text, lines: seq<Text>, hashes: seq<Text>)
    requires lines != [] && Chain(h, prefix, lines, hashes)
    ensures Chain(h, prefix, lines[..|lines| - 1], hashes[..|hashes| - 1])
    ensures Links(h, prefix, lines[|lines| - 1], if |lines| == 1 then Null else Str(hashes[|lines| - 2]),
                  hashes[|lines| - 1])
  {
    hide Links;
    var init, before := lines[..|lines| - 1], hashes[..|hashes| - 1];
    forall i | 0 <= i < |init|
      ensures LinkAt(h, prefix, init, before, i)
    {
      assert LinkAt(h, prefix, lines, hashes, i);
    }
    assert LinkAt(h, prefix, lines, hashes, |init|);
  }

  /** What is wrong with a line that does not continue the chain: it is not JSON, not a dict, names
      something else before it, holds what cannot be encoded, or another hash than its own. */
  lemma LineRefused(h: Host, prefix: Text, line: Text, previous: Value, rest: seq<Entry>)
    ensures var loaded, r := Loads(Tolerant(h), line), VerifyLine(h, prefix, line, previous);
            if loaded.None? then r == Failure(BadJson)
            else if !loaded.value.Obj? then r == Failure(NotAnObject)
            else if Field(loaded.value.entries, "previousEntryHash") != previous then r == Failure(LinkMismatch)
            else Without(loaded.value.entries, "entryHash", rest) && r.Failure? ==>
                r.error == if Scalar(CanonicalJson(Obj(rest))) then HashMismatch else NotEncodable
  {
    hide Loads, CanonicalJson, Scalar, Get, Field, Remove, Lit, Valid, Utf8, Without;
    LoadsValid(Lax(h), line);
    if Loads(Lax(h), line).Some? && Loads(Lax(h), line).value.Obj? {
      var es := Loads(Lax(h), line).value.entries;
      PreviousField(es);
      if Without(es, "entryHash", rest) {
        RestHashes(h, prefix, es, rest);
      }
    }
  }

  // ----- the logs

  /** The console log verifies exactly when it exists and its lines, one at least, are a chain. */
  lemma ConsoleExact(h: Host, log: Option<Text>, summary: ConsoleAudit.Summary)
    ensures ConsoleAudit.Verified(h, log) == Success(summary) <==>
              && log.Some? && SplitLines(OfText, log.value) != [] && summary.count == |SplitLines(OfText, log.value)|
              && exists hashes :: Chain(h, Lit("sha256:"), SplitLines(OfText, log.value), hashes)
                                  && hashes != [] && summary.finalHash == Str(hashes[|hashes| - 1])
    ensures log.None? ==> ConsoleAudit.Verified(h, log) == Failure(NoLog)
    ensures log.Some? && SplitLines(OfText, log.value) == [] ==> ConsoleAudit.Verified(h, log) == Failure(EmptyLog)
  {
    hide VerifyLine, Links, SplitLines, Lit;
    if log.Some? {
      ChainExact(h, ConsoleAudit.PREFIX, SplitLines(OfText, log.value), summary.finalHash);
    }
  }

  /** The archive's copy is accepted exactly when it is such a chain that ends in the recorded hash. */
  lemma ArchivedExact(h: Host, text: Text, expected: Text)
    ensures ConsoleAudit.Archived(h, text, expected).Success? <==>
              exists hashes :: Chain(h, Lit("sha256:"), SplitLines(OfText, text), hashes)
                               && hashes != [] && hashes[|hashes| - 1] == expected
    ensures SplitLines(OfText, text) == [] ==> ConsoleAudit.Archived(h, text, expected) == Failure(EmptyLog)
  {
    hide VerifyLine, Links, SplitLines, Lit;
    ChainExact(h, ConsoleAudit.PREFIX, SplitLines(OfText, text), Str(expected));
  }

  /** The line is a dict whose event has this type. */
  ghost predicate Records(h: Host, line: Text, event: string) {
    exists es :: Loads(Tolerant(h), line) == Some(Obj(es)) && Field(es, "eventType") == Str(Lit(event))
  }

  lemma RecordsIs(h: Host, line: Text, event: string)
    ensures EventType(h, line) == Str(Lit(event)) <==> Records(h, line, event)
  {
    hide Loads, Lit, Field, Get, Remove;
    LoadsValid(Lax(h), line);
    NamesApart();
    if Loads(Lax(h), line).Some? && Loads(Lax(h), line).value.Obj? {
      var es := Loads(Lax(h), line).value.entries;
      FieldIs(es, "eventType");
      GetOther(es, ENTRY_HASH, EVENT_TYPE);
    }
  }

  lemma NamesApart()
    ensures ENTRY_HASH != EVENT_TYPE
  {
    assert ENTRY_HASH[1] == 'n' as int && EVENT_TYPE[1] == 'v' as int;
  }

  /** The active-validation log verifies exactly when its lines, one at least, are a chain that opens
      with the loaded authorization and closes with the completed run. */
  lemma ActiveExact(h: Host, lines: seq<Text>, count: nat)
    ensures ActiveAudit.VerifyLog(h, lines) == Success(count) <==>
              && lines != [] && count == |lines| && (exists hashes :: Chain(h, [], lines, hashes))
              && Records(h, lines[0], "authorization_loaded") && Records(h, lines[|lines| - 1], "run_completed")
    ensures (exists i :: 0 <= i < |lines| && Loads(Tolerant(h), lines[i]).None?) ==>
              ActiveAudit.VerifyLog(h, lines) == Failure(BadJson)
    ensures lines == [] ==> ActiveAudit.VerifyLog(h, lines) == Failure(EmptyLog)
  {
    hide VerifyLine, Links, Loads, Lit, Records, EventType;
    forall last
      ensures VerifyLines(h, [], lines) == Success(last) <==>
                exists hashes :: Chain(h, [], lines, hashes)
                                 && last == if hashes == [] then Null else Str(hashes[|hashes| - 1])
    {
      ChainExact(h, [], lines, last);
    }
    if VerifyLines(h, [], lines).Success? {
      ActiveAudit.ChainLoads(h, [], lines);
    }
    if lines != [] {
      RecordsIs(h, lines[0], "authorization_loaded");
      RecordsIs(h, lines[|lines| - 1], "run_completed");
    }
    if hashes :| Chain(h, [], lines, hashes) {
      assert VerifyLines(h, [], lines) == Success(if hashes == [] then Null else Str(hashes[|hashes| - 1]));
    }
    assert forall i :: 0 <= i < |lines| ==> lines[i] in lines;
  }

  // ----- appending

  /** A value that Python takes for false. */
  predicate Falsy(h: Host, v: Value) {
    || v == Null || v == Bool(false) || v == Int(0) || v == Str([]) || v == Arr([]) || v == Obj([])
    || (v.Float? && h.python.floats.whole(v.repr) == Some(0))
  }

  /** The hash that an append reads off a line: what it holds as its own hash, if anything. */
  ghost predicate HashRead(h: Host, line: Text, previous: Value) {
    exists es ::
      && Loads(Tolerant(h), line) == Some(Obj(es))
      && var v := Field(es, "entryHash");
         if v.Str? then previous == if v.s == [] then Null else v
         else if Falsy(h, v) || PyStr(h.python, v) == [] then previous == Null
         else previous == Str(PyStr(h.python, v))
  }

  lemma FalsyIs(h: Host, v: Value)
    ensures Truthy(h.python.floats, v) <==> !Falsy(h, v)
  {
  }

  /** The five fields an entry starts with. */
  function Start(version: string, timestamp: Text, event: Text, details: seq<Entry>, previous: Value): seq<Entry> {
    [ Entry(Lit("schemaVersion"), Str(Lit(version))), Entry(Lit("timestamp"), Str(timestamp)),
      Entry(Lit("eventType"), Str(event)), Entry(Lit("details"), Obj(details)),
      Entry(Lit("previousEntryHash"), previous) ]
  }

  /** The line written and the hash returned for an entry that starts like this. */
  ghost predicate Writes(h: Host, prefix: Text, k: Style, body: seq<Entry>, line: Text, hash: Text) {
    && Hashes(h, prefix, body, hash)
    && line == Print(k, Norm(ByCodePoint, Obj(body + [Entry(Lit("entryHash"), Str(hash))])))
  }

  predicate ConsoleForbids(key: Text) {
    || key == Lit("evidence") || key == Lit("payload") || key == Lit("raw") || key == Lit("password")
    || key == Lit("token") || key == Lit("secret") || key == Lit("privateKey")
  }

  lemma ConsoleForbiddenIs(details: seq<Entry>)
    ensures ConsoleAudit.Forbidden(details) <==>
              exists i :: 0 <= i < |details| && ConsoleForbids(details[i].key)
  {
    hide Lit;
    forall key
      ensures key in ConsoleAudit.FORBIDDEN <==> ConsoleForbids(key)
    {
      var f := ConsoleAudit.FORBIDDEN;
      assert f[0] in f && f[1] in f && f[2] in f && f[3] in f && f[4] in f && f[5] in f && f[6] in f;
    }
    hide ConsoleForbids;
    if i :| 0 <= i < |details| && ConsoleForbids(details[i].key) {
      assert details[i] in details;
    }
  }

  /** The value the console's append links to: the hash read off the last line, or none. */
  ghost predicate ConsoleLinksTo(h: Host, log: Option<Text>, previous: Value) {
    if log.None? || SplitLines(OfText, log.value) == [] then previous == Null
    else
      var lines := SplitLines(OfText, log.value);
      HashRead(h, lines[|lines| - 1], previous)
  }

  lemma HashReadIs(h: Host, line: Text, previous: Value)
    ensures HashRead(h, line, previous) <==>
              && Loads(Lax(h), line).Some? && Loads(Lax(h), line).value.Obj?
              && var v := Get(Loads(Lax(h), line).value.entries, ENTRY_HASH);
                 previous == if Truthy(h.python.floats, v) && PyStr(h.python, v) != [] then Str(PyStr(h.python, v))
                             else Null
  {
    hide Loads, Field, Get, Lit, Valid, Truthy, Falsy, Repr;
    LoadsValid(Lax(h), line);
    if Loads(Lax(h), line).Some? && Loads(Lax(h), line).value.Obj? {
      var es := Loads(Lax(h), line).value.entries;
      PreviousField(es);
      FalsyIs(h, Get(es, ENTRY_HASH));
      EmptyFalsy(h, Get(es, ENTRY_HASH));
    }
  }

  lemma EmptyFalsy(h: Host, v: Value)
    ensures v.Str? ==> (Truthy(h.python.floats, v) <==> v.s != [])
  {
  }

  /** A console append is refused for a forbidden key, for a last line that is no dict, or for what
      cannot be encoded; otherwise it writes the entry of these six fields, linked to the last line. */
  lemma ConsoleAppendExact(h: Host, log: Option<Text>, timestamp: Text, event: Text, details: seq<Entry>, line: Text,
                           hash: Text)
    ensures var r := ConsoleAudit.Appended(h, log, timestamp, event, details);
            && (r == Success((line, hash)) <==>
                  && (forall i :: 0 <= i < |details| ==> !ConsoleForbids(details[i].key))
                  && exists previous ::
                       && ConsoleLinksTo(h, log, previous)
                       && Writes(h, Lit("sha256:"), Raw, Start("5.0", timestamp, event, details, previous), line, hash))
            && ((exists i :: 0 <= i < |details| && ConsoleForbids(details[i].key)) ==> r == Failure(ForbiddenKey))
  {
    hide Print, Norm, Loads, CanonicalJson, Scalar, Utf8, Lit, SplitLines, ConsoleForbids, HashRead, Get, Truthy, PyStr;
    ConsoleForbiddenIs(details);
    forall last, previous
      ensures HashRead(h, last, previous) <==>
                && Loads(Lax(h), last).Some? && Loads(Lax(h), last).value.Obj?
                && var v := Get(Loads(Lax(h), last).value.entries, ENTRY_HASH);
                   previous == if Truthy(h.python.floats, v) && PyStr(h.python, v) != [] then Str(PyStr(h.python, v))
                               else Null
    {
      HashReadIs(h, last, previous);
    }
    assert ConsoleAudit.FinalHash(h, log).Success? ==> ConsoleLinksTo(h, log, ConsoleAudit.FinalHash(h, log).value);
    assert forall previous :: ConsoleLinksTo(h, log, previous) ==>
             ConsoleAudit.FinalHash(h, log) == Success(previous);
  }

  predicate ActiveForbids(key: Text) {
    key == Lit("evidence") || key == Lit("rawEvidence") || key == Lit("payload") || key == Lit("eventData")
  }

  lemma ActiveForbiddenIs(details: seq<Entry>)
    ensures ActiveAudit.Forbidden(details) <==> exists i :: 0 <= i < |details| && ActiveForbids(details[i].key)
  {
    hide Lit;
    forall key
      ensures key in ActiveAudit.FORBIDDEN <==> ActiveForbids(key)
    {
      var f := ActiveAudit.FORBIDDEN;
      assert f[0] in f && f[1] in f && f[2] in f && f[3] in f;
    }
    hide ActiveForbids;
    if i :| 0 <= i < |details| && ActiveForbids(details[i].key) {
      assert details[i] in details;
    }
  }

  /** The line at i is the last one that is not only white space. */
  predicate LastFull(lines: seq<Text>, i: int) {
    && 0 <= i < |lines| && !ActiveAudit.Blank(lines[i])
    && forall j :: i < j < |lines| ==> ActiveAudit.Blank(lines[j])
  }

  lemma {:induction false} LastFullIs(lines: seq<Text>)
    ensures match ActiveAudit.LastWritten(lines)
            case None => forall i :: !LastFull(lines, i)
            case Some(line) => exists i :: LastFull(lines, i) && lines[i] == line
    ensures forall i :: LastFull(lines, i) ==> ActiveAudit.LastWritten(lines) == Some(lines[i])
    decreases |lines|
  {
    hide ActiveAudit.Blank;
    if lines == [] {
    } else {
      var init, last := lines[..|lines| - 1], |lines| - 1;
      LastFullIs(init);
      if ActiveAudit.Blank(lines[last]) {
        forall i
          ensures LastFull(lines, i) <==> LastFull(init, i)
          ensures LastFull(init, i) ==> init[i] == lines[i]
        {
        }
      } else {
        assert LastFull(lines, last);
      }
    }
  }

  /** The value the active log's append links to: the hash read off the last line that is not only white
      space, or none. */
  ghost predicate ActiveLinksTo(h: Host, text: Text, previous: Value) {
    var lines := SplitLines(OfFile, text);
    || (exists i :: LastFull(lines, i) && HashRead(h, lines[i], previous))
    || ((forall i :: !LastFull(lines, i)) && previous == Null)
  }

  /** An append to the active log is refused for a forbidden key, for sensitive details, for a last line
      that is no dict, or for what cannot be encoded; otherwise it writes the entry of these six fields
      in ASCII, linked to the last line. */
  lemma ActiveAppendExact(h: Host, clean: Value -> bool, text: Text, e: Event, line: Text, hash: Text)
    ensures var r := ActiveAudit.Appended(h, clean, text, e);
            && (r == Success((line, hash)) <==>
                  && (forall i :: 0 <= i < |e.details| ==> !ActiveForbids(e.details[i].key)) && clean(Obj(e.details))
                  && exists previous ::
                       && ActiveLinksTo(h, text, previous)
                       && Writes(h, [], Ascii, Start("1.0", e.timestamp, e.event, e.details, previous), line, hash))
            && ((exists i :: 0 <= i < |e.details| && ActiveForbids(e.details[i].key)) ==> r == Failure(ForbiddenKey))
            && ((forall i :: 0 <= i < |e.details| ==> !ActiveForbids(e.details[i].key)) && !clean(Obj(e.details)) ==>
                  r == Failure(SensitiveDetail))
  {
    hide Print, Norm, Loads, CanonicalJson, Scalar, Utf8, Lit, SplitLines, ActiveForbids, ActiveLinksTo;
    ActiveForbiddenIs(e.details);
    forall previous
      ensures ActiveLinksTo(h, text, previous) <==> ActiveAudit.LastHash(h, text) == Success(previous)
    {
      ActiveLinkIs(h, text, previous);
    }
  }

  lemma ActiveLinkIs(h: Host, text: Text, previous: Value)
    ensures ActiveLinksTo(h, text, previous) <==> ActiveAudit.LastHash(h, text) == Success(previous)
  {
    hide Loads, SplitLines, HashRead, Get, Truthy, PyStr, ActiveAudit.Blank, ActiveAudit.LastWritten;
    var lines := SplitLines(OfFile, text);
    LastFullIs(lines);
    var last := ActiveAudit.LastWritten(lines);
    if last.Some? {
      HashReadIs(h, last.value, previous);
      var i :| LastFull(lines, i) && lines[i] == last.value;
    }
  }
}
