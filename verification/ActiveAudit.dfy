/**
 The active-validation audit log: the same chain without a digest prefix, written with every
 character escaped and read by file lines; a log only counts when it opens with the
 authorization and closes with the completed run.
 */
module ActiveAudit {
  import opened Wrappers
  import opened Unicode
  import opened Json
  import opened Canonical
  import opened PythonValues
  import opened PrintedText
  import opened CompactScanner
  import opened Fields
  import opened AuditChain
  import opened AuditEntry

  const NO_PREFIX: Text := []
  const VERSION := Lit("1.0")
  const START := Lit("authorization_loaded")
  const TERMINAL := Lit("run_completed")

  // ----- verifying

  /** `verify_audit_log` on the lines of the file. */
  function VerifyLog(h: Host, lines: seq<Text>): Result<nat, AuditError> {
    if exists l :: l in lines && Loads(Lax(h), l).None? then Failure(BadJson)
    else if lines == [] then Failure(EmptyLog)
    else
      var _ :- VerifyLines(h, NO_PREFIX, lines);
      if EventType(h, lines[0]) != Str(START) then Failure(MissingStart)
      else if EventType(h, lines[|lines| - 1]) != Str(TERMINAL) then Failure(MissingTerminal)
      else Success(|lines|)
  }

  method VerifyAuditLog(h: Host, lines: seq<Text>) returns (r: Result<nat, AuditError>)
    ensures r == VerifyLog(h, lines)
  {
    hide Loads, VerifyLine, EventType;
    var entries: seq<Value> := [];
    for i := 0 to |lines|
      invariant |entries| == i
      invariant forall k :: 0 <= k < i ==> Loads(Lax(h), lines[k]) == Some(entries[k])
    {
      var entry := Loads(Lax(h), lines[i]);
      if entry.None? {
        assert lines[i] in lines;
        return Failure(BadJson);
      }
      entries := entries + [entry.value];
    }
    if entries == [] {
      return Failure(EmptyLog);
    }
    var previous := Null;
    for i := 0 to |lines|
      invariant VerifyLines(h, NO_PREFIX, lines[..i]) == Success(previous)
    {
      VerifySnoc(h, NO_PREFIX, lines, i);
      var step := VerifyLine(h, NO_PREFIX, lines[i], previous);
      if step.Failure? {
        VerifyFails(h, NO_PREFIX, lines, i + 1);
        return Failure(step.error);
      }
      previous := step.value;
    }
    assert lines[..|lines|] == lines;
    if EventType(h, lines[0]) != Str(START) {
      return Failure(MissingStart);
    }
    if EventType(h, lines[|lines| - 1]) != Str(TERMINAL) {
      return Failure(MissingTerminal);
    }
    return Success(|lines|);
  }

  lemma LineLoads(h: Host, prefix: Text, line: Text, previous: Value)
    ensures VerifyLine(h, prefix, line, previous).Success? ==> Loads(Lax(h), line).Some?
  {
    hide Loads, Get, Remove, Digest;
  }

  /** Chain lines load, so the first test of the verifier is part of the chain. */
  lemma {:induction false} ChainLoads(h: Host, prefix: Text, lines: seq<Text>)
    requires VerifyLines(h, prefix, lines).Success?
    ensures forall l :: l in lines ==> Loads(Lax(h), l).Some?
  {
    hide VerifyLine, Loads;
    if lines == [] {
    } else {
      var init := lines[..|lines| - 1];
      ChainLoads(h, prefix, init);
      LineLoads(h, prefix, lines[|lines| - 1], VerifyLines(h, prefix, init).value);
      assert lines == init + [lines[|lines| - 1]];
    }
  }

  /** Unlike the console log, a proper prefix of a verified run verifies exactly when it
      too ends in the terminal event. */
  lemma PrefixNeedsTerminal(h: Host, lines: seq<Text>, n: nat)
    requires VerifyLog(h, lines).Success? && 0 < n <= |lines|
    ensures VerifyLog(h, lines[..n]).Success? <==> EventType(h, lines[n - 1]) == Str(TERMINAL)
    ensures VerifyLog(h, lines[..n]).Success? ==> VerifyLog(h, lines[..n]) == Success(n)
  {
    hide Loads, VerifyLine, EventType;
    PrefixVerifies(h, NO_PREFIX, lines, n);
    ChainLoads(h, NO_PREFIX, lines[..n]);
  }

  /** The final hash commits to the run: same entries in the same number, or a collision. */
  lemma RunCommits(h: Host, a: seq<Text>, b: seq<Text>) returns (x: Bytes, y: Bytes)
    requires VerifyLog(h, a).Success? && VerifyLog(h, b).Success?
    requires VerifyLines(h, NO_PREFIX, a) == VerifyLines(h, NO_PREFIX, b)
    ensures Collision(h, x, y) || (SameEntries(h, a, b) && VerifyLog(h, a) == VerifyLog(h, b))
  {
    x, y := FinalHashCommits(h, NO_PREFIX, a, b);
  }

  // ----- appending

  const FORBIDDEN: seq<Text> := [Lit("evidence"), Lit("rawEvidence"), Lit("payload"), Lit("eventData")]

  predicate Forbidden(details: seq<Entry>) { exists e :: e in details && e.key in FORBIDDEN }

  predicate Blank(line: Text) { forall c :: c in line ==> IsSpace(c) }

  /** The last line that is not blank. */
  function LastWritten(lines: seq<Text>): Option<Text> {
    if lines == [] then None
    else if !Blank(lines[|lines| - 1]) then Some(lines[|lines| - 1])
    else LastWritten(lines[..|lines| - 1])
  }

  /** `_last_hash`. */
  function LastHash(h: Host, text: Text): Result<Value, AuditError> {
    match LastWritten(SplitLines(OfFile, text))
    case None => Success(Null)
    case Some(line) =>
      match Loads(Lax(h), line)
      case Some(Obj(es)) =>
        var v := Get(es, ENTRY_HASH);
        if Truthy(h.python.floats, v) && PyStr(h.python, v) != [] then Success(Str(PyStr(h.python, v)))
        else Success(Null)
      case _ => Failure(BadJson)
  }

  /** The line an append writes and the hash it returns; clean is the scan for sensitive
      details. A file that is not there yet is an empty text. */
  function Appended(h: Host, clean: Value -> bool, text: Text, e: Event): Result<(Text, Text), AuditError> {
    if Forbidden(e.details) then Failure(ForbiddenKey)
    else if !clean(Obj(e.details)) then Failure(SensitiveDetail)
    else
      var previous :- LastHash(h, text);
      WriteEntry(h, NO_PREFIX, Ascii, Body(VERSION, e.timestamp, e.event, e.details, previous))
  }

  class AuditLog {
    const host: Host
    const clean: Value -> bool
    var text: Text

    constructor (host: Host, clean: Value -> bool)
      ensures this.host == host && this.clean == clean && text == []
    {
      this.host, this.clean, text := host, clean, [];
    }

    /** The loop over the lines of the file. */
    method ReadLastHash() returns (r: Result<Value, AuditError>)
      ensures r == LastHash(host, text)
    {
      hide Loads, SplitLines, Blank;
      var lines := SplitLines(OfFile, text);
      var last: Option<Text> := None;
      for i := 0 to |lines|
        invariant last == LastWritten(lines[..i])
      {
        assert lines[..i + 1][..i] == lines[..i];
        if !Blank(lines[i]) {
          last := Some(lines[i]);
        }
      }
      assert lines[..|lines|] == lines;
      if last.None? {
        return Success(Null);
      }
      var entry := Loads(Lax(host), last.value);
      if entry.None? || !entry.value.Obj? {
        return Failure(BadJson);
      }
      var stored := Get(entry.value.entries, ENTRY_HASH);
      if Truthy(host.python.floats, stored) && PyStr(host.python, stored) != [] {
        return Success(Str(PyStr(host.python, stored)));
      }
      return Success(Null);
    }

    method Append(e: Event) returns (r: Result<Text, AuditError>)
      modifies this
      ensures var entry := Appended(host, clean, old(text), e);
              if entry.Success? then r == Success(entry.value.1) && text == old(text) + entry.value.0 + [10]
              else r == Failure(entry.error) && text == old(text)
    {
      hide CanonicalJson, Line, LastHash, Scalar;
      if Forbidden(e.details) {
        return Failure(ForbiddenKey);
      }
      if !clean(Obj(e.details)) {
        return Failure(SensitiveDetail);
      }
      var previous := ReadLastHash();
      if previous.Failure? {
        return Failure(previous.error);
      }
      var entry := Body(VERSION, e.timestamp, e.event, e.details, previous.value);
      var digest := Digest(host, NO_PREFIX, Obj(entry));
      if digest.None? {
        return Failure(NotEncodable);
      }
      entry := Hashed(entry, digest.value);
      text := text + Line(Ascii, entry) + [10];
      return Success(digest.value);
    }
  }

  // ----- what an append reads

  lemma {:induction false} SkipMembers(m: Reader, t: Text)
    ensures forall c :: c in Skip(m, t) ==> c in t
  {
    if m.spaces && t != [] && IsJsonSpace(t[0]) {
      SkipMembers(m, t[1..]);
    }
  }

  lemma BlankDoesNotLoad(m: Reader, line: Text)
    requires Blank(line)
    ensures Loads(m, line).None?
  {
    hide ParseArray, ParseObject, ParseString;
    var u := Skip(m, line);
    SkipMembers(m, line);
    if u == [] {
    } else {
      assert IsSpace(u[0]);
      NotKeyword(u);
      assert NAN[0] == 78 && INFINITY[0] == 73 && MINUS_INFINITY[0] == MINUS;
      assert ParseValue(m, u).None?;
    }
  }

  /** A verified log hands its final hash to the next append. */
  lemma LastHashOfVerified(h: Host, text: Text)
    requires Hexadecimal(h) && VerifyLines(h, NO_PREFIX, SplitLines(OfFile, text)).Success?
    ensures LastHash(h, text) == VerifyLines(h, NO_PREFIX, SplitLines(OfFile, text))
  {
    hide SplitLines, Loads, Blank, CanonicalJson, Get, Remove;
    var lines := SplitLines(OfFile, text);
    if lines == [] {
    } else {
      var last := lines[|lines| - 1];
      var previous := LastLine(h, NO_PREFIX, lines);
      if Blank(last) {
        BlankDoesNotLoad(Lax(h), last);
        assert false;
      }
      var es := Loads(Lax(h), last).value.entries;
      var x := Utf8(CanonicalJson(Obj(Remove(es, ENTRY_HASH))));
      assert Get(es, ENTRY_HASH) == Str(NO_PREFIX + h.sha256(x));
    }
  }

  // ----- appending keeps the chain

  lemma EscapedLine(k: Splitting, es: seq<Entry>)
    requires Valid(Obj(es)) && AllScalar(Obj(es)) && k.OfFile?
    ensures SplitLines(k, Line(Ascii, es) + [10]) == [Line(Ascii, es)]
  {
    hide SplitLines, Print, Norm, Graphic;
    var n := Norm(ByCodePoint, Obj(es));
    NormValid(ByCodePoint, Obj(es));
    NormScalar(ByCodePoint, Obj(es));
    AsciiGraphic(n);
    forall c | c in Line(Ascii, es)
      ensures !IsLineBreak(k, c)
    {
      GraphicNoBreak(k, c);
    }
    SplitOne(k, Line(Ascii, es));
  }

  lemma GraphicNoBreak(k: Splitting, c: nat)
    requires Graphic(c) && k.OfFile?
    ensures !IsLineBreak(k, c)
  {
  }

  /** Every append that returns continues the chain, whatever characters the event holds; the
      returned hash is the new final hash. */
  lemma AppendExtends(h: Host, clean: Value -> bool, text: Text, e: Event, line: Text, digest: Text)
    requires Hexadecimal(h) && Proper(Lax(h), Obj(e.details)) && Closed(text)
    requires VerifyLines(h, NO_PREFIX, SplitLines(OfFile, text)).Success?
    requires Appended(h, clean, text, e) == Success((line, digest))
    ensures var lines := SplitLines(OfFile, text);
            && SplitLines(OfFile, text + line + [10]) == lines + [line]
            && VerifyLines(h, NO_PREFIX, lines + [line]) == Success(Str(digest))
            && EventType(h, line) == Str(e.event)
  {
    hide SplitLines, VerifyLines, VerifyLine, EventType, Line, Valid, ReadsBack, AllScalar, CanonicalJson, LastHash;
    hide Body, Hashed, Digest, Scalar, Forbidden;
    var lines := SplitLines(OfFile, text);
    var previous := VerifyLines(h, NO_PREFIX, lines).value;
    LastHashOfVerified(h, text);
    VerifiedHash(h, NO_PREFIX, lines);
    NoPrefixScalar();
    WrittenVerifies(h, NO_PREFIX, Ascii, VERSION, e.timestamp, e.event, e.details, previous);
    NextLineVerifies(h, NO_PREFIX, lines, line, previous, Str(digest));
    var body := Body(VERSION, e.timestamp, e.event, e.details, previous);
    HashedProper(Lax(h), VERSION, e.timestamp, e.event, e.details, previous, digest);
    HashedScalar(h, NO_PREFIX, body, digest);
    EscapedLine(OfFile, Hashed(body, digest));
    assert text + line + [10] == text + (line + [10]);
    SplitConcat(OfFile, text, line + [10]);
  }

  lemma NoPrefixScalar()
    ensures Scalar(NO_PREFIX)
  {
  }

  /** The event a log opens with, once another one is appended. */
  function Opening(h: Host, lines: seq<Text>, e: Event): Value {
    if lines == [] then Str(e.event) else EventType(h, lines[0])
  }

  /** After a successful append the log verifies exactly when it opens with the authorization
      and the new event is the terminal one; what was appended before need not have ended. */
  lemma AppendVerifies(h: Host, clean: Value -> bool, text: Text, e: Event, line: Text, digest: Text)
    requires Hexadecimal(h) && Proper(Lax(h), Obj(e.details)) && Closed(text)
    requires VerifyLines(h, NO_PREFIX, SplitLines(OfFile, text)).Success?
    requires Appended(h, clean, text, e) == Success((line, digest))
    ensures var lines, after := SplitLines(OfFile, text), VerifyLog(h, SplitLines(OfFile, text + line + [10]));
            && (after.Success? <==> Opening(h, lines, e) == Str(START) && e.event == TERMINAL)
            && (after.Success? ==> after == Success(|lines| + 1))
  {
    hide SplitLines, VerifyLines, EventType, Loads, Appended;
    var lines := SplitLines(OfFile, text);
    AppendExtends(h, clean, text, e, line, digest);
    ChainLoads(h, NO_PREFIX, lines + [line]);
    assert lines != [] ==> (lines + [line])[0] == lines[0];
  }

  // ----- whole runs

  /** The text after a run of appends; None once one of them raises. */
  function Written(h: Host, clean: Value -> bool, events: seq<Event>): Option<Text> {
    if events == [] then Some([])
    else
      var before :- Written(h, clean, events[..|events| - 1]);
      match Appended(h, clean, before, events[|events| - 1])
      case Success((line, _)) => Some(before + line + [10])
      case Failure(_) => None
  }

  /** The lines of a text record these events, in order and linked. */
  ghost predicate Records(h: Host, text: Text, events: seq<Event>) {
    var lines := SplitLines(OfFile, text);
    && Closed(text) && VerifyLines(h, NO_PREFIX, lines).Success? && |lines| == |events|
    && forall i :: 0 <= i < |events| ==> EventType(h, lines[i]) == Str(events[i].event)
  }

  lemma NothingRecorded(h: Host)
    ensures Records(h, [], [])
  {
  }

  lemma WrittenRecords(h: Host, clean: Value -> bool, text: Text, events: seq<Event>, e: Event)
    requires Hexadecimal(h) && Proper(Lax(h), Obj(e.details)) && Records(h, text, events)
    requires Appended(h, clean, text, e).Success?
    ensures Records(h, text + Appended(h, clean, text, e).value.0 + [10], events + [e])
  {
    hide SplitLines, VerifyLines, EventType, Appended, Proper;
    var (line, digest) := Appended(h, clean, text, e).value;
    AppendExtends(h, clean, text, e, line, digest);
  }

  lemma {:induction false} RunRecords(h: Host, clean: Value -> bool, events: seq<Event>)
    requires Hexadecimal(h) && forall e :: e in events ==> Proper(Lax(h), Obj(e.details))
    requires Written(h, clean, events).Some?
    ensures Records(h, Written(h, clean, events).value, events)
  {
    hide Appended, Records, Proper;
    if events == [] {
      NothingRecorded(h);
    } else {
      var init, e := events[..|events| - 1], events[|events| - 1];
      assert events == init + [e];
      RunRecords(h, clean, init);
      WrittenRecords(h, clean, Written(h, clean, init).value, init, e);
    }
  }

  /** Every log built by appends verifies, with one entry an event, exactly when its first
      event is the authorization and its last the completed run. */
  lemma RunVerifies(h: Host, clean: Value -> bool, events: seq<Event>)
    requires Hexadecimal(h) && forall e :: e in events ==> Proper(Lax(h), Obj(e.details))
    requires Written(h, clean, events).Some?
    ensures var after := VerifyLog(h, SplitLines(OfFile, Written(h, clean, events).value));
            && (after.Success? <==>
                  events != [] && events[0].event == START && events[|events| - 1].event == TERMINAL)
            && (after.Success? ==> after == Success(|events|))
  {
    hide Written, SplitLines, VerifyLines, EventType, Loads, Proper;
    RunRecords(h, clean, events);
    ChainLoads(h, NO_PREFIX, SplitLines(OfFile, Written(h, clean, events).value));
  }
}
