/**
 `ConsoleAuditLog` and the archive's check of it. The log is one text; appending writes a
 canonical line and a newline, verifying splits the text the way `str.splitlines` does.
 */
module ConsoleAudit {
  import opened Wrappers
  import opened Unicode
  import opened Json
  import opened Canonical
  import opened Fields
  import opened PrintedText
  import opened CompactScanner
  import opened PythonValues
  import opened AuditChain
  import opened AuditEntry

  const PREFIX := Lit("sha256:")

  const FORBIDDEN: seq<Text> := [
    Lit("evidence"), Lit("payload"), Lit("raw"), Lit("password"),
    Lit("token"), Lit("secret"), Lit("privateKey")
  ]

  predicate Forbidden(details: seq<Entry>) { exists e :: e in details && e.key in FORBIDDEN }

  const VERSION := Lit("5.0")

  /** `final_hash`: the `str` of the last line's hash, unverified; None when it is falsy. */
  function FinalHash(h: Host, log: Option<Text>): Result<Value, AuditError> {
    if log.None? || SplitLines(OfText, log.value) == [] then Success(Null)
    else
      var lines := SplitLines(OfText, log.value);
      match Loads(Lax(h), lines[|lines| - 1])
      case Some(Obj(es)) =>
        var v := Get(es, ENTRY_HASH);
        if Truthy(h.python.floats, v) && PyStr(h.python, v) != [] then Success(Str(PyStr(h.python, v)))
        else Success(Null)
      case _ => Failure(BadJson)
  }

  /** The line an append writes and the hash it returns. */
  function Appended(h: Host, log: Option<Text>, timestamp: Text, event: Text, details: seq<Entry>)
    : Result<(Text, Text), AuditError>
  {
    if Forbidden(details) then Failure(ForbiddenKey)
    else
      var previous :- FinalHash(h, log);
      WriteEntry(h, PREFIX, Raw, Body(VERSION, timestamp, event, details, previous))
  }

  datatype Summary = Summary(finalHash: Value, count: nat)

  function Verified(h: Host, log: Option<Text>): Result<Summary, AuditError> {
    if log.None? then Failure(NoLog)
    else
      var lines := SplitLines(OfText, log.value);
      var last :- VerifyLines(h, PREFIX, lines);
      if lines == [] then Failure(EmptyLog) else Success(Summary(last, |lines|))
  }

  class ConsoleAuditLog {
    const host: Host
    /** None until the file exists. */
    var log: Option<Text>

    constructor (host: Host)
      ensures this.host == host && log == None
    {
      this.host := host;
      log := None;
    }

    method Append(timestamp: Text, event: Text, details: seq<Entry>) returns (r: Result<Text, AuditError>)
      modifies this
      ensures var before, entry := old(log), Appended(host, old(log), timestamp, event, details);
              if entry.Success?
              then r == Success(entry.value.1)
                   && log == Some((if before.Some? then before.value else []) + entry.value.0 + [10])
              else r == Failure(entry.error) && log == before
    {
      if Forbidden(details) {
        return Failure(ForbiddenKey);
      }
      var previous := FinalHash(host, log);
      if previous.Failure? {
        return Failure(previous.error);
      }
      var entry := Body(VERSION, timestamp, event, details, previous.value);
      var digest := Digest(host, PREFIX, Obj(entry));
      if digest.None? {
        return Failure(NotEncodable);
      }
      entry := Hashed(entry, digest.value);
      log := Some((if log.Some? then log.value else []) + Line(Raw, entry) + [10]);
      return Success(digest.value);
    }

    method Verify() returns (r: Result<Summary, AuditError>)
      ensures r == Verified(host, log)
    {
      if log.None? {
        return Failure(NoLog);
      }
      var lines := SplitLines(OfText, log.value);
      var previous := Null;
      var count := 0;
      while count < |lines|
        invariant count <= |lines|
        invariant VerifyLines(host, PREFIX, lines[..count]) == Success(previous)
      {
        VerifySnoc(host, PREFIX, lines, count);
        var step := VerifyLine(host, PREFIX, lines[count], previous);
        count := count + 1;
        if step.Failure? {
          VerifyFails(host, PREFIX, lines, count);
          return Failure(step.error);
        }
        previous := step.value;
      }
      assert lines[..count] == lines;
      if count == 0 {
        return Failure(EmptyLog);
      }
      return Success(Summary(previous, count));
    }
  }

  // ----- appending

  /** A verified log hands its final hash to the next append. */
  lemma FinalHashOfVerified(h: Host, log: Option<Text>)
    requires log.Some? ==> VerifyLines(h, PREFIX, SplitLines(OfText, log.value)).Success?
    ensures FinalHash(h, log) ==
            if log.None? then Success(Null) else VerifyLines(h, PREFIX, SplitLines(OfText, log.value))
  {
    if log.Some? && SplitLines(OfText, log.value) != [] {
      var lines := SplitLines(OfText, log.value);
      var previous := LastLine(h, PREFIX, lines);
      assert PREFIX[0] == 's' as int;
    }
  }

  /** U+0085, U+2028 and U+2029: the characters `json.dumps` leaves alone and `splitlines` breaks at. */
  predicate RawBreak(c: nat) { c == 0x85 || c == 0x2028 || c == 0x2029 }

  ghost predicate MentionsBreak(v: Value) { exists c :: RawBreak(c) && Mentions(v, c) }

  lemma PrintedBreak(v: Value)
    requires Valid(v)
    ensures HasBreak(OfText, CanonicalJson(v)) <==> MentionsBreak(v)
  {
    var n := Norm(ByCodePoint, v);
    NormValid(ByCodePoint, v);
    forall c | IsLineBreak(OfText, c)
      ensures c in Print(Raw, n) <==> RawBreak(c) && Mentions(v, c)
    {
      PrintMentions(n, c);
      NormMentions(ByCodePoint, v, c);
    }
    if MentionsBreak(v) {
      var c :| RawBreak(c) && Mentions(v, c);
      assert IsLineBreak(OfText, c);
    }
  }

  /** A compact line cut at a line break is cut inside a string. */
  lemma BrokenLineDoesNotLoad(m: Reader, line: Text)
    requires Compact(line) && FirstBreak(OfText, line) < |line|
    ensures Loads(m, line[..FirstBreak(OfText, line)]).None?
  {
    hide Loads, FirstBreak, Run;
    var i := FirstBreak(OfText, line);
    RunSnoc(line, i);
    assert line == line[..i + 1] + line[i + 1..];
    RunConcat(Outside, line[..i + 1], line[i + 1..]);
    RunSpaced(line[i + 1..]);
    assert IsSpace(line[i]);
    UnclosedDoesNotLoad(m, line[..i]);
  }

  lemma FirstBreakOf(t: Text)
    ensures HasBreak(OfText, t) <==> FirstBreak(OfText, t) < |t|
  {
    if HasBreak(OfText, t) {
      var c :| c in t && IsLineBreak(OfText, c);
      var k :| 0 <= k < |t| && t[k] == c;
    }
  }

  /** Splitting a written line: itself, or a first piece that does not load. */
  lemma WrittenLine(m: Reader, v: Value)
    requires Valid(v)
    ensures var line := CanonicalJson(v);
            if MentionsBreak(v)
            then SplitLines(OfText, line + [10]) != [] && Loads(m, SplitLines(OfText, line + [10])[0]).None?
            else SplitLines(OfText, line + [10]) == [line]
  {
    var line := CanonicalJson(v);
    PrintedBreak(v);
    FirstBreakOf(line);
    if MentionsBreak(v) {
      NormValid(ByCodePoint, v);
      PrintCompact(Norm(ByCodePoint, v));
      BrokenLineDoesNotLoad(m, line);
      FirstBreakConcat(OfText, line, [10]);
      var i := FirstBreak(OfText, line);
      assert (line + [10])[..i] == line[..i];
    } else {
      SplitOne(OfText, line);
    }
  }

  /** Some string in the event mentions one of the three. */
  ghost predicate EventMentionsBreak(timestamp: Text, event: Text, details: seq<Entry>) {
    MentionsBreak(Str(timestamp)) || MentionsBreak(Str(event)) || MentionsBreak(Obj(details))
  }

  lemma NamesPlain(c: nat)
    requires c >= 128
    ensures c !in Lit("schemaVersion") && c !in Lit("timestamp") && c !in Lit("eventType") && c !in Lit("details")
    ensures c !in PREVIOUS && c !in ENTRY_HASH && c !in Lit("5.0")
  {
    LitPlain("schemaVersion", c);
    LitPlain("timestamp", c);
    LitPlain("eventType", c);
    LitPlain("details", c);
    LitPlain("previousEntryHash", c);
    LitPlain("entryHash", c);
    LitPlain("5.0", c);
  }

  /** The parts of an entry other than its event: names, version and hashes. */
  lemma BodyMentions(timestamp: Text, event: Text, details: seq<Entry>, previous: Value, digest: Text, c: nat)
    requires c >= 128 && c !in digest && (previous.Str? ==> c !in previous.s) && (previous.Null? || previous.Str?)
    ensures Mentions(Obj(Hashed(Body(VERSION, timestamp, event, details, previous), digest)), c)
            <==> c in timestamp || c in event || Mentions(Obj(details), c)
  {
    hide Lit;
    var body := Body(VERSION, timestamp, event, details, previous);
    var all := Hashed(body, digest);
    NamesPlain(c);
    assert all == [body[0], body[1], body[2], body[3], body[4], Entry(ENTRY_HASH, Str(digest))];
    MentionsParts(all, c);
  }

  lemma MentionsParts(all: seq<Entry>, c: nat)
    requires |all| == 6
    ensures Mentions(Obj(all), c) <==>
              || c in all[0].key || Mentions(all[0].value, c) || c in all[1].key || Mentions(all[1].value, c)
              || c in all[2].key || Mentions(all[2].value, c) || c in all[3].key || Mentions(all[3].value, c)
              || c in all[4].key || Mentions(all[4].value, c) || c in all[5].key || Mentions(all[5].value, c)
  {
    assert all[0] in all && all[1] in all && all[2] in all && all[3] in all && all[4] in all && all[5] in all;
    assert forall e :: e in all ==>
             e == all[0] || e == all[1] || e == all[2] || e == all[3] || e == all[4] || e == all[5];
  }

  lemma BodyBreak(timestamp: Text, event: Text, details: seq<Entry>, previous: Value, digest: Text)
    requires forall c :: c in digest || (previous.Str? && c in previous.s) ==> !RawBreak(c)
    requires previous.Null? || previous.Str?
    ensures MentionsBreak(Obj(Hashed(Body(VERSION, timestamp, event, details, previous), digest)))
            <==> EventMentionsBreak(timestamp, event, details)
  {
    hide Lit, Body, Hashed;
    var all := Hashed(Body(VERSION, timestamp, event, details, previous), digest);
    forall c | RawBreak(c)
      ensures Mentions(Obj(all), c) <==> c in timestamp || c in event || Mentions(Obj(details), c)
    {
      BodyMentions(timestamp, event, details, previous, digest, c);
    }
    if EventMentionsBreak(timestamp, event, details) {
      var c :| RawBreak(c) && (c in timestamp || c in event || Mentions(Obj(details), c));
      assert Mentions(Obj(all), c);
    }
  }

  lemma LitPlain(s: string, c: nat)
    requires forall i :: 0 <= i < |s| ==> s[i] as int < 128
    requires c >= 128
    ensures c !in Lit(s)
  {
  }

  ghost predicate Clean(t: Value) { t.Str? ==> forall c :: c in t.s ==> !RawBreak(c) }

  lemma VerifiedHashClean(h: Host, lines: seq<Text>)
    requires Hexadecimal(h) && VerifyLines(h, PREFIX, lines).Success?
    ensures Clean(VerifyLines(h, PREFIX, lines).value)
  {
    if lines == [] {
    } else {
      var previous := LastLine(h, PREFIX, lines);
      var es := Loads(Lax(h), lines[|lines| - 1]).value.entries;
      DigestClean(h, Obj(Remove(es, ENTRY_HASH)));
    }
  }

  lemma DigestClean(h: Host, v: Value)
    requires Hexadecimal(h) && Digest(h, PREFIX, v).Some?
    ensures Clean(Str(Digest(h, PREFIX, v).value))
  {
    var x := Utf8(CanonicalJson(v));
    forall c | c in PREFIX + h.sha256(x)
      ensures !RawBreak(c)
    {
      if c in h.sha256(x) {
        assert HexValue(c).Some?;
      } else if c >= 128 {
        LitPlain("sha256:", c);
      }
    }
  }

  /** The lines of the text after an append: the old ones, then the new line or a piece
      of it that does not load. */
  lemma AppendedLines(h: Host, text: Text, timestamp: Text, event: Text, details: seq<Entry>)
    returns (added: seq<Text>)
    requires Hexadecimal(h) && Proper(Lax(h), Obj(details))
    requires Closed(text)
    requires VerifyLines(h, PREFIX, SplitLines(OfText, text)).Success?
    requires Appended(h, Some(text), timestamp, event, details).Success?
    ensures var line := Appended(h, Some(text), timestamp, event, details).value.0;
            && SplitLines(OfText, text + line + [10]) == SplitLines(OfText, text) + added
            && added != []
            && (if EventMentionsBreak(timestamp, event, details)
                then Loads(Lax(h), added[0]).None? else added == [line])
  {
    hide SplitLines, VerifyLines, Loads, Print, Norm, Valid, ReadsBack, Scalar, FinalHash, Forbidden;
    hide Body, Hashed, EventMentionsBreak, MentionsBreak;
    var (line, digest) := Appended(h, Some(text), timestamp, event, details).value;
    var previous := VerifyLines(h, PREFIX, SplitLines(OfText, text)).value;
    FinalHashOfVerified(h, Some(text));
    VerifiedHash(h, PREFIX, SplitLines(OfText, text));
    VerifiedHashClean(h, SplitLines(OfText, text));
    DigestClean(h, Obj(Body(VERSION, timestamp, event, details, previous)));
    HashedProper(Lax(h), VERSION, timestamp, event, details, previous, digest);
    BodyBreak(timestamp, event, details, previous, digest);
    WrittenLine(Lax(h), Obj(Hashed(Body(VERSION, timestamp, event, details, previous), digest)));
    added := SplitLines(OfText, line + [10]);
    assert text + line + [10] == text + (line + [10]);
    SplitConcat(OfText, text, line + [10]);
  }

  lemma NextLineFails(h: Host, lines: seq<Text>, added: seq<Text>)
    requires added != [] && Loads(Lax(h), added[0]).None?
    ensures VerifyLines(h, PREFIX, lines + added).Failure?
  {
    var all := lines + added;
    VerifySnoc(h, PREFIX, all, |lines|);
    VerifyFails(h, PREFIX, all, |lines| + 1);
  }

  lemma PrefixScalar()
    ensures Scalar(PREFIX)
  {
  }

  /** Appending to a verified log keeps it verified exactly when no string of the event
      holds U+0085, U+2028 or U+2029; then the new final hash is the one returned. */
  lemma AppendVerifies(h: Host, text: Text, timestamp: Text, event: Text, details: seq<Entry>,
                       line: Text, digest: Text)
    requires Hexadecimal(h) && Proper(Lax(h), Obj(details))
    requires Closed(text)
    requires VerifyLines(h, PREFIX, SplitLines(OfText, text)).Success?
    requires Appended(h, Some(text), timestamp, event, details) == Success((line, digest))
    ensures var after := Verified(h, Some(text + line + [10]));
            && (after.Success? <==> !EventMentionsBreak(timestamp, event, details))
            && (after.Success? ==> after.value == Summary(Str(digest), |SplitLines(OfText, text)| + 1))
  {
    hide SplitLines, VerifyLine, VerifyLines, WriteEntry, EventMentionsBreak, Forbidden, Proper;
    var lines := SplitLines(OfText, text);
    var added := AppendedLines(h, text, timestamp, event, details);
    if EventMentionsBreak(timestamp, event, details) {
      NextLineFails(h, lines, added);
    } else {
      var previous := VerifyLines(h, PREFIX, lines).value;
      FinalHashOfVerified(h, Some(text));
      VerifiedHash(h, PREFIX, lines);
      PrefixScalar();
      WrittenVerifies(h, PREFIX, Raw, VERSION, timestamp, event, details, previous);
      NextLineVerifies(h, PREFIX, lines, line, previous, Str(digest));
    }
  }

  /** A log that has stopped verifying never verifies again, whatever is appended. */
  lemma BrokenStaysBroken(h: Host, text: Text, more: Text)
    requires Closed(text)
    requires VerifyLines(h, PREFIX, SplitLines(OfText, text)).Failure?
    ensures Verified(h, Some(text + more)).Failure?
  {
    SplitConcat(OfText, text, more);
    var lines := SplitLines(OfText, text) + SplitLines(OfText, more);
    assert lines[..|SplitLines(OfText, text)|] == SplitLines(OfText, text);
    VerifyFails(h, PREFIX, lines, |SplitLines(OfText, text)|);
  }

  // ----- whole runs

  /** The text after one more event; None when the append raises. */
  function Write(h: Host, before: Text, e: Event): Option<Text> {
    match Appended(h, Some(before), e.timestamp, e.event, e.details)
    case Success((line, _)) => Some(before + line + [10])
    case Failure(_) => None
  }

  /** The text after a run of appends; None once one of them raises. */
  function Written(h: Host, events: seq<Event>): Option<Text> {
    if events == [] then Some([])
    else
      var before :- Written(h, events[..|events| - 1]);
      Write(h, before, events[|events| - 1])
  }

  ghost predicate MentionsRawBreak(e: Event) { EventMentionsBreak(e.timestamp, e.event, e.details) }

  ghost predicate ChainHolds(h: Host, text: Text) { VerifyLines(h, PREFIX, SplitLines(OfText, text)).Success? }

  lemma WriteStep(h: Host, text: Text, e: Event)
    requires Hexadecimal(h) && Proper(Lax(h), Obj(e.details)) && Closed(text)
    requires Write(h, text, e).Some?
    ensures var next := Write(h, text, e).value;
            && Closed(next)
            && (ChainHolds(h, next) <==> ChainHolds(h, text) && !MentionsRawBreak(e))
            && (ChainHolds(h, next) ==> |SplitLines(OfText, next)| == |SplitLines(OfText, text)| + 1)
  {
    hide Valid;
    var (line, digest) := Appended(h, Some(text), e.timestamp, e.event, e.details).value;
    var next := text + line + [10];
    assert SplitLines(OfText, next) != [];
    if ChainHolds(h, text) {
      AppendVerifies(h, text, e.timestamp, e.event, e.details, line, digest);
    } else {
      assert next == text + (line + [10]);
      BrokenStaysBroken(h, text, line + [10]);
    }
  }

  lemma EmptyRun(h: Host)
    ensures Closed([]) && ChainHolds(h, []) && SplitLines(OfText, []) == []
  {
  }

  /** Every log built by appends verifies, with one entry an event, exactly when no event
      mentions a raw line break. */
  lemma {:induction false} RunVerifies(h: Host, events: seq<Event>)
    requires Hexadecimal(h)
    requires forall e :: e in events ==> Proper(Lax(h), Obj(e.details))
    requires Written(h, events).Some?
    ensures var text := Written(h, events).value;
            && Closed(text)
            && (ChainHolds(h, text) <==> forall e :: e in events ==> !MentionsRawBreak(e))
            && (ChainHolds(h, text) ==> |SplitLines(OfText, text)| == |events|)
    decreases |events|
  {
    hide Write, ChainHolds, SplitLines, MentionsRawBreak, Valid, Closed;
    EmptyRun(h);
    if events == [] {
    } else {
      var init, e := events[..|events| - 1], events[|events| - 1];
      assert events == init + [e];
      RunVerifies(h, init);
      WriteStep(h, Written(h, init).value, e);
    }
  }

  /** The event a new assessment begins its log with. */
  function Created(timestamp: Text, assessmentId: Text, reference: Text): Event {
    Event(timestamp, Lit("assessment_created"),
          [Entry(Lit("assessmentId"), Str(assessmentId)), Entry(Lit("customerReference"), Str(reference))])
  }

  lemma TwoStrings(m: Reader, key: Text, s: Text, other: Text, t: Text)
    requires key != other && Scalar(key) && Scalar(s) && Scalar(other) && Scalar(t)
    ensures var es := [Entry(key, Str(s)), Entry(other, Str(t))];
            Proper(m, Obj(es)) && AllScalar(Obj(es))
  {
    hide Scalar;
    var es := [Entry(key, Str(s)), Entry(other, Str(t))];
    assert UniqueKeys(es);
    forall e | e in es
      ensures Valid(e.value) && ReadsBack(m, e.value) && Scalar(e.key) && AllScalar(e.value)
    {
      assert e == es[0] || e == es[1];
    }
  }

  lemma NotForbidden(details: seq<Entry>)
    requires forall e :: e in details ==> |e.key| > 10
    ensures !Forbidden(details)
  {
    forall k | k in FORBIDDEN
      ensures |k| <= 10
    {
      var i :| 0 <= i < 7 && FORBIDDEN[i] == k;
    }
  }

  /** An append to a log that is not there yet writes its entry when the entry can be encoded. */
  lemma FirstWritten(h: Host, e: Event)
    requires !Forbidden(e.details) && Digest(h, PREFIX, Obj(Body(VERSION, e.timestamp, e.event, e.details, Null))).Some?
    ensures Write(h, [], e).Some?
  {
    hide Digest, Body, Hashed, Line, Forbidden;
    NoLines(OfText);
  }

  lemma CreatedWritten(h: Host, timestamp: Text, assessmentId: Text, reference: Text)
    requires Scalar(timestamp) && Scalar(assessmentId) && Scalar(reference)
    ensures var e := Created(timestamp, assessmentId, reference);
            Write(h, [], e).Some? && Proper(Lax(h), Obj(e.details))
  {
    hide CanonicalJson, Scalar, Forbidden, Valid, ReadsBack, AllScalar, Digest, Body, Write, Lit;
    var e := Created(timestamp, assessmentId, reference);
    LitScalar("assessment_created");
    LitScalar("assessmentId");
    LitScalar("customerReference");
    TwoStrings(Lax(h), Lit("assessmentId"), assessmentId, Lit("customerReference"), reference);
    NotForbidden(e.details);
    CreatedScalar(h, e);
    FirstWritten(h, e);
    assert Write(h, [], e).Some?;
  }

  lemma LitScalar(s: string)
    requires forall i :: 0 <= i < |s| ==> s[i] as int < 128
    ensures Scalar(Lit(s))
  {
  }

  lemma BodyScalar(e: Event)
    requires AllScalar(Obj(e.details)) && Scalar(e.timestamp) && Scalar(e.event)
    ensures AllScalar(Obj(Body(VERSION, e.timestamp, e.event, e.details, Null)))
  {
    hide Lit, Scalar;
    LitScalar("schemaVersion");
    LitScalar("timestamp");
    LitScalar("eventType");
    LitScalar("details");
    LitScalar("previousEntryHash");
    LitScalar("5.0");
  }

  lemma CreatedScalar(h: Host, e: Event)
    requires |e.details| == 2 && Proper(Lax(h), Obj(e.details)) && AllScalar(Obj(e.details))
    requires Scalar(e.timestamp) && Scalar(e.event)
    ensures Digest(h, PREFIX, Obj(Body(VERSION, e.timestamp, e.event, e.details, Null))).Some?
  {
    hide Lit, Print, Norm, Valid, ReadsBack, AllScalar, Body, Scalar;
    var body := Body(VERSION, e.timestamp, e.event, e.details, Null);
    HashedProper(Lax(h), VERSION, e.timestamp, e.event, e.details, Null, []);
    BodyScalar(e);
    NormValid(ByCodePoint, Obj(body));
    NormScalar(ByCodePoint, Obj(body));
    ScalarPrint(Norm(ByCodePoint, Obj(body)));
  }

  /** One customer reference with a line separator in it ends the verification of its
      assessment's log; without the separator the same event starts a log that verifies. */
  lemma ReferenceEndsVerification(h: Host, timestamp: Text, assessmentId: Text)
    requires Hexadecimal(h) && Scalar(timestamp) && Scalar(assessmentId)
    requires forall c :: RawBreak(c) ==> c !in timestamp && c !in assessmentId
    ensures var broken, sound := Created(timestamp, assessmentId, [0x2028]), Created(timestamp, assessmentId, [0x20]);
            && Write(h, [], broken).Some? && !ChainHolds(h, Write(h, [], broken).value)
            && Write(h, [], sound).Some? && ChainHolds(h, Write(h, [], sound).value)
  {
    hide Write, ChainHolds;
    var broken, sound := Created(timestamp, assessmentId, [0x2028]), Created(timestamp, assessmentId, [0x20]);
    CreatedWritten(h, timestamp, assessmentId, [0x2028]);
    CreatedWritten(h, timestamp, assessmentId, [0x20]);
    EmptyRun(h);
    WriteStep(h, [], broken);
    WriteStep(h, [], sound);
    assert RawBreak(0x2028) && broken.details[1] in broken.details;
    assert Mentions(Obj(broken.details), 0x2028);
    SoundReference(timestamp, assessmentId);
  }

  lemma SoundReference(timestamp: Text, assessmentId: Text)
    requires forall c :: RawBreak(c) ==> c !in timestamp && c !in assessmentId
    ensures !MentionsRawBreak(Created(timestamp, assessmentId, [0x20]))
  {
    var e := Created(timestamp, assessmentId, [0x20]);
    forall c | RawBreak(c)
      ensures c !in e.event && !Mentions(Obj(e.details), c)
    {
      LitPlain("assessment_created", c);
      LitPlain("assessmentId", c);
      LitPlain("customerReference", c);
    }
  }

  // ----- the archived copy

  /** `_verify_archived_audit`. */
  function Archived(h: Host, text: Text, expected: Text): Result<(), AuditError> {
    var lines := SplitLines(OfText, text);
    if lines == [] then Failure(EmptyLog)
    else
      var last :- VerifyLines(h, PREFIX, lines);
      if last == Str(expected) then Success(()) else Failure(WrongFinalHash)
  }

  method VerifyArchivedAudit(h: Host, text: Text, expected: Text) returns (r: Result<(), AuditError>)
    ensures r == Archived(h, text, expected)
  {
    var lines := SplitLines(OfText, text);
    if lines == [] {
      return Failure(EmptyLog);
    }
    var previous := Null;
    for i := 0 to |lines|
      invariant VerifyLines(h, PREFIX, lines[..i]) == Success(previous)
    {
      VerifySnoc(h, PREFIX, lines, i);
      var step := VerifyLine(h, PREFIX, lines[i], previous);
      if step.Failure? {
        VerifyFails(h, PREFIX, lines, i + 1);
        return Failure(step.error);
      }
      previous := step.value;
    }
    assert lines[..|lines|] == lines;
    if previous != Str(expected) {
      return Failure(WrongFinalHash);
    }
    return Success(());
  }

  /** Two archives accepted against one recorded final hash hold the same entries, or a
      collision is exhibited. */
  lemma ArchiveCommits(h: Host, a: Text, b: Text, expected: Text) returns (x: Bytes, y: Bytes)
    requires Archived(h, a, expected).Success? && Archived(h, b, expected).Success?
    ensures Collision(h, x, y) || SameEntries(h, SplitLines(OfText, a), SplitLines(OfText, b))
  {
    x, y := FinalHashCommits(h, PREFIX, SplitLines(OfText, a), SplitLines(OfText, b));
  }

  /** Dropping lines from the end of a verified log leaves a log that verifies with another
      final hash, or a collision is exhibited: only the recorded hash pins the length. */
  lemma TruncationShows(h: Host, text: Text, shorter: Text, n: nat) returns (x: Bytes, y: Bytes)
    requires Verified(h, Some(text)).Success?
    requires 0 < n < |SplitLines(OfText, text)| && SplitLines(OfText, shorter) == SplitLines(OfText, text)[..n]
    ensures Verified(h, Some(shorter)).Success?
    ensures Collision(h, x, y) ||
            Verified(h, Some(shorter)).value.finalHash != Verified(h, Some(text)).value.finalHash
  {
    x, y := [], [];
    PrefixVerifies(h, PREFIX, SplitLines(OfText, text), n);
    if Verified(h, Some(shorter)).value.finalHash == Verified(h, Some(text)).value.finalHash {
      x, y := FinalHashCommits(h, PREFIX, SplitLines(OfText, text), SplitLines(OfText, shorter));
    }
  }
}
