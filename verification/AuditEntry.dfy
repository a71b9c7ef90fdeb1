/**
 One entry of an audit log: how it is put together, hashed and written as a line, and that the
 line continues the chain when it is read back. Both logs write the same entries; the console
 writes characters as they are, active validation escapes them.
 */
module AuditEntry {
  import opened Wrappers
  import opened Unicode
  import opened Json
  import opened Canonical
  import opened Fields
  import opened PrintedText
  import opened AuditChain

  /** One call of `append`, with the clock reading it makes. */
  datatype Event = Event(timestamp: Text, event: Text, details: seq<Entry>)

  const EVENT_TYPE := Lit("eventType")

  /** The entry before its hash is added. */
  function Body(version: Text, timestamp: Text, event: Text, details: seq<Entry>, previous: Value): seq<Entry> {
    [ Entry(Lit("schemaVersion"), Str(version)),
      Entry(Lit("timestamp"), Str(timestamp)),
      Entry(EVENT_TYPE, Str(event)),
      Entry(Lit("details"), Obj(details)),
      Entry(PREVIOUS, previous) ]
  }

  function Hashed(body: seq<Entry>, digest: Text): seq<Entry> { body + [Entry(ENTRY_HASH, Str(digest))] }

  /** `json.dumps(entry, separators=(",", ":"), sort_keys=True)`. */
  function Line(k: Style, es: seq<Entry>): Text { Print(k, Norm(ByCodePoint, Obj(es))) }

  /** The line that is written for an entry, and the hash that is returned. */
  function WriteEntry(h: Host, prefix: Text, k: Style, body: seq<Entry>): Result<(Text, Text), AuditError> {
    match Digest(h, prefix, Obj(body))
    case None => Failure(NotEncodable)
    case Some(d) => Success((Line(k, Hashed(body, d)), d))
  }

  lemma NamesDiffer()
    ensures var names := [Lit("schemaVersion"), Lit("timestamp"), EVENT_TYPE, Lit("details"), PREVIOUS, ENTRY_HASH];
            forall i, j :: 0 <= i < j < 6 ==> names[i] != names[j]
  {
    var names := [Lit("schemaVersion"), Lit("timestamp"), EVENT_TYPE, Lit("details"), PREVIOUS, ENTRY_HASH];
    assert |names[0]| == 13 && |names[1]| == 9 && |names[2]| == 9;
    assert |names[3]| == 7 && |names[4]| == 17 && |names[5]| == 9;
    assert names[1][0] == 't' as int && names[2][0] == 'e' as int && names[5][0] == 'e' as int;
    assert names[2][1] == 'v' as int && names[5][1] == 'n' as int;
  }

  lemma HashedKeys(version: Text, timestamp: Text, event: Text, details: seq<Entry>, previous: Value, digest: Text)
    ensures var body := Body(version, timestamp, event, details, previous);
            && UniqueKeys(Hashed(body, digest)) && UniqueKeys(body) && !Has(body, ENTRY_HASH)
            && Get(body, PREVIOUS) == previous && Get(body, EVENT_TYPE) == Str(event)
  {
    hide Lit;
    var body := Body(version, timestamp, event, details, previous);
    var all := Hashed(body, digest);
    NamesDiffer();
    var names := [Lit("schemaVersion"), Lit("timestamp"), EVENT_TYPE, Lit("details"), PREVIOUS, ENTRY_HASH];
    assert forall i :: 0 <= i < 6 ==> all[i].key == names[i];
    assert UniqueKeys(all);
    assert forall i :: 0 <= i < 5 ==> body[i] == all[i];
    assert UniqueKeys(body);
    forall e | e in body
      ensures e.key != ENTRY_HASH
    {
      var i :| 0 <= i < 5 && body[i] == e;
      assert names[i] != names[5];
    }
    assert body[2] in body && body[4] in body;
    GetIs(body, EVENT_TYPE, body[2]);
    GetIs(body, PREVIOUS, body[4]);
  }

  lemma EntriesProper(m: Reader, es: seq<Entry>)
    requires UniqueKeys(es) && forall i :: 0 <= i < |es| ==> Proper(m, es[i].value)
    ensures Proper(m, Obj(es))
  {
  }

  lemma TextProper(m: Reader, v: Value)
    requires v.Null? || v.Str?
    ensures Proper(m, v)
  {
  }

  lemma HashedProper(m: Reader, version: Text, timestamp: Text, event: Text, details: seq<Entry>, previous: Value,
                     digest: Text)
    requires Proper(m, Obj(details)) && (previous.Null? || previous.Str?)
    ensures var body := Body(version, timestamp, event, details, previous);
            Proper(m, Obj(body)) && Proper(m, Obj(Hashed(body, digest)))
  {
    hide Lit, UniqueKeys, Get, Has, Proper;
    HashedKeys(version, timestamp, event, details, previous, digest);
    TextProper(m, Str(version));
    TextProper(m, Str(timestamp));
    TextProper(m, Str(event));
    TextProper(m, Str(digest));
    TextProper(m, previous);
    var body := Body(version, timestamp, event, details, previous);
    EntriesProper(m, body);
    EntriesProper(m, Hashed(body, digest));
  }

  /** A hashed entry that could be encoded holds no surrogate, hash included. */
  lemma HashedScalar(h: Host, prefix: Text, body: seq<Entry>, digest: Text)
    requires Hexadecimal(h) && Scalar(prefix) && Valid(Obj(body)) && Digest(h, prefix, Obj(body)) == Some(digest)
    ensures AllScalar(Obj(Hashed(body, digest)))
  {
    NormValid(ByCodePoint, Obj(body));
    ScalarPrint(Norm(ByCodePoint, Obj(body)));
    NormScalar(ByCodePoint, Obj(body));
    assert forall c :: c in digest ==> c in prefix || HexValue(c).Some?;
    forall c | c in ENTRY_HASH
      ensures IsScalar(c)
    {
    }
  }

  /** Taking the hash out of the loaded line leaves the entry that was hashed. */
  lemma HashedLineLoads(m: Reader, k: Style, body: seq<Entry>, digest: Text)
    requires Proper(m, Obj(Hashed(body, digest))) && Proper(m, Obj(body)) && !Has(body, ENTRY_HASH)
    requires k.Ascii? ==> AllScalar(Obj(Hashed(body, digest)))
    ensures var line := Line(k, Hashed(body, digest));
            && Loads(m, line).Some? && Loads(m, line).value.Obj?
            && (var es := Loads(m, line).value.entries;
                && Get(es, ENTRY_HASH) == Str(digest)
                && Valid(Obj(Remove(es, ENTRY_HASH)))
                && Same(Obj(Remove(es, ENTRY_HASH)), Obj(body)))
  {
    hide Loads, Print, Norm;
    var all := Hashed(body, digest);
    var n := Norm(ByCodePoint, Obj(all));
    NormValid(ByCodePoint, Obj(all));
    NormReads(ByCodePoint, m, Obj(all));
    NormScalar(ByCodePoint, Obj(all));
    NormSame(ByCodePoint, Obj(all));
    LoadsPrint(m, k, n);
    var es := n.entries;
    RemoveValid(es, ENTRY_HASH);
    SameRemove(es, all, ENTRY_HASH);
    RemoveLast(body, ENTRY_HASH, Str(digest));
    assert all[|body|] in all;
    GetIs(all, ENTRY_HASH, all[|body|]);
    SameGetBoth(es, all, ENTRY_HASH);
  }

  /** The type of the event a line records. */
  function EventType(h: Host, line: Text): Value {
    match Loads(Lax(h), line)
    case Some(Obj(es)) => Get(Remove(es, ENTRY_HASH), EVENT_TYPE)
    case _ => Null
  }

  lemma HashedLineVerifies(h: Host, prefix: Text, k: Style, body: seq<Entry>, digest: Text, previous: Value)
    requires Proper(Lax(h), Obj(Hashed(body, digest))) && Proper(Lax(h), Obj(body)) && !Has(body, ENTRY_HASH)
    requires k.Ascii? ==> AllScalar(Obj(Hashed(body, digest)))
    requires Digest(h, prefix, Obj(body)) == Some(digest)
    requires Get(body, PREVIOUS) == previous && (previous.Null? || previous.Str?)
    requires Get(body, EVENT_TYPE).Str?
    ensures VerifyLine(h, prefix, Line(k, Hashed(body, digest)), previous) == Success(Str(digest))
    ensures EventType(h, Line(k, Hashed(body, digest))) == Get(body, EVENT_TYPE)
  {
    hide Loads, CanonicalJson, Get, Has, Remove, Valid, Hashed, Line;
    HashedLineLoads(Lax(h), k, body, digest);
    var rest := Remove(Loads(Lax(h), Line(k, Hashed(body, digest))).value.entries, ENTRY_HASH);
    CanonicalJsonInjective(Obj(rest), Obj(body));
    SameGetBoth(rest, body, PREVIOUS);
    SameGetBoth(rest, body, EVENT_TYPE);
  }

  /** The line that is written continues the chain, read on its own, and records its event. */
  lemma WrittenVerifies(h: Host, prefix: Text, k: Style, version: Text, timestamp: Text, event: Text,
                        details: seq<Entry>, previous: Value)
    requires Hexadecimal(h) && Scalar(prefix)
    requires Proper(Lax(h), Obj(details)) && (previous.Null? || previous.Str?)
    requires WriteEntry(h, prefix, k, Body(version, timestamp, event, details, previous)).Success?
    ensures var (line, digest) := WriteEntry(h, prefix, k, Body(version, timestamp, event, details, previous)).value;
            VerifyLine(h, prefix, line, previous) == Success(Str(digest)) && EventType(h, line) == Str(event)
  {
    hide VerifyLine, CanonicalJson, Get, Has, Digest, Body, Hashed, Line, EventType, Valid, ReadsBack;
    var body := Body(version, timestamp, event, details, previous);
    var digest := Digest(h, prefix, Obj(body)).value;
    HashedKeys(version, timestamp, event, details, previous, digest);
    HashedProper(Lax(h), version, timestamp, event, details, previous, digest);
    HashedScalar(h, prefix, body, digest);
    HashedLineVerifies(h, prefix, k, body, digest, previous);
  }

  lemma NextLineVerifies(h: Host, prefix: Text, lines: seq<Text>, line: Text, previous: Value, next: Value)
    requires VerifyLines(h, prefix, lines) == Success(previous)
    requires VerifyLine(h, prefix, line, previous) == Success(next)
    ensures VerifyLines(h, prefix, lines + [line]) == Success(next)
  {
    assert (lines + [line])[..|lines|] == lines;
  }
}
