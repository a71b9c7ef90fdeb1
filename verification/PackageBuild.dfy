/** `build_evidence_package`, and that the validator accepts and returns what it built. */
module PackageBuild {
  import opened Wrappers
  import opened Ordering
  import opened Unicode
  import opened Json
  import opened Canonical
  import opened Fields
  import opened PythonValues
  import opened CompactScanner
  import opened Package
  import opened PackageMeaning

  const SCHEMA_VERSION := Lit("schemaVersion")
  const INTEGRITY_DIGEST := Lit("integrityDigest")
  const SIGNATURE_DIGEST := Lit("signatureDigest")

  function CanonicalBytes(v: Value): Option<Bytes> {
    var text := CanonicalJson(v);
    if Scalar(text) then Some(Utf8(text)) else None
  }

  function FileEntry(w: World, name: Text, content: Bytes): Value {
    Obj([ Entry(PATH, Str(name)), Entry(Lit("sha256"), Str(Sha256(w, content))), Entry(Lit("size"), Int(|content|)) ])
  }

  function FileTable(w: World, evidence: Bytes, capabilities: Bytes, log: Bytes): seq<Value> {
    [FileEntry(w, EVIDENCE, evidence), FileEntry(w, CAPABILITIES, capabilities), FileEntry(w, COLLECTION_LOG, log)]
  }

  function Binding(fields: seq<Entry>, nonce: Text, files: seq<Value>): seq<Entry> {
    [ Entry(Lit("assessmentId"), Get(fields, Lit("assessmentId"))),
      Entry(Lit("sessionId"), Get(fields, Lit("sessionId"))),
      Entry(Lit("submissionId"), Get(fields, Lit("submissionId"))),
      Entry(NONCE, Str(nonce)),
      Entry(FILES, Arr(files)) ]
  }

  function IntegrityDocument(binding: seq<Entry>, digest: Text): seq<Entry> {
    [Entry(SCHEMA_VERSION, Str(Lit("5.0"))), Entry(BINDING, Obj(binding)), Entry(PACKAGE_DIGEST, Str(digest))]
  }

  function SignatureDocument(signed: seq<Entry>, token: Text, mac: Text): seq<Entry> {
    [ Entry(Lit("algorithm"), Str(Lit("HMAC-SHA256"))), Entry(Lit("keyId"), Str(BeforeDot(token))),
      Entry(Lit("signed"), Obj(signed)), Entry(Lit("signature"), Str(mac)) ]
  }

  /** `dict(manifest_fields)` followed by `update`. */
  function ManifestDocument(fields: seq<Entry>, files: seq<Value>, digest: Text, integrity: Text, signature: Text)
    : seq<Entry>
  {
    Put(Put(Put(Put(Put(fields, SCHEMA_VERSION, Str(Lit("5.0"))), FILES, Arr(files)), PACKAGE_DIGEST, Str(digest)),
            INTEGRITY_DIGEST, Str(integrity)), SIGNATURE_DIGEST, Str(signature))
  }

  datatype Contents = Contents(evidence: seq<Entry>, capabilities: seq<Value>, log: seq<Entry>)

  datatype Payloads = Payloads(evidence: Bytes, capabilities: Bytes, log: Bytes)

  /** A built package: its three metadata documents and the bytes of all six files. */
  datatype Built = Built(
    manifest: seq<Entry>, integrity: seq<Entry>, signature: seq<Entry>, digest: Text,
    payloads: Payloads, manifestBytes: Bytes, integrityBytes: Bytes, signatureBytes: Bytes
  )

  function PayloadBytes(c: Contents): Option<Payloads> {
    var evidence :- CanonicalBytes(Obj(c.evidence));
    var capabilities :- CanonicalBytes(Arr(c.capabilities));
    var log :- CanonicalBytes(Obj(c.log));
    Some(Payloads(evidence, capabilities, log))
  }

  function Table(w: World, p: Payloads): seq<Value> { FileTable(w, p.evidence, p.capabilities, p.log) }

  function SignedFields(fields: seq<Entry>, nonce: Text, digest: Text): seq<Entry> {
    [ Entry(Lit("sessionId"), Get(fields, Lit("sessionId"))),
      Entry(Lit("submissionId"), Get(fields, Lit("submissionId"))),
      Entry(NONCE, Str(nonce)),
      Entry(PACKAGE_DIGEST, Str(digest)) ]
  }

  function Assemble(w: World, fields: seq<Entry>, p: Payloads, token: Text, nonce: Text): Option<Built> {
    var files := Table(w, p);
    var binding := Binding(fields, nonce, files);
    var digest :- Sha256Value(w, Obj(binding));
    var signed := SignedFields(fields, nonce, digest);
    var signedBytes :- CanonicalBytes(Obj(signed));
    var integrity := IntegrityDocument(binding, digest);
    var signature := SignatureDocument(signed, token, w.mac(token, signedBytes));
    var integrityBytes :- CanonicalBytes(Obj(integrity));
    var signatureBytes :- CanonicalBytes(Obj(signature));
    var manifest := ManifestDocument(fields, files, digest, Sha256(w, integrityBytes), Sha256(w, signatureBytes));
    var manifestBytes :- CanonicalBytes(Obj(manifest));
    Some(Built(manifest, integrity, signature, digest, p, manifestBytes, integrityBytes, signatureBytes))
  }

  /** None is a raised exception: unclean content, a missing identity field, a surrogate. */
  function Build(w: World, fields: seq<Entry>, c: Contents, token: Text, nonce: Text): Option<Built> {
    if !w.scanClean(Obj(c.evidence)) || !w.scanClean(Arr(c.capabilities)) || !w.scanClean(Obj(c.log)) then None
    else if !Has(fields, Lit("assessmentId")) || !Has(fields, Lit("sessionId")) || !Has(fields, Lit("submissionId"))
    then None
    else if !Scalar(token) then None
    else
      var p :- PayloadBytes(c);
      Assemble(w, fields, p, token, nonce)
  }

  function FileInfo(w: World, name: Text, content: Bytes): Info {
    Info(name, false, |content|, w.deflatedSize(content), Some(content))
  }

  /** The archive members, in name order. */
  function Infos(w: World, b: Built): seq<Info> {
    [ FileInfo(w, CAPABILITIES, b.payloads.capabilities),
      FileInfo(w, COLLECTION_LOG, b.payloads.log),
      FileInfo(w, EVIDENCE, b.payloads.evidence),
      FileInfo(w, INTEGRITY, b.integrityBytes),
      FileInfo(w, MANIFEST, b.manifestBytes),
      FileInfo(w, SIGNATURE, b.signatureBytes) ]
  }

  // ----- reading a document back

  /** Every document written canonically is read as its normal form. */
  lemma CanonicalBytesParse(w: World, v: Value)
    requires Proper(Unique(w), v) && CanonicalBytes(v).Some?
    ensures ParseCanonical(w, CanonicalBytes(v).value) == Success(Norm(ByCodePoint, v))
  {
    Utf8RoundTrip(CanonicalJson(v));
    CanonicalJsonStable(Unique(w), v);
    NormValid(ByCodePoint, v);
    CanonicalTestRedundant(CanonicalJson(v), Norm(ByCodePoint, v));
    PrintCompact(Norm(ByCodePoint, v));
  }

  function Sorted(es: seq<Entry>): seq<Entry> { Norm(ByCodePoint, Obj(es)).entries }

  lemma NormStr(v: Value)
    ensures forall s :: Norm(ByCodePoint, v) == Str(s) <==> v == Str(s)
    ensures Norm(ByCodePoint, Null) == Null
  {
  }

  /** Sorting a document sorts its fields and changes the reading of none. */
  lemma SortedGet(es: seq<Entry>, key: Text)
    requires Valid(Obj(es))
    ensures Valid(Obj(Sorted(es))) && Same(Obj(Sorted(es)), Obj(es))
    ensures Get(Sorted(es), key) == Norm(ByCodePoint, Get(es, key))
    ensures forall s :: Get(Sorted(es), key) == Str(s) <==> Get(es, key) == Str(s)
    ensures Has(Sorted(es), key) <==> Has(es, key)
  {
    hide UniqueKeys, Get, Same, SortBy;
    var ne := NormEntries(ByCodePoint, es);
    NormValid(ByCodePoint, Obj(es));
    NormSame(ByCodePoint, Obj(es));
    SortByMembers(EntryKey(ByCodePoint), ne);
    NormStr(Get(es, key));
    if Has(es, key) {
      var i :| 0 <= i < |es| && es[i].key == key;
      assert es[i] in es && ne[i] in ne && ne[i] in Sorted(es);
      GetIs(es, key, es[i]);
      GetIs(Sorted(es), key, ne[i]);
    } else {
      assert forall f :: f in Sorted(es) ==> f in ne;
      assert forall i :: 0 <= i < |es| ==> es[i] in es;
      GetAbsent(es, key);
      GetAbsent(Sorted(es), key);
    }
  }

  /** A field of a sorted document equals what it was, read either way. */
  lemma SortedAgrees(py: Python, es: seq<Entry>, key: Text, v: Value)
    requires Valid(Obj(es)) && Get(es, key) == v && v != Float(NAN)
    ensures PyEqual(py, Get(Sorted(es), key), v) && PyEqual(py, v, Get(Sorted(es), key))
    ensures Valid(Get(Sorted(es), key)) && Same(Get(Sorted(es), key), v) && Same(v, Get(Sorted(es), key))
  {
    var n := Get(Sorted(es), key);
    SortedGet(es, key);
    GetValid(es, key);
    NormValid(ByCodePoint, v);
    NormSame(ByCodePoint, v);
    SameSymmetric(n, v);
    SameEqual(py.floats, n, v);
    SameEqual(py.floats, v, n);
    PyEqualIs(py, n, v);
    PyEqualIs(py, v, n);
  }

  lemma {:induction false} GetPut(es: seq<Entry>, key: Text, value: Value, k: Text)
    ensures Get(Put(es, key, value), k) == if k == key then value else Get(es, k)
    ensures Has(Put(es, key, value), k) <==> k == key || Has(es, k)
  {
    if es == [] {
    } else {
      assert es == [es[0]] + es[1..];
      if es[0].key != key {
        GetPut(es[1..], key, value, k);
        var r := Put(es[1..], key, value);
        assert Put(es, key, value) == [es[0]] + r;
        assert ([es[0]] + r)[1..] == r;
        assert Has(es, k) <==> es[0].key == k || Has(es[1..], k);
        assert Has([es[0]] + r, k) <==> es[0].key == k || Has(r, k);
      } else {
        assert ([Entry(key, value)] + es[1..])[1..] == es[1..];
        assert Has(es, k) <==> es[0].key == k || Has(es[1..], k);
        assert Put(es, key, value)[0] in Put(es, key, value);
        assert Has(Put(es, key, value), k) <==> key == k || Has(es[1..], k);
      }
    }
  }

  // ----- the built manifest

  /** The five fields an update writes. */
  predicate Written(k: string) {
    k == "schemaVersion" || k == "files" || k == "packageDigest" || k == "integrityDigest" || k == "signatureDigest"
  }

  lemma ManifestGet(fields: seq<Entry>, files: seq<Value>, digest: Text, integrity: Text, signature: Text, k: string)
    ensures var m := ManifestDocument(fields, files, digest, integrity, signature);
            && (Has(m, Lit(k)) <==> Written(k) || Has(fields, Lit(k)))
            && (!Written(k) ==> Get(m, Lit(k)) == Get(fields, Lit(k)))
            && (k == "schemaVersion" ==> Get(m, Lit(k)) == Str(Lit("5.0")))
            && (k == "files" ==> Get(m, Lit(k)) == Arr(files))
            && (k == "packageDigest" ==> Get(m, Lit(k)) == Str(digest))
            && (k == "integrityDigest" ==> Get(m, Lit(k)) == Str(integrity))
            && (k == "signatureDigest" ==> Get(m, Lit(k)) == Str(signature))
  {
    var m1 := Put(fields, SCHEMA_VERSION, Str(Lit("5.0")));
    var m2 := Put(m1, FILES, Arr(files));
    var m3 := Put(m2, PACKAGE_DIGEST, Str(digest));
    var m4 := Put(m3, INTEGRITY_DIGEST, Str(integrity));
    GetPut(fields, SCHEMA_VERSION, Str(Lit("5.0")), Lit(k));
    GetPut(m1, FILES, Arr(files), Lit(k));
    GetPut(m2, PACKAGE_DIGEST, Str(digest), Lit(k));
    GetPut(m3, INTEGRITY_DIGEST, Str(integrity), Lit(k));
    GetPut(m4, SIGNATURE_DIGEST, Str(signature), Lit(k));
    LitInjective(k, "schemaVersion");
    LitInjective(k, "files");
    LitInjective(k, "packageDigest");
    LitInjective(k, "integrityDigest");
    LitInjective(k, "signatureDigest");
  }

  lemma ManifestValid(fields: seq<Entry>, files: seq<Value>, digest: Text, integrity: Text, signature: Text)
    requires Valid(Obj(fields)) && Valid(Arr(files))
    ensures Valid(Obj(ManifestDocument(fields, files, digest, integrity, signature)))
  {
    var m1 := Put(fields, SCHEMA_VERSION, Str(Lit("5.0")));
    var m2 := Put(m1, FILES, Arr(files));
    var m3 := Put(m2, PACKAGE_DIGEST, Str(digest));
    var m4 := Put(m3, INTEGRITY_DIGEST, Str(integrity));
    PutKeeps(fields, SCHEMA_VERSION, Str(Lit("5.0")));
    PutKeeps(m1, FILES, Arr(files));
    PutKeeps(m2, PACKAGE_DIGEST, Str(digest));
    PutKeeps(m3, INTEGRITY_DIGEST, Str(integrity));
    PutKeeps(m4, SIGNATURE_DIGEST, Str(signature));
  }

  lemma {:induction false} GetReads(m: Reader, es: seq<Entry>, key: Text)
    requires ReadsBack(m, Obj(es))
    ensures ReadsBack(m, Get(es, key))
  {
    if es == [] {
    } else {
      assert es[0] in es && forall e :: e in es[1..] ==> e in es;
      GetReads(m, es[1..], key);
    }
  }

  lemma PutReads(m: Reader, es: seq<Entry>, key: Text, value: Value)
    requires ReadsBack(m, Obj(es)) && ReadsBack(m, value)
    ensures ReadsBack(m, Obj(Put(es, key, value)))
  {
    PutMembers(es, key, value);
  }

  lemma ManifestReadsBack(m: Reader, fields: seq<Entry>, files: seq<Value>, digest: Text, integrity: Text,
                          signature: Text)
    requires ReadsBack(m, Obj(fields)) && ReadsBack(m, Arr(files))
    ensures ReadsBack(m, Obj(ManifestDocument(fields, files, digest, integrity, signature)))
  {
    hide Put;
    var m1 := Put(fields, SCHEMA_VERSION, Str(Lit("5.0")));
    var m2 := Put(m1, FILES, Arr(files));
    var m3 := Put(m2, PACKAGE_DIGEST, Str(digest));
    var m4 := Put(m3, INTEGRITY_DIGEST, Str(integrity));
    PutReads(m, fields, SCHEMA_VERSION, Str(Lit("5.0")));
    PutReads(m, m1, FILES, Arr(files));
    PutReads(m, m2, PACKAGE_DIGEST, Str(digest));
    PutReads(m, m3, INTEGRITY_DIGEST, Str(integrity));
    PutReads(m, m4, SIGNATURE_DIGEST, Str(signature));
  }

  // ----- what the collector has to be given

  ghost predicate OrderBlind(f: Value -> bool) {
    forall v, w :: Valid(v) && Valid(w) && Same(v, w) ==> f(v) == f(w)
  }

  /** The manifest fields are complete and are the session's; five of the required ones are
      written by the builder. */
  predicate FieldsFit(fields: seq<Entry>, x: Expected) {
    && (forall k :: k in REQUIRED_FIELDS ==> Has(fields, k) || k == SCHEMA_VERSION || k == FILES || k == PACKAGE_DIGEST)
    && ManifestNames(fields, x) && ProfileTrusted(fields, x) && PrivilegeFits(fields)
  }

  /** Fields, evidence and results as the validator will see them, with sorted keys, agree on the
      collector and pass schema and status rules. */
  predicate ContentsFit(w: World, fields: seq<Entry>, c: Contents) {
    && CollectorAgrees(w, Sorted(fields), Sorted(c.evidence)) && w.schema(Obj(Sorted(c.evidence))).Accepts?
    && GoodResults(w, NormItems(ByCodePoint, c.capabilities))
  }

  // ----- each check on the documents read back

  /** Manifest fields the builder leaves alone read as the caller gave them. */
  lemma ManifestKeeps(fields: seq<Entry>, m: seq<Entry>, files: seq<Value>, digest: Text, integrity: Text,
                      signature: Text, k: string)
    requires Valid(Obj(fields)) && Valid(Arr(files)) && !Written(k)
    requires m == ManifestDocument(fields, files, digest, integrity, signature)
    ensures Get(Sorted(m), Lit(k)) == Get(Sorted(fields), Lit(k))
    ensures Has(Sorted(m), Lit(k)) == Has(Sorted(fields), Lit(k))
    ensures forall s :: Get(Sorted(m), Lit(k)) == Str(s) <==> Get(fields, Lit(k)) == Str(s)
  {
    hide Valid, Same, Norm, Get, Has, Sorted, ManifestDocument, Lit;
    ManifestValid(fields, files, digest, integrity, signature);
    ManifestGet(fields, files, digest, integrity, signature, k);
    SortedGet(m, Lit(k));
    SortedGet(fields, Lit(k));
  }

  lemma ManifestCompleteness(fields: seq<Entry>, m: seq<Entry>, files: seq<Value>, digest: Text, integrity: Text,
                             signature: Text)
    requires Valid(Obj(fields)) && Valid(Arr(files))
    requires m == ManifestDocument(fields, files, digest, integrity, signature)
    ensures ManifestComplete(Sorted(m)) <==>
              forall k :: k in REQUIRED_FIELDS ==>
                Has(fields, k) || k == SCHEMA_VERSION || k == FILES || k == PACKAGE_DIGEST
  {
    hide Valid, Same, Norm, Get, Has, Sorted, ManifestDocument;
    ManifestValid(fields, files, digest, integrity, signature);
    ManifestGet(fields, files, digest, integrity, signature, "schemaVersion");
    SortedGet(m, Lit("schemaVersion"));
    forall k | k in REQUIRED_FIELDS
      ensures Has(Sorted(m), k) <==> Has(fields, k) || k == SCHEMA_VERSION || k == FILES || k == PACKAGE_DIGEST
    {
      SortedGet(m, k);
      RequiredHas(fields, files, digest, integrity, signature, k);
    }
  }

  lemma RequiredHas(fields: seq<Entry>, files: seq<Value>, digest: Text, integrity: Text, signature: Text, k: Text)
    requires k in REQUIRED_FIELDS
    ensures Has(ManifestDocument(fields, files, digest, integrity, signature), k) <==>
              Has(fields, k) || k == SCHEMA_VERSION || k == FILES || k == PACKAGE_DIGEST
  {
    var m1 := Put(fields, SCHEMA_VERSION, Str(Lit("5.0")));
    var m2 := Put(m1, FILES, Arr(files));
    var m3 := Put(m2, PACKAGE_DIGEST, Str(digest));
    var m4 := Put(m3, INTEGRITY_DIGEST, Str(integrity));
    hide Get, Has, Put, Lit;
    GetPut(fields, SCHEMA_VERSION, Str(Lit("5.0")), k);
    GetPut(m1, FILES, Arr(files), k);
    GetPut(m2, PACKAGE_DIGEST, Str(digest), k);
    GetPut(m3, INTEGRITY_DIGEST, Str(integrity), k);
    GetPut(m4, SIGNATURE_DIGEST, Str(signature), k);
    RequiredAreOthers(k);
  }

  lemma RequiredAreOthers(k: Text)
    requires k in REQUIRED_FIELDS
    ensures k != INTEGRITY_DIGEST && k != SIGNATURE_DIGEST
  {
    assert |INTEGRITY_DIGEST| == 15 && INTEGRITY_DIGEST[0] == 'i' as int;
    assert |SIGNATURE_DIGEST| == 15 && SIGNATURE_DIGEST[1] == 'i' as int && SIGNATURE_DIGEST[0] == 's' as int;
    var i :| 0 <= i < |REQUIRED_FIELDS| && REQUIRED_FIELDS[i] == k;
    assert |Lit("schemaVersion")| == 13 && |Lit("assessmentId")| == 12 && |Lit("sessionId")| == 9;
    assert |Lit("submissionId")| == 12 && |Lit("collectorVersion")| == 16 && |Lit("collectorBuildDigest")| == 20;
    assert |Lit("collectionProfile")| == 17 && |Lit("collectionProfileDigest")| == 23 && |Lit("deviceId")| == 8;
    assert |Lit("startedAt")| == 9 && |Lit("completedAt")| == 11 && |Lit("privilegeContext")| == 16;
    assert |Lit("files")| == 5 && |Lit("packageDigest")| == 13;
  }

  /** The manifest checks come down to the fields the caller gave. */
  lemma FieldsDecide(d: Documents, fields: seq<Entry>, files: seq<Value>, digest: Text, integrity: Text,
                     signature: Text, x: Expected)
    requires Valid(Obj(fields)) && Valid(Arr(files))
    requires d.manifest == Sorted(ManifestDocument(fields, files, digest, integrity, signature))
    ensures ManifestRead(d, x) && PrivilegeFits(d.manifest) <==> FieldsFit(fields, x)
    ensures ManifestNames(d.manifest, x) <==> ManifestNames(fields, x)
  {
    hide Valid, Get, Has, Sorted, ManifestDocument, Lit, ManifestComplete;
    var m := ManifestDocument(fields, files, digest, integrity, signature);
    ManifestCompleteness(fields, m, files, digest, integrity, signature);
    ManifestKeeps(fields, m, files, digest, integrity, signature, "assessmentId");
    ManifestKeeps(fields, m, files, digest, integrity, signature, "sessionId");
    ManifestKeeps(fields, m, files, digest, integrity, signature, "submissionId");
    ManifestKeeps(fields, m, files, digest, integrity, signature, "collectionProfileDigest");
    ManifestKeeps(fields, m, files, digest, integrity, signature, "privilegeContext");
  }

  lemma CollectorDecides(w: World, fields: seq<Entry>, evidence: seq<Entry>, files: seq<Value>, digest: Text,
                         integrity: Text, signature: Text)
    requires Valid(Obj(fields)) && Valid(Arr(files))
    ensures var m := ManifestDocument(fields, files, digest, integrity, signature);
            CollectorAgrees(w, Sorted(m), evidence) <==> CollectorAgrees(w, Sorted(fields), evidence)
  {
    hide Valid, Get, Has, Sorted, ManifestDocument, Lit, PyEqual;
    var m := ManifestDocument(fields, files, digest, integrity, signature);
    ManifestKeeps(fields, m, files, digest, integrity, signature, "collectorVersion");
    ManifestKeeps(fields, m, files, digest, integrity, signature, "collectorBuildDigest");
  }

  lemma FileEntryFields(w: World, name: Text, content: Bytes)
    ensures var e := FileEntry(w, name, content);
            && Valid(e) && Has(e.entries, PATH) && Get(e.entries, PATH) == Str(name)
            && Get(e.entries, Lit("sha256")) == Str(Sha256(w, content))
            && Get(e.entries, Lit("size")) == Int(|content|)
  {
    var es := FileEntry(w, name, content).entries;
    LitInjective("path", "sha256");
    LitInjective("path", "size");
    LitInjective("sha256", "size");
    assert es[0] in es && es[1] in es && es[2] in es;
    assert UniqueKeys(es);
    GetIs(es, PATH, es[0]);
    GetIs(es, Lit("sha256"), es[1]);
    GetIs(es, Lit("size"), es[2]);
  }

  /** One more item, declared after the others. */
  lemma DeclarationOf(items: seq<Value>, last: Value, name: Text)
    requires Listed(items + [last])
    ensures Listed(items) && last.Obj?
    ensures Declaration(items + [last], name)
            == if Get(last.entries, PATH) == Str(name) then Some(last.entries) else Declaration(items, name)
  {
    hide Get, Has, Lit;
    var all := items + [last];
    assert all[..|all| - 1] == items && all[|all| - 1] == last;
    assert forall x :: x in items ==> x in all;
    assert last in all;
  }

  lemma ThreeValid(u: Value, v: Value, w: Value)
    requires Valid(u) && Valid(v) && Valid(w)
    ensures Valid(Arr([u, v, w]))
  {
  }

  /** A table of three items with these paths declares them. */
  lemma ThreeDeclared(e: Value, c: Value, l: Value)
    requires Listed([e, c, l])
    requires Get(e.entries, PATH) == Str(EVIDENCE) && Get(c.entries, PATH) == Str(CAPABILITIES)
    requires Get(l.entries, PATH) == Str(COLLECTION_LOG)
    ensures Declaration([e, c, l], EVIDENCE) == Some(e.entries)
    ensures Declaration([e, c, l], CAPABILITIES) == Some(c.entries)
    ensures Declaration([e, c, l], COLLECTION_LOG) == Some(l.entries)
  {
    hide Get, Has, Lit, Declaration;
    NamesDistinctly();
    assert [e, c, l] == [e, c] + [l] && [e, c] == [e] + [c] && [e] == [] + [e];
    DeclarationOf([e, c], l, EVIDENCE);
    DeclarationOf([e, c], l, CAPABILITIES);
    DeclarationOf([e, c], l, COLLECTION_LOG);
    DeclarationOf([e], c, EVIDENCE);
    DeclarationOf([e], c, CAPABILITIES);
    DeclarationOf([], e, EVIDENCE);
  }

  lemma NamesDistinctly()
    ensures EVIDENCE != CAPABILITIES && EVIDENCE != COLLECTION_LOG && CAPABILITIES != COLLECTION_LOG
  {
    FileNamesDiffer();
  }

  lemma TableDeclares(w: World, evidence: Bytes, capabilities: Bytes, log: Bytes)
    ensures var t := FileTable(w, evidence, capabilities, log);
            && Valid(Arr(t)) && Listed(t)
            && Declaration(t, EVIDENCE) == Some(FileEntry(w, EVIDENCE, evidence).entries)
            && Declaration(t, CAPABILITIES) == Some(FileEntry(w, CAPABILITIES, capabilities).entries)
            && Declaration(t, COLLECTION_LOG) == Some(FileEntry(w, COLLECTION_LOG, log).entries)
  {
    hide Get, Has, Lit, Declaration, Sha256, Valid;
    var e, c, l := FileEntry(w, EVIDENCE, evidence), FileEntry(w, CAPABILITIES, capabilities),
                   FileEntry(w, COLLECTION_LOG, log);
    FileEntryFields(w, EVIDENCE, evidence);
    FileEntryFields(w, CAPABILITIES, capabilities);
    FileEntryFields(w, COLLECTION_LOG, log);
    ThreeValid(e, c, l);
    ThreeDeclared(e, c, l);
  }

  /** The file table read back from the sorted manifest. */
  lemma TableReads(w: World, fields: seq<Entry>, m: seq<Entry>, t: seq<Value>,
                   digest: Text, integrity: Text, signature: Text)
    requires Valid(Obj(fields)) && Valid(Arr(t))
    requires m == ManifestDocument(fields, t, digest, integrity, signature)
    ensures var files := Get(Sorted(m), FILES);
            Valid(files) && files.Arr? && Same(files, Arr(t))
    ensures Get(Sorted(m), INTEGRITY_DIGEST) == Str(integrity)
    ensures Get(Sorted(m), SIGNATURE_DIGEST) == Str(signature)
    ensures Get(Sorted(m), PACKAGE_DIGEST) == Str(digest)
  {
    hide Valid, Same, Norm, Print, Get, Has, ManifestDocument, Sorted, CanonicalJson;
    ManifestValid(fields, t, digest, integrity, signature);
    ManifestGet(fields, t, digest, integrity, signature, "files");
    ManifestGet(fields, t, digest, integrity, signature, "integrityDigest");
    ManifestGet(fields, t, digest, integrity, signature, "signatureDigest");
    ManifestGet(fields, t, digest, integrity, signature, "packageDigest");
    SortedGet(m, FILES);
    SortedGet(m, INTEGRITY_DIGEST);
    SortedGet(m, SIGNATURE_DIGEST);
    SortedGet(m, PACKAGE_DIGEST);
    NormValid(ByCodePoint, Arr(t));
    NormSame(ByCodePoint, Arr(t));
    NormOfArray(t);
  }

  lemma SameListed(files: Value, t: seq<Value>)
    requires Valid(files) && Valid(Arr(t)) && files.Arr? && Same(files, Arr(t)) && Listed(t)
    requires forall x :: x in t ==> Get(x.entries, PATH).Str?
    ensures Listed(files.items)
    ensures forall x :: x in files.items ==> exists y :: y in t && Get(x.entries, PATH) == Get(y.entries, PATH)
  {
    forall x | x in files.items
      ensures x.Obj? && Has(x.entries, PATH) && Hashable(Get(x.entries, PATH))
      ensures exists y :: y in t && Get(x.entries, PATH) == Get(y.entries, PATH)
    {
      var i :| 0 <= i < |files.items| && files.items[i] == x;
      assert t[i] in t;
      SameSymmetric(x, t[i]);
      SameGetPresent(t[i].entries, x.entries, PATH);
    }
  }

  lemma DeclaresBack(w: World, files: Value, t: seq<Value>, members: map<Text, Bytes>, name: Text)
    requires Valid(files) && Valid(Arr(t)) && files.Arr? && Same(files, Arr(t))
    requires Listed(files.items) && Listed(t) && name in members
    requires DeclaresMember(w, t, members, name)
    ensures DeclaresMember(w, files.items, members, name)
  {
    SameDeclaration(files.items, t, name);
    var d, e := Declaration(files.items, name).value, Declaration(t, name).value;
    SameSymmetric(Obj(d), Obj(e));
    SameGetBoth(e, d, Lit("sha256"));
    SameGetBoth(e, d, Lit("size"));
  }

  // ----- reading the archive back

  /** Every info that is read is read under its own name. */
  lemma {:induction false} ReadInfosHolds(limits: Limits, infos: seq<Info>)
    requires NamesDistinct(infos) && ReadInfos(limits, infos).Success?
    ensures forall i :: 0 <= i < |infos| ==>
              && infos[i].filename in ReadInfos(limits, infos).value
              && Some(ReadInfos(limits, infos).value[infos[i].filename]) == infos[i].content
    decreases |infos|
  {
    if infos == [] {
    } else {
      var init, last := infos[..|infos| - 1], infos[|infos| - 1];
      assert forall i :: 0 <= i < |init| ==> init[i] == infos[i];
      ReadInfosHolds(limits, init);
    }
  }

  /** The size limits a package has to keep. */
  predicate Fits(w: World, limits: Limits, size: nat, b: Built) {
    && size <= limits.packageSize && limits.files >= 6
    && Total(Infos(w, b)) <= limits.uncompressedSize
    && forall info :: info in Infos(w, b) ==> !UnsafeRatio(info)
  }

  predicate Holds(members: map<Text, Bytes>, b: Built) {
    && HasRequired(members)
    && members[MANIFEST] == b.manifestBytes
    && members[EVIDENCE] == b.payloads.evidence
    && members[CAPABILITIES] == b.payloads.capabilities
    && members[COLLECTION_LOG] == b.payloads.log
    && members[INTEGRITY] == b.integrityBytes
    && members[SIGNATURE] == b.signatureBytes
  }

  lemma BuiltReadable(w: World, b: Built)
    ensures AllReadable(Infos(w, b)) <==> forall info :: info in Infos(w, b) ==> !UnsafeRatio(info)
  {
    hide UnsafeRatio;
    var infos := Infos(w, b);
    forall i | 0 <= i < |infos|
      ensures Readable(infos[i]) <==> !UnsafeRatio(infos[i])
    {
    }
    if AllReadable(infos) {
      forall info | info in infos
        ensures !UnsafeRatio(info)
      {
        var i :| 0 <= i < |infos| && infos[i] == info;
        assert Readable(infos[i]);
      }
    } else {
      var i :| 0 <= i < |infos| && !Readable(infos[i]);
      assert infos[i] in infos;
    }
  }

  /** A built archive is read exactly when it keeps the limits, and holds what was built. */
  lemma BuiltArchiveReads(w: World, limits: Limits, size: nat, b: Built)
    ensures var r := Members(limits, Zip(size, Infos(w, b)));
            (r.Success? <==> Fits(w, limits, size, b)) && (r.Success? ==> Holds(r.value, b))
  {
    hide UnsafeRatio, AllReadable, ReadInfos, FileSetRequired, NamesDistinct, Total;
    var infos, archive := Infos(w, b), Zip(size, Infos(w, b));
    SixFiles(infos);
    BuiltReadable(w, b);
    ArchiveExact(limits, archive);
    if Members(limits, archive).Success? {
      ReadInfosHolds(limits, infos);
      MembersRequired(limits, archive);
      assert infos[0].filename == CAPABILITIES && infos[1].filename == COLLECTION_LOG && infos[2].filename == EVIDENCE;
      assert infos[3].filename == INTEGRITY && infos[4].filename == MANIFEST && infos[5].filename == SIGNATURE;
    }
  }

  // ----- reading the documents back

  ghost predicate WrittenAs(w: World, v: Value, b: Bytes) { Proper(Unique(w), v) && CanonicalBytes(v) == Some(b) }

  /** All the documents of a built package are proper values, and these are their bytes. */
  ghost predicate Encoded(w: World, b: Built, c: Contents) {
    && WrittenAs(w, Obj(b.manifest), b.manifestBytes) && WrittenAs(w, Obj(b.integrity), b.integrityBytes)
    && WrittenAs(w, Obj(b.signature), b.signatureBytes) && WrittenAs(w, Obj(c.evidence), b.payloads.evidence)
    && WrittenAs(w, Arr(c.capabilities), b.payloads.capabilities) && WrittenAs(w, Obj(c.log), b.payloads.log)
    && (forall r :: r in c.capabilities ==> r.Obj?)
  }

  function SortedDocuments(members: map<Text, Bytes>, b: Built, c: Contents): Documents {
    Documents(members, Sorted(b.manifest), Sorted(c.evidence), NormItems(ByCodePoint, c.capabilities),
              Sorted(c.log), Sorted(b.integrity), Sorted(b.signature))
  }

  lemma ObjectReads(w: World, es: seq<Entry>, b: Bytes)
    requires WrittenAs(w, Obj(es), b)
    ensures ParseObjectDocument(w, b) == Success(Sorted(es))
  {
    CanonicalBytesParse(w, Obj(es));
  }

  lemma ResultsRead(w: World, results: seq<Value>, b: Bytes)
    requires WrittenAs(w, Arr(results), b)
    requires forall r :: r in results ==> r.Obj?
    ensures ParseResults(w, b) == Success(NormItems(ByCodePoint, results))
  {
    CanonicalBytesParse(w, Arr(results));
    var items := NormItems(ByCodePoint, results);
    forall x | x in items
      ensures x.Obj?
    {
      var i :| 0 <= i < |items| && items[i] == x;
      assert results[i] in results;
    }
  }

  lemma BuiltDocumentsRead(w: World, members: map<Text, Bytes>, b: Built, c: Contents)
    requires Holds(members, b) && Encoded(w, b, c)
    ensures ReadDocuments(w, members) == Success(SortedDocuments(members, b, c))
  {
    hide WrittenAs, Norm, ParseObjectDocument, ParseResults;
    ObjectReads(w, b.manifest, b.manifestBytes);
    ObjectReads(w, b.integrity, b.integrityBytes);
    ObjectReads(w, b.signature, b.signatureBytes);
    ObjectReads(w, c.evidence, b.payloads.evidence);
    ResultsRead(w, c.capabilities, b.payloads.capabilities);
    ObjectReads(w, c.log, b.payloads.log);
  }

  // ----- the checks pass

  lemma BindingNames(fields: seq<Entry>, nonce: Text, files: seq<Value>)
    ensures UniqueKeys(Binding(fields, nonce, files))
  {
    hide Get;
    var es := Binding(fields, nonce, files);
    assert |es[0].key| == 12 && |es[1].key| == 9 && |es[2].key| == 12 && |es[3].key| == 5 && |es[4].key| == 5;
    assert es[0].key[0] == 'a' as int && es[2].key[0] == 's' as int;
    assert es[3].key[0] == 'n' as int && es[4].key[0] == 'f' as int;
  }

  lemma BindingFields(fields: seq<Entry>, nonce: Text, files: seq<Value>)
    requires Valid(Obj(fields)) && Valid(Arr(files))
    ensures var es := Binding(fields, nonce, files);
            Valid(Obj(es)) && Get(es, NONCE) == Str(nonce) && Get(es, FILES) == Arr(files)
  {
    hide UniqueKeys, Get, Lit;
    var es := Binding(fields, nonce, files);
    BindingNames(fields, nonce, files);
    GetValid(fields, Lit("assessmentId"));
    GetValid(fields, Lit("sessionId"));
    GetValid(fields, Lit("submissionId"));
    assert es[3] in es && es[4] in es;
    GetIs(es, NONCE, es[3]);
    GetIs(es, FILES, es[4]);
  }

  lemma IntegrityFields(binding: seq<Entry>, digest: Text)
    requires Valid(Obj(binding))
    ensures var es := IntegrityDocument(binding, digest);
            Valid(Obj(es)) && Get(es, BINDING) == Obj(binding) && Get(es, PACKAGE_DIGEST) == Str(digest)
  {
    var es := IntegrityDocument(binding, digest);
    assert es[0].key[0] == 's' as int && es[1].key[0] == 'b' as int && es[2].key[0] == 'p' as int;
    assert UniqueKeys(es);
    assert es[1] in es && es[2] in es;
    GetIs(es, BINDING, es[1]);
    GetIs(es, PACKAGE_DIGEST, es[2]);
  }

  lemma SignedValid(fields: seq<Entry>, nonce: Text, digest: Text)
    requires Valid(Obj(fields))
    ensures Valid(Obj(SignedFields(fields, nonce, digest)))
  {
    var es := SignedFields(fields, nonce, digest);
    assert es[0].key[0] == 's' as int && es[1].key[0] == 's' as int && es[2].key[0] == 'n' as int;
    assert es[3].key[0] == 'p' as int && es[0].key[1] == 'e' as int && es[1].key[1] == 'u' as int;
    assert UniqueKeys(es);
    GetValid(fields, Lit("sessionId"));
    GetValid(fields, Lit("submissionId"));
  }

  lemma SignatureFields(signed: seq<Entry>, token: Text, mac: Text)
    requires Valid(Obj(signed))
    ensures var es := SignatureDocument(signed, token, mac);
            && Valid(Obj(es)) && Get(es, Lit("signed")) == Obj(signed)
            && Get(es, Lit("signature")) == Str(mac) && Has(es, Lit("signature"))
  {
    var es := SignatureDocument(signed, token, mac);
    assert es[0].key[0] == 'a' as int && es[1].key[0] == 'k' as int;
    assert es[2].key[0] == 's' as int && es[3].key[0] == 's' as int;
    assert es[2].key[4] == 'e' as int && es[3].key[4] == 'a' as int;
    assert UniqueKeys(es);
    assert es[2] in es && es[3] in es;
    GetIs(es, Lit("signed"), es[2]);
    GetIs(es, Lit("signature"), es[3]);
  }

  lemma {:induction false} EntriesReadBack(m: Reader, es: seq<Entry>)
    requires forall i :: 0 <= i < |es| ==> ReadsBack(m, es[i].value)
    ensures ReadsBack(m, Obj(es))
  {
  }

  lemma BindingReadsBack(m: Reader, fields: seq<Entry>, nonce: Text, files: seq<Value>)
    requires ReadsBack(m, Obj(fields)) && ReadsBack(m, Arr(files))
    ensures ReadsBack(m, Obj(Binding(fields, nonce, files)))
  {
    hide Get, Lit;
    GetReads(m, fields, Lit("assessmentId"));
    GetReads(m, fields, Lit("sessionId"));
    GetReads(m, fields, Lit("submissionId"));
    assert ReadsBack(m, Str(nonce));
    hide ReadsBack;
    EntriesReadBack(m, Binding(fields, nonce, files));
  }

  lemma SignedReadsBack(m: Reader, fields: seq<Entry>, nonce: Text, digest: Text)
    requires ReadsBack(m, Obj(fields))
    ensures ReadsBack(m, Obj(SignedFields(fields, nonce, digest)))
  {
    hide Get, Lit;
    GetReads(m, fields, Lit("sessionId"));
    GetReads(m, fields, Lit("submissionId"));
    assert ReadsBack(m, Str(nonce)) && ReadsBack(m, Str(digest));
    hide ReadsBack;
    EntriesReadBack(m, SignedFields(fields, nonce, digest));
  }

  lemma DocumentsReadBack(m: Reader, binding: seq<Entry>, signed: seq<Entry>, digest: Text, token: Text, mac: Text)
    requires ReadsBack(m, Obj(binding)) && ReadsBack(m, Obj(signed))
    ensures ReadsBack(m, Obj(IntegrityDocument(binding, digest)))
    ensures ReadsBack(m, Obj(SignatureDocument(signed, token, mac)))
  {
    hide Lit, BeforeDot;
    assert forall s :: ReadsBack(m, Str(s));
    hide ReadsBack;
    EntriesReadBack(m, IntegrityDocument(binding, digest));
    EntriesReadBack(m, SignatureDocument(signed, token, mac));
  }

  // ----- what assembling computes

  /** The parts of a built package, before anything is known to be valid. */
  lemma Assembled(w: World, fields: seq<Entry>, p: Payloads, token: Text, nonce: Text, b: Built)
    requires Assemble(w, fields, p, token, nonce) == Some(b)
    ensures var files, signed := Table(w, p), SignedFields(fields, nonce, b.digest);
            && b.payloads == p
            && Sha256Value(w, Obj(Binding(fields, nonce, files))) == Some(b.digest)
            && b.integrity == IntegrityDocument(Binding(fields, nonce, files), b.digest)
            && CanonicalBytes(Obj(signed)).Some?
            && b.signature == SignatureDocument(signed, token, w.mac(token, CanonicalBytes(Obj(signed)).value))
            && b.manifest
               == ManifestDocument(fields, files, b.digest, Sha256(w, b.integrityBytes), Sha256(w, b.signatureBytes))
    ensures CanonicalBytes(Obj(b.manifest)) == Some(b.manifestBytes)
    ensures CanonicalBytes(Obj(b.integrity)) == Some(b.integrityBytes)
    ensures CanonicalBytes(Obj(b.signature)) == Some(b.signatureBytes)
  {
    hide CanonicalBytes, Sha256Value, Sha256, Table, Binding, SignedFields, IntegrityDocument, SignatureDocument;
    hide ManifestDocument;
  }

  lemma PartsValid(w: World, fields: seq<Entry>, p: Payloads, token: Text, nonce: Text, b: Built)
    requires Assemble(w, fields, p, token, nonce) == Some(b) && Valid(Obj(fields))
    ensures Valid(Arr(Table(w, p))) && Valid(Obj(Binding(fields, nonce, Table(w, p))))
    ensures Valid(Obj(SignedFields(fields, nonce, b.digest)))
    ensures Valid(Obj(b.manifest)) && Valid(Obj(b.integrity)) && Valid(Obj(b.signature))
  {
    hide Valid, CanonicalBytes, Sha256Value, Sha256, FileTable, Binding, SignedFields, Signed, Assemble;
    hide IntegrityDocument, SignatureDocument, ManifestDocument, Get, Has, Listed, Declaration, FileEntry;
    var files := Table(w, p);
    var signed := SignedFields(fields, nonce, b.digest);
    Assembled(w, fields, p, token, nonce, b);
    TableDeclares(w, p.evidence, p.capabilities, p.log);
    BindingFields(fields, nonce, files);
    SignedValid(fields, nonce, b.digest);
    IntegrityFields(Binding(fields, nonce, files), b.digest);
    SignatureFields(signed, token, w.mac(token, CanonicalBytes(Obj(signed)).value));
    ManifestValid(fields, files, b.digest, Sha256(w, b.integrityBytes), Sha256(w, b.signatureBytes));
  }

  lemma PartsReadBack(w: World, m: Reader, fields: seq<Entry>, p: Payloads, token: Text, nonce: Text, b: Built)
    requires Assemble(w, fields, p, token, nonce) == Some(b) && ReadsBack(m, Obj(fields))
    ensures ReadsBack(m, Obj(b.manifest)) && ReadsBack(m, Obj(b.integrity)) && ReadsBack(m, Obj(b.signature))
  {
    hide ReadsBack, CanonicalBytes, Sha256Value, Sha256, Binding, SignedFields, Assemble, Table;
    hide IntegrityDocument, SignatureDocument, ManifestDocument;
    var files := Table(w, p);
    var signed := SignedFields(fields, nonce, b.digest);
    Assembled(w, fields, p, token, nonce, b);
    TableReadsBack(w, m, p);
    ManifestReadsBack(m, fields, files, b.digest, Sha256(w, b.integrityBytes), Sha256(w, b.signatureBytes));
    BindingReadsBack(m, fields, nonce, files);
    SignedReadsBack(m, fields, nonce, b.digest);
    DocumentsReadBack(m, Binding(fields, nonce, files), signed, b.digest, token,
                      w.mac(token, CanonicalBytes(Obj(signed)).value));
  }

  lemma TableReadsBack(w: World, m: Reader, p: Payloads)
    ensures ReadsBack(m, Arr(Table(w, p)))
  {
    hide Lit, Sha256;
    EntryReadsBack(w, m, EVIDENCE, p.evidence);
    EntryReadsBack(w, m, CAPABILITIES, p.capabilities);
    EntryReadsBack(w, m, COLLECTION_LOG, p.log);
  }

  lemma EntryReadsBack(w: World, m: Reader, name: Text, content: Bytes)
    ensures ReadsBack(m, FileEntry(w, name, content))
  {
  }

  // ----- what holds of every built package

  lemma BindingPasses(w: World, integrity: seq<Entry>, binding: seq<Entry>, digest: Text, nonce: Text,
                      files: seq<Value>,
                      table: Value)
    requires Valid(Obj(binding)) && integrity == IntegrityDocument(binding, digest)
    requires Get(binding, NONCE) == Str(nonce) && Get(binding, FILES) == Arr(files)
    requires Valid(table) && Same(Arr(files), table) && Valid(Arr(files))
    requires Sha256Value(w, Obj(binding)) == Some(digest)
    ensures var back := Get(Sorted(integrity), BINDING);
            && back.Obj? && Get(back.entries, NONCE) == Str(nonce)
            && PyEqual(w.python, Get(back.entries, FILES), table)
            && Sha256Value(w, back) == Some(digest)
    ensures Get(Sorted(integrity), PACKAGE_DIGEST) == Str(digest)
  {
    hide Valid, Same, Norm, Get, Has, Sorted, CanonicalJson, IntegrityDocument, PyEqual, Merged;
    IntegrityFields(binding, digest);
    SortedGet(integrity, BINDING);
    SortedGet(integrity, PACKAGE_DIGEST);
    NormOfObject(binding);
    SortedGet(binding, NONCE);
    SortedGet(binding, FILES);
    NormValid(ByCodePoint, Arr(files));
    NormSame(ByCodePoint, Arr(files));
    NormOfArray(files);
    TablesAgree(w, Norm(ByCodePoint, Arr(files)), Arr(files), table);
    DigestOfSorted(w, binding);
  }

  lemma NormOfObject(es: seq<Entry>)
    ensures Norm(ByCodePoint, Obj(es)) == Obj(Sorted(es))
  {
  }

  lemma NormOfArray(items: seq<Value>)
    ensures Norm(ByCodePoint, Arr(items)).Arr?
  {
  }

  lemma TablesAgree(w: World, u: Value, v: Value, t: Value)
    requires Valid(u) && Valid(v) && Valid(t) && Same(u, v) && Same(v, t) && u.Arr?
    ensures PyEqual(w.python, u, t)
  {
    hide Valid, Same, Merged, CanonicalJson;
    SameEqual(w.python.floats, u, v);
    SameEqual(w.python.floats, v, t);
    MergedValid(w.python.floats, u);
    MergedValid(w.python.floats, v);
    MergedValid(w.python.floats, t);
    CanonicalJsonInjective(Merged(w.python.floats, u), Merged(w.python.floats, v));
    CanonicalJsonInjective(Merged(w.python.floats, v), Merged(w.python.floats, t));
  }

  lemma DigestOfSorted(w: World, es: seq<Entry>)
    requires Valid(Obj(es))
    ensures Sha256Value(w, Obj(Sorted(es))) == Sha256Value(w, Obj(es))
  {
    SortedGet(es, []);
    CanonicalJsonInjective(Obj(Sorted(es)), Obj(es));
  }

  /** Both directions of the path set: each listed path is a payload file, each payload
      file is declared with the digest and size of its bytes. */
  lemma TableCovers(w: World, p: Payloads, members: map<Text, Bytes>, files: Value)
    requires Valid(files) && files.Arr? && Same(files, Arr(Table(w, p)))
    requires EVIDENCE in members && members[EVIDENCE] == p.evidence
    requires CAPABILITIES in members && members[CAPABILITIES] == p.capabilities
    requires COLLECTION_LOG in members && members[COLLECTION_LOG] == p.log
    ensures Listed(files.items) && PathsMatch(files.items)
    ensures forall n :: n in PAYLOAD_FILES ==> n in members && DeclaresMember(w, files.items, members, n)
  {
    hide Valid, Same, Norm, Get, Has, Listed, Declaration, DeclaresMember, Lit;
    var t := Table(w, p);
    TableDeclares(w, p.evidence, p.capabilities, p.log);
    FileEntryFields(w, EVIDENCE, p.evidence);
    FileEntryFields(w, CAPABILITIES, p.capabilities);
    FileEntryFields(w, COLLECTION_LOG, p.log);
    SameListed(files, t);
    PayloadNamed();
    forall n | n in PAYLOAD_FILES
      ensures n in members && DeclaresMember(w, files.items, members, n) && Declaration(files.items, n).Some?
    {
      TableDeclaresMember(w, p, members, n);
      DeclaresBack(w, files, t, members, n);
      DeclaredSome(w, files.items, members, n);
    }
    forall x | x in files.items
      ensures exists n :: n in PAYLOAD_FILES && Get(x.entries, PATH) == Str(n)
    {
      var y :| y in t && Get(x.entries, PATH) == Get(y.entries, PATH);
      assert y == FileEntry(w, EVIDENCE, p.evidence) || y == FileEntry(w, CAPABILITIES, p.capabilities)
             || y == FileEntry(w, COLLECTION_LOG, p.log);
    }
  }

  lemma PayloadNamed()
    ensures forall n :: n in PAYLOAD_FILES <==> n == EVIDENCE || n == CAPABILITIES || n == COLLECTION_LOG
  {
    forall n
      ensures n in PAYLOAD_FILES <==> n == EVIDENCE || n == CAPABILITIES || n == COLLECTION_LOG
    {
      PayloadNames(n);
    }
  }

  lemma DeclaredSome(w: World, items: seq<Value>, members: map<Text, Bytes>, n: Text)
    requires Listed(items) && n in members && DeclaresMember(w, items, members, n)
    ensures Declaration(items, n).Some?
  {
  }

  lemma TableDeclaresMember(w: World, p: Payloads, members: map<Text, Bytes>, n: Text)
    requires n in PAYLOAD_FILES
    requires EVIDENCE in members && members[EVIDENCE] == p.evidence
    requires CAPABILITIES in members && members[CAPABILITIES] == p.capabilities
    requires COLLECTION_LOG in members && members[COLLECTION_LOG] == p.log
    ensures n in members && Listed(Table(w, p)) && DeclaresMember(w, Table(w, p), members, n)
  {
    hide Get, Has, Listed, Declaration, Lit, Valid, Sha256;
    PayloadNames(n);
    TableDeclares(w, p.evidence, p.capabilities, p.log);
    FileEntryFields(w, EVIDENCE, p.evidence);
    FileEntryFields(w, CAPABILITIES, p.capabilities);
    FileEntryFields(w, COLLECTION_LOG, p.log);
  }

  lemma FilesPass(w: World, d: Documents, b: Built, fields: seq<Entry>)
    requires Valid(Obj(fields)) && Holds(d.members, b) && d.manifest == Sorted(b.manifest)
    requires b.manifest == ManifestDocument(fields, Table(w, b.payloads), b.digest,
                                            Sha256(w, b.integrityBytes), Sha256(w, b.signatureBytes))
    ensures FilesMatch(w, d)
  {
    hide Valid, Same, Norm, Get, Has, Listed, PathsMatch, DeclaresMember, ManifestDocument, Sorted, Table, Sha256;
    var t := Table(w, b.payloads);
    TableDeclares(w, b.payloads.evidence, b.payloads.capabilities, b.payloads.log);
    TableIs(w, b.payloads);
    TableReads(w, fields, b.manifest, t, b.digest, Sha256(w, b.integrityBytes), Sha256(w, b.signatureBytes));
    TableCovers(w, b.payloads, d.members, Get(d.manifest, FILES));
  }

  lemma TableIs(w: World, p: Payloads)
    ensures Table(w, p) == FileTable(w, p.evidence, p.capabilities, p.log)
  {
  }

  lemma BindingHolds(w: World, d: Documents, b: Built, fields: seq<Entry>, x: Expected)
    requires Assemble(w, fields, b.payloads, x.token, x.nonce) == Some(b) && Valid(Obj(fields))
    requires d.manifest == Sorted(b.manifest) && d.integrity == Sorted(b.integrity)
    ensures BindsNonce(d, x) && BindsFiles(w, d) && StatesDigest(d, b.digest)
    ensures Sha256Value(w, Get(d.integrity, BINDING)) == Some(b.digest)
  {
    hide Valid, Same, Norm, Get, Has, CanonicalJson, Sorted, Assemble, Table, PyEqual;
    hide Binding, IntegrityDocument, SignatureDocument, ManifestDocument, CanonicalBytes, Sha256Value, Sha256;
    var files := Table(w, b.payloads);
    var i, s := Sha256(w, b.integrityBytes), Sha256(w, b.signatureBytes);
    Assembled(w, fields, b.payloads, x.token, x.nonce, b);
    PartsValid(w, fields, b.payloads, x.token, x.nonce, b);
    TableReads(w, fields, b.manifest, files, b.digest, i, s);
    BindingFields(fields, x.nonce, files);
    var table := Get(d.manifest, FILES);
    SameSymmetric(table, Arr(files));
    BindingPasses(w, b.integrity, Binding(fields, x.nonce, files), b.digest, x.nonce, files, table);
  }

  /** Where the manifest names the session, the signature is the one expected. */
  lemma SignatureHolds(w: World, d: Documents, b: Built, fields: seq<Entry>, x: Expected)
    requires Assemble(w, fields, b.payloads, x.token, x.nonce) == Some(b) && Valid(Obj(fields)) && Scalar(x.token)
    requires d.signature == Sorted(b.signature) && ManifestNames(fields, x)
    ensures SignsThis(w, d.signature, x, b.digest) && Comparable(w, d.signature, x, b.digest)
    ensures SignatureText(w, d.signature) == w.mac(x.token, Utf8(SignedText(x, b.digest)))
  {
    hide Valid, Same, Norm, Get, Has, CanonicalJson, Sorted, Assemble, Table, PyEqual, Scalar;
    hide Binding, IntegrityDocument, SignatureDocument, ManifestDocument, Sha256Value, Sha256;
    Assembled(w, fields, b.payloads, x.token, x.nonce, b);
    PartsValid(w, fields, b.payloads, x.token, x.nonce, b);
    var signed := SignedFields(fields, x.nonce, b.digest);
    assert signed == Signed(x.sessionId, x.submissionId, x.nonce, b.digest);
    var mac := w.mac(x.token, CanonicalBytes(Obj(signed)).value);
    SignatureFields(signed, x.token, mac);
    SortedGet(b.signature, Lit("signature"));
    SortedAgrees(w.python, b.signature, Lit("signed"), Obj(signed));
  }

  /** The scanner looks at the same content in another order. */
  lemma ScanHolds(w: World, d: Documents, c: Contents)
    requires Valid(Obj(c.evidence)) && Valid(Arr(c.capabilities)) && Valid(Obj(c.log)) && OrderBlind(w.scanClean)
    requires w.scanClean(Obj(c.evidence)) && w.scanClean(Arr(c.capabilities)) && w.scanClean(Obj(c.log))
    requires d.evidence == Sorted(c.evidence) && d.log == Sorted(c.log)
    requires d.capabilities == NormItems(ByCodePoint, c.capabilities)
    ensures ScanPasses(w, d)
    ensures Same(Obj(d.evidence), Obj(c.evidence)) && Same(Arr(d.capabilities), Arr(c.capabilities))
    ensures Same(Obj(d.log), Obj(c.log))
  {
    NormSame(ByCodePoint, Obj(c.evidence));
    NormSame(ByCodePoint, Arr(c.capabilities));
    NormSame(ByCodePoint, Obj(c.log));
    NormValid(ByCodePoint, Obj(c.evidence));
    NormValid(ByCodePoint, Arr(c.capabilities));
    NormValid(ByCodePoint, Obj(c.log));
  }

  // ----- main result

  /** Everything a caller hands to the builder is a value that its own text stands for. */
  ghost predicate Given(w: World, fields: seq<Entry>, c: Contents) {
    && Proper(Unique(w), Obj(fields)) && Proper(Unique(w), Obj(c.evidence))
    && Proper(Unique(w), Arr(c.capabilities)) && Proper(Unique(w), Obj(c.log))
    && (forall r :: r in c.capabilities ==> r.Obj?)
  }

  lemma BuildSteps(w: World, fields: seq<Entry>, c: Contents, token: Text, nonce: Text, b: Built)
    requires Build(w, fields, c, token, nonce) == Some(b)
    ensures Scalar(token) && PayloadBytes(c) == Some(b.payloads)
    ensures Assemble(w, fields, b.payloads, token, nonce) == Some(b)
    ensures w.scanClean(Obj(c.evidence)) && w.scanClean(Arr(c.capabilities)) && w.scanClean(Obj(c.log))
  {
    hide Assemble, PayloadBytes, Has;
    Assembled(w, fields, PayloadBytes(c).value, token, nonce, b);
  }

  lemma BuiltEncoded(w: World, fields: seq<Entry>, c: Contents, x: Expected, b: Built)
    requires Build(w, fields, c, x.token, x.nonce) == Some(b) && Given(w, fields, c)
    ensures Encoded(w, b, c)
  {
    hide Valid, ReadsBack, CanonicalBytes, Assemble, Build, Binding, SignedFields, IntegrityDocument, SignatureDocument;
    hide ManifestDocument, Table, Sha256Value;
    BuildSteps(w, fields, c, x.token, x.nonce, b);
    Assembled(w, fields, b.payloads, x.token, x.nonce, b);
    PartsValid(w, fields, b.payloads, x.token, x.nonce, b);
    PartsReadBack(w, Unique(w), fields, b.payloads, x.token, x.nonce, b);
  }

  /** The documents read back from a built package are acceptable exactly when fields and
      contents fit what is expected. */
  lemma BuiltAcceptable(w: World, d: Documents, fields: seq<Entry>, c: Contents, x: Expected, b: Built)
    requires Build(w, fields, c, x.token, x.nonce) == Some(b) && Given(w, fields, c) && OrderBlind(w.scanClean)
    requires Holds(d.members, b) && d == SortedDocuments(d.members, b, c)
    ensures Acceptable(w, d, x, b.digest) <==> FieldsFit(fields, x) && ContentsFit(w, fields, c)
    ensures forall digest :: Acceptable(w, d, x, digest) ==> digest == b.digest
  {
    hide Valid, ReadsBack, Get, Sorted, Assemble, Table, Holds, OrderBlind, CanonicalBytes, Sha256Value, Build;
    hide CollectorAgrees, FilesMatch, BindsNonce, BindsFiles, StatesDigest, SignsThis, Comparable, SignatureText;
    hide SignedText, GoodResults, ScanPasses, ManifestDocument, ManifestRead, PrivilegeFits, FieldsFit, ManifestNames;
    var files := Table(w, b.payloads);
    var i, s := Sha256(w, b.integrityBytes), Sha256(w, b.signatureBytes);
    BuildSteps(w, fields, c, x.token, x.nonce, b);
    Assembled(w, fields, b.payloads, x.token, x.nonce, b);
    PartsValid(w, fields, b.payloads, x.token, x.nonce, b);
    FieldsDecide(d, fields, files, b.digest, i, s, x);
    CollectorDecides(w, fields, d.evidence, files, b.digest, i, s);
    FilesPass(w, d, b, fields);
    BindingHolds(w, d, b, fields, x);
    ScanHolds(w, d, c);
    FieldsName(fields, x);
    if FieldsFit(fields, x) {
      SignatureHolds(w, d, b, fields, x);
    }
  }

  lemma FieldsName(fields: seq<Entry>, x: Expected)
    ensures FieldsFit(fields, x) ==> ManifestNames(fields, x)
  {
    hide ManifestNames;
  }

  /** A built package validates exactly when it keeps the limits, its fields are the session's
      and its contents fit; the validator then hands back the same evidence, results and log
      under the same package digest. */
  lemma BuiltPackageValidates(w: World, limits: Limits, size: nat, fields: seq<Entry>, c: Contents, x: Expected,
                              b: Built)
    requires Build(w, fields, c, x.token, x.nonce) == Some(b) && Given(w, fields, c) && OrderBlind(w.scanClean)
    ensures var r := Validate(w, limits, Zip(size, Infos(w, b)), x);
            && (r.Success? <==> Fits(w, limits, size, b) && FieldsFit(fields, x) && ContentsFit(w, fields, c))
            && (r.Success? ==>
                  && r.value.packageDigest == b.digest && Same(Obj(r.value.evidence), Obj(c.evidence))
                  && Same(Arr(r.value.capabilities), Arr(c.capabilities)) && Same(Obj(r.value.log), Obj(c.log)))
  {
    hide Build, Given, OrderBlind, Members, ReadDocuments, Validate, Acceptable, Holds, Fits, FieldsFit, ContentsFit;
    hide Encoded, Infos, Same, Sorted, NormItems, HasRequired;
    var archive := Zip(size, Infos(w, b));
    var r := Validate(w, limits, archive, x);
    BuiltArchiveReads(w, limits, size, b);
    if Members(limits, archive).Success? {
      var members := Members(limits, archive).value;
      var d := SortedDocuments(members, b, c);
      MembersRequired(limits, archive);
      BuiltEncoded(w, fields, c, x, b);
      BuiltDocumentsRead(w, members, b, c);
      BuiltAcceptable(w, d, fields, c, x, b);
      BuiltScans(w, d, fields, c, x, b);
      ValidationExact(w, limits, archive, x, Validated(d.manifest, d.evidence, d.capabilities, d.log, b.digest));
    }
    if r.Success? {
      ValidationExact(w, limits, archive, x, r.value);
    }
  }

  lemma BuiltScans(w: World, d: Documents, fields: seq<Entry>, c: Contents, x: Expected, b: Built)
    requires Build(w, fields, c, x.token, x.nonce) == Some(b) && Given(w, fields, c) && OrderBlind(w.scanClean)
    requires d == SortedDocuments(d.members, b, c)
    ensures Same(Obj(d.evidence), Obj(c.evidence)) && Same(Arr(d.capabilities), Arr(c.capabilities))
    ensures Same(Obj(d.log), Obj(c.log))
  {
    hide Valid, ReadsBack, Same, Sorted, Build;
    BuildSteps(w, fields, c, x.token, x.nonce, b);
    ScanHolds(w, d, c);
  }
}
