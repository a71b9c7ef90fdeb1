/**
 What `build_evidence_package` writes: when it succeeds, the six members of the archive and the
 fields of the documents in them.
 */
module BuildRules {
  import opened Wrappers
  import opened Unicode
  import opened Json
  import opened Canonical
  import opened PrintedForm
  import opened Fields
  import opened Package
  import opened PackageBuild

  lemma BytesAre(v: Value)
    requires Valid(v)
    ensures CanonicalBytes(v).Some? <==> AllScalar(v)
    ensures forall b :: CanonicalBytes(v) == Some(b) ==> Encodes(b, v)
  {
    hide AllScalar, Scalar, Encodes;
    EncodesIs(v);
  }

  // ----- the file table

  /** Path, digest and size of one file. */
  ghost predicate Lists(w: World, item: Value, name: string, content: Bytes) {
    && item.Obj? && Dict(item.entries, ["path", "sha256", "size"])
    && Field(item.entries, "path") == Str(Lit(name))
    && Field(item.entries, "sha256") == Str(Lit("sha256:") + w.sha256(content))
    && Field(item.entries, "size") == Int(|content|)
  }

  lemma EntryLists(w: World, name: string, content: Bytes)
    ensures Lists(w, FileEntry(w, Lit(name), content), name, content)
  {
    hide Field, Lit;
    var es := FileEntry(w, Lit(name), content).entries;
    DictIs(es, ["path", "sha256", "size"]);
    assert Field(es, "path") == es[0].value && Field(es, "sha256") == es[1].value && Field(es, "size") == es[2].value;
  }

  /** The three payload files in this order. */
  ghost predicate ListsAll(w: World, items: seq<Value>, p: Payloads) {
    && |items| == 3 && Lists(w, items[0], "evidence.json", p.evidence)
    && Lists(w, items[1], "capability-results.json", p.capabilities)
    && Lists(w, items[2], "collection-log.json", p.log)
  }

  lemma TableLists(w: World, p: Payloads)
    ensures ListsAll(w, Table(w, p), p)
  {
    hide Lists, Lit;
    EntryLists(w, "evidence.json", p.evidence);
    EntryLists(w, "capability-results.json", p.capabilities);
    EntryLists(w, "collection-log.json", p.log);
  }

  // ----- the documents

  /** The hash of what the bytes of the value are. */
  ghost predicate HashOf(w: World, digest: Text, v: Value) {
    exists b :: Encodes(b, v) && digest == Lit("sha256:") + w.sha256(b)
  }

  /** The identity of the submission, the nonce and the table, under their hash. */
  ghost predicate IntegrityReads(w: World, es: seq<Entry>, fields: seq<Entry>, nonce: Text, p: Payloads, digest: Text) {
    var binding := Field(es, "binding");
    && Dict(es, ["schemaVersion", "binding", "packageDigest"])
    && Field(es, "schemaVersion") == Str(Lit("5.0")) && Field(es, "packageDigest") == Str(digest)
    && HashOf(w, digest, binding)
    && binding.Obj? && Dict(binding.entries, ["assessmentId", "sessionId", "submissionId", "nonce", "files"])
    && Field(binding.entries, "assessmentId") == Field(fields, "assessmentId")
    && Field(binding.entries, "sessionId") == Field(fields, "sessionId")
    && Field(binding.entries, "submissionId") == Field(fields, "submissionId")
    && Field(binding.entries, "nonce") == Str(nonce)
    && Field(binding.entries, "files").Arr? && ListsAll(w, Field(binding.entries, "files").items, p)
  }

  lemma GetField(es: seq<Entry>, name: string)
    requires Valid(Obj(es))
    ensures Field(es, name) == Get(es, Lit(name)) && (Present(es, name) <==> Has(es, Lit(name)))
  {
    FieldIs(es, name);
  }

  lemma BindingReads(w: World, fields: seq<Entry>, nonce: Text, p: Payloads)
    requires Valid(Obj(fields))
    ensures var es := Binding(fields, nonce, Table(w, p));
            && Dict(es, ["assessmentId", "sessionId", "submissionId", "nonce", "files"])
            && Field(es, "assessmentId") == Field(fields, "assessmentId")
            && Field(es, "sessionId") == Field(fields, "sessionId")
            && Field(es, "submissionId") == Field(fields, "submissionId")
            && Field(es, "nonce") == Str(nonce) && Field(es, "files") == Arr(Table(w, p))
  {
    hide Field, Lit, Get, Valid, Table;
    var es := Binding(fields, nonce, Table(w, p));
    var names := ["assessmentId", "sessionId", "submissionId", "nonce", "files"];
    DictIs(es, names);
    GetField(fields, "assessmentId");
    GetField(fields, "sessionId");
    GetField(fields, "submissionId");
    assert forall i :: 0 <= i < 5 ==> Field(es, names[i]) == es[i].value;
    assert Field(es, names[0]) == es[0].value && Field(es, names[1]) == es[1].value;
    assert Field(es, names[2]) == es[2].value && Field(es, names[3]) == es[3].value;
    assert Field(es, names[4]) == es[4].value;
  }

  lemma IntegrityIs(w: World, fields: seq<Entry>, p: Payloads, nonce: Text, digest: Text)
    requires Valid(Obj(fields)) && Valid(Obj(Binding(fields, nonce, Table(w, p))))
    requires Sha256Value(w, Obj(Binding(fields, nonce, Table(w, p)))) == Some(digest)
    ensures IntegrityReads(w, IntegrityDocument(Binding(fields, nonce, Table(w, p)), digest), fields, nonce, p, digest)
  {
    hide Field, Lit, Valid, Table, Dict, Binding, ListsAll, CanonicalJson, Scalar, Encodes;
    var binding := Binding(fields, nonce, Table(w, p));
    BindingReads(w, fields, nonce, p);
    TableLists(w, p);
    BytesAre(Obj(binding));
    assert CanonicalBytes(Obj(binding)).Some?;
    var es := IntegrityDocument(binding, digest);
    var names := ["schemaVersion", "binding", "packageDigest"];
    DictIs(es, names);
    assert Field(es, names[0]) == es[0].value && Field(es, names[1]) == es[1].value;
    assert Field(es, names[2]) == es[2].value;
  }

  /** Identity, nonce and digest, signed with the token. */
  ghost predicate SignatureReads(w: World, es: seq<Entry>, fields: seq<Entry>, token: Text, nonce: Text, digest: Text) {
    var signed := Field(es, "signed");
    && Dict(es, ["algorithm", "keyId", "signed", "signature"])
    && Field(es, "algorithm") == Str(Lit("HMAC-SHA256"))
    && Field(es, "keyId").Str? && BeforeFirstDot(token, Field(es, "keyId").s)
    && (exists b :: Encodes(b, signed) && Field(es, "signature") == Str(w.mac(token, b)))
    && signed.Obj? && Dict(signed.entries, ["sessionId", "submissionId", "nonce", "packageDigest"])
    && Field(signed.entries, "sessionId") == Field(fields, "sessionId")
    && Field(signed.entries, "submissionId") == Field(fields, "submissionId")
    && Field(signed.entries, "nonce") == Str(nonce) && Field(signed.entries, "packageDigest") == Str(digest)
  }

  lemma SignedReads(fields: seq<Entry>, nonce: Text, digest: Text)
    requires Valid(Obj(fields))
    ensures var es := SignedFields(fields, nonce, digest);
            && Dict(es, ["sessionId", "submissionId", "nonce", "packageDigest"])
            && Field(es, "sessionId") == Field(fields, "sessionId")
            && Field(es, "submissionId") == Field(fields, "submissionId")
            && Field(es, "nonce") == Str(nonce) && Field(es, "packageDigest") == Str(digest)
  {
    hide Field, Lit, Get, Valid;
    var es := SignedFields(fields, nonce, digest);
    var names := ["sessionId", "submissionId", "nonce", "packageDigest"];
    DictIs(es, names);
    GetField(fields, "sessionId");
    GetField(fields, "submissionId");
    assert Field(es, names[0]) == es[0].value && Field(es, names[1]) == es[1].value;
    assert Field(es, names[2]) == es[2].value && Field(es, names[3]) == es[3].value;
  }

  lemma SignatureIs(w: World, fields: seq<Entry>, token: Text, nonce: Text, digest: Text, bytes: Bytes)
    requires Valid(Obj(fields)) && Valid(Obj(SignedFields(fields, nonce, digest)))
    requires CanonicalBytes(Obj(SignedFields(fields, nonce, digest))) == Some(bytes)
    ensures SignatureReads(w, SignatureDocument(SignedFields(fields, nonce, digest), token, w.mac(token, bytes)),
                           fields, token, nonce, digest)
  {
    hide Field, Lit, Valid, Dict, SignedFields, CanonicalBytes, Encodes, BeforeDot, BeforeFirstDot;
    var signed := SignedFields(fields, nonce, digest);
    SignedReads(fields, nonce, digest);
    BytesAre(Obj(signed));
    BeforeDotIs(token, BeforeDot(token));
    var es := SignatureDocument(signed, token, w.mac(token, bytes));
    var names := ["algorithm", "keyId", "signed", "signature"];
    DictIs(es, names);
    assert Field(es, names[0]) == es[0].value && Field(es, names[1]) == es[1].value;
    assert Field(es, names[2]) == es[2].value && Field(es, names[3]) == es[3].value;
  }

  /** The fields that were given, but for five that are written over them. */
  ghost predicate ManifestReads(w: World, es: seq<Entry>, fields: seq<Entry>, p: Payloads, digest: Text,
                                integrity: Bytes, signature: Bytes)
  {
    && Field(es, "schemaVersion") == Str(Lit("5.0"))
    && Field(es, "files").Arr? && ListsAll(w, Field(es, "files").items, p)
    && Field(es, "packageDigest") == Str(digest)
    && Field(es, "integrityDigest") == Str(Lit("sha256:") + w.sha256(integrity))
    && Field(es, "signatureDigest") == Str(Lit("sha256:") + w.sha256(signature))
    && forall name :: name !in ["schemaVersion", "files", "packageDigest", "integrityDigest", "signatureDigest"] ==>
         Field(es, name) == Field(fields, name) && (Present(es, name) <==> Present(fields, name))
  }

  lemma ManifestIs(w: World, fields: seq<Entry>, p: Payloads, digest: Text, integrity: Bytes, signature: Bytes)
    requires Valid(Obj(fields)) && Valid(Arr(Table(w, p)))
    ensures ManifestReads(w, ManifestDocument(fields, Table(w, p), digest, Sha256(w, integrity), Sha256(w, signature)),
                          fields, p, digest, integrity, signature)
  {
    hide Field, Present, Lit, Get, Has, Valid, ListsAll, Table, ManifestDocument;
    var files, i, s := Table(w, p), Sha256(w, integrity), Sha256(w, signature);
    var es := ManifestDocument(fields, files, digest, i, s);
    TableLists(w, p);
    ManifestValid(fields, files, digest, i, s);
    forall name: string
      ensures Field(es, name) == Get(es, Lit(name)) && Field(fields, name) == Get(fields, Lit(name))
      ensures Present(es, name) <==> Has(es, Lit(name))
      ensures Present(fields, name) <==> Has(fields, Lit(name))
      ensures !Written(name) ==> Get(es, Lit(name)) == Get(fields, Lit(name))
      ensures !Written(name) ==> (Has(es, Lit(name)) <==> Has(fields, Lit(name)))
    {
      GetField(es, name);
      GetField(fields, name);
      ManifestGet(fields, files, digest, i, s, name);
    }
    ManifestGet(fields, files, digest, i, s, "schemaVersion");
    ManifestGet(fields, files, digest, i, s, "files");
    ManifestGet(fields, files, digest, i, s, "packageDigest");
    ManifestGet(fields, files, digest, i, s, "integrityDigest");
    ManifestGet(fields, files, digest, i, s, "signatureDigest");
  }

  // ----- the package

  /** Member i of the archive has this name and these bytes. */
  predicate Stores(infos: seq<Info>, i: nat, name: string, content: Bytes) {
    && i < |infos| && infos[i].filename == Lit(name) && infos[i].content == Some(content)
    && infos[i].fileSize == |content| && !infos[i].symlink
  }

  /** The six members in the order of their names. */
  predicate StoresAll(infos: seq<Info>, b: Built) {
    && |infos| == 6
    && Stores(infos, 0, "capability-results.json", b.payloads.capabilities)
    && Stores(infos, 1, "collection-log.json", b.payloads.log)
    && Stores(infos, 2, "evidence.json", b.payloads.evidence)
    && Stores(infos, 3, "integrity.json", b.integrityBytes)
    && Stores(infos, 4, "manifest.json", b.manifestBytes)
    && Stores(infos, 5, "signatures/submission.sig", b.signatureBytes)
  }

  /** Every built package holds the canonical texts of evidence, results, log and three documents, and
      these are the documents. */
  lemma BuiltReads(w: World, fields: seq<Entry>, c: Contents, token: Text, nonce: Text, b: Built)
    requires Build(w, fields, c, token, nonce) == Some(b)
    requires Valid(Obj(fields)) && Valid(Obj(c.evidence)) && Valid(Arr(c.capabilities)) && Valid(Obj(c.log))
    ensures StoresAll(Infos(w, b), b)
    ensures Encodes(b.payloads.evidence, Obj(c.evidence)) && Encodes(b.payloads.log, Obj(c.log))
    ensures Encodes(b.payloads.capabilities, Arr(c.capabilities)) && Encodes(b.manifestBytes, Obj(b.manifest))
    ensures Encodes(b.integrityBytes, Obj(b.integrity)) && Encodes(b.signatureBytes, Obj(b.signature))
    ensures IntegrityReads(w, b.integrity, fields, nonce, b.payloads, b.digest)
    ensures SignatureReads(w, b.signature, fields, token, nonce, b.digest)
    ensures ManifestReads(w, b.manifest, fields, b.payloads, b.digest, b.integrityBytes, b.signatureBytes)
  {
    hide Build, Valid, CanonicalBytes, Encodes, IntegrityReads, SignatureReads, ManifestReads, Assemble, Lit, Table;
    hide Sha256Value, Binding, SignedFields, IntegrityDocument, SignatureDocument, ManifestDocument;
    BuildSteps(w, fields, c, token, nonce, b);
    Assembled(w, fields, b.payloads, token, nonce, b);
    PartsValid(w, fields, b.payloads, token, nonce, b);
    BytesAre(Obj(c.evidence));
    BytesAre(Arr(c.capabilities));
    BytesAre(Obj(c.log));
    BytesAre(Obj(b.manifest));
    BytesAre(Obj(b.integrity));
    BytesAre(Obj(b.signature));
    IntegrityIs(w, fields, b.payloads, nonce, b.digest);
    SignatureIs(w, fields, token, nonce, b.digest, CanonicalBytes(Obj(SignedFields(fields, nonce, b.digest))).value);
    ManifestIs(w, fields, b.payloads, b.digest, b.integrityBytes, b.signatureBytes);
  }

  // ----- when it is built

  lemma {:induction false} PutExact(es: seq<Entry>, key: Text, value: Value)
    requires UniqueKeys(es)
    ensures UniqueKeys(Put(es, key, value))
    ensures forall e :: e in Put(es, key, value) <==> e == Entry(key, value) || (e in es && e.key != key)
  {
    PutUnique(es, key, value);
    if es == [] {
    } else {
      assert es == [es[0]] + es[1..];
      if es[0].key != key {
        PutExact(es[1..], key, value);
      } else {
        assert forall e :: e in es[1..] ==> e.key != key;
      }
    }
  }

  predicate Overwritten(key: Text) {
    || key == Lit("schemaVersion") || key == Lit("files") || key == Lit("packageDigest")
    || key == Lit("integrityDigest") || key == Lit("signatureDigest")
  }

  /** No lone surrogate in what stays of the fields. */
  ghost predicate FieldsScalar(fields: seq<Entry>) {
    forall e :: e in fields && !Overwritten(e.key) ==> Scalar(e.key) && AllScalar(e.value)
  }

  ghost predicate EntryScalar(e: Entry) { Scalar(e.key) && AllScalar(e.value) }

  lemma PutScalar(es: seq<Entry>, name: string, value: Value, gone: set<Text>)
    requires UniqueKeys(es) && AllScalar(value)
    ensures UniqueKeys(Put(es, Lit(name), value))
    ensures (forall e :: e in Put(es, Lit(name), value) && e.key !in gone ==> EntryScalar(e)) <==>
            forall e :: e in es && e.key !in gone + {Lit(name)} ==> EntryScalar(e)
  {
    hide Lit, AllScalar, EntryScalar, UniqueKeys;
    PutExact(es, Lit(name), value);
    LitScalar(name);
    EntryIsScalar(Lit(name), value);
  }

  lemma EntryIsScalar(key: Text, value: Value)
    ensures EntryScalar(Entry(key, value)) <==> Scalar(key) && AllScalar(value)
  {
  }

  lemma LitScalar(s: string)
    ensures Scalar(Lit(s))
  {
    forall c | c in Lit(s)
      ensures IsScalar(c)
    {
      var i :| 0 <= i < |s| && c == s[i] as int;
    }
  }

  lemma ManifestScalar(fields: seq<Entry>, files: seq<Value>, digest: Text, integrity: Text, signature: Text)
    requires UniqueKeys(fields) && AllScalar(Arr(files)) && Scalar(digest) && Scalar(integrity) && Scalar(signature)
    ensures AllScalar(Obj(ManifestDocument(fields, files, digest, integrity, signature))) <==> FieldsScalar(fields)
  {
    hide Lit, AllScalar, Put, Scalar, UniqueKeys, EntryScalar;
    var m1 := Put(fields, SCHEMA_VERSION, Str(Lit("5.0")));
    var m2 := Put(m1, FILES, Arr(files));
    var m3 := Put(m2, PACKAGE_DIGEST, Str(digest));
    var m4 := Put(m3, INTEGRITY_DIGEST, Str(integrity));
    var m5 := Put(m4, SIGNATURE_DIGEST, Str(signature));
    LitScalar("5.0");
    StrScalar();
    PutScalar(fields, "schemaVersion", Str(Lit("5.0")),
              {Lit("files"), Lit("packageDigest"), Lit("integrityDigest"), Lit("signatureDigest")});
    PutScalar(m1, "files", Arr(files), {Lit("packageDigest"), Lit("integrityDigest"), Lit("signatureDigest")});
    PutScalar(m2, "packageDigest", Str(digest), {Lit("integrityDigest"), Lit("signatureDigest")});
    PutScalar(m3, "integrityDigest", Str(integrity), {Lit("signatureDigest")});
    PutScalar(m4, "signatureDigest", Str(signature), {});
    ObjScalar(m5);
    FieldsScalarIs(fields);
  }

  lemma StrScalar()
    ensures forall s :: AllScalar(Str(s)) <==> Scalar(s)
  {
  }

  lemma ObjScalar(es: seq<Entry>)
    ensures AllScalar(Obj(es)) <==> forall e :: e in es && e.key !in {} ==> EntryScalar(e)
  {
  }

  lemma FieldsScalarIs(fields: seq<Entry>)
    ensures FieldsScalar(fields) <==>
              var gone := {Lit("files"), Lit("packageDigest"), Lit("integrityDigest"), Lit("signatureDigest")};
              forall e :: e in fields && e.key !in gone + {Lit("schemaVersion")} ==> EntryScalar(e)
  {
    hide Lit, AllScalar, Scalar;
  }

  lemma {:induction false} GetScalar(fields: seq<Entry>, name: string)
    requires FieldsScalar(fields) && !Overwritten(Lit(name))
    ensures AllScalar(Get(fields, Lit(name)))
  {
    hide Lit, Overwritten;
    if fields != [] {
      assert fields[0] in fields && forall e :: e in fields[1..] ==> e in fields;
      GetScalar(fields[1..], name);
    }
  }

  lemma NotOverwritten()
    ensures !Overwritten(Lit("assessmentId")) && !Overwritten(Lit("sessionId")) && !Overwritten(Lit("submissionId"))
  {
    hide Lit;
    forall name: string, over: string
      ensures Lit(name) == Lit(over) <==> name == over
    {
      LitInjective(name, over);
    }
  }

  ghost predicate ScalarHashes(w: World) { forall b :: Scalar(w.sha256(b)) }

  lemma HashScalar(w: World, b: Bytes)
    requires ScalarHashes(w)
    ensures Scalar(Sha256(w, b))
  {
    LitScalar("sha256:");
  }

  lemma EntriesScalar(es: seq<Entry>)
    requires forall i :: 0 <= i < |es| ==> Scalar(es[i].key)
    ensures AllScalar(Obj(es)) <==> forall i :: 0 <= i < |es| ==> AllScalar(es[i].value)
  {
    forall i | 0 <= i < |es| && AllScalar(Obj(es))
      ensures AllScalar(es[i].value)
    {
      assert es[i] in es;
    }
  }

  lemma TableScalar(w: World, p: Payloads)
    requires ScalarHashes(w)
    ensures AllScalar(Arr(Table(w, p)))
  {
    hide Scalar, Sha256, ScalarHashes, Lit;
    FileScalar(w, "evidence.json", p.evidence);
    FileScalar(w, "capability-results.json", p.capabilities);
    FileScalar(w, "collection-log.json", p.log);
  }

  lemma FileScalar(w: World, name: string, content: Bytes)
    requires ScalarHashes(w)
    ensures AllScalar(FileEntry(w, Lit(name), content))
  {
    hide Scalar, Sha256, ScalarHashes, Lit, AllScalar;
    LitScalar("path");
    LitScalar("sha256");
    LitScalar("size");
    LitScalar(name);
    HashScalar(w, content);
    StrScalar();
    var es := FileEntry(w, Lit(name), content).entries;
    EntriesScalar(es);
    IntScalar(|content|);
  }

  lemma IntScalar(n: int)
    ensures AllScalar(Int(n))
  {
  }

  lemma BindingScalar(w: World, fields: seq<Entry>, p: Payloads, nonce: Text)
    requires ScalarHashes(w)
    ensures AllScalar(Obj(Binding(fields, nonce, Table(w, p)))) ==> Scalar(nonce)
    ensures FieldsScalar(fields) && Scalar(nonce) ==> AllScalar(Obj(Binding(fields, nonce, Table(w, p))))
  {
    hide Scalar, ScalarHashes, Lit, AllScalar, FieldsScalar, Overwritten, Get, Table;
    TableScalar(w, p);
    StrScalar();
    LitScalar("assessmentId");
    LitScalar("sessionId");
    LitScalar("submissionId");
    LitScalar("nonce");
    LitScalar("files");
    NotOverwritten();
    if FieldsScalar(fields) {
      GetScalar(fields, "assessmentId");
      GetScalar(fields, "sessionId");
      GetScalar(fields, "submissionId");
    }
    var es := Binding(fields, nonce, Table(w, p));
    EntriesScalar(es);
    assert es[3].value == Str(nonce);
  }

  lemma SignedScalar(fields: seq<Entry>, nonce: Text, digest: Text)
    requires FieldsScalar(fields) && Scalar(nonce) && Scalar(digest)
    ensures AllScalar(Obj(SignedFields(fields, nonce, digest)))
  {
    hide Scalar, Lit, AllScalar, FieldsScalar, Overwritten, Get;
    StrScalar();
    LitScalar("sessionId");
    LitScalar("submissionId");
    LitScalar("nonce");
    LitScalar("packageDigest");
    NotOverwritten();
    GetScalar(fields, "sessionId");
    GetScalar(fields, "submissionId");
    EntriesScalar(SignedFields(fields, nonce, digest));
  }

  lemma MetadataScalar(binding: seq<Entry>, signed: seq<Entry>, digest: Text, token: Text, mac: Text)
    requires AllScalar(Obj(binding)) && AllScalar(Obj(signed)) && Scalar(digest) && Scalar(token) && Scalar(mac)
    ensures AllScalar(Obj(IntegrityDocument(binding, digest)))
    ensures AllScalar(Obj(SignatureDocument(signed, token, mac)))
  {
    hide Scalar, Lit, AllScalar, BeforeDot;
    StrScalar();
    LitScalar("schemaVersion");
    LitScalar("5.0");
    LitScalar("binding");
    LitScalar("packageDigest");
    LitScalar("algorithm");
    LitScalar("HMAC-SHA256");
    LitScalar("keyId");
    LitScalar("signed");
    LitScalar("signature");
    BeforeDotScalar(token);
    EntriesScalar(IntegrityDocument(binding, digest));
    EntriesScalar(SignatureDocument(signed, token, mac));
  }

  lemma {:induction false} BeforeDotScalar(t: Text)
    requires Scalar(t)
    ensures Scalar(BeforeDot(t))
  {
    if t != [] && t[0] != '.' as int {
      assert t[0] in t && forall c :: c in t[1..] ==> c in t;
      BeforeDotScalar(t[1..]);
    }
  }

  lemma MacScalar(w: World, token: Text, b: Bytes)
    ensures Scalar(w.mac(token, b))
  {
    var mac := w.mac(token, b);
    forall c | c in mac
      ensures IsScalar(c)
    {
      var i :| 0 <= i < |mac| && mac[i] == c;
    }
  }

  /** What is assembled can be encoded exactly when fields and nonce can. */
  lemma AssembleExact(w: World, fields: seq<Entry>, p: Payloads, token: Text, nonce: Text)
    requires Valid(Obj(fields)) && ScalarHashes(w) && Scalar(token)
    ensures Assemble(w, fields, p, token, nonce).Some? <==> FieldsScalar(fields) && Scalar(nonce)
  {
    hide Valid, AllScalar, Scalar, FieldsScalar, ScalarHashes, Table, Binding, SignedFields, IntegrityDocument;
    hide SignatureDocument, ManifestDocument, CanonicalBytes, Sha256, Encodes;
    var files := Table(w, p);
    var binding := Binding(fields, nonce, files);
    TableDeclares(w, p.evidence, p.capabilities, p.log);
    TableIs(w, p);
    BindingFields(fields, nonce, files);
    BindingScalar(w, fields, p, nonce);
    TableScalar(w, p);
    BytesAre(Obj(binding));
    DigestBytes(w, Obj(binding));
    if Scalar(nonce) && AllScalar(Obj(binding)) {
      var digest := Sha256Value(w, Obj(binding)).value;
      HashScalar(w, CanonicalBytes(Obj(binding)).value);
      var signed := SignedFields(fields, nonce, digest);
      SignedValid(fields, nonce, digest);
      BytesAre(Obj(signed));
      if CanonicalBytes(Obj(signed)).Some? {
        var mac := w.mac(token, CanonicalBytes(Obj(signed)).value);
        MacScalar(w, token, CanonicalBytes(Obj(signed)).value);
        MetadataScalar(binding, signed, digest, token, mac);
        IntegrityFields(binding, digest);
        SignatureFields(signed, token, mac);
        BytesAre(Obj(IntegrityDocument(binding, digest)));
        BytesAre(Obj(SignatureDocument(signed, token, mac)));
        var i := Sha256(w, CanonicalBytes(Obj(IntegrityDocument(binding, digest))).value);
        var s := Sha256(w, CanonicalBytes(Obj(SignatureDocument(signed, token, mac))).value);
        HashScalar(w, CanonicalBytes(Obj(IntegrityDocument(binding, digest))).value);
        HashScalar(w, CanonicalBytes(Obj(SignatureDocument(signed, token, mac))).value);
        ManifestValid(fields, files, digest, i, s);
        UniqueFields(fields);
        ManifestScalar(fields, files, digest, i, s);
        BytesAre(Obj(ManifestDocument(fields, files, digest, i, s)));
      }
      if FieldsScalar(fields) {
        SignedScalar(fields, nonce, digest);
      }
    }
  }

  lemma UniqueFields(fields: seq<Entry>)
    requires Valid(Obj(fields))
    ensures UniqueKeys(fields)
  {
  }

  lemma DigestBytes(w: World, v: Value)
    ensures Sha256Value(w, v).Some? <==> CanonicalBytes(v).Some?
    ensures CanonicalBytes(v).Some? ==> Sha256Value(w, v) == Some(Sha256(w, CanonicalBytes(v).value))
  {
  }

  /** A package is built exactly when the scanner finds nothing in evidence, results and log, the fields
      name assessment, session and submission, and no lone surrogate is in token, nonce, contents or what
      stays of the fields. */
  lemma BuildExact(w: World, fields: seq<Entry>, c: Contents, token: Text, nonce: Text)
    requires Valid(Obj(fields)) && Valid(Obj(c.evidence)) && Valid(Arr(c.capabilities)) && Valid(Obj(c.log))
    requires ScalarHashes(w)
    ensures Build(w, fields, c, token, nonce).Some? <==>
              && w.scanClean(Obj(c.evidence)) && w.scanClean(Arr(c.capabilities)) && w.scanClean(Obj(c.log))
              && Present(fields, "assessmentId") && Present(fields, "sessionId") && Present(fields, "submissionId")
              && Scalar(token) && Scalar(nonce) && FieldsScalar(fields)
              && AllScalar(Obj(c.evidence)) && AllScalar(Arr(c.capabilities)) && AllScalar(Obj(c.log))
  {
    hide Valid, AllScalar, Scalar, FieldsScalar, ScalarHashes, CanonicalBytes, Encodes, Assemble;
    hide Present, Field, Lit, Has;
    GetField(fields, "assessmentId");
    GetField(fields, "sessionId");
    GetField(fields, "submissionId");
    BytesAre(Obj(c.evidence));
    BytesAre(Arr(c.capabilities));
    BytesAre(Obj(c.log));
    if Scalar(token) && PayloadBytes(c).Some? {
      AssembleExact(w, fields, PayloadBytes(c).value, token, nonce);
    }
  }
}
