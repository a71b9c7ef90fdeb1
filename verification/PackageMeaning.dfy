/**
 What the package validator's answers mean: acceptance exactly, exceptions it lets through
 exactly, and what the package digest of an accepted package commits to.
 */
module PackageMeaning {
  import opened Wrappers
  import opened Unicode
  import opened Json
  import opened Canonical
  import opened Fields
  import opened PythonValues
  import opened Package

  // ----- how far the documents get

  predicate FilesMatch(w: World, d: Documents)
    requires HasRequired(d.members)
  {
    var files := Get(d.manifest, FILES);
    files.Arr? && Listed(files.items) && PathsMatch(files.items) && DigestsMatch(w, d, files.items)
  }

  /** The manifest was made for this session, submission and profile. */
  predicate ManifestRead(d: Documents, x: Expected) {
    ManifestComplete(d.manifest) && ManifestNames(d.manifest, x) && ProfileTrusted(d.manifest, x)
  }

  /** ... by a standard user, with the collector the evidence was made with. */
  predicate CollectorRead(w: World, d: Documents, x: Expected) {
    ManifestRead(d, x) && PrivilegeFits(d.manifest) && CollectorAgrees(w, d.manifest, d.evidence)
  }

  /** ... to the schema. */
  predicate SchemaRead(w: World, d: Documents, x: Expected) {
    CollectorRead(w, d, x) && w.schema(Obj(d.evidence)).Accepts?
  }

  /** ... with exactly the files it lists, bound to the nonce. */
  predicate BindingRead(w: World, d: Documents, x: Expected)
    requires HasRequired(d.members)
  {
    SchemaRead(w, d, x) && FilesMatch(w, d) && BindsNonce(d, x) && BindsFiles(w, d)
  }

  /** ... under a digest that all documents state. */
  predicate SigningRead(w: World, d: Documents, x: Expected)
    requires HasRequired(d.members)
  {
    && BindingRead(w, d, x)
    && var digest := Sha256Value(w, Get(d.integrity, BINDING));
       digest.Some? && StatesDigest(d, digest.value) && SignsThis(w, d.signature, x, digest.value)
  }

  /** ... and that the enrollment token signs. */
  predicate SignatureRead(w: World, d: Documents, x: Expected)
    requires HasRequired(d.members)
  {
    && SigningRead(w, d, x)
    && var digest := Sha256Value(w, Get(d.integrity, BINDING));
       && digest.Some? && Comparable(w, d.signature, x, digest.value)
       && SignatureText(w, d.signature) == w.mac(x.token, Utf8(SignedText(x, digest.value)))
  }

  /** ... and content that status rules and scanner accept. */
  predicate Acceptable(w: World, d: Documents, x: Expected, digest: Text)
    requires HasRequired(d.members)
  {
    && SignatureRead(w, d, x) && Sha256Value(w, Get(d.integrity, BINDING)) == Some(digest)
    && GoodResults(w, d.capabilities) && ScanPasses(w, d)
  }

  /** Where the validator lets an exception of another kind through, in the order it gets there. */
  datatype Cause =
    | OddPrivilege | SchemaCrash | UnlistedFile | UnencodableBinding | IncomparableSignature | OddStatus

  /** The checks before the place pass. */
  predicate Reaches(w: World, d: Documents, x: Expected, cause: Cause)
    requires HasRequired(d.members)
  {
    match cause
    case OddPrivilege => ManifestRead(d, x)
    case SchemaCrash => CollectorRead(w, d, x)
    case UnlistedFile => SchemaRead(w, d, x)
    case UnencodableBinding => BindingRead(w, d, x)
    case IncomparableSignature => SigningRead(w, d, x)
    case OddStatus => SignatureRead(w, d, x)
  }

  /** What makes the place raise: a privilege context, a listed path or a status that cannot be
      hashed, a listed file without a path, a surrogate in what is digested or signed, or a
      signature that is not ASCII. */
  predicate Trips(w: World, d: Documents, x: Expected, cause: Cause) {
    match cause
    case OddPrivilege => !Hashable(Get(d.manifest, PRIVILEGE))
    case SchemaCrash => w.schema(Obj(d.evidence)).Raises?
    case UnlistedFile => Get(d.manifest, FILES).Arr? && !Listed(Get(d.manifest, FILES).items)
    case UnencodableBinding => Sha256Value(w, Get(d.integrity, BINDING)).None?
    case IncomparableSignature =>
      var digest := Sha256Value(w, Get(d.integrity, BINDING));
      digest.Some? && !Comparable(w, d.signature, x, digest.value)
    case OddStatus => ResultsRaise(w, d.capabilities)
  }

  // ----- what each check answers

  lemma PrivilegeHashable(m: seq<Entry>)
    ensures PrivilegeFits(m) ==> Hashable(Get(m, PRIVILEGE))
  {
  }

  lemma ManifestAnswer(d: Documents, x: Expected)
    ensures CheckManifest(d.manifest, x) == Failure(Uncaught) <==>
              ManifestRead(d, x) && !Hashable(Get(d.manifest, PRIVILEGE))
    ensures CheckManifest(d.manifest, x).Success? <==> ManifestRead(d, x) && PrivilegeFits(d.manifest)
  {
    hide Get, Lit, Has, ManifestComplete;
    PrivilegeHashable(d.manifest);
  }

  lemma CollectorAnswer(w: World, m: seq<Entry>, evidence: seq<Entry>)
    ensures CheckCollector(w, m, evidence) == Failure(Uncaught) <==>
              CollectorAgrees(w, m, evidence) && w.schema(Obj(evidence)).Raises?
    ensures CheckCollector(w, m, evidence).Success? <==>
              CollectorAgrees(w, m, evidence) && w.schema(Obj(evidence)).Accepts?
  {
    hide Get, Lit, StrField, PyEqual;
  }

  lemma FilesAnswer(w: World, d: Documents)
    requires HasRequired(d.members)
    ensures CheckFiles(w, d) == Failure(Uncaught) <==>
              Get(d.manifest, FILES).Arr? && !Listed(Get(d.manifest, FILES).items)
    ensures CheckFiles(w, d).Success? <==> FilesMatch(w, d)
  {
    hide Get, Lit, Listed, PathsMatch, DigestsMatch;
  }

  lemma BindingAnswer(w: World, d: Documents, x: Expected)
    ensures var digest := Sha256Value(w, Get(d.integrity, BINDING));
            && (CheckBinding(w, d, x) == Failure(Uncaught) <==> BindsNonce(d, x) && BindsFiles(w, d) && digest.None?)
            && (CheckBinding(w, d, x).Success? <==>
                  BindsNonce(d, x) && BindsFiles(w, d) && digest.Some? && StatesDigest(d, digest.value))
            && (CheckBinding(w, d, x).Success? ==> Some(CheckBinding(w, d, x).value) == digest)
  {
    hide Get, Lit, PyEqual, Sha256Value, StatesDigest;
  }

  lemma SignatureAnswer(w: World, d: Documents, x: Expected, digest: Text)
    ensures CheckSignature(w, d.signature, x, digest) == Failure(Uncaught) <==>
              SignsThis(w, d.signature, x, digest) && !Comparable(w, d.signature, x, digest)
    ensures CheckSignature(w, d.signature, x, digest).Success? <==>
              && SignsThis(w, d.signature, x, digest) && Comparable(w, d.signature, x, digest)
              && SignatureText(w, d.signature) == w.mac(x.token, Utf8(SignedText(x, digest)))
  {
    hide SignsThis, SignedText, SignatureText, Scalar, IsAscii;
  }

  lemma ContentAnswer(w: World, d: Documents)
    ensures CheckContent(w, d) == Failure(Uncaught) <==> ResultsRaise(w, d.capabilities)
    ensures CheckContent(w, d).Success? <==> GoodResults(w, d.capabilities) && ScanPasses(w, d)
  {
    hide NamedOnce, TerminalStatus, Status, ScanPasses;
    if GoodResults(w, d.capabilities) {
      forall i | 0 <= i < |d.capabilities|
        ensures Hashable(Status(d.capabilities[i]))
      {
        StatusOf(d.capabilities[i]);
      }
    }
  }

  lemma DocumentsAnswer(w: World, d: Documents, x: Expected)
    requires HasRequired(d.members)
    ensures var r, digest := CheckDocuments(w, d, x), Sha256Value(w, Get(d.integrity, BINDING));
            && (r.Success? <==> SignatureRead(w, d, x) && GoodResults(w, d.capabilities) && ScanPasses(w, d))
            && (r.Success? ==>
                  digest.Some? && r.value == Validated(d.manifest, d.evidence, d.capabilities, d.log, digest.value))
            && (r == Failure(Uncaught) <==> exists cause :: Reaches(w, d, x, cause) && Trips(w, d, x, cause))
  {
    hide Get, CheckManifest, CheckCollector, CheckFiles, CheckBinding, CheckSignature, CheckContent;
    hide ManifestRead, PrivilegeFits, CollectorAgrees, FilesMatch, BindsNonce, BindsFiles, Sha256Value, StatesDigest;
    hide SignsThis, Comparable, SignatureText, SignedText, GoodResults, ResultsRaise, ScanPasses, Listed, Scalar;
    ManifestAnswer(d, x);
    PrivilegeHashable(d.manifest);
    CollectorAnswer(w, d.manifest, d.evidence);
    FilesAnswer(w, d);
    FilesListed(w, d);
    BindingAnswer(w, d, x);
    ContentAnswer(w, d);
    var digest := Sha256Value(w, Get(d.integrity, BINDING));
    if digest.Some? {
      SignatureAnswer(w, d, x, digest.value);
    }
    if CheckDocuments(w, d, x) == Failure(Uncaught) {
      assert
        || (Reaches(w, d, x, OddPrivilege) && Trips(w, d, x, OddPrivilege))
        || (Reaches(w, d, x, SchemaCrash) && Trips(w, d, x, SchemaCrash))
        || (Reaches(w, d, x, UnlistedFile) && Trips(w, d, x, UnlistedFile))
        || (Reaches(w, d, x, UnencodableBinding) && Trips(w, d, x, UnencodableBinding))
        || (Reaches(w, d, x, IncomparableSignature) && Trips(w, d, x, IncomparableSignature))
        || (Reaches(w, d, x, OddStatus) && Trips(w, d, x, OddStatus));
    }
  }

  lemma FilesListed(w: World, d: Documents)
    requires HasRequired(d.members)
    ensures FilesMatch(w, d) ==> Get(d.manifest, FILES).Arr? && Listed(Get(d.manifest, FILES).items)
  {
    hide Get, Listed, PathsMatch, DigestsMatch;
  }

  // ----- the validator's answers

  /** A package validates exactly when its archive and documents can be read and the documents
      are acceptable; they and the digest are then handed back. */
  lemma ValidationExact(w: World, limits: Limits, archive: Archive, x: Expected, v: Validated)
    ensures Validate(w, limits, archive, x) == Success(v) <==>
              && Reading(w, limits, archive).Success?
              && var d := Reading(w, limits, archive).value;
                 && v == Validated(d.manifest, d.evidence, d.capabilities, d.log, v.packageDigest)
                 && Acceptable(w, d, x, v.packageDigest)
  {
    hide Reading, CheckDocuments, SignatureRead, GoodResults, ScanPasses, Sha256Value, Get;
    if Reading(w, limits, archive).Success? {
      DocumentsAnswer(w, Reading(w, limits, archive).value, x);
    }
  }

  /** The validator raises something that is not a package error exactly when the archive cannot
      be opened or holds a damaged member, or the documents trip one of the checks before any
      other refuses them. */
  lemma UncaughtExactly(w: World, limits: Limits, archive: Archive, x: Expected)
    ensures Validate(w, limits, archive, x) == Failure(Uncaught) <==>
              || (archive.Unopenable? && archive.size <= limits.packageSize)
              || (Shaped(limits, archive) && Damaged(limits, archive.infos))
              || (Reading(w, limits, archive).Success?
                  && exists cause ::
                       && Reaches(w, Reading(w, limits, archive).value, x, cause)
                       && Trips(w, Reading(w, limits, archive).value, x, cause))
  {
    hide Members, CheckDocuments, Reaches, Trips, Shaped, Damaged;
    ArchiveRaises(limits, archive);
    ReadingFails(w, limits, archive);
    if Reading(w, limits, archive).Success? {
      DocumentsAnswer(w, Reading(w, limits, archive).value, x);
    }
  }

  lemma ReadingFails(w: World, limits: Limits, archive: Archive)
    ensures Reading(w, limits, archive) == Failure(Uncaught) <==> Members(limits, archive) == Failure(Uncaught)
  {
    hide Members, ParseCanonical, ParseObjectDocument, ParseResults, HasRequired;
    MembersRequired(limits, archive);
    if Members(limits, archive).Success? {
      DocumentsFail(w, Members(limits, archive).value);
    }
  }

  lemma ParsingFails(w: World, value: Bytes)
    ensures ParseObjectDocument(w, value).Failure? ==> ParseObjectDocument(w, value).error.RejectedSchema?
    ensures ParseResults(w, value).Failure? ==> ParseResults(w, value).error.RejectedSchema?
  {
    hide Loads, Utf8Decode;
  }

  lemma DocumentsFail(w: World, members: map<Text, Bytes>)
    requires HasRequired(members)
    ensures ReadDocuments(w, members).Failure? ==> ReadDocuments(w, members).error.RejectedSchema?
  {
    hide ParseObjectDocument, ParseResults;
    ParsingFails(w, members[MANIFEST]);
    ParsingFails(w, members[EVIDENCE]);
    ParsingFails(w, members[CAPABILITIES]);
    ParsingFails(w, members[COLLECTION_LOG]);
    ParsingFails(w, members[INTEGRITY]);
    ParsingFails(w, members[SIGNATURE]);
  }

  /** A package as good as any other, except that the stored checksum of one member is wrong. */
  function DamagedPackage(size: nat): Archive {
    Zip(size, [ Info(CAPABILITIES, false, 2, 4, None), Info(COLLECTION_LOG, false, 2, 4, Some([])),
                Info(EVIDENCE, false, 2, 4, Some([])), Info(INTEGRITY, false, 2, 4, Some([])),
                Info(MANIFEST, false, 2, 4, Some([])), Info(SIGNATURE, false, 2, 4, Some([])) ])
  }

  /** ... raises the ZIP reader's exception, whatever session it was made for. */
  lemma DamagedPackageRaises(w: World, limits: Limits, size: nat, x: Expected)
    requires size <= limits.packageSize && limits.files >= 6 && limits.uncompressedSize >= 2
    ensures Validate(w, limits, DamagedPackage(size), x) == Failure(Uncaught)
  {
    hide CheckDocuments, Members, NamesDistinct, FileSetRequired, Reaches, Trips;
    var infos := DamagedPackage(size).infos;
    SixFiles(infos);
    assert infos[..0] == [] && infos[..1][..0] == [] && infos[..1][0] == infos[0];
    assert Total(infos[..1]) == 2;
    assert DamagedAt(limits, infos, 0);
    UncaughtExactly(w, limits, DamagedPackage(size), x);
  }

  // ----- the package digest commits to the payload

  ghost predicate Collision(w: World, x: Bytes, y: Bytes) { x != y && w.sha256(x) == w.sha256(y) }

  /** The payload bytes a validated archive carries. */
  function Payload(limits: Limits, archive: Archive, name: Text): Bytes
    requires Members(limits, archive).Success? && name in PAYLOAD_FILES
  {
    MembersRequired(limits, archive);
    Members(limits, archive).value[name]
  }

  lemma Sha256Injective(w: World, x: Bytes, y: Bytes)
    requires Sha256(w, x) == Sha256(w, y)
    ensures w.sha256(x) == w.sha256(y)
  {
    var p := Lit("sha256:");
    assert (p + w.sha256(x))[|p|..] == w.sha256(x) && (p + w.sha256(y))[|p|..] == w.sha256(y);
  }

  lemma ParseCanonicalValid(w: World, value: Bytes)
    ensures ParseCanonical(w, value).Success? ==> Proper(Unique(w), ParseCanonical(w, value).value)
  {
    if ParseCanonical(w, value).Success? {
      LoadsValid(Unique(w), Utf8Decode(value).value);
    }
  }

  lemma {:induction false} GetValid(es: seq<Entry>, key: Text)
    requires Valid(Obj(es))
    ensures Valid(Get(es, key))
  {
    if es != [] && es[0].key != key {
      assert Valid(Obj(es[1..])) by {
        assert forall e :: e in es[1..] ==> e in es;
      }
      GetValid(es[1..], key);
    } else if es != [] {
      assert es[0] in es;
    }
  }

  lemma SameLast(a: seq<Value>, b: seq<Value>)
    requires Valid(Arr(a)) && Valid(Arr(b)) && Same(Arr(a), Arr(b)) && a != []
    ensures |a| == |b| && Same(a[|a| - 1], b[|b| - 1]) && Valid(a[|a| - 1]) && Valid(b[|b| - 1])
    ensures Valid(Arr(a[..|a| - 1])) && Valid(Arr(b[..|b| - 1])) && Same(Arr(a[..|a| - 1]), Arr(b[..|b| - 1]))
  {
    SameItems(a, b);
    assert a[|a| - 1] in a && b[|b| - 1] in b;
  }

  lemma ListedLast(items: seq<Value>)
    requires Listed(items) && items != []
    ensures Listed(items[..|items| - 1]) && items[|items| - 1].Obj?
  {
    assert items[|items| - 1] in items;
  }

  lemma SamePath(a: seq<Entry>, b: seq<Entry>, name: Text)
    requires Valid(Obj(a)) && Valid(Obj(b)) && Same(Obj(a), Obj(b))
    ensures Get(a, PATH) == Str(name) <==> Get(b, PATH) == Str(name)
  {
    SameGetBoth(a, b, PATH);
  }

  /** The declared item of equal lists is the same, so are the digests it declares. */
  lemma {:induction false} SameDeclaration(a: seq<Value>, b: seq<Value>, name: Text)
    requires Listed(a) && Listed(b)
    requires Valid(Arr(a)) && Valid(Arr(b)) && Same(Arr(a), Arr(b))
    ensures Declaration(a, name).Some? <==> Declaration(b, name).Some?
    ensures Declaration(a, name).Some? ==>
              && Valid(Obj(Declaration(a, name).value)) && Valid(Obj(Declaration(b, name).value))
              && Same(Obj(Declaration(a, name).value), Obj(Declaration(b, name).value))
    decreases |a|
  {
    hide Valid, Same, Listed, Get, Has;
    if a == [] {
      SameItems(a, b);
    } else {
      SameLast(a, b);
      ListedLast(a);
      ListedLast(b);
      SamePath(a[|a| - 1].entries, b[|b| - 1].entries, name);
      SameDeclaration(a[..|a| - 1], b[..|b| - 1], name);
    }
  }

  // ----- numbers of one value in a table

  lemma NullMerged(a: Floats)
    ensures Merged(a, Null) == Null
  {
  }

  lemma NotHas(key: Text)
    ensures !Has([], key)
  {
  }

  lemma HasFirst(es: seq<Entry>, key: Text)
    requires es != []
    ensures Has(es, key) <==> es[0].key == key || Has(es[1..], key)
  {
    assert es == [es[0]] + es[1..];
  }

  lemma {:induction false} MergedGet(a: Floats, es: seq<Entry>, key: Text)
    ensures Get(MergedEntries(a, es), key) == Merged(a, Get(es, key))
    ensures Has(MergedEntries(a, es), key) <==> Has(es, key)
  {
    hide Merged, Has;
    NotHas(key);
    var r := MergedEntries(a, es);
    if es == [] {
      NullMerged(a);
    } else {
      MergedGet(a, es[1..], key);
      assert r[1..] == MergedEntries(a, es[1..]);
      HasFirst(es, key);
      HasFirst(r, key);
    }
  }

  lemma MergedListed(a: Floats, items: seq<Value>)
    requires Listed(items)
    ensures Listed(MergedItems(a, items))
  {
    forall x | x in MergedItems(a, items)
      ensures x.Obj? && Has(x.entries, PATH) && Hashable(Get(x.entries, PATH))
    {
      var i :| 0 <= i < |items| && MergedItems(a, items)[i] == x;
      assert items[i] in items;
      MergedGet(a, items[i].entries, PATH);
    }
  }

  lemma MergedStr(a: Floats, v: Value, s: Text)
    ensures Merged(a, v) == Str(s) <==> v == Str(s)
  {
  }

  /** Merging numbers changes no path and so no declaration. */
  lemma {:induction false} MergedDeclaration(a: Floats, items: seq<Value>, name: Text)
    requires Listed(items) && Listed(MergedItems(a, items))
    ensures match Declaration(items, name)
            case None => Declaration(MergedItems(a, items), name).None?
            case Some(d) => Declaration(MergedItems(a, items), name) == Some(MergedEntries(a, d))
    decreases |items|
  {
    hide Get, Has, Listed, Lit;
    if items == [] {
    } else {
      var init, last := items[..|items| - 1], items[|items| - 1];
      ListedLast(items);
      ListedLast(MergedItems(a, items));
      assert MergedItems(a, items)[..|init|] == MergedItems(a, init);
      MergedDeclaration(a, init, name);
      MergedGet(a, last.entries, PATH);
      MergedStr(a, Get(last.entries, PATH), name);
    }
  }

  // ----- commitment

  /** Equal digests of values: equal values, or a collision. */
  lemma ValueDigestCommits(w: World, p: Value, q: Value, digest: Text) returns (s: Bytes, t: Bytes)
    requires Valid(p) && Valid(q)
    requires Sha256Value(w, p) == Some(digest) && Sha256Value(w, q) == Some(digest)
    ensures Collision(w, s, t) || Same(p, q)
  {
    s, t := Utf8(CanonicalJson(p)), Utf8(CanonicalJson(q));
    Sha256Injective(w, s, t);
    if s == t {
      Utf8Injective(CanonicalJson(p), CanonicalJson(q));
      CanonicalJsonInjective(p, q);
    }
  }


  ghost predicate ValidDocuments(d: Documents) { Valid(Obj(d.manifest)) && Valid(Obj(d.integrity)) }

  /** The two manifests' file tables are equal. */
  predicate SameTable(w: World, d: Documents, e: Documents) {
    CanonicalJson(Merged(w.python.floats, Get(d.manifest, FILES)))
    == CanonicalJson(Merged(w.python.floats, Get(e.manifest, FILES)))
  }

  /** The digest is that of a binding that repeats the manifest's file table. */
  predicate Bound(w: World, d: Documents, digest: Text) {
    BindsFiles(w, d) && Sha256Value(w, Get(d.integrity, BINDING)) == Some(digest)
  }

  predicate Filed(w: World, d: Documents, name: Text) {
    var files := Get(d.manifest, FILES);
    files.Arr? && Listed(files.items) && name in d.members && DeclaresMember(w, files.items, d.members, name)
  }

  /** Equal package digests: the same file table, or a collision. */
  lemma DigestCommitsToTable(w: World, d: Documents, e: Documents, digest: Text) returns (s: Bytes, t: Bytes)
    requires ValidDocuments(d) && ValidDocuments(e) && Bound(w, d, digest) && Bound(w, e, digest)
    ensures Collision(w, s, t) || SameTable(w, d, e)
  {
    hide Get, CanonicalJson, Merged, Valid, Same;
    var p, q, a := Get(d.integrity, BINDING), Get(e.integrity, BINDING), w.python.floats;
    GetValid(d.integrity, BINDING);
    GetValid(e.integrity, BINDING);
    s, t := ValueDigestCommits(w, p, q, digest);
    if !Collision(w, s, t) {
      var fp, fq := Get(p.entries, FILES), Get(q.entries, FILES);
      SameGetBoth(p.entries, q.entries, FILES);
      GetValid(p.entries, FILES);
      GetValid(q.entries, FILES);
      SameEqual(a, fp, fq);
      MergedValid(a, fp);
      MergedValid(a, fq);
      CanonicalJsonInjective(Merged(a, fp), Merged(a, fq));
    }
  }

  /** One file table fixes the bytes of each file it lists, up to a collision. */
  lemma MemberFixed(w: World, d: Documents, e: Documents, name: Text)
    requires ValidDocuments(d) && ValidDocuments(e) && Filed(w, d, name) && Filed(w, e, name)
    requires SameTable(w, d, e)
    ensures d.members[name] == e.members[name] || Collision(w, d.members[name], e.members[name])
  {
    hide Get, CanonicalJson, Declaration, Valid, Same, Listed;
    var fl, fd, fe := w.python.floats, Get(d.manifest, FILES), Get(e.manifest, FILES);
    GetValid(d.manifest, FILES);
    GetValid(e.manifest, FILES);
    MergedValid(fl, fd);
    MergedValid(fl, fe);
    CanonicalJsonInjective(Merged(fl, fd), Merged(fl, fe));
    MergedListed(fl, fd.items);
    MergedListed(fl, fe.items);
    MergedDeclaration(fl, fd.items, name);
    MergedDeclaration(fl, fe.items, name);
    SameDeclaration(MergedItems(fl, fd.items), MergedItems(fl, fe.items), name);
    var a, b := Declaration(fd.items, name).value, Declaration(fe.items, name).value;
    MergedGet(fl, a, Lit("sha256"));
    MergedGet(fl, b, Lit("sha256"));
    SameGetBoth(MergedEntries(fl, a), MergedEntries(fl, b), Lit("sha256"));
    SameStr(Merged(fl, Get(a, Lit("sha256"))), Merged(fl, Get(b, Lit("sha256"))));
    Sha256Injective(w, d.members[name], e.members[name]);
  }

  lemma SameStr(v: Value, w: Value)
    requires Same(v, w) && v.Str?
    ensures v == w
  {
  }

  lemma ReadDocumentsValid(w: World, members: map<Text, Bytes>)
    requires HasRequired(members) && ReadDocuments(w, members).Success?
    ensures ValidDocuments(ReadDocuments(w, members).value) && ReadDocuments(w, members).value.members == members
  {
    hide ParseCanonical, Valid;
    ParseCanonicalValid(w, members[MANIFEST]);
    ParseCanonicalValid(w, members[INTEGRITY]);
  }

  lemma PayloadFiled(w: World, d: Documents)
    requires HasRequired(d.members) && FilesMatch(w, d)
    ensures forall n :: n in PAYLOAD_FILES ==> n in d.members && Filed(w, d, n)
  {
    hide Get, Declaration, DeclaresMember, Listed;
  }

  lemma ValidatedDocuments(w: World, limits: Limits, a: Archive, x: Expected) returns (d: Documents)
    requires Validate(w, limits, a, x).Success?
    ensures ValidDocuments(d) && Bound(w, d, Validate(w, limits, a, x).value.packageDigest)
    ensures Members(limits, a) == Success(d.members)
    ensures forall n :: n in PAYLOAD_FILES ==> n in d.members && Filed(w, d, n)
  {
    hide Members, ReadDocuments, HasRequired, Get, Listed;
    hide Declaration, DeclaresMember, BindsFiles, Sha256Value, Validate;
    hide CheckDocuments, ValidDocuments;
    ValidationExact(w, limits, a, x, Validate(w, limits, a, x).value);
    d := Reading(w, limits, a).value;
    ReadDocumentsValid(w, d.members);
    PayloadFiled(w, d);
  }

  /** Two archives that validate with one package digest, whatever sessions they were
      validated for, carry byte-identical payload files, or a collision is exhibited. */
  lemma PackageDigestCommits(w: World, limits: Limits, a: Archive, b: Archive, x: Expected, y: Expected)
    returns (s: Bytes, t: Bytes)
    requires Validate(w, limits, a, x).Success? && Validate(w, limits, b, y).Success?
    requires Validate(w, limits, a, x).value.packageDigest == Validate(w, limits, b, y).value.packageDigest
    ensures Members(limits, a).Success? && Members(limits, b).Success?
    ensures Collision(w, s, t) ||
            forall name :: name in PAYLOAD_FILES ==> Payload(limits, a, name) == Payload(limits, b, name)
  {
    hide Members, Validate, Bound, Filed, ValidDocuments, SameTable, Get;
    var d := ValidatedDocuments(w, limits, a, x);
    var e := ValidatedDocuments(w, limits, b, y);
    s, t := DigestCommitsToTable(w, d, e, Validate(w, limits, a, x).value.packageDigest);
    if !Collision(w, s, t) {
      if name :| name in PAYLOAD_FILES && Payload(limits, a, name) != Payload(limits, b, name) {
        MemberFixed(w, d, e, name);
        return d.members[name], e.members[name];
      }
    }
  }
}
