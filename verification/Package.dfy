/**
 Evidence packages: what the collector builds and what the console's validator demands.
 SHA-256, HMAC, the compressor, the evidence schema and the sensitive-data scanner are
 parameters.
 */
module Package {
  import opened Wrappers
  import opened Unicode
  import opened Json
  import opened Canonical
  import opened Fields
  import opened PythonValues
  import opened CompactScanner

  const MANIFEST := Lit("manifest.json")
  const EVIDENCE := Lit("evidence.json")
  const CAPABILITIES := Lit("capability-results.json")
  const COLLECTION_LOG := Lit("collection-log.json")
  const INTEGRITY := Lit("integrity.json")
  const SIGNATURE := Lit("signatures/submission.sig")

  const PAYLOAD_FILES: seq<Text> := [EVIDENCE, CAPABILITIES, COLLECTION_LOG]
  const REQUIRED_FILES: seq<Text> := [MANIFEST, EVIDENCE, CAPABILITIES, COLLECTION_LOG, INTEGRITY, SIGNATURE]

  datatype State =
    | RejectedPackageLimit
    | RejectedArchiveSafety
    | RejectedSchema
    | RejectedToken
    | RejectedUntrustedCollector
    | RejectedDigest
    | RejectedReplay
    | RejectedSensitiveData
    | Uncaught  // an exception the validator does not turn into a rejection

  predicate IsAscii(t: Text) { forall c :: c in t ==> c < 128 }

  /** Base64 text. */
  type Base64 = t: Text | IsAscii(t)

  /** What the evidence schema says: the validator turns some of its exceptions into a refusal. */
  datatype Ruling = Accepts | Refuses | Raises

  /** The functions the package code calls and this model does not define. */
  datatype World = World(
    sha256: Bytes -> Text,
    mac: (Text, Bytes) -> Base64,
    deflatedSize: Bytes -> nat,
    schema: Value -> Ruling,
    scanClean: Value -> bool,
    python: Python
  )

  datatype Limits = Limits(packageSize: nat, uncompressedSize: nat, files: nat)

  /** content is None when reading the member raises: a wrong checksum, an encrypted member, an
      unknown compression method. */
  datatype Info = Info(filename: Text, symlink: bool, fileSize: nat, compressSize: nat, content: Option<Bytes>)

  /** Opening reports a bad ZIP, raises something else, or gives the members. */
  datatype Archive = NotZip(size: nat) | Unopenable(size: nat) | Zip(size: nat, infos: seq<Info>)

  // ----- the archive

  function Total(infos: seq<Info>): nat {
    if infos == [] then 0 else Total(infos[..|infos| - 1]) + infos[|infos| - 1].fileSize
  }

  /** file_size / max(1, compress_size) > 100, infinite when nothing is stored for something. */
  predicate UnsafeRatio(info: Info) {
    if info.compressSize == 0 then info.fileSize > 0 else info.fileSize > 100 * info.compressSize
  }

  predicate NamesDistinct(infos: seq<Info>) {
    forall i, j :: 0 <= i < j < |infos| ==> infos[i].filename != infos[j].filename
  }

  predicate FileSetRequired(infos: seq<Info>) {
    && (forall i :: 0 <= i < |infos| ==> infos[i].filename in REQUIRED_FILES)
    && (forall n :: n in REQUIRED_FILES ==> exists i :: 0 <= i < |infos| && infos[i].filename == n)
  }

  /** The first info that stops the reading loop, after `done` infos were read. */
  function ReadInfos(limits: Limits, infos: seq<Info>): Result<map<Text, Bytes>, State> {
    if infos == [] then Success(map[])
    else
      var last := infos[|infos| - 1];
      var members :- ReadInfos(limits, infos[..|infos| - 1]);
      if last.symlink then Failure(RejectedArchiveSafety)
      else if Total(infos) > limits.uncompressedSize then Failure(RejectedPackageLimit)
      else if UnsafeRatio(last) then Failure(RejectedArchiveSafety)
      else if last.content.None? then Failure(Uncaught)
      else Success(members[last.filename := last.content.value])
  }

  function Members(limits: Limits, archive: Archive): Result<map<Text, Bytes>, State> {
    if archive.size > limits.packageSize then Failure(RejectedPackageLimit)
    else if archive.NotZip? then Failure(RejectedArchiveSafety)
    else if archive.Unopenable? then Failure(Uncaught)
    else if |archive.infos| > limits.files then Failure(RejectedPackageLimit)
    else if !NamesDistinct(archive.infos) || !FileSetRequired(archive.infos) then Failure(RejectedArchiveSafety)
    else ReadInfos(limits, archive.infos)
  }

  lemma ReadInfosFails(limits: Limits, infos: seq<Info>, n: nat)
    requires n <= |infos| && ReadInfos(limits, infos[..n]).Failure?
    ensures ReadInfos(limits, infos) == ReadInfos(limits, infos[..n])
    decreases |infos|
  {
    if n == |infos| {
      assert infos[..n] == infos;
    } else {
      assert infos[..|infos| - 1][..n] == infos[..n];
      ReadInfosFails(limits, infos[..|infos| - 1], n);
    }
  }

  method SafeMembers(limits: Limits, archive: Archive) returns (r: Result<map<Text, Bytes>, State>)
    ensures r == Members(limits, archive)
  {
    hide FileSetRequired, NamesDistinct, UnsafeRatio;
    if archive.size > limits.packageSize {
      return Failure(RejectedPackageLimit);
    }
    if archive.NotZip? {
      return Failure(RejectedArchiveSafety);
    }
    if archive.Unopenable? {
      return Failure(Uncaught);
    }
    var infos := archive.infos;
    if |infos| > limits.files {
      return Failure(RejectedPackageLimit);
    }
    if !NamesDistinct(infos) || !FileSetRequired(infos) {
      return Failure(RejectedArchiveSafety);
    }
    var total := 0;
    var members: map<Text, Bytes> := map[];
    for i := 0 to |infos|
      invariant total == Total(infos[..i])
      invariant ReadInfos(limits, infos[..i]) == Success(members)
    {
      var info := infos[i];
      assert infos[..i + 1][..i] == infos[..i];
      if info.symlink {
        ReadInfosFails(limits, infos, i + 1);
        return Failure(RejectedArchiveSafety);
      }
      total := total + info.fileSize;
      if total > limits.uncompressedSize {
        ReadInfosFails(limits, infos, i + 1);
        return Failure(RejectedPackageLimit);
      }
      if UnsafeRatio(info) {
        ReadInfosFails(limits, infos, i + 1);
        return Failure(RejectedArchiveSafety);
      }
      if info.content.None? {
        ReadInfosFails(limits, infos, i + 1);
        return Failure(Uncaught);
      }
      members := members[info.filename := info.content.value];
    }
    assert infos[..|infos|] == infos;
    return Success(members);
  }

  // ----- documents

  /** `_unique_object` in place, no other leniency. */
  function Unique(w: World): Reader { Reader(true, false, Some(w.python.floats)) }

  function ParseCanonical(w: World, value: Bytes): Result<Value, State> {
    match Utf8Decode(value)
    case None => Failure(RejectedSchema)
    case Some(text) =>
      match Loads(Unique(w), text)
      case None => Failure(RejectedSchema)
      case Some(v) => if AcceptsLayout(text, v) then Success(v) else Failure(RejectedSchema)
  }

  function ParseObjectDocument(w: World, value: Bytes): Result<seq<Entry>, State> {
    var v :- ParseCanonical(w, value);
    if v.Obj? then Success(v.entries) else Failure(RejectedSchema)
  }

  function ParseResults(w: World, value: Bytes): Result<seq<Value>, State> {
    var v :- ParseCanonical(w, value);
    if v.Arr? && forall x :: x in v.items ==> x.Obj? then Success(v.items) else Failure(RejectedSchema)
  }

  datatype Documents = Documents(
    members: map<Text, Bytes>,
    manifest: seq<Entry>,
    evidence: seq<Entry>,
    capabilities: seq<Value>,
    log: seq<Entry>,
    integrity: seq<Entry>,
    signature: seq<Entry>
  )

  predicate HasRequired(members: map<Text, Bytes>) { forall n :: n in REQUIRED_FILES ==> n in members }

  function ReadDocuments(w: World, members: map<Text, Bytes>): (r: Result<Documents, State>)
    requires HasRequired(members)
    ensures r.Success? ==> r.value.members == members
  {
    var manifest :- ParseObjectDocument(w, members[MANIFEST]);
    var evidence :- ParseObjectDocument(w, members[EVIDENCE]);
    var capabilities :- ParseResults(w, members[CAPABILITIES]);
    var log :- ParseObjectDocument(w, members[COLLECTION_LOG]);
    var integrity :- ParseObjectDocument(w, members[INTEGRITY]);
    var signature :- ParseObjectDocument(w, members[SIGNATURE]);
    Success(Documents(members, manifest, evidence, capabilities, log, integrity, signature))
  }

  // ----- the checks, in the validator's order

  datatype Expected = Expected(
    assessmentId: Text, sessionId: Text, submissionId: Text,
    nonce: Text, profileDigest: Text, token: Text
  )

  const REQUIRED_FIELDS: seq<Text> := [
    Lit("schemaVersion"), Lit("assessmentId"), Lit("sessionId"), Lit("submissionId"),
    Lit("collectorVersion"), Lit("collectorBuildDigest"), Lit("collectionProfile"),
    Lit("collectionProfileDigest"), Lit("deviceId"), Lit("startedAt"), Lit("completedAt"),
    Lit("privilegeContext"), Lit("files"), Lit("packageDigest")
  ]

  predicate ManifestComplete(m: seq<Entry>) {
    && (forall k :: k in REQUIRED_FIELDS ==> Has(m, k))
    && Get(m, Lit("schemaVersion")) == Str(Lit("5.0"))
  }

  predicate ManifestNames(m: seq<Entry>, x: Expected) {
    && Get(m, Lit("assessmentId")) == Str(x.assessmentId)
    && Get(m, Lit("sessionId")) == Str(x.sessionId)
    && Get(m, Lit("submissionId")) == Str(x.submissionId)
  }

  predicate ProfileTrusted(m: seq<Entry>, x: Expected) {
    Get(m, Lit("collectionProfileDigest")) == Str(x.profileDigest)
  }

  const PRIVILEGE := Lit("privilegeContext")

  predicate PrivilegeFits(m: seq<Entry>) {
    Get(m, PRIVILEGE) == Str(Lit("STANDARD_USER")) || Get(m, PRIVILEGE) == Str(Lit("ADMIN_MEMBER_NOT_ELEVATED"))
  }

  function CheckManifest(m: seq<Entry>, x: Expected): Result<(), State> {
    if !ManifestComplete(m) then Failure(RejectedSchema)
    else if !ManifestNames(m, x) then Failure(RejectedToken)
    else if !ProfileTrusted(m, x) then Failure(RejectedUntrustedCollector)
    else if !Hashable(Get(m, PRIVILEGE)) then Failure(Uncaught)
    else if !PrivilegeFits(m) then Failure(RejectedSchema)
    else Success(())
  }

  /** `str(d.get(key, ""))`. */
  function StrField(w: World, es: seq<Entry>, key: Text): Text {
    if Has(es, key) then PyStr(w.python, Get(es, key)) else []
  }

  const BUILD := Lit("collectorBuildDigest")
  const COLLECTOR := Lit("collectorVersion")

  /** Evidence and manifest agree on the collector; a build may be missing from old evidence. */
  predicate CollectorAgrees(w: World, manifest: seq<Entry>, evidence: seq<Entry>) {
    && PyEqual(w.python, Get(evidence, COLLECTOR), Get(manifest, COLLECTOR))
    && (StrField(w, evidence, BUILD) == StrField(w, manifest, BUILD)
        || (StrField(w, evidence, BUILD) == [] && StrField(w, manifest, COLLECTOR) != Lit("5.1.1")))
  }

  function CheckCollector(w: World, manifest: seq<Entry>, evidence: seq<Entry>): Result<(), State> {
    var evidenceBuild, manifestBuild := StrField(w, evidence, BUILD), StrField(w, manifest, BUILD);
    if !PyEqual(w.python, Get(evidence, COLLECTOR), Get(manifest, COLLECTOR)) then Failure(RejectedUntrustedCollector)
    else if evidenceBuild != [] && evidenceBuild != manifestBuild then Failure(RejectedUntrustedCollector)
    else if StrField(w, manifest, COLLECTOR) == Lit("5.1.1") && evidenceBuild != manifestBuild
    then Failure(RejectedUntrustedCollector)
    else match w.schema(Obj(evidence))
    case Accepts => Success(())
    case Refuses => Failure(RejectedSchema)
    case Raises => Failure(Uncaught)
  }

  const PATH := Lit("path")

  /** `item["path"]` needs a dict that has it, and a value that can be a dict key. */
  predicate Listed(items: seq<Value>) {
    forall x :: x in items ==> x.Obj? && Has(x.entries, PATH) && Hashable(Get(x.entries, PATH))
  }

  /** The item that wins the dict comprehension for a path: the last one. */
  function Declaration(items: seq<Value>, name: Text): Option<seq<Entry>>
    requires Listed(items)
  {
    if items == [] then None
    else
      var last := items[|items| - 1];
      if Get(last.entries, PATH) == Str(name) then Some(last.entries)
      else Declaration(items[..|items| - 1], name)
  }

  function Sha256(w: World, b: Bytes): Text { Lit("sha256:") + w.sha256(b) }

  /** `v == n`: an integer, the float that equals it, or for 0 and 1 a truth value. */
  predicate NumberIs(w: World, v: Value, n: nat) { Merged(w.python.floats, v) == Int(n) }

  predicate DeclaresMember(w: World, items: seq<Value>, members: map<Text, Bytes>, name: Text)
    requires Listed(items) && name in members
  {
    match Declaration(items, name)
    case None => false
    case Some(d) =>
      && Get(d, Lit("sha256")) == Str(Sha256(w, members[name]))
      && NumberIs(w, Get(d, Lit("size")), |members[name]|)
  }

  const FILES := Lit("files")

  /** The paths listed are the payload files. */
  predicate PathsMatch(items: seq<Value>)
    requires Listed(items)
  {
    && (forall x :: x in items ==> exists n :: n in PAYLOAD_FILES && Get(x.entries, PATH) == Str(n))
    && (forall n :: n in PAYLOAD_FILES ==> Declaration(items, n).Some?)
  }

  predicate DigestsMatch(w: World, d: Documents, items: seq<Value>)
    requires HasRequired(d.members) && Listed(items)
  {
    && (forall n :: n in PAYLOAD_FILES ==> n in d.members && DeclaresMember(w, items, d.members, n))
    && Get(d.manifest, Lit("integrityDigest")) == Str(Sha256(w, d.members[INTEGRITY]))
    && Get(d.manifest, Lit("signatureDigest")) == Str(Sha256(w, d.members[SIGNATURE]))
  }

  function CheckFiles(w: World, d: Documents): Result<(), State>
    requires HasRequired(d.members)
  {
    var files := Get(d.manifest, FILES);
    if !files.Arr? then Failure(RejectedSchema)
    else if !Listed(files.items) then Failure(Uncaught)
    else if !PathsMatch(files.items) then Failure(RejectedSchema)
    else if !DigestsMatch(w, d, files.items) then Failure(RejectedDigest)
    else Success(())
  }

  /** `sha256_value`; None when the canonical text cannot be encoded. */
  function Sha256Value(w: World, v: Value): Option<Text> {
    var text := CanonicalJson(v);
    if Scalar(text) then Some(Sha256(w, Utf8(text))) else None
  }

  const BINDING := Lit("binding")
  const NONCE := Lit("nonce")
  const PACKAGE_DIGEST := Lit("packageDigest")

  predicate BindsNonce(d: Documents, x: Expected) {
    Get(d.integrity, BINDING).Obj? && Get(Get(d.integrity, BINDING).entries, NONCE) == Str(x.nonce)
  }

  predicate BindsFiles(w: World, d: Documents) {
    && Get(d.integrity, BINDING).Obj?
    && PyEqual(w.python, Get(Get(d.integrity, BINDING).entries, FILES), Get(d.manifest, FILES))
  }

  predicate StatesDigest(d: Documents, digest: Text) {
    Get(d.integrity, PACKAGE_DIGEST) == Str(digest) && Get(d.manifest, PACKAGE_DIGEST) == Str(digest)
  }

  function CheckBinding(w: World, d: Documents, x: Expected): Result<Text, State> {
    if !Get(d.integrity, BINDING).Obj? then Failure(RejectedSchema)
    else if !BindsNonce(d, x) then Failure(RejectedReplay)
    else if !BindsFiles(w, d) then Failure(RejectedDigest)
    else
      match Sha256Value(w, Get(d.integrity, BINDING))
      case None => Failure(Uncaught)
      case Some(digest) => if StatesDigest(d, digest) then Success(digest) else Failure(RejectedDigest)
  }

  function Signed(sessionId: Text, submissionId: Text, nonce: Text, digest: Text): seq<Entry> {
    [ Entry(Lit("sessionId"), Str(sessionId)),
      Entry(Lit("submissionId"), Str(submissionId)),
      Entry(NONCE, Str(nonce)),
      Entry(PACKAGE_DIGEST, Str(digest)) ]
  }

  function SignedText(x: Expected, digest: Text): Text {
    CanonicalJson(Obj(Signed(x.sessionId, x.submissionId, x.nonce, digest)))
  }

  predicate SignsThis(w: World, signature: seq<Entry>, x: Expected, digest: Text) {
    PyEqual(w.python, Get(signature, Lit("signed")), Obj(Signed(x.sessionId, x.submissionId, x.nonce, digest)))
  }

  function SignatureText(w: World, signature: seq<Entry>): Text { StrField(w, signature, Lit("signature")) }

  /** Text and token can be encoded, and `hmac.compare_digest` is given ASCII only. */
  predicate Comparable(w: World, signature: seq<Entry>, x: Expected, digest: Text) {
    Scalar(SignedText(x, digest)) && Scalar(x.token) && IsAscii(SignatureText(w, signature))
  }

  function CheckSignature(w: World, signature: seq<Entry>, x: Expected, digest: Text): Result<(), State> {
    if !SignsThis(w, signature, x, digest) then Failure(RejectedDigest)
    else if !Comparable(w, signature, x, digest) then Failure(Uncaught)
    else if SignatureText(w, signature) != w.mac(x.token, Utf8(SignedText(x, digest))) then Failure(RejectedToken)
    else Success(())
  }

  const STATUSES: seq<Text> := [
    Lit("COLLECTED"), Lit("COLLECTED_PARTIAL"), Lit("NOT_SUPPORTED"),
    Lit("NOT_COLLECTED_PRIVILEGE_REQUIRED"), Lit("NOT_COLLECTED_POLICY_BLOCKED"),
    Lit("NOT_COLLECTED_TIMEOUT"), Lit("NOT_COLLECTED_ACCESS_DENIED"), Lit("NOT_COLLECTED_ERROR")
  ]

  function CapabilityId(w: World, x: Value): Text {
    if x.Obj? then StrField(w, x.entries, Lit("capabilityId")) else []
  }

  function Status(x: Value): Value { if x.Obj? then Get(x.entries, Lit("status")) else Null }

  predicate TerminalStatus(x: Value) { Status(x).Str? && Status(x).s in STATUSES }

  /** The result at i has an ID of its own. */
  predicate NamedOnce(w: World, results: seq<Value>, i: nat)
    requires i < |results|
  {
    && CapabilityId(w, results[i]) != []
    && forall j :: 0 <= j < i ==> CapabilityId(w, results[j]) != CapabilityId(w, results[i])
  }

  /** Every result named once and in a terminal state. */
  predicate GoodResults(w: World, results: seq<Value>) {
    forall i :: 0 <= i < |results| ==> NamedOnce(w, results, i) && TerminalStatus(results[i])
  }

  /** Some result has a status that cannot be looked up in a set, and everything before it is
      good. */
  predicate ResultsRaise(w: World, results: seq<Value>) {
    exists i ::
      && 0 <= i < |results|
      && (forall j :: 0 <= j < i ==> NamedOnce(w, results, j) && TerminalStatus(results[j]))
      && NamedOnce(w, results, i) && !Hashable(Status(results[i]))
  }

  method ValidateCapabilityResults(w: World, results: seq<Value>) returns (r: Result<(), State>)
    ensures r.Success? <==> GoodResults(w, results)
    ensures r == Failure(Uncaught) <==> ResultsRaise(w, results)
    ensures r.Failure? ==> r.error.Uncaught? || r.error.RejectedSchema?
  {
    hide CapabilityId, TerminalStatus, Status, NamedOnce, Hashable;
    var seen: set<Text> := {};
    for i := 0 to |results|
      invariant forall k :: 0 <= k < i ==> NamedOnce(w, results, k) && TerminalStatus(results[k])
      invariant forall k :: 0 <= k < i ==> Hashable(Status(results[k]))
      invariant seen == set k | 0 <= k < i :: CapabilityId(w, results[k])
    {
      StatusOf(results[i]);
      NamedIs(w, results, i, seen);
      var id := CapabilityId(w, results[i]);
      if id == [] || id in seen {
        return Failure(RejectedSchema);
      }
      if !Hashable(Status(results[i])) {
        return Failure(Uncaught);
      }
      if !TerminalStatus(results[i]) {
        return Failure(RejectedSchema);
      }
      seen := seen + {id};
    }
    return Success(());
  }

  lemma NamedIs(w: World, results: seq<Value>, i: nat, seen: set<Text>)
    requires i < |results| && seen == set k | 0 <= k < i :: CapabilityId(w, results[k])
    ensures NamedOnce(w, results, i) <==>
              CapabilityId(w, results[i]) != [] && CapabilityId(w, results[i]) !in seen
  {
    hide CapabilityId;
  }

  lemma StatusOf(x: Value)
    ensures TerminalStatus(x) ==> Hashable(Status(x))
  {
  }

  function CheckResults(w: World, results: seq<Value>): Result<(), State> {
    if GoodResults(w, results) then Success(())
    else if ResultsRaise(w, results) then Failure(Uncaught)
    else Failure(RejectedSchema)
  }

  datatype Validated = Validated(
    manifest: seq<Entry>, evidence: seq<Entry>, capabilities: seq<Value>, log: seq<Entry>, packageDigest: Text
  )

  predicate ScanPasses(w: World, d: Documents) {
    w.scanClean(Obj(d.evidence)) && w.scanClean(Arr(d.capabilities)) && w.scanClean(Obj(d.log))
  }

  function CheckContent(w: World, d: Documents): Result<(), State> {
    var _ :- CheckResults(w, d.capabilities);
    if ScanPasses(w, d) then Success(()) else Failure(RejectedSensitiveData)
  }

  function CheckDocuments(w: World, d: Documents, x: Expected): Result<Validated, State>
    requires HasRequired(d.members)
  {
    var _ :- CheckManifest(d.manifest, x);
    var _ :- CheckCollector(w, d.manifest, d.evidence);
    var _ :- CheckFiles(w, d);
    var digest :- CheckBinding(w, d, x);
    var _ :- CheckSignature(w, d.signature, x, digest);
    var _ :- CheckContent(w, d);
    Success(Validated(d.manifest, d.evidence, d.capabilities, d.log, digest))
  }

  ghost function NameSet(infos: seq<Info>): set<Text> {
    set i | 0 <= i < |infos| :: infos[i].filename
  }

  lemma {:induction false} ReadInfosKeys(limits: Limits, infos: seq<Info>)
    ensures ReadInfos(limits, infos).Success? ==> ReadInfos(limits, infos).value.Keys == NameSet(infos)
    decreases |infos|
  {
    if infos == [] {
    } else {
      var init, last := infos[..|infos| - 1], infos[|infos| - 1];
      ReadInfosKeys(limits, init);
      assert NameSet(infos) == NameSet(init) + {last.filename} by {
        forall n | n in NameSet(init) + {last.filename}
          ensures n in NameSet(infos)
        {
          if n in NameSet(init) {
            var i :| 0 <= i < |init| && init[i].filename == n;
            assert infos[i].filename == n;
          } else {
            assert infos[|infos| - 1].filename == n;
          }
        }
        forall i | 0 <= i < |infos| && infos[i].filename != last.filename
          ensures infos[i].filename in NameSet(init)
        {
          assert init[i].filename == infos[i].filename;
        }
      }
    }
  }

  lemma MembersRequired(limits: Limits, archive: Archive)
    ensures Members(limits, archive).Success? ==> HasRequired(Members(limits, archive).value)
  {
    if Members(limits, archive).Success? {
      ReadInfosKeys(limits, archive.infos);
      forall n | n in REQUIRED_FILES
        ensures n in NameSet(archive.infos)
      {
        var i :| 0 <= i < |archive.infos| && archive.infos[i].filename == n;
      }
    }
  }

  /** The archive's members and the six documents in them. */
  function Reading(w: World, limits: Limits, archive: Archive): (r: Result<Documents, State>)
    ensures r.Success? ==> HasRequired(r.value.members) && Members(limits, archive) == Success(r.value.members)
  {
    var members :- Members(limits, archive);
    MembersRequired(limits, archive);
    ReadDocuments(w, members)
  }

  function Validate(w: World, limits: Limits, archive: Archive, x: Expected): Result<Validated, State> {
    var d :- Reading(w, limits, archive);
    CheckDocuments(w, d, x)
  }

  // ----- which archives are read

  /** The required files in name order. */
  const MEMBER_NAMES: seq<Text> := [CAPABILITIES, COLLECTION_LOG, EVIDENCE, INTEGRITY, MANIFEST, SIGNATURE]

  lemma FileNamesDiffer()
    ensures MANIFEST != EVIDENCE && MANIFEST != CAPABILITIES && MANIFEST != COLLECTION_LOG
    ensures MANIFEST != INTEGRITY && MANIFEST != SIGNATURE
    ensures EVIDENCE != CAPABILITIES && EVIDENCE != COLLECTION_LOG && EVIDENCE != INTEGRITY && EVIDENCE != SIGNATURE
    ensures CAPABILITIES != COLLECTION_LOG && CAPABILITIES != INTEGRITY && CAPABILITIES != SIGNATURE
    ensures COLLECTION_LOG != INTEGRITY && COLLECTION_LOG != SIGNATURE && INTEGRITY != SIGNATURE
  {
    assert MANIFEST[0] == 'm' as int && EVIDENCE[0] == 'e' as int && INTEGRITY[0] == 'i' as int;
    assert SIGNATURE[0] == 's' as int && CAPABILITIES[1] == 'a' as int && COLLECTION_LOG[1] == 'o' as int;
    assert CAPABILITIES[0] == 'c' as int && COLLECTION_LOG[0] == 'c' as int;
  }

  lemma PayloadNames(n: Text)
    ensures n in PAYLOAD_FILES <==> n == EVIDENCE || n == CAPABILITIES || n == COLLECTION_LOG
  {
    assert PAYLOAD_FILES[0] == EVIDENCE && PAYLOAD_FILES[1] == CAPABILITIES && PAYLOAD_FILES[2] == COLLECTION_LOG;
  }

  lemma RequiredNames(n: Text)
    ensures n in REQUIRED_FILES <==> n in MEMBER_NAMES
  {
  }

  /** Six members under these names are the file set that is asked for. */
  lemma SixFiles(infos: seq<Info>)
    requires |infos| == 6 && forall i :: 0 <= i < 6 ==> infos[i].filename == MEMBER_NAMES[i]
    ensures NamesDistinct(infos) && FileSetRequired(infos)
  {
    FileNamesDiffer();
    forall i | 0 <= i < 6
      ensures infos[i].filename in REQUIRED_FILES
    {
      RequiredNames(MEMBER_NAMES[i]);
    }
    forall n | n in REQUIRED_FILES
      ensures exists i :: 0 <= i < |infos| && infos[i].filename == n
    {
      RequiredNames(n);
      var i :| 0 <= i < 6 && MEMBER_NAMES[i] == n;
      assert infos[i].filename == n;
    }
  }

  lemma {:induction false} TotalGrows(infos: seq<Info>, n: nat)
    requires n <= |infos|
    ensures Total(infos[..n]) <= Total(infos)
    decreases |infos|
  {
    if n == |infos| {
      assert infos[..n] == infos;
    } else {
      assert infos[..|infos| - 1][..n] == infos[..n];
      TotalGrows(infos[..|infos| - 1], n);
    }
  }

  /** One member the loop accepts. */
  predicate Readable(info: Info) { !info.symlink && !UnsafeRatio(info) && info.content.Some? }

  predicate AllReadable(infos: seq<Info>) { forall i :: 0 <= i < |infos| ==> Readable(infos[i]) }

  lemma {:induction false} ReadInfosExact(limits: Limits, infos: seq<Info>)
    ensures ReadInfos(limits, infos).Success? <==> Total(infos) <= limits.uncompressedSize && AllReadable(infos)
    decreases |infos|
  {
    if infos == [] {
    } else {
      var init := infos[..|infos| - 1];
      ReadInfosExact(limits, init);
      TotalGrows(infos, |init|);
      assert forall i :: 0 <= i < |init| ==> init[i] == infos[i];
    }
  }

  /** The files of an archive are the ones a package has, each once, within the limits on the
      archive's size and on their number. */
  predicate Shaped(limits: Limits, archive: Archive) {
    && archive.Zip? && archive.size <= limits.packageSize && |archive.infos| <= limits.files
    && NamesDistinct(archive.infos) && FileSetRequired(archive.infos)
  }

  /** The archive is read exactly when it is a ZIP within all limits, of exactly the required
      files, each once, none a link, none inflated a hundredfold and none damaged; the checks
      that the loop makes file by file come to this however early it stops. */
  lemma ArchiveExact(limits: Limits, archive: Archive)
    ensures Members(limits, archive).Success? <==>
              Shaped(limits, archive) && Total(archive.infos) <= limits.uncompressedSize && AllReadable(archive.infos)
  {
    hide NamesDistinct, FileSetRequired, AllReadable, ReadInfos;
    if archive.Zip? {
      ReadInfosExact(limits, archive.infos);
    }
  }

  /** The member at n cannot be read, and nothing up to it is refused. */
  predicate DamagedAt(limits: Limits, infos: seq<Info>, n: nat)
    requires n < |infos|
  {
    && AllReadable(infos[..n]) && Total(infos[..n + 1]) <= limits.uncompressedSize
    && !infos[n].symlink && !UnsafeRatio(infos[n]) && infos[n].content.None?
  }

  predicate Damaged(limits: Limits, infos: seq<Info>) { exists n :: 0 <= n < |infos| && DamagedAt(limits, infos, n) }

  lemma DamagedBefore(limits: Limits, infos: seq<Info>, n: nat)
    requires n < |infos| - 1
    ensures DamagedAt(limits, infos, n) <==> DamagedAt(limits, infos[..|infos| - 1], n)
  {
    hide AllReadable, Total, UnsafeRatio;
    var init := infos[..|infos| - 1];
    assert init[..n] == infos[..n] && init[..n + 1] == infos[..n + 1] && init[n] == infos[n];
  }

  lemma DamagedLast(limits: Limits, infos: seq<Info>)
    requires infos != []
    ensures Damaged(limits, infos) <==>
              Damaged(limits, infos[..|infos| - 1]) || DamagedAt(limits, infos, |infos| - 1)
  {
    hide DamagedAt;
    forall n | 0 <= n < |infos| - 1
      ensures DamagedAt(limits, infos, n) <==> DamagedAt(limits, infos[..|infos| - 1], n)
    {
      DamagedBefore(limits, infos, n);
    }
    if Damaged(limits, infos) {
      var n :| 0 <= n < |infos| && DamagedAt(limits, infos, n);
    }
    if Damaged(limits, infos[..|infos| - 1]) {
      var n :| 0 <= n < |infos| - 1 && DamagedAt(limits, infos[..|infos| - 1], n);
      assert DamagedAt(limits, infos, n);
    }
  }

  lemma {:induction false} DamagedExact(limits: Limits, infos: seq<Info>)
    ensures ReadInfos(limits, infos) == Failure(Uncaught) <==> Damaged(limits, infos)
    decreases |infos|
  {
    hide UnsafeRatio, Damaged, AllReadable;
    if infos == [] {
      assert !Damaged(limits, []) by {
        NothingDamaged(limits);
      }
    } else {
      var init := infos[..|infos| - 1];
      DamagedExact(limits, init);
      DamagedLast(limits, infos);
      ReadInfosExact(limits, init);
      TotalGrows(infos, |init|);
      assert infos[..|init| + 1] == infos;
    }
  }

  lemma NothingDamaged(limits: Limits)
    ensures !Damaged(limits, [])
  {
  }

  /** Reading raises an exception of its own exactly when the ZIP cannot be opened, or a member
      of a well-shaped one is damaged. */
  lemma ArchiveRaises(limits: Limits, archive: Archive)
    ensures Members(limits, archive) == Failure(Uncaught) <==>
              || (archive.Unopenable? && archive.size <= limits.packageSize)
              || (Shaped(limits, archive) && Damaged(limits, archive.infos))
  {
    hide NamesDistinct, FileSetRequired, Damaged, ReadInfos;
    if archive.Zip? {
      DamagedExact(limits, archive.infos);
    }
  }
}
