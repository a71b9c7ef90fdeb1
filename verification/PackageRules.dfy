/**
 The package validator's answers in the fields of the six documents: the checks in order, the
 first one that fails decides the answer, and a package that passes all of them is accepted.
 */
module PackageRules {
  import opened Wrappers
  import opened Ordering
  import opened Unicode
  import opened Json
  import opened Canonical
  import opened CompactScanner
  import opened Fields
  import opened PythonValues
  import opened Package
  import opened PackageMeaning

  // ----- fields

  /** `str(es.get(name, ""))`. */
  ghost function Spelling(w: World, es: seq<Entry>, name: string): Text {
    if Present(es, name) then PyStr(w.python, Field(es, name)) else []
  }

  lemma SpellingIs(w: World, es: seq<Entry>, name: string)
    requires UniqueKeys(es)
    ensures Spelling(w, es, name) == StrField(w, es, Lit(name))
  {
    FieldIs(es, name);
  }

  /** The documents as they come from the parser. */
  ghost predicate ProperDocuments(d: Documents) {
    && Valid(Obj(d.manifest)) && Valid(Obj(d.evidence)) && Valid(Arr(d.capabilities)) && Valid(Obj(d.log))
    && Valid(Obj(d.integrity)) && Valid(Obj(d.signature)) && (forall x :: x in d.capabilities ==> x.Obj?)
  }

  // ----- the manifest

  const MANIFEST_FIELDS: seq<string> := [
    "schemaVersion", "assessmentId", "sessionId", "submissionId", "collectorVersion", "collectorBuildDigest",
    "collectionProfile", "collectionProfileDigest", "deviceId", "startedAt", "completedAt", "privilegeContext",
    "files", "packageDigest"
  ]

  datatype ManifestCheck = Complete | Named | Profiled | PrivilegeHashes | PrivilegeKnown

  function Place(check: ManifestCheck): nat {
    match check
    case Complete => 0
    case Named => 1
    case Profiled => 2
    case PrivilegeHashes => 3
    case PrivilegeKnown => 4
  }

  ghost predicate ManifestPasses(m: seq<Entry>, x: Expected, check: ManifestCheck) {
    match check
    case Complete =>
      (forall n :: 0 <= n < 14 ==> Present(m, MANIFEST_FIELDS[n])) && Field(m, "schemaVersion") == Str(Lit("5.0"))
    case Named =>
      && Field(m, "assessmentId") == Str(x.assessmentId) && Field(m, "sessionId") == Str(x.sessionId)
      && Field(m, "submissionId") == Str(x.submissionId)
    case Profiled => Field(m, "collectionProfileDigest") == Str(x.profileDigest)
    case PrivilegeHashes => !Field(m, "privilegeContext").Arr? && !Field(m, "privilegeContext").Obj?
    case PrivilegeKnown =>
      || Field(m, "privilegeContext") == Str(Lit("STANDARD_USER"))
      || Field(m, "privilegeContext") == Str(Lit("ADMIN_MEMBER_NOT_ELEVATED"))
  }

  function ManifestRefusal(check: ManifestCheck): State {
    match check
    case Complete => RejectedSchema
    case Named => RejectedToken
    case Profiled => RejectedUntrustedCollector
    case PrivilegeHashes => Uncaught
    case PrivilegeKnown => RejectedSchema
  }

  lemma CompleteIs(m: seq<Entry>)
    requires UniqueKeys(m)
    ensures (forall k :: k in REQUIRED_FIELDS ==> Has(m, k)) <==>
            forall n :: 0 <= n < 14 ==> Present(m, MANIFEST_FIELDS[n])
  {
    hide Has, Lit, Present;
    forall n | 0 <= n < 14
      ensures Present(m, MANIFEST_FIELDS[n]) <==> Has(m, REQUIRED_FIELDS[n])
    {
      FieldIs(m, MANIFEST_FIELDS[n]);
    }
    assert forall n :: 0 <= n < 14 ==> REQUIRED_FIELDS[n] in REQUIRED_FIELDS;
  }

  lemma ManifestIs(m: seq<Entry>, x: Expected)
    requires UniqueKeys(m)
    ensures ManifestPasses(m, x, Complete) <==> ManifestComplete(m)
    ensures ManifestPasses(m, x, Named) <==> ManifestNames(m, x)
    ensures ManifestPasses(m, x, Profiled) <==> ProfileTrusted(m, x)
    ensures ManifestPasses(m, x, PrivilegeHashes) <==> Hashable(Get(m, PRIVILEGE))
    ensures ManifestPasses(m, x, PrivilegeKnown) <==> PrivilegeFits(m)
  {
    hide Has, Lit, Present, Field, Get;
    CompleteIs(m);
    FieldIs(m, "schemaVersion");
    FieldIs(m, "assessmentId");
    FieldIs(m, "sessionId");
    FieldIs(m, "submissionId");
    FieldIs(m, "collectionProfileDigest");
    FieldIs(m, "privilegeContext");
  }

  lemma ManifestRefused(m: seq<Entry>, x: Expected, check: ManifestCheck)
    requires UniqueKeys(m) && !ManifestPasses(m, x, check)
    requires forall earlier :: Place(earlier) < Place(check) ==> ManifestPasses(m, x, earlier)
    ensures CheckManifest(m, x) == Failure(ManifestRefusal(check))
  {
    hide ManifestComplete, ManifestNames, ProfileTrusted, PrivilegeFits, Hashable, ManifestPasses, Lit, Get;
    ManifestIs(m, x);
    assert Place(check) > 0 ==> ManifestPasses(m, x, Complete);
    assert Place(check) > 1 ==> ManifestPasses(m, x, Named);
    assert Place(check) > 2 ==> ManifestPasses(m, x, Profiled);
    assert Place(check) > 3 ==> ManifestPasses(m, x, PrivilegeHashes);
  }

  lemma ManifestAccepted(m: seq<Entry>, x: Expected)
    requires UniqueKeys(m)
    ensures CheckManifest(m, x).Success? <==> forall check :: ManifestPasses(m, x, check)
  {
    hide ManifestComplete, ManifestNames, ProfileTrusted, PrivilegeFits, Hashable, ManifestPasses, Lit, Get;
    ManifestIs(m, x);
    if forall check :: ManifestPasses(m, x, check) {
      assert ManifestPasses(m, x, Complete) && ManifestPasses(m, x, Named) && ManifestPasses(m, x, Profiled);
      assert ManifestPasses(m, x, PrivilegeHashes) && ManifestPasses(m, x, PrivilegeKnown);
    }
    forall check | CheckManifest(m, x).Success?
      ensures ManifestPasses(m, x, check)
    {
      assert check == Complete || check == Named || check == Profiled || check == PrivilegeHashes
          || check == PrivilegeKnown;
    }
  }

  // ----- the collector and the schema

  datatype CollectorCheck = SameVersion | SameBuild | SchemaReturns | SchemaHolds

  function Rank(check: CollectorCheck): nat {
    match check
    case SameVersion => 0
    case SameBuild => 1
    case SchemaReturns => 2
    case SchemaHolds => 3
  }

  /** `v == w`: NaN is not equal to itself. */
  ghost predicate Equals(w: World, v: Value, u: Value) { v != Float(NAN) && Equal(w.python.floats, v, u) }

  ghost predicate CollectorPasses(w: World, m: seq<Entry>, evidence: seq<Entry>, check: CollectorCheck) {
    match check
    case SameVersion => Equals(w, Field(evidence, "collectorVersion"), Field(m, "collectorVersion"))
    case SameBuild =>
      || Spelling(w, evidence, "collectorBuildDigest") == Spelling(w, m, "collectorBuildDigest")
      || (Spelling(w, evidence, "collectorBuildDigest") == []
          && Spelling(w, m, "collectorVersion") != Lit("5.1.1"))
    case SchemaReturns => !w.schema(Obj(evidence)).Raises?
    case SchemaHolds => w.schema(Obj(evidence)).Accepts?
  }

  function CollectorRefusal(check: CollectorCheck): State {
    match check
    case SameVersion => RejectedUntrustedCollector
    case SameBuild => RejectedUntrustedCollector
    case SchemaReturns => Uncaught
    case SchemaHolds => RejectedSchema
  }

  lemma FieldValid(es: seq<Entry>, name: string)
    requires Valid(Obj(es))
    ensures Valid(Field(es, name)) && Field(es, name) == Get(es, Lit(name))
    ensures Present(es, name) <==> Has(es, Lit(name))
  {
    FieldIs(es, name);
    GetValid(es, Lit(name));
  }

  lemma EqualsIs(w: World, v: Value, u: Value)
    requires Valid(v) && Valid(u)
    ensures Equals(w, v, u) <==> PyEqual(w.python, v, u)
  {
    PyEqualIs(w.python, v, u);
  }

  lemma CollectorIs(w: World, m: seq<Entry>, evidence: seq<Entry>)
    requires Valid(Obj(m)) && Valid(Obj(evidence))
    ensures CollectorPasses(w, m, evidence, SameVersion) <==>
              PyEqual(w.python, Get(evidence, COLLECTOR), Get(m, COLLECTOR))
    ensures Spelling(w, evidence, "collectorBuildDigest") == StrField(w, evidence, BUILD)
    ensures Spelling(w, m, "collectorBuildDigest") == StrField(w, m, BUILD)
    ensures Spelling(w, m, "collectorVersion") == StrField(w, m, COLLECTOR)
  {
    hide Lit, Field, Get, Equals, PyEqual, Spelling, StrField;
    FieldIs(evidence, "collectorVersion");
    FieldIs(m, "collectorVersion");
    FieldValid(evidence, "collectorVersion");
    FieldValid(m, "collectorVersion");
    EqualsIs(w, Field(evidence, "collectorVersion"), Field(m, "collectorVersion"));
    SpellingIs(w, evidence, "collectorBuildDigest");
    SpellingIs(w, m, "collectorBuildDigest");
    SpellingIs(w, m, "collectorVersion");
  }

  lemma CollectorRefused(w: World, m: seq<Entry>, evidence: seq<Entry>, check: CollectorCheck)
    requires Valid(Obj(m)) && Valid(Obj(evidence)) && !CollectorPasses(w, m, evidence, check)
    requires forall earlier :: Rank(earlier) < Rank(check) ==> CollectorPasses(w, m, evidence, earlier)
    ensures CheckCollector(w, m, evidence) == Failure(CollectorRefusal(check))
  {
    hide Lit, Field, Get, Equals, PyEqual, Spelling, StrField, Valid;
    CollectorIs(w, m, evidence);
    assert Rank(check) > 0 ==> CollectorPasses(w, m, evidence, SameVersion);
    assert Rank(check) > 1 ==> CollectorPasses(w, m, evidence, SameBuild);
    assert Rank(check) > 2 ==> CollectorPasses(w, m, evidence, SchemaReturns);
  }

  lemma CollectorAccepted(w: World, m: seq<Entry>, evidence: seq<Entry>)
    requires Valid(Obj(m)) && Valid(Obj(evidence))
    ensures CheckCollector(w, m, evidence).Success? <==> forall check :: CollectorPasses(w, m, evidence, check)
  {
    hide Lit, Field, Get, Equals, PyEqual, Spelling, StrField, Valid;
    CollectorIs(w, m, evidence);
    if forall check :: CollectorPasses(w, m, evidence, check) {
      assert CollectorPasses(w, m, evidence, SameVersion) && CollectorPasses(w, m, evidence, SameBuild);
      assert CollectorPasses(w, m, evidence, SchemaHolds);
    }
  }

  // ----- the file table

  datatype FilesCheck = IsList | PathsHash | PayloadOnly | AllDigested

  function Turn(check: FilesCheck): nat {
    match check
    case IsList => 0
    case PathsHash => 1
    case PayloadOnly => 2
    case AllDigested => 3
  }

  predicate PayloadName(n: Text) {
    n == Lit("evidence.json") || n == Lit("capability-results.json") || n == Lit("collection-log.json")
  }

  /** Every item is a dict with a path that can be a key. */
  ghost predicate Itemized(items: seq<Value>) {
    forall i :: 0 <= i < |items| ==>
      && items[i].Obj? && Present(items[i].entries, "path")
      && !Field(items[i].entries, "path").Arr? && !Field(items[i].entries, "path").Obj?
  }

  /** The item at j is the last one for the name. */
  ghost predicate LastFor(items: seq<Value>, name: Text, j: int) {
    && 0 <= j < |items| && items[j].Obj? && Field(items[j].entries, "path") == Str(name)
    && forall k :: j < k < |items| ==> !(items[k].Obj? && Field(items[k].entries, "path") == Str(name))
  }

  /** The last item for the name states digest and size of its member. */
  ghost predicate Declares(w: World, items: seq<Value>, members: map<Text, Bytes>, name: Text) {
    name in members &&
    exists j ::
      && LastFor(items, name, j)
      && Field(items[j].entries, "sha256") == Str(Lit("sha256:") + w.sha256(members[name]))
      && IsNumber(w, Field(items[j].entries, "size"), |members[name]|)
  }

  ghost predicate FilesPass(w: World, d: Documents, check: FilesCheck) {
    var files := Field(d.manifest, "files");
    match check
    case IsList => files.Arr?
    case PathsHash => files.Arr? && Itemized(files.items)
    case PayloadOnly =>
      && files.Arr?
      && (forall i :: 0 <= i < |files.items| ==>
            && files.items[i].Obj? && Field(files.items[i].entries, "path").Str?
            && PayloadName(Field(files.items[i].entries, "path").s))
      && forall n :: PayloadName(n) ==> exists j :: LastFor(files.items, n, j)
    case AllDigested =>
      && files.Arr? && (forall n :: PayloadName(n) ==> Declares(w, files.items, d.members, n))
      && Lit("integrity.json") in d.members && Lit("signatures/submission.sig") in d.members
      && Field(d.manifest, "integrityDigest")
         == Str(Lit("sha256:") + w.sha256(d.members[Lit("integrity.json")]))
      && Field(d.manifest, "signatureDigest")
         == Str(Lit("sha256:") + w.sha256(d.members[Lit("signatures/submission.sig")]))
  }

  function FilesRefusal(check: FilesCheck): State {
    match check
    case IsList => RejectedSchema
    case PathsHash => Uncaught
    case PayloadOnly => RejectedSchema
    case AllDigested => RejectedDigest
  }

  lemma ItemValid(items: seq<Value>, i: nat)
    requires Valid(Arr(items)) && i < |items|
    ensures Valid(items[i]) && (items[i].Obj? ==> UniqueKeys(items[i].entries))
  {
    assert items[i] in items;
  }

  lemma ItemizedIs(items: seq<Value>)
    requires Valid(Arr(items))
    ensures Itemized(items) <==> Listed(items)
  {
    hide Lit, Field, Get, Has, Present, Valid;
    forall i | 0 <= i < |items|
      ensures items[i].Obj? ==>
                && (Present(items[i].entries, "path") <==> Has(items[i].entries, PATH))
                && Field(items[i].entries, "path") == Get(items[i].entries, PATH)
      ensures items[i] in items
    {
      ItemValid(items, i);
      if items[i].Obj? {
        FieldIs(items[i].entries, "path");
      }
    }
  }

  lemma {:induction false} DeclarationIs(items: seq<Value>, name: Text)
    requires Valid(Arr(items)) && Listed(items)
    ensures Declaration(items, name).Some? <==> exists j :: LastFor(items, name, j)
    ensures forall j :: LastFor(items, name, j) ==>
              0 <= j < |items| && items[j].Obj? && Declaration(items, name) == Some(items[j].entries)
    decreases |items|
  {
    hide Lit, Field, Get, Has, Valid, Listed, LastFor;
    forall j
      ensures !LastFor([], name, j)
      ensures LastFor(items, name, j) ==> 0 <= j < |items| && items[j].Obj?
    {
      LastForInside(items, name, j);
    }
    if items == [] {
    } else {
      var init, last := items[..|items| - 1], items[|items| - 1];
      ListedLast(items);
      InitValid(items);
      ItemValid(items, |items| - 1);
      FieldIs(last.entries, "path");
      DeclarationIs(init, name);
      forall j
        ensures LastFor(items, name, j) <==>
                  if Get(last.entries, PATH) == Str(name) then j == |items| - 1 else LastFor(init, name, j)
      {
        LastForLast(items, name, j);
      }
      if Get(last.entries, PATH) == Str(name) {
        assert LastFor(items, name, |items| - 1);
      } else if j :| LastFor(init, name, j) {
        assert LastFor(items, name, j);
      }
      InitInside(items, name);
    }
  }

  lemma InitInside(items: seq<Value>, name: Text)
    requires items != []
    ensures forall j :: LastFor(items[..|items| - 1], name, j) ==> items[..|items| - 1][j] == items[j]
  {
  }

  lemma LastForInside(items: seq<Value>, name: Text, j: int)
    ensures !LastFor([], name, j)
    ensures LastFor(items, name, j) ==> 0 <= j < |items| && items[j].Obj?
  {
  }

  lemma InitValid(items: seq<Value>)
    requires Valid(Arr(items)) && items != []
    ensures Valid(Arr(items[..|items| - 1]))
  {
    assert forall x :: x in items[..|items| - 1] ==> x in items;
  }

  lemma LastForLast(items: seq<Value>, name: Text, j: int)
    requires items != [] && items[|items| - 1].Obj?
    ensures LastFor(items, name, j) <==>
              if Field(items[|items| - 1].entries, "path") == Str(name) then j == |items| - 1
              else LastFor(items[..|items| - 1], name, j)
  {
    hide Lit, Field;
  }

  /** `v == n` for an integer n. */
  predicate IsNumber(w: World, v: Value, n: int) {
    || v == Int(n) || (v == Bool(true) && n == 1) || (v == Bool(false) && n == 0)
    || (v.Float? && w.python.floats.whole(v.repr) == Some(n))
  }

  lemma NumberIsNumber(w: World, v: Value, n: nat)
    ensures NumberIs(w, v, n) <==> IsNumber(w, v, n)
  {
  }

  lemma DeclaresIs(w: World, items: seq<Value>, members: map<Text, Bytes>, name: Text)
    requires Valid(Arr(items)) && Listed(items) && name in members
    ensures Declares(w, items, members, name) <==> DeclaresMember(w, items, members, name)
  {
    hide Lit, Field, Get, Has, Valid, Listed, LastFor, IsNumber, NumberIs;
    DeclarationIs(items, name);
    forall j | LastFor(items, name, j)
      ensures 0 <= j < |items| && items[j].Obj?
      ensures Field(items[j].entries, "sha256") == Get(items[j].entries, Lit("sha256"))
      ensures IsNumber(w, Field(items[j].entries, "size"), |members[name]|)
          <==> NumberIs(w, Get(items[j].entries, Lit("size")), |members[name]|)
    {
      LastForInside(items, name, j);
      ItemValid(items, j);
      FieldIs(items[j].entries, "sha256");
      FieldIs(items[j].entries, "size");
      NumberIsNumber(w, Get(items[j].entries, Lit("size")), |members[name]|);
    }
  }

  lemma PayloadIs(n: Text)
    ensures n in PAYLOAD_FILES <==> PayloadName(n)
  {
    PayloadNames(n);
  }

  lemma PathsAre(items: seq<Value>)
    requires Valid(Arr(items)) && Listed(items)
    ensures PathsMatch(items) <==>
              && (forall i :: 0 <= i < |items| ==>
                    && items[i].Obj? && Field(items[i].entries, "path").Str?
                    && PayloadName(Field(items[i].entries, "path").s))
              && forall n :: PayloadName(n) ==> exists j :: LastFor(items, n, j)
  {
    hide Lit, Field, Get, Has, Valid, LastFor, PayloadName, Declaration;
    forall n
      ensures n in PAYLOAD_FILES <==> PayloadName(n)
      ensures Declaration(items, n).Some? <==> exists j :: LastFor(items, n, j)
    {
      PayloadIs(n);
      DeclarationIs(items, n);
    }
    forall i | 0 <= i < |items|
      ensures items[i] in items && items[i].Obj? && Field(items[i].entries, "path") == Get(items[i].entries, PATH)
    {
      ItemValid(items, i);
      FieldIs(items[i].entries, "path");
    }
  }

  lemma DigestsAre(w: World, d: Documents, items: seq<Value>)
    requires HasRequired(d.members) && Valid(Obj(d.manifest)) && Valid(Arr(items)) && Listed(items)
    ensures DigestsMatch(w, d, items) <==>
              && (forall n :: PayloadName(n) ==> Declares(w, items, d.members, n))
              && Lit("integrity.json") in d.members && Lit("signatures/submission.sig") in d.members
              && Field(d.manifest, "integrityDigest")
                 == Str(Lit("sha256:") + w.sha256(d.members[Lit("integrity.json")]))
              && Field(d.manifest, "signatureDigest")
                 == Str(Lit("sha256:") + w.sha256(d.members[Lit("signatures/submission.sig")]))
  {
    hide Lit, Field, Get, Has, Valid, Listed, PayloadName, Declaration, Declares, DeclaresMember;
    FieldValid(d.manifest, "integrityDigest");
    FieldValid(d.manifest, "signatureDigest");
    forall n
      ensures n in PAYLOAD_FILES <==> PayloadName(n)
      ensures n in d.members ==> (Declares(w, items, d.members, n) <==> DeclaresMember(w, items, d.members, n))
      ensures Declares(w, items, d.members, n) ==> n in d.members
    {
      PayloadIs(n);
      DeclaresInside(w, items, d.members, n);
      if n in d.members {
        DeclaresIs(w, items, d.members, n);
      }
    }
    RequiredThere(d.members);
  }

  lemma DeclaresInside(w: World, items: seq<Value>, members: map<Text, Bytes>, name: Text)
    ensures Declares(w, items, members, name) ==> name in members
  {
  }

  lemma RequiredThere(members: map<Text, Bytes>)
    requires HasRequired(members)
    ensures INTEGRITY in members && SIGNATURE in members && forall n :: n in PAYLOAD_FILES ==> n in members
  {
    assert REQUIRED_FILES[4] == INTEGRITY && REQUIRED_FILES[5] == SIGNATURE;
    assert PAYLOAD_FILES[0] == REQUIRED_FILES[1] && PAYLOAD_FILES[1] == REQUIRED_FILES[2];
    assert PAYLOAD_FILES[2] == REQUIRED_FILES[3];
  }

  lemma FilesAre(w: World, d: Documents)
    requires HasRequired(d.members) && Valid(Obj(d.manifest))
    ensures var files := Get(d.manifest, FILES);
            && (FilesPass(w, d, IsList) <==> files.Arr?)
            && (files.Arr? ==> (FilesPass(w, d, PathsHash) <==> Listed(files.items)))
            && (files.Arr? && Listed(files.items) ==>
                  && (FilesPass(w, d, PayloadOnly) <==> PathsMatch(files.items))
                  && (FilesPass(w, d, AllDigested) <==> DigestsMatch(w, d, files.items)))
  {
    hide Lit, Field, Get, Valid, Listed, Itemized, PathsMatch, DigestsMatch, LastFor, PayloadName, Declares;
    var files := Get(d.manifest, FILES);
    FieldValid(d.manifest, "files");
    if files.Arr? {
      ItemizedIs(files.items);
      if Listed(files.items) {
        PathsAre(files.items);
        DigestsAre(w, d, files.items);
      }
    }
  }

  lemma FilesRefused(w: World, d: Documents, check: FilesCheck)
    requires HasRequired(d.members) && Valid(Obj(d.manifest)) && !FilesPass(w, d, check)
    requires forall earlier :: Turn(earlier) < Turn(check) ==> FilesPass(w, d, earlier)
    ensures CheckFiles(w, d) == Failure(FilesRefusal(check))
  {
    hide FilesPass, Get, Valid, Listed, PathsMatch, DigestsMatch;
    FilesAre(w, d);
    assert Turn(check) > 0 ==> FilesPass(w, d, IsList);
    assert Turn(check) > 1 ==> FilesPass(w, d, PathsHash);
    assert Turn(check) > 2 ==> FilesPass(w, d, PayloadOnly);
  }

  lemma FilesAccepted(w: World, d: Documents)
    requires HasRequired(d.members) && Valid(Obj(d.manifest))
    ensures CheckFiles(w, d).Success? <==> forall check :: FilesPass(w, d, check)
  {
    hide FilesPass, Get, Valid, Listed, PathsMatch, DigestsMatch;
    FilesAre(w, d);
    if forall check :: FilesPass(w, d, check) {
      assert FilesPass(w, d, IsList) && FilesPass(w, d, PathsHash);
      assert FilesPass(w, d, PayloadOnly) && FilesPass(w, d, AllDigested);
    }
    forall check | CheckFiles(w, d).Success?
      ensures FilesPass(w, d, check)
    {
      assert check == IsList || check == PathsHash || check == PayloadOnly || check == AllDigested;
    }
  }

  // ----- the binding

  datatype BindingCheck = IsDict | NonceBound | FilesBound | Encodes | DigestStated

  function Step(check: BindingCheck): nat {
    match check
    case IsDict => 0
    case NonceBound => 1
    case FilesBound => 2
    case Encodes => 3
    case DigestStated => 4
  }

  /** `sha256_value(v)` of a value whose text can be encoded. */
  function DigestOf(w: World, v: Value): Text
    requires Scalar(CanonicalJson(v))
  {
    Lit("sha256:") + w.sha256(Utf8(CanonicalJson(v)))
  }

  ghost predicate BindingPasses(w: World, d: Documents, x: Expected, check: BindingCheck) {
    var binding := Field(d.integrity, "binding");
    binding.Obj? &&
    match check
    case IsDict => true
    case NonceBound => Field(binding.entries, "nonce") == Str(x.nonce)
    case FilesBound => Equals(w, Field(binding.entries, "files"), Field(d.manifest, "files"))
    case Encodes => Scalar(CanonicalJson(binding))
    case DigestStated =>
      && Scalar(CanonicalJson(binding))
      && Field(d.integrity, "packageDigest") == Str(DigestOf(w, binding))
      && Field(d.manifest, "packageDigest") == Str(DigestOf(w, binding))
  }

  function BindingRefusal(check: BindingCheck): State {
    match check
    case IsDict => RejectedSchema
    case NonceBound => RejectedReplay
    case FilesBound => RejectedDigest
    case Encodes => Uncaught
    case DigestStated => RejectedDigest
  }

  lemma BindingIs(w: World, d: Documents, x: Expected)
    requires Valid(Obj(d.manifest)) && Valid(Obj(d.integrity))
    ensures var binding := Get(d.integrity, BINDING);
            && (BindingPasses(w, d, x, IsDict) <==> binding.Obj?)
            && Field(d.integrity, "binding") == binding
            && (binding.Obj? ==>
                  && (BindingPasses(w, d, x, NonceBound) <==> BindsNonce(d, x))
                  && (BindingPasses(w, d, x, FilesBound) <==> BindsFiles(w, d))
                  && (BindingPasses(w, d, x, Encodes) <==> Sha256Value(w, binding).Some?)
                  && (BindingPasses(w, d, x, DigestStated) <==>
                        Sha256Value(w, binding).Some? && StatesDigest(d, Sha256Value(w, binding).value)))
  {
    hide Lit, Field, Get, Valid, PyEqual, Equals, CanonicalJson, Scalar;
    var binding := Get(d.integrity, BINDING);
    FieldValid(d.integrity, "binding");
    FieldValid(d.integrity, "packageDigest");
    FieldValid(d.manifest, "packageDigest");
    FieldValid(d.manifest, "files");
    if binding.Obj? {
      FieldValid(binding.entries, "nonce");
      FieldValid(binding.entries, "files");
      EqualsIs(w, Field(binding.entries, "files"), Field(d.manifest, "files"));
    }
  }

  lemma BindingRefused(w: World, d: Documents, x: Expected, check: BindingCheck)
    requires Valid(Obj(d.manifest)) && Valid(Obj(d.integrity)) && !BindingPasses(w, d, x, check)
    requires forall earlier :: Step(earlier) < Step(check) ==> BindingPasses(w, d, x, earlier)
    ensures CheckBinding(w, d, x) == Failure(BindingRefusal(check))
  {
    hide BindingPasses, Get, Valid, BindsNonce, BindsFiles, StatesDigest, Sha256Value;
    BindingIs(w, d, x);
    assert Step(check) > 0 ==> BindingPasses(w, d, x, IsDict);
    assert Step(check) > 1 ==> BindingPasses(w, d, x, NonceBound);
    assert Step(check) > 2 ==> BindingPasses(w, d, x, FilesBound);
    assert Step(check) > 3 ==> BindingPasses(w, d, x, Encodes);
  }

  lemma BindingAccepted(w: World, d: Documents, x: Expected)
    requires Valid(Obj(d.manifest)) && Valid(Obj(d.integrity))
    ensures CheckBinding(w, d, x).Success? <==> forall check :: BindingPasses(w, d, x, check)
    ensures CheckBinding(w, d, x).Success? ==>
              && Scalar(CanonicalJson(Field(d.integrity, "binding")))
              && CheckBinding(w, d, x).value == DigestOf(w, Field(d.integrity, "binding"))
  {
    hide BindingPasses, Get, Valid, BindsNonce, BindsFiles, StatesDigest, CanonicalJson, Scalar;
    BindingIs(w, d, x);
    if forall check :: BindingPasses(w, d, x, check) {
      assert BindingPasses(w, d, x, IsDict) && BindingPasses(w, d, x, NonceBound);
      assert BindingPasses(w, d, x, FilesBound) && BindingPasses(w, d, x, Encodes);
      assert BindingPasses(w, d, x, DigestStated);
    }
    forall check | CheckBinding(w, d, x).Success?
      ensures BindingPasses(w, d, x, check)
    {
      assert check == IsDict || check == NonceBound || check == FilesBound || check == Encodes
          || check == DigestStated;
    }
  }

  // ----- the signature

  /** The dict the signature is over, in the order it is written in. */
  function SignedBy(x: Expected, digest: Text): seq<Entry> {
    [ Entry(Lit("sessionId"), Str(x.sessionId)), Entry(Lit("submissionId"), Str(x.submissionId)),
      Entry(Lit("nonce"), Str(x.nonce)), Entry(Lit("packageDigest"), Str(digest)) ]
  }

  /** A dict of these four texts and nothing else. */
  ghost predicate SignsFour(v: Value, x: Expected, digest: Text) {
    && v.Obj? && |v.entries| == 4
    && Field(v.entries, "sessionId") == Str(x.sessionId) && Field(v.entries, "submissionId") == Str(x.submissionId)
    && Field(v.entries, "nonce") == Str(x.nonce) && Field(v.entries, "packageDigest") == Str(digest)
  }

  lemma SignedKeysDiffer()
    ensures Lit("sessionId") != Lit("submissionId") && Lit("sessionId") != Lit("nonce")
    ensures Lit("sessionId") != Lit("packageDigest") && Lit("submissionId") != Lit("nonce")
    ensures Lit("submissionId") != Lit("packageDigest") && Lit("nonce") != Lit("packageDigest")
  {
    assert |Lit("sessionId")| == 9 && |Lit("submissionId")| == 12 && |Lit("nonce")| == 5;
    assert |Lit("packageDigest")| == 13;
  }

  lemma SignedProper(x: Expected, digest: Text)
    ensures UniqueKeys(SignedBy(x, digest)) && Valid(Obj(SignedBy(x, digest)))
    ensures NoDuplicates(SignedBy(x, digest))
  {
    SignedKeysDiffer();
    hide Lit;
  }

  lemma TextField(es: seq<Entry>, name: string, t: Text)
    requires UniqueKeys(es)
    ensures Field(es, name) == Str(t) <==> Entry(Lit(name), Str(t)) in es
  {
    hide Lit;
    FieldIs(es, name);
    if Entry(Lit(name), Str(t)) in es {
      GetIs(es, Lit(name), Entry(Lit(name), Str(t)));
    }
    if Field(es, name) == Str(t) {
      assert Present(es, name);
      var i :| KeyAt(es, name, i);
      assert es[i] in es;
      GetIs(es, Lit(name), es[i]);
    }
  }

  lemma FourTexts(es: seq<Entry>, x: Expected, digest: Text)
    requires UniqueKeys(es)
    ensures SignsFour(Obj(es), x, digest) <==> |es| == 4 && forall e :: e in SignedBy(x, digest) ==> e in es
  {
    hide Lit, Field;
    TextField(es, "sessionId", x.sessionId);
    TextField(es, "submissionId", x.submissionId);
    TextField(es, "nonce", x.nonce);
    TextField(es, "packageDigest", digest);
    var four := SignedBy(x, digest);
    assert four[0] in four && four[1] in four && four[2] in four && four[3] in four;
  }

  lemma TextsMerge(a: Floats, es: seq<Entry>)
    requires forall e :: e in es ==> e.value.Str?
    ensures MergedEntries(a, es) == es
  {
    forall i | 0 <= i < |es|
      ensures MergedEntries(a, es)[i] == es[i]
    {
      assert es[i] in es;
    }
  }

  lemma SignedIs(w: World, v: Value, x: Expected, digest: Text)
    requires Valid(v)
    ensures PyEqual(w.python, v, Obj(Signed(x.sessionId, x.submissionId, x.nonce, digest))) <==>
              SignsFour(v, x, digest)
  {
    hide Lit, SignsFour, PyEqual, Same, Merged;
    var a, four := w.python.floats, SignedBy(x, digest);
    SignedProper(x, digest);
    PyEqualIs(w.python, v, Obj(four));
    TextsMerge(a, four);
    MergedIsDict(a, v);
    MergedIsDict(a, Obj(four));
    if v.Obj? {
      FourTexts(v.entries, x, digest);
      if Equal(a, v, Obj(four)) {
        SignedEntries(a, v.entries, four);
      }
      if SignsFour(v, x, digest) {
        SubsetMultiset(four, v.entries);
        FourSame(a, v.entries, four);
      }
    } else {
      NotDict(a, v, x, digest, four);
    }
  }

  lemma MergedIsDict(a: Floats, v: Value)
    ensures Merged(a, v).Obj? <==> v.Obj?
    ensures v.Obj? ==> Merged(a, v) == Obj(MergedEntries(a, v.entries))
  {
  }

  lemma NotDict(a: Floats, v: Value, x: Expected, digest: Text, es: seq<Entry>)
    requires !v.Obj?
    ensures !SignsFour(v, x, digest) && !Equal(a, v, Obj(es))
  {
    hide Lit;
  }

  lemma SignedEntries(a: Floats, es: seq<Entry>, four: seq<Entry>)
    requires Valid(Obj(es)) && Valid(Obj(four)) && Equal(a, Obj(es), Obj(four))
    requires forall e :: e in four ==> e.value.Str?
    ensures |es| == |four| && forall e :: e in four ==> e in es
  {
    TextsMerge(a, four);
    MergedValid(a, Obj(es));
    SameSymmetric(Merged(a, Obj(es)), Obj(four));
    forall e | e in four
      ensures e in es
    {
      var f := SameEntry(four, MergedEntries(a, es), e);
      var i :| 0 <= i < |es| && MergedEntries(a, es)[i] == f;
      MergedStr(a, es[i].value, e.value.s);
    }
  }

  lemma FourSame(a: Floats, es: seq<Entry>, four: seq<Entry>)
    requires multiset(es) == multiset(four) && |es| == |four| && forall e :: e in four ==> e.value.Str?
    ensures Equal(a, Obj(es), Obj(four))
  {
    forall e | e in es
      ensures e in four
    {
      assert e in multiset(es);
    }
    TextsMerge(a, es);
    TextsMerge(a, four);
  }

  datatype SignatureCheck = SignedFits | Compares | TokenSigns

  function Rung(check: SignatureCheck): nat {
    match check
    case SignedFits => 0
    case Compares => 1
    case TokenSigns => 2
  }

  ghost predicate SignaturePasses(w: World, signature: seq<Entry>, x: Expected, digest: Text, check: SignatureCheck) {
    var text := CanonicalJson(Obj(SignedBy(x, digest)));
    match check
    case SignedFits => SignsFour(Field(signature, "signed"), x, digest)
    case Compares =>
      Scalar(text) && Scalar(x.token) && forall i :: 0 <= i < |Spelling(w, signature, "signature")| ==>
        Spelling(w, signature, "signature")[i] < 128
    case TokenSigns => Scalar(text) && Spelling(w, signature, "signature") == w.mac(x.token, Utf8(text))
  }

  function SignatureRefusal(check: SignatureCheck): State {
    match check
    case SignedFits => RejectedDigest
    case Compares => Uncaught
    case TokenSigns => RejectedToken
  }

  lemma AsciiIs(t: Text)
    ensures IsAscii(t) <==> forall i :: 0 <= i < |t| ==> t[i] < 128
  {
    if IsAscii(t) {
      assert forall i :: 0 <= i < |t| ==> t[i] in t;
    }
  }

  lemma SignatureIs(w: World, signature: seq<Entry>, x: Expected, digest: Text)
    requires Valid(Obj(signature))
    ensures SignaturePasses(w, signature, x, digest, SignedFits) <==> SignsThis(w, signature, x, digest)
    ensures SignaturePasses(w, signature, x, digest, Compares) <==> Comparable(w, signature, x, digest)
    ensures SignaturePasses(w, signature, x, digest, TokenSigns) <==>
              && Scalar(SignedText(x, digest))
              && SignatureText(w, signature) == w.mac(x.token, Utf8(SignedText(x, digest)))
  {
    hide Lit, Field, Get, Spelling, StrField, Scalar, CanonicalJson, IsAscii, PyEqual, SignsFour;
    FieldValid(signature, "signed");
    ValidUnique(signature);
    SpellingIs(w, signature, "signature");
    AsciiIs(Spelling(w, signature, "signature"));
    SignedIs(w, Field(signature, "signed"), x, digest);
  }

  lemma ValidUnique(es: seq<Entry>)
    requires Valid(Obj(es))
    ensures UniqueKeys(es)
  {
  }

  lemma SignatureRefused(w: World, signature: seq<Entry>, x: Expected, digest: Text, check: SignatureCheck)
    requires Valid(Obj(signature)) && !SignaturePasses(w, signature, x, digest, check)
    requires forall earlier :: Rung(earlier) < Rung(check) ==> SignaturePasses(w, signature, x, digest, earlier)
    ensures CheckSignature(w, signature, x, digest) == Failure(SignatureRefusal(check))
  {
    hide SignaturePasses, Valid, SignsThis, SignedText, SignatureText, IsAscii;
    SignatureIs(w, signature, x, digest);
    assert Rung(check) > 0 ==> SignaturePasses(w, signature, x, digest, SignedFits);
    assert Rung(check) > 1 ==> SignaturePasses(w, signature, x, digest, Compares);
  }

  lemma SignatureAccepted(w: World, signature: seq<Entry>, x: Expected, digest: Text)
    requires Valid(Obj(signature))
    ensures CheckSignature(w, signature, x, digest).Success? <==>
              forall check :: SignaturePasses(w, signature, x, digest, check)
  {
    hide SignaturePasses, Valid, SignsThis, SignedText, SignatureText, IsAscii;
    SignatureIs(w, signature, x, digest);
    if forall check :: SignaturePasses(w, signature, x, digest, check) {
      assert SignaturePasses(w, signature, x, digest, SignedFits);
      assert SignaturePasses(w, signature, x, digest, Compares);
      assert SignaturePasses(w, signature, x, digest, TokenSigns);
    }
    forall check | CheckSignature(w, signature, x, digest).Success?
      ensures SignaturePasses(w, signature, x, digest, check)
    {
      assert check == SignedFits || check == Compares || check == TokenSigns;
    }
  }

  // ----- the capability results and the scan

  const TERMINAL: seq<string> := [
    "COLLECTED", "COLLECTED_PARTIAL", "NOT_SUPPORTED", "NOT_COLLECTED_PRIVILEGE_REQUIRED",
    "NOT_COLLECTED_POLICY_BLOCKED", "NOT_COLLECTED_TIMEOUT", "NOT_COLLECTED_ACCESS_DENIED", "NOT_COLLECTED_ERROR"
  ]

  /** The spelling of a result's ID. */
  ghost function IdOf(w: World, x: Value): Text {
    if x.Obj? then Spelling(w, x.entries, "capabilityId") else []
  }

  /** The result has an ID that no earlier one has. */
  ghost predicate Fresh(w: World, results: seq<Value>, i: nat)
    requires i < |results|
  {
    IdOf(w, results[i]) != [] && forall j :: 0 <= j < i ==> IdOf(w, results[j]) != IdOf(w, results[i])
  }

  ghost predicate Terminal(x: Value) {
    && x.Obj? && Field(x.entries, "status").Str?
    && exists n :: 0 <= n < 8 && Field(x.entries, "status").s == Lit(TERMINAL[n])
  }

  ghost predicate Odd(x: Value) { x.Obj? && (Field(x.entries, "status").Arr? || Field(x.entries, "status").Obj?) }

  ghost predicate ResultsGood(w: World, results: seq<Value>) {
    forall i :: 0 <= i < |results| ==> Fresh(w, results, i) && Terminal(results[i])
  }

  /** The first result that is not good has a new ID and a status that cannot be looked up. */
  ghost predicate ResultsOdd(w: World, results: seq<Value>) {
    exists i ::
      && 0 <= i < |results|
      && (forall j :: 0 <= j < i ==> Fresh(w, results, j) && Terminal(results[j]))
      && Fresh(w, results, i) && Odd(results[i])
  }

  lemma ResultIs(w: World, x: Value)
    requires Valid(x)
    ensures IdOf(w, x) == CapabilityId(w, x)
    ensures Terminal(x) <==> TerminalStatus(x)
    ensures x.Obj? ==> (Odd(x) <==> !Hashable(Status(x)))
  {
    hide Lit, Field, Get, Spelling, StrField;
    if x.Obj? {
      SpellingIs(w, x.entries, "capabilityId");
      FieldValid(x.entries, "status");
      forall n | 0 <= n < 8
        ensures STATUSES[n] == Lit(TERMINAL[n]) && STATUSES[n] in STATUSES
      {
      }
      if TerminalStatus(x) {
        var n :| 0 <= n < 8 && STATUSES[n] == Status(x).s;
      }
    }
  }

  lemma ResultsAre(w: World, results: seq<Value>)
    requires Valid(Arr(results)) && forall x :: x in results ==> x.Obj?
    ensures ResultsGood(w, results) <==> GoodResults(w, results)
    ensures ResultsOdd(w, results) <==> ResultsRaise(w, results)
  {
    hide IdOf, CapabilityId, Terminal, TerminalStatus, Odd, Status, Hashable;
    forall i | 0 <= i < |results|
      ensures IdOf(w, results[i]) == CapabilityId(w, results[i])
      ensures Terminal(results[i]) <==> TerminalStatus(results[i])
      ensures Odd(results[i]) <==> !Hashable(Status(results[i]))
    {
      assert results[i] in results;
      ResultIs(w, results[i]);
    }
    forall i | 0 <= i < |results|
      ensures Fresh(w, results, i) <==> NamedOnce(w, results, i)
    {
    }
    hide Fresh, NamedOnce;
    if ResultsRaise(w, results) {
      var i :| 0 <= i < |results| && (forall j :: 0 <= j < i ==> NamedOnce(w, results, j) && TerminalStatus(results[j]))
               && NamedOnce(w, results, i) && !Hashable(Status(results[i]));
      assert Fresh(w, results, i) && Odd(results[i]);
    }
    if ResultsOdd(w, results) {
      var i :| 0 <= i < |results| && (forall j :: 0 <= j < i ==> Fresh(w, results, j) && Terminal(results[j]))
               && Fresh(w, results, i) && Odd(results[i]);
      assert NamedOnce(w, results, i) && !Hashable(Status(results[i]));
    }
  }

  /** The results decide, and the scanner after them. */
  lemma ContentIs(w: World, d: Documents)
    requires ProperDocuments(d)
    ensures CheckContent(w, d)
            == if ResultsGood(w, d.capabilities) then
                (if w.scanClean(Obj(d.evidence)) && w.scanClean(Arr(d.capabilities)) && w.scanClean(Obj(d.log))
                 then Success(()) else Failure(RejectedSensitiveData))
              else if ResultsOdd(w, d.capabilities) then Failure(Uncaught)
              else Failure(RejectedSchema)
  {
    hide ResultsGood, ResultsOdd, GoodResults, ResultsRaise, Valid;
    ResultsAre(w, d.capabilities);
  }

  // ----- all checks on the documents

  datatype Check =
    | OfManifest(manifest: ManifestCheck)
    | OfCollector(collector: CollectorCheck)
    | OfFiles(files: FilesCheck)
    | OfBinding(binding: BindingCheck)
    | OfSignature(signature: SignatureCheck)
    | OfResults
    | OfScan

  function Order(check: Check): nat {
    match check
    case OfManifest(c) => Place(c)
    case OfCollector(c) => 5 + Rank(c)
    case OfFiles(c) => 9 + Turn(c)
    case OfBinding(c) => 13 + Step(c)
    case OfSignature(c) => 18 + Rung(c)
    case OfResults => 21
    case OfScan => 22
  }

  ghost predicate Passes(w: World, d: Documents, x: Expected, check: Check) {
    match check
    case OfManifest(c) => ManifestPasses(d.manifest, x, c)
    case OfCollector(c) => CollectorPasses(w, d.manifest, d.evidence, c)
    case OfFiles(c) => FilesPass(w, d, c)
    case OfBinding(c) => BindingPasses(w, d, x, c)
    case OfSignature(c) =>
      && Scalar(CanonicalJson(Field(d.integrity, "binding")))
      && SignaturePasses(w, d.signature, x, DigestOf(w, Field(d.integrity, "binding")), c)
    case OfResults => ResultsGood(w, d.capabilities)
    case OfScan => w.scanClean(Obj(d.evidence)) && w.scanClean(Arr(d.capabilities)) && w.scanClean(Obj(d.log))
  }

  ghost function Refusal(w: World, d: Documents, check: Check): State {
    match check
    case OfManifest(c) => ManifestRefusal(c)
    case OfCollector(c) => CollectorRefusal(c)
    case OfFiles(c) => FilesRefusal(c)
    case OfBinding(c) => BindingRefusal(c)
    case OfSignature(c) => SignatureRefusal(c)
    case OfResults => if ResultsOdd(w, d.capabilities) then Uncaught else RejectedSchema
    case OfScan => RejectedSensitiveData
  }

  ghost predicate Reaches(w: World, d: Documents, x: Expected, check: Check) {
    forall earlier :: Order(earlier) < Order(check) ==> Passes(w, d, x, earlier)
  }

  /** The groups before the one a check is in have passed. */
  lemma GroupsPass(w: World, d: Documents, x: Expected, check: Check)
    requires HasRequired(d.members) && ProperDocuments(d) && Reaches(w, d, x, check)
    ensures Order(check) >= 5 ==> CheckManifest(d.manifest, x).Success?
    ensures Order(check) >= 9 ==> CheckCollector(w, d.manifest, d.evidence).Success?
    ensures Order(check) >= 13 ==> CheckFiles(w, d).Success?
    ensures Order(check) >= 18 ==>
              && CheckBinding(w, d, x).Success? && Scalar(CanonicalJson(Field(d.integrity, "binding")))
              && CheckBinding(w, d, x).value == DigestOf(w, Field(d.integrity, "binding"))
    ensures Order(check) >= 21 ==> CheckSignature(w, d.signature, x, CheckBinding(w, d, x).value).Success?
  {
    hide CheckManifest, CheckCollector, CheckFiles, CheckBinding, CheckSignature, Scalar, CanonicalJson;
    hide ManifestPasses, CollectorPasses, FilesPass, BindingPasses, SignaturePasses, ResultsGood, Field, DigestOf;
    ManifestAccepted(d.manifest, x);
    CollectorAccepted(w, d.manifest, d.evidence);
    FilesAccepted(w, d);
    BindingAccepted(w, d, x);
    forall c: ManifestCheck | Order(check) >= 5
      ensures ManifestPasses(d.manifest, x, c)
    {
      assert Passes(w, d, x, OfManifest(c));
    }
    forall c: CollectorCheck | Order(check) >= 9
      ensures CollectorPasses(w, d.manifest, d.evidence, c)
    {
      assert Passes(w, d, x, OfCollector(c));
    }
    forall c: FilesCheck | Order(check) >= 13
      ensures FilesPass(w, d, c)
    {
      assert Passes(w, d, x, OfFiles(c));
    }
    forall c: BindingCheck | Order(check) >= 18
      ensures BindingPasses(w, d, x, c)
    {
      assert Passes(w, d, x, OfBinding(c));
    }
    if Order(check) >= 21 {
      SignatureAccepted(w, d.signature, x, CheckBinding(w, d, x).value);
      forall c: SignatureCheck
        ensures SignaturePasses(w, d.signature, x, CheckBinding(w, d, x).value, c)
      {
        assert Passes(w, d, x, OfSignature(c));
      }
    }
  }

  /** The first check that the documents fail decides the answer. */
  lemma DocumentsRefused(w: World, d: Documents, x: Expected, check: Check)
    requires HasRequired(d.members) && ProperDocuments(d) && Reaches(w, d, x, check) && !Passes(w, d, x, check)
    ensures CheckDocuments(w, d, x) == Failure(Refusal(w, d, check))
  {
    hide CheckManifest, CheckCollector, CheckFiles, CheckBinding, CheckSignature, CheckContent, Scalar, CanonicalJson;
    hide ManifestPasses, CollectorPasses, FilesPass, BindingPasses, SignaturePasses, ResultsGood, ResultsOdd;
    hide Field, DigestOf;
    GroupsPass(w, d, x, check);
    match check
    case OfManifest(c) =>
      assert forall b: ManifestCheck :: Place(b) < Place(c) ==> Passes(w, d, x, OfManifest(b));
      ManifestRefused(d.manifest, x, c);
    case OfCollector(c) =>
      assert forall b: CollectorCheck :: Rank(b) < Rank(c) ==> Passes(w, d, x, OfCollector(b));
      CollectorRefused(w, d.manifest, d.evidence, c);
    case OfFiles(c) =>
      assert forall b: FilesCheck :: Turn(b) < Turn(c) ==> Passes(w, d, x, OfFiles(b));
      FilesRefused(w, d, c);
    case OfBinding(c) =>
      assert forall b: BindingCheck :: Step(b) < Step(c) ==> Passes(w, d, x, OfBinding(b));
      BindingRefused(w, d, x, c);
    case OfSignature(c) =>
      assert forall b: SignatureCheck :: Rung(b) < Rung(c) ==> Passes(w, d, x, OfSignature(b));
      SignatureRefused(w, d.signature, x, CheckBinding(w, d, x).value, c);
    case OfResults => ContentIs(w, d);
    case OfScan =>
      assert Passes(w, d, x, OfResults);
      ContentIs(w, d);
  }

  /** Documents that pass all checks are accepted under the digest of their binding. */
  lemma DocumentsAccepted(w: World, d: Documents, x: Expected)
    requires HasRequired(d.members) && ProperDocuments(d) && forall check :: Passes(w, d, x, check)
    ensures Scalar(CanonicalJson(Field(d.integrity, "binding")))
    ensures CheckDocuments(w, d, x) == Success(Validated(
              manifest := d.manifest, evidence := d.evidence, capabilities := d.capabilities, log := d.log,
              packageDigest := DigestOf(w, Field(d.integrity, "binding"))))
  {
    hide CheckManifest, CheckCollector, CheckFiles, CheckBinding, CheckSignature, CheckContent, Scalar, CanonicalJson;
    hide ManifestPasses, CollectorPasses, FilesPass, BindingPasses, SignaturePasses, ResultsGood, ResultsOdd;
    hide Field, DigestOf;
    GroupsPass(w, d, x, OfScan);
    assert Passes(w, d, x, OfResults) && Passes(w, d, x, OfScan);
    ContentIs(w, d);
  }

  lemma {:induction false} FirstFailing(w: World, d: Documents, x: Expected, check: Check) returns (first: Check)
    requires !Passes(w, d, x, check)
    ensures Reaches(w, d, x, first) && !Passes(w, d, x, first)
    decreases Order(check)
  {
    hide Passes;
    if earlier :| Order(earlier) < Order(check) && !Passes(w, d, x, earlier) {
      first := FirstFailing(w, d, x, earlier);
    } else {
      first := check;
    }
  }

  lemma ReadingProper(w: World, limits: Limits, archive: Archive)
    ensures Reading(w, limits, archive).Success? ==>
              && HasRequired(Reading(w, limits, archive).value.members)
              && ProperDocuments(Reading(w, limits, archive).value)
  {
    hide ParseCanonical, Members, Valid;
    if Reading(w, limits, archive).Success? {
      var members := Members(limits, archive).value;
      ParseCanonicalValid(w, members[MANIFEST]);
      ParseCanonicalValid(w, members[EVIDENCE]);
      ParseCanonicalValid(w, members[CAPABILITIES]);
      ParseCanonicalValid(w, members[COLLECTION_LOG]);
      ParseCanonicalValid(w, members[INTEGRITY]);
      ParseCanonicalValid(w, members[SIGNATURE]);
    }
  }

  /** An archive whose documents can be read is accepted exactly when they pass all checks. */
  lemma PackageExact(w: World, limits: Limits, archive: Archive, x: Expected)
    requires Reading(w, limits, archive).Success?
    ensures Validate(w, limits, archive, x).Success? <==>
              forall check :: Passes(w, Reading(w, limits, archive).value, x, check)
  {
    hide Reading, CheckDocuments, Passes, ProperDocuments, HasRequired, Scalar, CanonicalJson, Field;
    ReadingProper(w, limits, archive);
    var d := Reading(w, limits, archive).value;
    if check :| !Passes(w, d, x, check) {
      var first := FirstFailing(w, d, x, check);
      DocumentsRefused(w, d, x, first);
    } else {
      DocumentsAccepted(w, d, x);
    }
  }

  /** ... and otherwise answered as its first failing check says. */
  lemma PackageRefused(w: World, limits: Limits, archive: Archive, x: Expected, check: Check)
    requires Reading(w, limits, archive).Success?
    requires Reaches(w, Reading(w, limits, archive).value, x, check)
    requires !Passes(w, Reading(w, limits, archive).value, x, check)
    ensures Validate(w, limits, archive, x) == Failure(Refusal(w, Reading(w, limits, archive).value, check))
  {
    hide Reading, CheckDocuments, Passes, ProperDocuments, HasRequired, Reaches, Refusal;
    ReadingProper(w, limits, archive);
    DocumentsRefused(w, Reading(w, limits, archive).value, x, check);
  }

  /** What a caller holds after acceptance: a manifest made for this session, submission and profile by
      a standard user, under a nonce that the digest covers and the token signs, and results each in
      one of eight states. */
  lemma AcceptedFields(w: World, limits: Limits, archive: Archive, x: Expected)
    requires Validate(w, limits, archive, x).Success?
    ensures var v := Validate(w, limits, archive, x).value;
            && Field(v.manifest, "schemaVersion") == Str(Lit("5.0"))
            && Field(v.manifest, "assessmentId") == Str(x.assessmentId)
            && Field(v.manifest, "sessionId") == Str(x.sessionId)
            && Field(v.manifest, "submissionId") == Str(x.submissionId)
            && Field(v.manifest, "collectionProfileDigest") == Str(x.profileDigest)
            && (Field(v.manifest, "privilegeContext") == Str(Lit("STANDARD_USER"))
                || Field(v.manifest, "privilegeContext") == Str(Lit("ADMIN_MEMBER_NOT_ELEVATED")))
            && Field(v.manifest, "packageDigest") == Str(v.packageDigest)
            && forall i :: 0 <= i < |v.capabilities| ==>
                 && v.capabilities[i].Obj? && Field(v.capabilities[i].entries, "status").Str?
                 && exists n :: 0 <= n < 8 && Field(v.capabilities[i].entries, "status").s == Lit(TERMINAL[n])
    ensures Reading(w, limits, archive).Success?
    ensures var d, v := Reading(w, limits, archive).value, Validate(w, limits, archive, x).value;
            && Field(d.integrity, "binding").Obj?
            && Field(Field(d.integrity, "binding").entries, "nonce") == Str(x.nonce)
            && SignsFour(Field(d.signature, "signed"), x, v.packageDigest)
  {
    hide Field, Lit, Reading, CheckDocuments, Scalar, CanonicalJson, SignsFour, ProperDocuments, HasRequired;
    hide Passes, DigestOf;
    PackageExact(w, limits, archive, x);
    ReadingProper(w, limits, archive);
    var d := Reading(w, limits, archive).value;
    DocumentsAccepted(w, d, x);
    PassedManifest(w, d, x);
    PassedBinding(w, d, x);
    PassedResults(w, d, x);
  }

  lemma PassedManifest(w: World, d: Documents, x: Expected)
    requires forall check :: Passes(w, d, x, check)
    ensures Field(d.manifest, "schemaVersion") == Str(Lit("5.0"))
    ensures Field(d.manifest, "assessmentId") == Str(x.assessmentId)
    ensures Field(d.manifest, "sessionId") == Str(x.sessionId)
    ensures Field(d.manifest, "submissionId") == Str(x.submissionId)
    ensures Field(d.manifest, "collectionProfileDigest") == Str(x.profileDigest)
    ensures Field(d.manifest, "privilegeContext") == Str(Lit("STANDARD_USER"))
            || Field(d.manifest, "privilegeContext") == Str(Lit("ADMIN_MEMBER_NOT_ELEVATED"))
  {
    hide Field, Lit;
    assert Passes(w, d, x, OfManifest(Complete)) && Passes(w, d, x, OfManifest(Named));
    assert Passes(w, d, x, OfManifest(Profiled)) && Passes(w, d, x, OfManifest(PrivilegeKnown));
  }

  lemma PassedBinding(w: World, d: Documents, x: Expected)
    requires forall check :: Passes(w, d, x, check)
    ensures Field(d.integrity, "binding").Obj? && Scalar(CanonicalJson(Field(d.integrity, "binding")))
    ensures Field(Field(d.integrity, "binding").entries, "nonce") == Str(x.nonce)
    ensures Field(d.manifest, "packageDigest") == Str(DigestOf(w, Field(d.integrity, "binding")))
    ensures SignsFour(Field(d.signature, "signed"), x, DigestOf(w, Field(d.integrity, "binding")))
  {
    hide Field, Lit, DigestOf, Scalar, CanonicalJson, SignsFour;
    assert Passes(w, d, x, OfBinding(NonceBound)) && Passes(w, d, x, OfBinding(DigestStated));
    assert Passes(w, d, x, OfSignature(SignedFits));
  }

  lemma PassedResults(w: World, d: Documents, x: Expected)
    requires forall check :: Passes(w, d, x, check)
    ensures forall i :: 0 <= i < |d.capabilities| ==> Terminal(d.capabilities[i])
  {
    hide Field, Lit, Terminal, Fresh;
    assert Passes(w, d, x, OfResults);
  }

  /** Documents that are complete and name the session, but were collected under another profile, come
      from an untrusted collector. */
  lemma OtherProfileRefused(w: World, limits: Limits, archive: Archive, x: Expected)
    requires Reading(w, limits, archive).Success?
    requires var m := Reading(w, limits, archive).value.manifest;
             && (forall n :: 0 <= n < 14 ==> Present(m, MANIFEST_FIELDS[n]))
             && Field(m, "schemaVersion") == Str(Lit("5.0"))
             && Field(m, "assessmentId") == Str(x.assessmentId) && Field(m, "sessionId") == Str(x.sessionId)
             && Field(m, "submissionId") == Str(x.submissionId)
             && Field(m, "collectionProfileDigest") != Str(x.profileDigest)
    ensures Validate(w, limits, archive, x) == Failure(RejectedUntrustedCollector)
  {
    hide Field, Lit, Reading, Present, Validate;
    var d := Reading(w, limits, archive).value;
    forall earlier | Order(earlier) < Order(OfManifest(Profiled))
      ensures Passes(w, d, x, earlier)
    {
      assert earlier == OfManifest(Complete) || earlier == OfManifest(Named);
    }
    PackageRefused(w, limits, archive, x, OfManifest(Profiled));
  }
}
