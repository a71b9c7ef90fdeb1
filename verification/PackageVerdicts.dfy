/**
 The package validator as the submission protocol meets it: its answers as verdicts, and which
 uploads it leaves in quarantine.
 */
module PackageVerdicts {
  import opened Wrappers
  import opened Unicode
  import opened Fields
  import opened PythonValues
  import opened Package
  import opened PackageMeaning
  import opened PackageRules
  import opened Json
  import Submissions
  import SubmissionSafety

  /** The defaults of the validator's constructor. */
  const MAXIMUM_UNCOMPRESSED: nat := 104857600
  const MAXIMUM_FILES: nat := 8

  function LimitsFor(x: Submissions.Expectation): Limits {
    Limits(x.maximumPackageSize, MAXIMUM_UNCOMPRESSED, MAXIMUM_FILES)
  }

  function ExpectedFor(assessmentId: Text, x: Submissions.Expectation): Expected {
    Expected(assessmentId, x.sessionId, x.submissionId, x.nonce, x.profileDigest, x.token)
  }

  /** `_submission_state`. */
  function Rejection(state: State): Submissions.RejectedState
    requires !state.Uncaught?
  {
    match state
    case RejectedPackageLimit => Submissions.RejectedPackageLimit
    case RejectedArchiveSafety => Submissions.RejectedArchiveSafety
    case RejectedSchema => Submissions.RejectedSchema
    case RejectedToken => Submissions.RejectedToken
    case RejectedUntrustedCollector => Submissions.RejectedUntrustedCollector
    case RejectedDigest => Submissions.RejectedDigest
    case RejectedReplay => Submissions.RejectedReplay
    case RejectedSensitiveData => Submissions.RejectedSensitiveData
  }

  /** What the request makes of the answer up to the look-up of the build among the trusted ones,
      which raises for a list or a dict and finds nothing but text. */
  function Ruled(w: World, r: Result<Validated, State>): Submissions.Verdict {
    match r
    case Failure(state) => if state.Uncaught? then Submissions.Crashed else Submissions.Refused(Rejection(state))
    case Success(v) =>
      var build := Get(v.manifest, BUILD);
      if !Hashable(build) then Submissions.Crashed
      else if !build.Str? then Submissions.Refused(Submissions.RejectedUntrustedCollector)
      else
        Submissions.Validated(Submissions.Facts(
          v.packageDigest, build.s, StrField(w, v.manifest, Lit("collectionProfileDigest")),
          StrField(w, v.manifest, Lit("deviceId"))))
  }

  function Answer(w: World, unzip: Bytes -> Archive, assessmentId: Text, archive: Bytes, x: Submissions.Expectation)
    : Result<Validated, State>
  {
    Validate(w, LimitsFor(x), unzip(archive), ExpectedFor(assessmentId, x))
  }

  /** The protocol's validator is this one; unzip tells what the ZIP reader makes of the bytes. */
  ghost predicate Uses(f: Submissions.Fixed, w: World, unzip: Bytes -> Archive) {
    forall archive, x {:trigger f.validate(archive, x)} ::
      f.validate(archive, x) == Ruled(w, Answer(w, unzip, f.assessmentId, archive, x))
  }

  /** The package is rejected by none of the validator's checks, and its build cannot be looked
      up. */
  predicate OddBuild(r: Result<Validated, State>) { r.Success? && !Hashable(Get(r.value.manifest, BUILD)) }

  /** An upload stays in quarantine exactly when it is staged and the validator raises something
      that is not a package error, or its answer cannot be looked up; what makes the validator
      do so is stated by UncaughtExactly. */
  lemma StrandsExactly(f: Submissions.Fixed, w: World, unzip: Bytes -> Archive, c: Submissions.Console,
                       r: Submissions.Upload)
    requires Uses(f, w, unzip) && r.sessionId in c.sessions
    ensures var x := Submissions.Expected(c.sessions[r.sessionId], r.sessionId, r.submissionId, r.token, r.nonce);
            var answer := Answer(w, unzip, f.assessmentId, r.archive, x);
            SubmissionSafety.Strands(f, c, r) <==>
              Submissions.Turned(f, c, r).None? && (answer == Failure(Uncaught) || OddBuild(answer))
  {
    hide Validate, Submissions.Turned, Get, StrField;
  }

  /** The answer is asked for with the session's size limit, 100 MiB and eight files, and read by name; an
      accepted package passes on its digest, build, profile and device, if its build can be looked up and
      is text. */
  lemma VerdictExact(f: Submissions.Fixed, w: World, unzip: Bytes -> Archive, archive: Bytes,
                     x: Submissions.Expectation)
    requires Uses(f, w, unzip)
    ensures var limits := Limits(x.maximumPackageSize, 100 * 1024 * 1024, 8);
            var expected := Expected(
              assessmentId := f.assessmentId, sessionId := x.sessionId, submissionId := x.submissionId,
              nonce := x.nonce, profileDigest := x.profileDigest, token := x.token);
            match Validate(w, limits, unzip(archive), expected)
            case Failure(state) => f.validate(archive, x) == VerdictOf(state)
            case Success(v) =>
              var build := Field(v.manifest, "collectorBuildDigest");
              f.validate(archive, x)
              == if build.Arr? || build.Obj? then Submissions.Crashed
                 else if !build.Str? then Submissions.Refused(Submissions.RejectedUntrustedCollector)
                 else Submissions.Validated(Submissions.Facts(
                   packageDigest := v.packageDigest, build := build.s,
                   profile := Spelling(w, v.manifest, "collectionProfileDigest"),
                   deviceId := Spelling(w, v.manifest, "deviceId")))
  {
    hide Validate, Field, Lit, Get, StrField, Spelling;
    var r := Answer(w, unzip, f.assessmentId, archive, x);
    if r.Success? {
      ManifestUnique(w, LimitsFor(x), unzip(archive), ExpectedFor(f.assessmentId, x));
      FieldIs(r.value.manifest, "collectorBuildDigest");
      SpellingIs(w, r.value.manifest, "collectionProfileDigest");
      SpellingIs(w, r.value.manifest, "deviceId");
    }
  }

  function VerdictOf(state: State): Submissions.Verdict {
    match state
    case Uncaught => Submissions.Crashed
    case RejectedPackageLimit => Submissions.Refused(Submissions.RejectedPackageLimit)
    case RejectedArchiveSafety => Submissions.Refused(Submissions.RejectedArchiveSafety)
    case RejectedSchema => Submissions.Refused(Submissions.RejectedSchema)
    case RejectedToken => Submissions.Refused(Submissions.RejectedToken)
    case RejectedUntrustedCollector => Submissions.Refused(Submissions.RejectedUntrustedCollector)
    case RejectedDigest => Submissions.Refused(Submissions.RejectedDigest)
    case RejectedReplay => Submissions.Refused(Submissions.RejectedReplay)
    case RejectedSensitiveData => Submissions.Refused(Submissions.RejectedSensitiveData)
  }

  lemma ManifestUnique(w: World, limits: Limits, archive: Archive, x: Expected)
    requires Validate(w, limits, archive, x).Success?
    ensures UniqueKeys(Validate(w, limits, archive, x).value.manifest)
  {
    hide CheckDocuments, Reading, Passes, HasRequired;
    ReadingProper(w, limits, archive);
    PackageExact(w, limits, archive, x);
    DocumentsAccepted(w, Reading(w, limits, archive).value, x);
  }

  /** One such run: an upload whose archive has a member with a wrong checksum is staged, and
      its file stays. */
  lemma DamagedUploadStays(f: Submissions.Fixed, w: World, unzip: Bytes -> Archive, id: Text, submissionId: Text,
                           token: Text, source: Text, archive: Bytes)
    requires Uses(f, w, unzip) && f.inScope(id, source) && unzip(archive) == DamagedPackage(|archive|)
    ensures SubmissionSafety.LeavesOnly(
              f, SubmissionSafety.ShortRun(f, id, submissionId, token, source, archive), submissionId, archive)
  {
    hide Validate, DamagedPackage, SubmissionSafety.LeavesOnly, SubmissionSafety.ShortRun;
    var x := Submissions.Expectation(token, id, submissionId, [1], [], |archive|);
    DamagedPackageRaises(w, LimitsFor(x), |archive|, ExpectedFor(f.assessmentId, x));
    assert f.validate(archive, x).Crashed?;
    SubmissionSafety.ShortRunStrands(f, id, submissionId, token, source, archive);
  }
}
