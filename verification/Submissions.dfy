/**
 The submission protocol of one assessment: sessions and their tokens, nonces, grants, the
 accepted index and the accepted and quarantined files. Each request is one step. Clock
 readings, random values, the package validator and the network scope are parameters.
 */
module Submissions {
  import opened Wrappers
  import opened Ordering
  import opened Unicode
  import opened TrustedGrants
  import GrantRuns

  datatype SessionStatus = Draft | Open | Paused | Closed | Archived

  datatype RejectedState =
    | RejectedExpired | RejectedUnauthorizedSource | RejectedToken | RejectedReplay
    | RejectedPackageLimit | RejectedArchiveSafety | RejectedDigest | RejectedSchema
    | RejectedSensitiveData | RejectedUntrustedCollector

  datatype Session = Session(
    status: SessionStatus,
    expiresAt: real,
    tokenId: Text,
    tokenHash: Text,
    tokenExpiresAt: real,
    maxUses: nat,
    allowedSubmissions: nat,
    uses: nat,
    profileDigest: Text,
    maximumPackageSize: nat,
    envelopeRequired: bool,
    trustedBuilds: set<Text>
  ) {
    function Limit(): nat { if maxUses <= allowedSubmissions then maxUses else allowedSubmissions }
  }

  datatype Nonce = Nonce(sessionId: Text, submissionId: Text, value: Text, expiresAt: real, source: Text, used: bool)

  const HTTPS := Lit("HTTPS")
  const OFFLINE := Lit("OFFLINE_ENCRYPTED")

  datatype Item = Item(
    sessionId: Text, submissionId: Text, deviceId: Text, packageDigest: Text, transport: Text, processingState: Text
  )

  /** What the acceptance paths use of a validated package. */
  datatype Facts = Facts(packageDigest: Text, build: Text, profile: Text, deviceId: Text)

  /** Crashed: the validator, or the look-up of the build right after it, raises something that
      is not a package error. */
  datatype Verdict = Validated(facts: Facts) | Refused(state: RejectedState) | Crashed

  /** The functions the requests call: the digest, whether a session's network scope admits an
      address, and the package validator. */
  datatype Fixed = Fixed(
    digest: Digest,
    assessmentId: Text,
    inScope: (Text, Text) -> bool,
    validate: (Bytes, Expectation) -> Verdict
  )

  datatype Expectation = Expectation(
    token: Text, sessionId: Text, submissionId: Text, nonce: Text, profileDigest: Text, maximumPackageSize: nat
  )

  function Expected(s: Session, sessionId: Text, submissionId: Text, token: Text, nonce: Text): Expectation {
    Expectation(token, sessionId, submissionId, nonce, s.profileDigest, s.maximumPackageSize)
  }

  datatype Console = Console(
    sessions: map<Text, Session>,
    grants: map<Text, GrantRuns.World>,
    nonces: map<Text, Nonce>,
    index: seq<Item>,
    accepted: map<Text, Bytes>,
    quarantine: map<Text, Bytes>,
    rejected: map<Text, RejectedState>
  )

  const EMPTY_CONSOLE := Console(map[], map[], map[], [], map[], map[], map[])

  datatype Outcome = Done | Rejected(state: RejectedState) | Raised

  datatype Reply = Reply(console: Console, outcome: Outcome)

  // ----- sessions

  predicate Transition(from: SessionStatus, to: SessionStatus) {
    match from
    case Open => to == Paused || to == Closed
    case Paused => to == Open || to == Closed
    case Closed => to == Archived
    case _ => false
  }

  function OpenSession(c: Console, id: Text, s: Session): Reply {
    if id in c.sessions then Reply(c, Raised)
    else Reply(c.(sessions := c.sessions[id := s.(status := Open, uses := 0)]), Done)
  }

  function SetStatus(c: Console, id: Text, status: SessionStatus): Reply {
    if id !in c.sessions || !Transition(c.sessions[id].status, status) then Reply(c, Raised)
    else Reply(c.(sessions := c.sessions[id := c.sessions[id].(status := status)]), Done)
  }

  /** `trust_collector_build`, and the session write of grant issuance and reconciliation
      when required is set; an empty build adds nothing. */
  function TrustBuild(c: Console, id: Text, build: Text, required: bool): Reply {
    if id !in c.sessions then Reply(c, Raised)
    else
      var s := c.sessions[id];
      var builds := if build == [] && required then s.trustedBuilds else s.trustedBuilds + {build};
      var updated := s.(trustedBuilds := builds, envelopeRequired := s.envelopeRequired || required);
      Reply(c.(sessions := c.sessions[id := updated]), Done)
  }

  /** `_verify_token_contract`. */
  predicate TokenHolds(f: Fixed, s: Session, token: Text, now: real) {
    && now < s.tokenExpiresAt && s.uses < s.Limit()
    && BeforeDot(token) == s.tokenId && f.digest(token) == s.tokenHash
  }

  // ----- grants of a session

  function GrantWorld(c: Console, id: Text): GrantRuns.World {
    if id in c.grants then c.grants[id] else GrantRuns.START
  }

  /** `TrustedGrantStore.required`. */
  predicate EnvelopeRequired(c: Console, id: Text) {
    (id in c.sessions && c.sessions[id].envelopeRequired) || GrantWorld(c, id).db.onDisk
  }

  function GrantFixed(f: Fixed, id: Text): GrantRuns.Fixed {
    GrantRuns.Fixed(f.digest, SessionKey(f.assessmentId, id))
  }

  /** One grant transaction; consumption only happens inside the requests below. */
  function GrantStep(f: Fixed, c: Console, id: Text, op: GrantRuns.Op): Console {
    c.(grants := c.grants[id := GrantRuns.Step(GrantFixed(f, id), GrantWorld(c, id), op)])
  }

  predicate GrantTakes(f: Fixed, c: Console, id: Text, op: GrantRuns.Op) {
    GrantRuns.Takes(GrantFixed(f, id), GrantWorld(c, id), op)
  }

  // ----- nonces

  datatype NonceRequest = NonceRequest(
    sessionId: Text, submissionId: Text, token: Text, source: Text, envelopeId: Text, proof: Text, issued: Text,
    sourceAt: real, tokenAt: real, grantAt: real, issuedAt: real
  )

  function ConsumeOf(r: NonceRequest): GrantRuns.Op {
    GrantRuns.ConsumeOp(r.envelopeId, r.proof, r.submissionId, HTTPS, r.grantAt)
  }

  function Issue(c: Console, r: NonceRequest): Console {
    c.(nonces := c.nonces[r.submissionId :=
      Nonce(r.sessionId, r.submissionId, r.issued, r.issuedAt + 120.0, r.source, false)])
  }

  function RequestNonce(f: Fixed, c: Console, r: NonceRequest): Reply {
    if r.sessionId !in c.sessions then Reply(c, Raised)
    else
      var s := c.sessions[r.sessionId];
      if r.sourceAt >= s.expiresAt then Reply(c, Rejected(RejectedExpired))
      else if !f.inScope(r.sessionId, r.source) then Reply(c, Rejected(RejectedUnauthorizedSource))
      else if s.status != Open || !TokenHolds(f, s, r.token, r.tokenAt) then Reply(c, Rejected(RejectedToken))
      else if !EnvelopeRequired(c, r.sessionId) then Reply(Issue(c, r), Done)
      else if !GrantTakes(f, c, r.sessionId, ConsumeOf(r)) then Reply(c, Rejected(RejectedReplay))
      else Reply(Issue(GrantStep(f, c, r.sessionId, ConsumeOf(r)), r), Done)
  }

  // ----- HTTPS acceptance

  datatype Upload = Upload(
    sessionId: Text, submissionId: Text, token: Text, nonce: Text, source: Text, archive: Bytes,
    sourceAt: real, tokenAt: real, grantAt: real, nonceAt: real
  )

  /** The binding, use and expiry tests of `NonceService.consume`. */
  predicate NonceHolds(c: Console, r: Upload) {
    && r.submissionId in c.nonces
    && var n := c.nonces[r.submissionId];
       && n.sessionId == r.sessionId && n.submissionId == r.submissionId && n.value == r.nonce
       && n.source == r.source && !n.used && r.nonceAt < n.expiresAt
  }

  function UseNonce(c: Console, submissionId: Text): Console
    requires submissionId in c.nonces
  {
    c.(nonces := c.nonces[submissionId := c.nonces[submissionId].(used := true)])
  }

  function Reject(c: Console, submissionId: Text, state: RejectedState): (r: Reply)
    ensures r.outcome == Rejected(state)
    ensures r.console.sessions == c.sessions && r.console.grants == c.grants && r.console.nonces == c.nonces
    ensures r.console.index == c.index && r.console.accepted == c.accepted && r.console.quarantine == c.quarantine
  {
    Reply(c.(rejected := c.rejected[submissionId := state]), Rejected(state))
  }

  predicate Duplicate(index: seq<Item>, submissionId: Text, packageDigest: Text) {
    exists i :: 0 <= i < |index| && (index[i].submissionId == submissionId || index[i].packageDigest == packageDigest)
  }

  const BY_SUBMISSION: Item -> seq<nat> := (item: Item) => item.submissionId

  /** The index grows by the item, in order, and the session's token is used once. */
  function Record(c: Console, item: Item, archive: Bytes): (r: Console)
    ensures r.grants == c.grants && r.nonces == c.nonces && r.quarantine == c.quarantine
  {
    var c' := c.(accepted := c.accepted[item.submissionId := archive],
                 index := SortBy(BY_SUBMISSION, c.index + [item]));
    if item.sessionId in c.sessions then
      var s := c.sessions[item.sessionId];
      c'.(sessions := c.sessions[item.sessionId := s.(uses := s.uses + 1)])
    else c'
  }

  /** What follows validation in both paths: trusted build, evidence binding, duplicates. */
  predicate Bound(c: Console, sessionId: Text, submissionId: Text, transport: Text, facts: Facts) {
    EnvelopeRequired(c, sessionId) ==>
      EvidenceBound(GrantWorld(c, sessionId).db, submissionId, transport, facts.build, facts.profile)
  }

  /** The part of `accept` after the archive is in quarantine; c no longer holds the file,
      which a crash of the validator leaves behind and everything else takes away. */
  function Judge(f: Fixed, c: Console, r: Upload): Reply
    requires r.sessionId in c.sessions
  {
    var s := c.sessions[r.sessionId];
    match f.validate(r.archive, Expected(s, r.sessionId, r.submissionId, r.token, r.nonce))
    case Crashed => Reply(c.(quarantine := c.quarantine[r.submissionId := r.archive]), Raised)
    case Refused(state) => Reject(c, r.submissionId, state)
    case Validated(facts) =>
      if facts.build !in s.trustedBuilds then Reject(c, r.submissionId, RejectedUntrustedCollector)
      else if !Bound(c, r.sessionId, r.submissionId, HTTPS, facts) then
        Reject(c, r.submissionId, RejectedUntrustedCollector)
      else if Duplicate(c.index, r.submissionId, facts.packageDigest) then Reject(c, r.submissionId, RejectedReplay)
      else
        var item := Item(r.sessionId, r.submissionId, facts.deviceId, facts.packageDigest, HTTPS, []);
        Reply(Record(c, item, r.archive), Done)
  }

  /** The answer, if the request does not get as far as the quarantine. */
  function Turned(f: Fixed, c: Console, r: Upload): Option<Reply> {
    if r.sessionId !in c.sessions then Some(Reply(c, Raised))
    else
      var s := c.sessions[r.sessionId];
      if r.sourceAt >= s.expiresAt then Some(Reply(c, Rejected(RejectedExpired)))
      else if !f.inScope(r.sessionId, r.source) then Some(Reply(c, Rejected(RejectedUnauthorizedSource)))
      else if s.status != Open || !TokenHolds(f, s, r.token, r.tokenAt) then
        Some(Reject(c, r.submissionId, RejectedToken))
      else if EnvelopeRequired(c, r.sessionId)
              && !AuthorizedSubmission(GrantWorld(c, r.sessionId).db, r.submissionId, r.grantAt) then
        Some(Reject(c, r.submissionId, RejectedReplay))
      else if r.submissionId !in c.nonces then Some(Reply(c, Raised))
      else if !NonceHolds(c, r) then Some(Reject(c, r.submissionId, RejectedReplay))
      else if |r.archive| > s.maximumPackageSize then
        Some(Reject(UseNonce(c, r.submissionId), r.submissionId, RejectedPackageLimit))
      else None
  }

  /** The nonce is used, and whatever was in quarantine under this name is overwritten. */
  function Staged(c: Console, submissionId: Text): Console
    requires submissionId in c.nonces
  {
    UseNonce(c, submissionId).(quarantine := c.quarantine - {submissionId})
  }

  function Accept(f: Fixed, c: Console, r: Upload): Reply {
    match Turned(f, c, r)
    case Some(reply) => reply
    case None => Judge(f, Staged(c, r.submissionId), r)
  }

  // ----- offline import

  datatype Import = Import(
    assessmentId: Text, sessionId: Text, submissionId: Text, packageDigest: Text, token: Text, nonce: Text,
    archive: Bytes, tokenAt: real, grantAt: real
  )

  const TRUSTED_PREFIX := Lit("trusted:")

  predicate HasTrustedPrefix(nonce: Text) { TRUSTED_PREFIX <= nonce }

  function ImportConsume(r: Import): GrantRuns.Op
    requires HasTrustedPrefix(r.nonce)
  {
    GrantRuns.ConsumeOp([], r.nonce[|TRUSTED_PREFIX|..], r.submissionId, OFFLINE, r.grantAt)
  }

  /** After the grant, if one was needed, has been consumed. */
  function Settle(c: Console, r: Import, facts: Facts): Reply {
    if !Bound(c, r.sessionId, r.submissionId, OFFLINE, facts) then Reply(c, Raised)
    else if Duplicate(c.index, r.submissionId, facts.packageDigest) then Reply(c, Rejected(RejectedReplay))
    else
      var item := Item(r.sessionId, r.submissionId, facts.deviceId, facts.packageDigest, OFFLINE, []);
      Reply(Record(c, item, r.archive), Done)
  }

  /** `import_file`; the request holds the decrypted content. */
  function ImportFile(f: Fixed, c: Console, r: Import): Reply {
    if r.assessmentId != f.assessmentId || r.sessionId !in c.sessions then Reply(c, Raised)
    else
      var s := c.sessions[r.sessionId];
      if (s.status != Open && s.status != Closed) || !TokenHolds(f, s, r.token, r.tokenAt) then Reply(c, Raised)
      else
        var verdict := f.validate(r.archive, Expected(s, r.sessionId, r.submissionId, r.token, r.nonce));
        if !verdict.Validated? || verdict.facts.build !in s.trustedBuilds
           || verdict.facts.packageDigest != r.packageDigest then
          Reply(c, Raised)
        else if !EnvelopeRequired(c, r.sessionId) then Settle(c, r, verdict.facts)
        else if !HasTrustedPrefix(r.nonce) || !GrantTakes(f, c, r.sessionId, ImportConsume(r)) then Reply(c, Raised)
        else Settle(GrantStep(f, c, r.sessionId, ImportConsume(r)), r, verdict.facts)
  }

  // ----- the index

  function Without(index: seq<Item>, submissionId: Text): seq<Item> {
    if index == [] then []
    else if index[0].submissionId == submissionId then Without(index[1..], submissionId)
    else [index[0]] + Without(index[1..], submissionId)
  }

  function RemoveSubmission(c: Console, submissionId: Text): (r: Reply)
    ensures r.console.sessions == c.sessions && r.console.nonces == c.nonces && r.console.grants == c.grants
  {
    var remaining := Without(c.index, submissionId);
    if |remaining| == |c.index| then Reply(c, Raised)
    else Reply(c.(index := remaining, accepted := c.accepted - {submissionId}), Done)
  }

  const PROCESSING: seq<Text> := [
    Lit("RECEIVED"), Lit("VALIDATING"), Lit("NORMALIZING"), Lit("ANALYZING"), Lit("COMPLETE"), Lit("ERROR")
  ]

  /** The first item of the submission gets the state. */
  function Mark(index: seq<Item>, submissionId: Text, state: Text): seq<Item> {
    if index == [] then []
    else if index[0].submissionId == submissionId then [index[0].(processingState := state)] + index[1..]
    else [index[0]] + Mark(index[1..], submissionId, state)
  }

  function UpdateProcessing(c: Console, submissionId: Text, state: Text): (r: Reply)
    ensures r.console.sessions == c.sessions && r.console.nonces == c.nonces && r.console.grants == c.grants
  {
    if state !in PROCESSING || forall i :: 0 <= i < |c.index| ==> c.index[i].submissionId != submissionId then
      Reply(c, Raised)
    else Reply(c.(index := Mark(c.index, submissionId, state)), Done)
  }
}
