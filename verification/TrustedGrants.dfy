/**
 One-use grants: the tables of one session's grant database and the transactions on them.
 A transaction either commits its whole effect or, when it raises, leaves the database as
 it was. Clock readings, random tokens and the digest are parameters; no two readings are
 assumed to be ordered.
 */
module TrustedGrants {
  import opened Wrappers
  import opened Unicode

  datatype OperationState = Preparing | Ready | Failed

  datatype TrustError =
    | SessionError | Replay | IssuanceState | AttestationScope | Enrollment | Storage
    | AuthorizationError | ModeError | ChallengeError | DownloadError

  datatype Grant = Grant(
    nonceDigest: Text,
    recipientId: Text,
    expiresAt: int,
    used: bool,
    submissionId: Text,
    transport: Text,
    state: OperationState,
    reason: Text,
    profileDigest: Text,  // of the stored details; empty when the envelope has none
    buildDigest: Text,    // empty when there is none
    provenance: Option<Text>,
    bundlePath: Option<Text>,
    networkEnabled: bool,
    authSecretDigest: Option<Text>,
    authUsed: bool,
    requestedMode: Text
  ) {
    function Expiry(): real { expiresAt as real }
  }

  datatype Challenge = Challenge(envelopeId: Text, nonceDigest: Text, expiresAt: real, used: bool)

  datatype Ticket = Ticket(envelopeId: Text, expiresAt: real, remaining: int)

  datatype Download = Download(envelopeId: Text, expiresAt: real, used: bool)

  /** The tables by primary key; byNonce is the UNIQUE index on nonceDigest. */
  datatype Db = Db(
    onDisk: bool,
    grants: map<Text, Grant>,
    byNonce: map<Text, Text>,
    challenges: map<Text, Challenge>,
    tickets: map<Text, Ticket>,
    downloads: map<Text, Download>
  )

  const NO_FILE := Db(false, map[], map[], map[], map[], map[])

  predicate LocatorChar(c: nat) { 48 <= c <= 57 || 65 <= c <= 90 || 97 <= c <= 122 || c == 95 || c == 45 }

  /** `_locator`: 16 to 128 of `A-Za-z0-9_-`. */
  predicate Locator(t: Text) { 16 <= |t| <= 128 && forall c :: c in t ==> LocatorChar(c) }

  type Digest = Text -> Text

  function Least(a: real, b: real): real { if a <= b then a else b }

  // ----- issuance

  datatype Envelope = Envelope(
    assessmentId: Text,
    sessionId: Text,
    schemaVersion: int,
    envelopeId: Text,
    nonce: Text,
    recipientId: Text,
    expiresAt: Option<int>,  // None when it is not an integer
    profileDigest: Text
  )

  datatype SessionKey = SessionKey(assessmentId: Text, sessionId: Text)

  function BeginIssue(digest: Digest, db: Db, session: SessionKey, e: Envelope, privateProof: Text,
                      secret: Option<Text>, now: real): Result<Db, TrustError>
  {
    var proof := if privateProof != [] then privateProof else e.nonce;
    if
      || e.assessmentId != session.assessmentId || e.sessionId != session.sessionId
      || e.expiresAt.None? || e.expiresAt.value as real <= now
      || !Locator(e.envelopeId) || !Locator(e.nonce) || !Locator(e.recipientId)
      || !Locator(proof) || (secret.Some? && !Locator(secret.value))
    then Failure(SessionError)
    else if e.envelopeId in db.grants || digest(proof) in db.byNonce then Failure(Replay)
    else
      var grant := Grant(digest(proof), e.recipientId, e.expiresAt.value, false, [], [], Preparing, [],
                         e.profileDigest, [], None, None, false,
                         if secret.Some? then Some(digest(secret.value)) else None, false, Lit("NOT_RECORDED"));
      Success(db.(onDisk := true, grants := db.grants[e.envelopeId := grant],
                  byNonce := db.byNonce[digest(proof) := e.envelopeId]))
  }

  datatype Provenance = Provenance(buildDigest: Text, record: Text, bound: bool)

  /** What `finish_issue` does up to and including its transaction; prepared tells whether the
      session was written and the audit entry appended. */
  function Activate(db: Db, e: Envelope, build: Text, provenance: Option<Provenance>, bundle: Option<Text>,
                    network: bool, prepared: bool): Result<Db, TrustError>
  {
    var id := e.envelopeId;
    if provenance.Some? && (!provenance.value.bound || build != provenance.value.buildDigest) then
      Failure(AttestationScope)
    else if network && (provenance.None? || e.schemaVersion != 2 || bundle.None?) then Failure(Enrollment)
    else if !prepared then Failure(Storage)
    else if !db.onDisk then Failure(SessionError)
    else if id !in db.grants || db.grants[id].state != Preparing || db.grants[id].used then Failure(IssuanceState)
    else
      var record := if provenance.Some? then Some(provenance.value.record) else None;
      var grant := db.grants[id].(state := Ready, buildDigest := build, provenance := record,
                                  bundlePath := bundle, networkEnabled := network, reason := []);
      Success(db.(grants := db.grants[id := grant]))
  }

  function FailIssue(db: Db, id: Text, code: Text): Db {
    if db.onDisk && id in db.grants && db.grants[id].state == Preparing && !db.grants[id].used then
      db.(grants := db.grants[id := db.grants[id].(state := Failed, reason := code)])
    else db
  }

  function Interrupted(g: Grant): Grant {
    if g.state == Preparing && !g.used then g.(state := Failed, reason := Lit("CSA-TRUST-ISSUANCE-INTERRUPTED")) else g
  }

  /** missing holds the bundle paths that lack a published file. */
  function Unpublished(g: Grant, missing: set<Text>): Grant {
    if g.state == Ready && !g.used && g.bundlePath.Some? && g.bundlePath.value in missing then
      g.(state := Failed, reason := Lit("CSA-TRUST-PUBLICATION-MISSING"))
    else g
  }

  function Reconcile(db: Db, missing: set<Text>): Db {
    db.(onDisk := true, grants := map id | id in db.grants :: Unpublished(Interrupted(db.grants[id]), missing))
  }

  // ----- consumption

  function Consume(digest: Digest, db: Db, id: Text, nonce: Text, submissionId: Text, transport: Text, now: real):
    Result<Db, TrustError>
  {
    if !Locator(nonce) || (id != [] && !Locator(id)) || !db.onDisk || digest(nonce) !in db.byNonce then
      Failure(SessionError)
    else
      var found := db.byNonce[digest(nonce)];
      if found !in db.grants || (id != [] && id != found) then Failure(SessionError)
      else
        var g := db.grants[found];
        if g.Expiry() <= now || g.state != Ready then Failure(SessionError)
        else if g.used then Failure(Replay)
        else if g.networkEnabled && !g.authUsed then Failure(AuthorizationError)
        else
          var taken := g.(used := true, submissionId := submissionId, transport := transport);
          Success(db.(grants := db.grants[found := taken]))
  }

  // ----- challenges

  /** The first transaction of `challenge`, and the expiry it computes before the second;
      the two readings are its calls of the clock. */
  function ReadChallenge(db: Db, id: Text, checkedAt: real, readAt: real): Result<real, TrustError> {
    if !db.onDisk || id !in db.grants then Failure(SessionError)
    else
      var g := db.grants[id];
      if g.state != Ready || g.Expiry() <= checkedAt then Failure(SessionError)
      else if !g.networkEnabled || g.authUsed || g.used then Failure(AuthorizationError)
      else Success(Least(readAt + 90.0, g.Expiry()))
  }

  function OpenChallenges(challenges: map<Text, Challenge>, now: real): map<Text, Challenge> {
    map c | c in challenges && challenges[c].expiresAt > now && !challenges[c].used :: challenges[c]
  }

  /** The second transaction, with the expiry the first one handed over. */
  function InsertChallenge(digest: Digest, db: Db, id: Text, expires: real, identifier: Text, nonce: Text, now: real):
    Result<Db, TrustError>
  {
    var open := OpenChallenges(db.challenges, now);
    if !db.onDisk then Failure(SessionError)
    else if |set c | c in open && open[c].envelopeId == id| >= 32 then Failure(ChallengeError)
    else if identifier in open then Failure(Replay)
    else Success(db.(challenges := open[identifier := Challenge(id, digest(nonce), expires, false)]))
  }

  // ----- authorization and downloads

  const MODES: seq<Text> := [Lit("STANDARD_POLICY"), Lit("QUICK_RUN_PROCESS_BYPASS")]

  predicate MayAuthorize(digest: Digest, db: Db, id: Text, challengeId: Text, nonce: Text, recipient: Text,
                         secret: Text,
                         now: real)
  {
    && id in db.grants && challengeId in db.challenges
    && var g, c := db.grants[id], db.challenges[challengeId];
       && g.state == Ready && g.networkEnabled && !g.authUsed && !g.used && g.Expiry() > now
       && g.recipientId == recipient && g.authSecretDigest == Some(digest(secret)) && digest(secret) != []
       && c.envelopeId == id && !c.used && c.expiresAt > now && c.nonceDigest == digest(nonce)
  }

  function Authorize(digest: Digest, db: Db, id: Text, challengeId: Text, nonce: Text, recipient: Text, secret: Text,
                     mode: Text, ticket: Text, now: real): Result<Db, TrustError>
  {
    if !Locator(id) || !Locator(challengeId) || !Locator(nonce) || !Locator(recipient) || !Locator(secret) then
      Failure(AuthorizationError)
    else if mode !in MODES then Failure(ModeError)
    else if !db.onDisk then Failure(SessionError)
    else if !MayAuthorize(digest, db, id, challengeId, nonce, recipient, secret, now) then Failure(AuthorizationError)
    else if digest(ticket) in db.tickets then Failure(Replay)
    else
      var g := db.grants[id];
      Success(db.(
        challenges := db.challenges[challengeId := db.challenges[challengeId].(used := true)],
        grants := db.grants[id := g.(authUsed := true, requestedMode := mode)],
        tickets := db.tickets[digest(ticket) := Ticket(id, Least(now + 120.0, g.Expiry()), 3)]))
  }

  predicate DownloadsOpen(db: Db, id: Text, now: real) {
    && id in db.grants
    && var g := db.grants[id];
       g.state == Ready && g.networkEnabled && g.authUsed && !g.used && g.Expiry() > now
  }

  /** The four clock readings of `mint_download`, in the order they are taken. */
  datatype Readings = Readings(selectedAt: real, checkedAt: real, mintedAt: real, sweptAt: real)

  function MintDownload(digest: Digest, db: Db, id: Text, ticket: Text, token: Text, at: Readings): Result<Db,
                        TrustError> {
    if !Locator(ticket) then Failure(DownloadError)
    else if !db.onDisk then Failure(SessionError)
    else if
      || digest(ticket) !in db.tickets || db.tickets[digest(ticket)].envelopeId != id
      || !DownloadsOpen(db, id, at.selectedAt)
    then Failure(DownloadError)
    else
      var t := db.tickets[digest(ticket)];
      var kept := map d | d in db.downloads && db.downloads[d].expiresAt > at.sweptAt :: db.downloads[d];
      if t.expiresAt <= at.checkedAt || t.remaining <= 0 then Failure(DownloadError)
      else if digest(token) in kept then Failure(Replay)
      else
        Success(db.(tickets := db.tickets[digest(ticket) := t.(remaining := t.remaining - 1)],
                    downloads := kept[digest(token) := Download(id, Least(at.mintedAt + 45.0, t.expiresAt), false)]))
  }

  function ConsumeDownload(digest: Digest, db: Db, id: Text, token: Text, now: real): Result<Db, TrustError> {
    var key := digest(token);
    if !Locator(token) then Failure(DownloadError)
    else if !db.onDisk then Failure(SessionError)
    else if
      && key in db.downloads && db.downloads[key].envelopeId == id && !db.downloads[key].used
      && db.downloads[key].expiresAt > now && DownloadsOpen(db, id, now)
    then Success(db.(downloads := db.downloads[key := db.downloads[key].(used := true)]))
    else Failure(DownloadError)
  }

  // ----- what the acceptance paths ask

  /** The rows counted for one accepted submission. */
  function Naming(db: Db, submissionId: Text, transport: Text): set<Text> {
    set id | id in db.grants && db.grants[id].state == Ready && db.grants[id].used
             && db.grants[id].submissionId == submissionId && db.grants[id].transport == transport
  }

  /** `require_authorized_submission`. */
  predicate AuthorizedSubmission(db: Db, submissionId: Text, now: real) {
    && db.onDisk
    && |set id | id in Naming(db, submissionId, Lit("HTTPS")) && id in db.grants && db.grants[id].Expiry() > now| == 1
  }

  /** `require_evidence_binding` once a session is known to need it: exactly one row, whose
      build and profile, where recorded, are the package's. */
  predicate EvidenceBound(db: Db, submissionId: Text, transport: Text, build: Text, profile: Text) {
    && db.onDisk
    && |Naming(db, submissionId, transport)| == 1
    && forall id :: id in Naming(db, submissionId, transport) ==>
         && (db.grants[id].buildDigest != [] ==> build == db.grants[id].buildDigest)
         && (db.grants[id].profileDigest != [] ==> profile == db.grants[id].profileDigest)
  }
}
