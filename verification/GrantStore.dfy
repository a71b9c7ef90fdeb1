/** The grant store on its own tables: every transaction commits what the specification
    says or rolls back. */
module GrantStore {
  import opened Wrappers
  import opened Unicode
  import opened TrustedGrants

  /** The transaction either returns with the database it computed or raises on the old one. */
  predicate Committed(before: Db, after: Db, r: Result<Db, TrustError>, error: Option<TrustError>) {
    if r.Success? then error.None? && after == r.value else error == Some(r.error) && after == before
  }

  /** As Committed, but a failure is marked on the row when it can be. */
  predicate Finished(before: Db, after: Db, r: Result<Db, TrustError>, id: Text, recorded: bool,
                     error: Option<TrustError>) {
    if r.Success? then error.None? && after == r.value
    else
      && error == Some(r.error)
      && after == if recorded then FailIssue(before, id, Lit("CSA-TRUST-ISSUANCE-FAILED")) else before
  }

  /** The loop over the READY rows with a bundle, in whatever order they come. */
  method FailUnpublished(rows: map<Text, Grant>, missing: set<Text>) returns (updated: map<Text, Grant>)
    ensures updated == map id | id in rows :: Unpublished(rows[id], missing)
  {
    updated := rows;
    var left := set id | id in rows && rows[id].state == Ready && !rows[id].used && rows[id].bundlePath.Some?;
    while left != {}
      invariant updated.Keys == rows.Keys && left <= rows.Keys
      invariant forall id :: id in left ==> rows[id].state == Ready && !rows[id].used && rows[id].bundlePath.Some?
      invariant forall id :: id in rows ==>
                  updated[id] == if id in left then rows[id] else Unpublished(rows[id], missing)
      decreases left
    {
      var id :| id in left;
      if rows[id].bundlePath.value in missing {
        updated := updated[id := rows[id].(state := Failed, reason := Lit("CSA-TRUST-PUBLICATION-MISSING"))];
      }
      left := left - {id};
    }
  }

  class TrustedGrantStore {
    const digest: Digest
    const session: SessionKey
    var fileExists: bool
    var grants: map<Text, Grant>
    var byNonce: map<Text, Text>
    var challenges: map<Text, Challenge>
    var tickets: map<Text, Ticket>
    var downloads: map<Text, Download>

    constructor (digest: Digest, session: SessionKey)
      ensures this.digest == digest && this.session == session && State() == NO_FILE
    {
      this.digest, this.session, fileExists := digest, session, false;
      grants, byNonce, challenges, tickets, downloads := map[], map[], map[], map[], map[];
    }

    function State(): Db
      reads this
    {
      Db(fileExists, grants, byNonce, challenges, tickets, downloads)
    }

    method Begin(e: Envelope, privateProof: Text, secret: Option<Text>, now: real) returns (error: Option<TrustError>)
      modifies this
      ensures Committed(old(State()), State(),
                        BeginIssue(digest, old(State()), session, e, privateProof, secret, now), error)
    {
      var proof := if privateProof != [] then privateProof else e.nonce;
      if e.assessmentId != session.assessmentId || e.sessionId != session.sessionId || e.expiresAt.None? {
        return Some(SessionError);
      }
      if e.expiresAt.value as real <= now || !Locator(e.envelopeId) || !Locator(e.nonce) || !Locator(e.recipientId)
         || !Locator(proof) || (secret.Some? && !Locator(secret.value)) {
        return Some(SessionError);
      }
      if e.envelopeId in grants || digest(proof) in byNonce {
        return Some(Replay);
      }
      fileExists := true;
      byNonce := byNonce[digest(proof) := e.envelopeId];
      grants := grants[e.envelopeId := Grant(digest(proof), e.recipientId, e.expiresAt.value, false, [], [],
                  Preparing, [], e.profileDigest, [], None, None, false,
                  if secret.Some? then Some(digest(secret.value)) else None, false, Lit("NOT_RECORDED"))];
      return None;
    }

    /** `finish_issue`: whatever goes wrong, the failure is recorded before it is raised;
        recorded is false when that second transaction cannot run either. */
    method Finish(e: Envelope, build: Text, provenance: Option<Provenance>, bundle: Option<Text>, network: bool,
                  prepared: bool, recorded: bool)
      returns (error: Option<TrustError>)
      modifies this
      ensures Finished(old(State()), State(), Activate(old(State()), e, build, provenance, bundle, network, prepared),
                       e.envelopeId, recorded, error)
    {
      var id := e.envelopeId;
      if provenance.Some? && (!provenance.value.bound || build != provenance.value.buildDigest) {
        error := Some(AttestationScope);
      } else if network && (provenance.None? || e.schemaVersion != 2 || bundle.None?) {
        error := Some(Enrollment);
      } else if !prepared {
        error := Some(Storage);
      } else if !fileExists {
        error := Some(SessionError);
      } else if id in grants && grants[id].state == Preparing && !grants[id].used {
        grants := grants[id := grants[id].(state := Ready, buildDigest := build,
          provenance := if provenance.Some? then Some(provenance.value.record) else None,
          bundlePath := bundle, networkEnabled := network, reason := [])];
        return None;
      } else {
        error := Some(IssuanceState);
      }
      if recorded {
        Fail(id, Lit("CSA-TRUST-ISSUANCE-FAILED"));
      }
    }

    method Fail(id: Text, code: Text)
      modifies this
      ensures State() == FailIssue(old(State()), id, code)
    {
      if fileExists && id in grants && grants[id].state == Preparing && !grants[id].used {
        grants := grants[id := grants[id].(state := Failed, reason := code)];
      }
    }

    /** The UPDATE of all PREPARING rows, then the loop over the unused READY ones. */
    method ReconcileAll(missing: set<Text>)
      modifies this
      ensures State() == Reconcile(old(State()), missing)
    {
      fileExists := true;
      grants := FailUnpublished(map id | id in grants :: Interrupted(grants[id]), missing);
      assert grants == Reconcile(old(State()), missing).grants;
    }

    method ConsumeGrant(id: Text, nonce: Text, submissionId: Text, transport: Text,
                        now: real) returns (error: Option<TrustError>)
      modifies this
      ensures Committed(old(State()), State(),
                        Consume(digest, old(State()), id, nonce, submissionId, transport, now), error)
    {
      if !Locator(nonce) || (id != [] && !Locator(id)) || !fileExists || digest(nonce) !in byNonce {
        return Some(SessionError);
      }
      var found := byNonce[digest(nonce)];
      if found !in grants || (id != [] && id != found) {
        return Some(SessionError);
      }
      var row := grants[found];
      if row.Expiry() <= now || row.state != Ready {
        return Some(SessionError);
      }
      if row.used {
        return Some(Replay);
      }
      if row.networkEnabled && !row.authUsed {
        return Some(AuthorizationError);
      }
      grants := grants[found := row.(used := true, submissionId := submissionId, transport := transport)];
      return None;
    }

    /** The second transaction of `challenge`: the sweep is rolled back with the rest. */
    method AddChallenge(id: Text, expires: real, identifier: Text, nonce: Text,
                        now: real) returns (error: Option<TrustError>)
      modifies this
      ensures Committed(old(State()), State(),
                        InsertChallenge(digest, old(State()), id, expires, identifier, nonce, now), error)
    {
      if !fileExists {
        return Some(SessionError);
      }
      var saved := challenges;
      challenges := OpenChallenges(challenges, now);
      if |set c | c in challenges && challenges[c].envelopeId == id| >= 32 {
        challenges := saved;
        return Some(ChallengeError);
      }
      if identifier in challenges {
        challenges := saved;
        return Some(Replay);
      }
      challenges := challenges[identifier := Challenge(id, digest(nonce), expires, false)];
      return None;
    }

    method AuthorizeEndpoint(id: Text, challengeId: Text, nonce: Text, recipient: Text, secret: Text, mode: Text,
                             ticket: Text, now: real)
      returns (error: Option<TrustError>)
      modifies this
      ensures Committed(old(State()), State(),
                        Authorize(digest, old(State()), id, challengeId, nonce, recipient, secret, mode, ticket, now),
                        error)
    {
      if !Locator(id) || !Locator(challengeId) || !Locator(nonce) || !Locator(recipient) || !Locator(secret) {
        return Some(AuthorizationError);
      }
      if mode !in MODES {
        return Some(ModeError);
      }
      if !fileExists {
        return Some(SessionError);
      }
      if !MayAuthorize(digest, State(), id, challengeId, nonce, recipient, secret, now) {
        return Some(AuthorizationError);
      }
      var savedChallenges, savedGrants := challenges, grants;
      var row := grants[id];
      challenges := challenges[challengeId := challenges[challengeId].(used := true)];
      grants := grants[id := row.(authUsed := true, requestedMode := mode)];
      if digest(ticket) in tickets {
        challenges, grants := savedChallenges, savedGrants;
        return Some(Replay);
      }
      tickets := tickets[digest(ticket) := Ticket(id, Least(now + 120.0, row.Expiry()), 3)];
      return None;
    }

    method Mint(id: Text, ticket: Text, token: Text, at: Readings) returns (error: Option<TrustError>)
      modifies this
      ensures Committed(old(State()), State(), MintDownload(digest, old(State()), id, ticket, token, at), error)
    {
      hide Lit, Least, LocatorChar;
      if !Locator(ticket) {
        return Some(DownloadError);
      }
      if !fileExists {
        return Some(SessionError);
      }
      var key := digest(ticket);
      if key !in tickets || tickets[key].envelopeId != id || !DownloadsOpen(State(), id, at.selectedAt) {
        return Some(DownloadError);
      }
      var row := tickets[key];
      if row.expiresAt <= at.checkedAt || row.remaining <= 0 {
        return Some(DownloadError);
      }
      var savedTickets, savedDownloads := tickets, downloads;
      tickets := tickets[key := row.(remaining := row.remaining - 1)];
      downloads := map d | d in downloads && downloads[d].expiresAt > at.sweptAt :: downloads[d];
      if digest(token) in downloads {
        tickets, downloads := savedTickets, savedDownloads;
        return Some(Replay);
      }
      downloads := downloads[digest(token) := Download(id, Least(at.mintedAt + 45.0, row.expiresAt), false)];
      return None;
    }

    method Redeem(id: Text, token: Text, now: real) returns (error: Option<TrustError>)
      modifies this
      ensures Committed(old(State()), State(), ConsumeDownload(digest, old(State()), id, token, now), error)
    {
      if !Locator(token) {
        return Some(DownloadError);
      }
      if !fileExists {
        return Some(SessionError);
      }
      var key := digest(token);
      if key in downloads && downloads[key].envelopeId == id && !downloads[key].used && downloads[key].expiresAt > now
         && DownloadsOpen(State(), id, now) {
        downloads := downloads[key := downloads[key].(used := true)];
        return None;
      }
      return Some(DownloadError);
    }
  }
}
