/**
 When each grant transaction is taken and what it leaves behind, in the rows themselves, and
 from there what a download needs over a whole run.
 */
module GrantRules {
  import opened Wrappers
  import opened Unicode
  import opened TrustedGrants
  import opened GrantRuns

  predicate InAlphabet(c: nat) {
    'A' as int <= c <= 'Z' as int || 'a' as int <= c <= 'z' as int || '0' as int <= c <= '9' as int
    || c == '_' as int || c == '-' as int
  }

  /** 16 to 128 characters of the URL-safe alphabet. */
  predicate UrlSafe(t: Text) { 16 <= |t| <= 128 && forall i :: 0 <= i < |t| ==> InAlphabet(t[i]) }

  lemma LocatorIs(t: Text)
    ensures Locator(t) <==> UrlSafe(t)
  {
    hide LocatorChar, InAlphabet;
    forall c
      ensures LocatorChar(c) <==> InAlphabet(c)
    {
      Alphabet(c);
    }
    if Locator(t) {
      forall i | 0 <= i < |t|
        ensures InAlphabet(t[i])
      {
        assert t[i] in t;
      }
    }
  }

  lemma Alphabet(c: nat)
    ensures LocatorChar(c) <==> InAlphabet(c)
  {
  }

  lemma LocatorsAre()
    ensures forall t :: Locator(t) <==> UrlSafe(t)
  {
    hide Locator, UrlSafe;
    forall t
      ensures Locator(t) <==> UrlSafe(t)
    {
      LocatorIs(t);
    }
  }

  // ----- issuance

  /** An unexpired envelope of this session with well-formed identifiers. */
  predicate Offered(f: Fixed, op: Op)
    requires op.BeginOp?
  {
    && op.e.assessmentId == f.session.assessmentId && op.e.sessionId == f.session.sessionId
    && op.e.expiresAt.Some? && op.now < op.e.expiresAt.value as real
    && UrlSafe(op.e.envelopeId) && UrlSafe(op.e.nonce) && UrlSafe(op.e.recipientId)
    && (op.privateProof != [] ==> UrlSafe(op.privateProof))
    && (op.authSecret.Some? ==> UrlSafe(op.authSecret.value))
  }

  /** Issuance starts exactly for what is offered under an ID and a proof of its own. */
  ghost predicate Issuable(f: Fixed, db: Db, op: Op)
    requires op.BeginOp?
  {
    && Offered(f, op) && op.e.envelopeId !in db.grants
    && forall id :: id in db.grants ==>
         db.grants[id].nonceDigest != f.digest(if op.privateProof == [] then op.e.nonce else op.privateProof)
  }

  lemma IssueExact(f: Fixed, w: World, op: Op)
    requires op.BeginOp? && NoncesIndexed(w.db)
    ensures Takes(f, w, op) <==> Issuable(f, w.db, op)
    ensures Takes(f, w, op) ==>
              var proof := if op.privateProof == [] then op.e.nonce else op.privateProof;
              var row := Grant(
                nonceDigest := f.digest(proof), recipientId := op.e.recipientId,
                expiresAt := op.e.expiresAt.value, used := false, submissionId := [], transport := [],
                state := Preparing, reason := [], profileDigest := op.e.profileDigest, buildDigest := [],
                provenance := None, bundlePath := None, networkEnabled := false,
                authSecretDigest := if op.authSecret.None? then None else Some(f.digest(op.authSecret.value)),
                authUsed := false, requestedMode := Lit("NOT_RECORDED"));
              var after := Step(f, w, op);
              && after.handed == w.handed && after.db.onDisk && after.db.grants == w.db.grants[op.e.envelopeId := row]
              && after.db.challenges == w.db.challenges && after.db.tickets == w.db.tickets
              && after.db.downloads == w.db.downloads
  {
    hide Locator, UrlSafe, Lit;
    LocatorsAre();
  }

  /** A PREPARING, unused envelope becomes READY exactly when its provenance binds to it and
      names its build, network use comes with provenance, the second schema and a bundle, and
      the session and the audit log were written. */
  lemma ActivateExact(f: Fixed, w: World, op: Op)
    requires op.ActivateOp?
    ensures Takes(f, w, op) <==>
              && (op.provenance.Some? ==> op.provenance.value.bound && op.provenance.value.buildDigest == op.build)
              && (op.network ==> op.provenance.Some? && op.e.schemaVersion == 2 && op.bundle.Some?)
              && op.prepared && w.db.onDisk && op.e.envelopeId in w.db.grants
              && w.db.grants[op.e.envelopeId].state == Preparing && !w.db.grants[op.e.envelopeId].used
    ensures Takes(f, w, op) ==>
              var was, after := w.db.grants[op.e.envelopeId], Step(f, w, op);
              && after.handed == w.handed && after.db == w.db.(grants := after.db.grants)
              && after.db.grants == w.db.grants[op.e.envelopeId := Grant(
                   nonceDigest := was.nonceDigest, recipientId := was.recipientId, expiresAt := was.expiresAt,
                   used := was.used, submissionId := was.submissionId, transport := was.transport,
                   state := Ready, reason := [], profileDigest := was.profileDigest, buildDigest := op.build,
                   provenance := if op.provenance.Some? then Some(op.provenance.value.record) else None,
                   bundlePath := op.bundle, networkEnabled := op.network,
                   authSecretDigest := was.authSecretDigest, authUsed := was.authUsed,
                   requestedMode := was.requestedMode)]
  {
  }

  /** Recording a failure marks the row while it is PREPARING and changes nothing otherwise. */
  lemma FailExact(f: Fixed, w: World, op: Op)
    requires op.FailOp?
    ensures var after := Step(f, w, op);
            && after.handed == w.handed && after.db == w.db.(grants := after.db.grants)
            && after.db.grants.Keys == w.db.grants.Keys
            && forall id :: id in w.db.grants ==>
                 after.db.grants[id]
                 == if id == op.id && w.db.onDisk && w.db.grants[id].state == Preparing && !w.db.grants[id].used then
                   w.db.grants[id].(state := Failed, reason := op.code) else w.db.grants[id]
  {
  }

  /** Reconciliation fails exactly the unused rows that are PREPARING, or READY with a bundle
      that is not published. */
  lemma ReconcileExact(f: Fixed, w: World, op: Op)
    requires op.ReconcileOp?
    ensures var after := Step(f, w, op);
            && after.handed == w.handed && after.db == w.db.(grants := after.db.grants, onDisk := true)
            && after.db.grants.Keys == w.db.grants.Keys
            && forall id :: id in w.db.grants ==>
                 var was := w.db.grants[id];
                 after.db.grants[id]
                 == if was.used then was
                   else if was.state == Preparing then
                     was.(state := Failed, reason := Lit("CSA-TRUST-ISSUANCE-INTERRUPTED"))
                   else if was.state == Ready && was.bundlePath.Some? && was.bundlePath.value in op.missing then
                     was.(state := Failed, reason := Lit("CSA-TRUST-PUBLICATION-MISSING"))
                   else was
  {
    hide Lit;
  }

  // ----- consumption

  /** The row a consumption names. */
  predicate Named(f: Fixed, db: Db, op: Op, id: Text)
    requires op.ConsumeOp?
  {
    && id in db.grants && db.grants[id].nonceDigest == f.digest(op.nonce) && (op.id == [] || op.id == id)
    && op.now < db.grants[id].expiresAt as real && db.grants[id].state == Ready
  }

  /** The row a consumption is for. */
  predicate Consumable(f: Fixed, db: Db, op: Op, id: Text)
    requires op.ConsumeOp?
  {
    && Named(f, db, op, id) && !db.grants[id].used && (db.grants[id].networkEnabled ==> db.grants[id].authUsed)
  }

  /** What a consumption makes of the database: one row is used and names submission and transport. */
  function Consumed(db: Db, op: Op, id: Text): Db
    requires op.ConsumeOp? && id in db.grants
  {
    db.(grants := db.grants[id := db.grants[id].(used := true, submissionId := op.submissionId,
                                                 transport := op.transport)])
  }

  lemma ConsumeExact(f: Fixed, w: World, op: Op)
    requires op.ConsumeOp? && NoncesIndexed(w.db) && (w.db.grants != map[] ==> w.db.onDisk)
    ensures Takes(f, w, op) <==>
              && UrlSafe(op.nonce) && (op.id != [] ==> UrlSafe(op.id)) && exists id :: Consumable(f, w.db, op, id)
    ensures forall id :: Takes(f, w, op) && Consumable(f, w.db, op, id) ==>
              Step(f, w, op) == World(Consumed(w.db, op, id), w.handed)
  {
    hide Locator, UrlSafe;
    LocatorsAre();
    if f.digest(op.nonce) in w.db.byNonce {
      assert Takes(f, w, op) ==> Consumable(f, w.db, op, w.db.byNonce[f.digest(op.nonce)]);
    }
  }

  /** After any run a grant is consumed exactly by the nonce it was issued with, under its own ID
      or none, while it is READY, unexpired, unused and, if for the network, authorized; the row
      then names submission and transport and everything else stays. */
  lemma ConsumptionExact(f: Fixed, ops: seq<Op>, op: Op)
    requires op.ConsumeOp?
    ensures var w := Run(f, ops);
            && (Takes(f, w, op) <==>
                  && UrlSafe(op.nonce) && (op.id != [] ==> UrlSafe(op.id))
                  && exists id :: Consumable(f, w.db, op, id))
            && forall id :: Takes(f, w, op) && Consumable(f, w.db, op, id) ==>
                 Step(f, w, op) == World(Consumed(w.db, op, id), w.handed)
  {
    hide Run, Step, Takes, UrlSafe, Consumable, NoncesIndexed;
    RunSound(f, ops);
    RowsOnDisk(f, ops);
    ConsumeExact(f, Run(f, ops), op);
  }

  /** Rows are only ever written to a database that exists. */
  lemma {:induction false} RowsOnDisk(f: Fixed, ops: seq<Op>)
    ensures var db := Run(f, ops).db; db.grants != map[] || db.tickets != map[] ==> db.onDisk
  {
    hide Step;
    if ops == [] {
    } else {
      RowsOnDisk(f, ops[..|ops| - 1]);
      StepOnDisk(f, Run(f, ops[..|ops| - 1]), ops[|ops| - 1]);
    }
  }

  lemma StepOnDisk(f: Fixed, w: World, op: Op)
    requires w.db.grants != map[] || w.db.tickets != map[] ==> w.db.onDisk
    ensures var db := Step(f, w, op).db; db.grants != map[] || db.tickets != map[] ==> db.onDisk
  {
    hide Locator, LocatorChar, Lit, Least, OpenChallenges;
  }

  lemma GrantsStayOnDisk(f: Fixed, w: World, op: Op)
    requires w.db.grants != map[] ==> w.db.onDisk
    ensures Step(f, w, op).db.grants != map[] ==> Step(f, w, op).db.onDisk
  {
    hide Locator, LocatorChar, Lit, Least, OpenChallenges;
  }

  // ----- challenges

  /** A challenge is opened for a READY, unexpired network envelope that is neither authorized nor
      used, and expires ninety seconds later or with the grant. */
  lemma ReadExact(f: Fixed, w: World, op: Op)
    requires op.ReadOp?
    ensures Takes(f, w, op) <==>
              && w.db.onDisk && op.id in w.db.grants
              && w.db.grants[op.id].state == Ready && op.checkedAt < w.db.grants[op.id].expiresAt as real
              && w.db.grants[op.id].networkEnabled && !w.db.grants[op.id].authUsed && !w.db.grants[op.id].used
    ensures Takes(f, w, op) ==>
              var late := w.db.grants[op.id].expiresAt as real;
              var expiry := if op.readAt + 90.0 < late then op.readAt + 90.0 else late;
              Step(f, w, op) == World(w.db, w.handed + {Handover(op.id, expiry)})
  {
  }

  /** The challenges a reading of the clock leaves. */
  ghost predicate Left(db: Db, now: real, c: Text) {
    c in db.challenges && now < db.challenges[c].expiresAt && !db.challenges[c].used
  }

  /** It is inserted, with the expiry handed over, exactly when fewer than 32 unexpired and unused
      challenges of the envelope and none of this name are left; the others are deleted. */
  lemma InsertExact(f: Fixed, w: World, op: Op)
    requires op.InsertOp?
    ensures Takes(f, w, op) <==>
              && w.db.onDisk && Handover(op.id, op.expires) in w.handed
              && |set c | c in w.db.challenges && Left(w.db, op.now, c) && w.db.challenges[c].envelopeId == op.id| < 32
              && !Left(w.db, op.now, op.identifier)
    ensures Takes(f, w, op) ==>
              var after := Step(f, w, op);
              && after.handed == w.handed && after.db == w.db.(challenges := after.db.challenges)
              && (forall c :: c in after.db.challenges <==> c == op.identifier || Left(w.db, op.now, c))
              && forall c :: c in after.db.challenges ==>
                   after.db.challenges[c]
                   == if c == op.identifier then Challenge(op.id, f.digest(op.nonce), op.expires, false)
                     else w.db.challenges[c]
  {
    hide OpenChallenges;
    OpenIs(w.db, op.now, op.id);
  }

  lemma OpenIs(db: Db, now: real, id: Text)
    ensures var open := OpenChallenges(db.challenges, now);
            && (forall c :: c in open <==> Left(db, now, c))
            && (forall c :: c in open ==> open[c] == db.challenges[c])
            && |set c | c in open && open[c].envelopeId == id|
               == |set c | c in db.challenges && Left(db, now, c) && db.challenges[c].envelopeId == id|
  {
    var open := OpenChallenges(db.challenges, now);
    assert (set c | c in open && open[c].envelopeId == id)
        == set c | c in db.challenges && Left(db, now, c) && db.challenges[c].envelopeId == id;
  }

  // ----- authorization and downloads

  /** READY for the network and unexpired. */
  predicate Live(db: Db, id: Text, now: real) {
    && id in db.grants && db.grants[id].state == Ready && db.grants[id].networkEnabled && !db.grants[id].used
    && now < db.grants[id].expiresAt as real
  }

  predicate Mode(t: Text) { t == Lit("STANDARD_POLICY") || t == Lit("QUICK_RUN_PROCESS_BYPASS") }

  /** The envelope's recipient and secret, and an unanswered challenge of it. */
  predicate Answered(f: Fixed, db: Db, op: Op)
    requires op.AuthorizeOp?
  {
    && Live(db, op.id, op.now) && !db.grants[op.id].authUsed
    && db.grants[op.id].recipientId == op.recipient
    && f.digest(op.secret) != [] && db.grants[op.id].authSecretDigest == Some(f.digest(op.secret))
    && op.challengeId in db.challenges && db.challenges[op.challengeId].envelopeId == op.id
    && !db.challenges[op.challengeId].used && op.now < db.challenges[op.challengeId].expiresAt
    && db.challenges[op.challengeId].nonceDigest == f.digest(op.nonce)
  }

  predicate Spelled(op: Op)
    requires op.AuthorizeOp?
  {
    UrlSafe(op.id) && UrlSafe(op.challengeId) && UrlSafe(op.nonce) && UrlSafe(op.recipient) && UrlSafe(op.secret)
  }

  /** An endpoint is authorized exactly with the recipient and the secret its envelope was issued
      for and an unanswered challenge of it, once; the challenge is used up and a ticket for three
      downloads opened, for two minutes or as long as the grant. */
  lemma AuthorizeExact(f: Fixed, w: World, op: Op)
    requires op.AuthorizeOp?
    ensures Takes(f, w, op) <==>
              && Spelled(op) && Mode(op.mode) && w.db.onDisk && Answered(f, w.db, op)
              && f.digest(op.ticket) !in w.db.tickets
    ensures Takes(f, w, op) ==>
              var g, c := w.db.grants[op.id], w.db.challenges[op.challengeId];
              var late := g.expiresAt as real;
              var expiry := if op.now + 120.0 < late then op.now + 120.0 else late;
              Step(f, w, op) == w.(db := w.db.(
                grants := w.db.grants[op.id := g.(authUsed := true, requestedMode := op.mode)],
                challenges := w.db.challenges[op.challengeId := Challenge(op.id, c.nonceDigest, c.expiresAt, true)],
                tickets := w.db.tickets[f.digest(op.ticket) := Ticket(op.id, expiry, 3)]))
  {
    hide Locator, UrlSafe, Lit;
    LocatorsAre();
    assert MODES[0] == Lit("STANDARD_POLICY") && MODES[1] == Lit("QUICK_RUN_PROCESS_BYPASS");
  }

  /** The rows a sweep at a reading of the clock leaves. */
  predicate Spared(db: Db, sweptAt: real, key: Text) { key in db.downloads && sweptAt < db.downloads[key].expiresAt }

  /** The expiry a mint gives its row: 45 seconds, or as long as the ticket. */
  function MintExpiry(f: Fixed, db: Db, op: Op): real
    requires op.MintOp? && f.digest(op.ticket) in db.tickets
  {
    var late := db.tickets[f.digest(op.ticket)].expiresAt;
    if op.at.mintedAt + 45.0 < late then op.at.mintedAt + 45.0 else late
  }

  /** An unexpired ticket of the envelope with a use left, and a grant that is live and authorized. */
  predicate Mintable(f: Fixed, db: Db, op: Op)
    requires op.MintOp?
  {
    && Live(db, op.id, op.at.selectedAt) && db.grants[op.id].authUsed
    && f.digest(op.ticket) in db.tickets && db.tickets[f.digest(op.ticket)].envelopeId == op.id
    && op.at.checkedAt < db.tickets[f.digest(op.ticket)].expiresAt && db.tickets[f.digest(op.ticket)].remaining >= 1
  }

  /** A download is minted exactly with an unexpired ticket of the envelope that has a use left,
      while the grant is live and authorized, under a token no spared row has. The sweep spares
      exactly the rows that expire after its reading of the clock, unchanged. */
  lemma MintExact(f: Fixed, w: World, op: Op)
    requires op.MintOp?
    ensures Takes(f, w, op) <==>
              && UrlSafe(op.ticket) && w.db.onDisk && Mintable(f, w.db, op)
              && !Spared(w.db, op.at.sweptAt, f.digest(op.token))
    ensures Takes(f, w, op) ==>
              var t, after := w.db.tickets[f.digest(op.ticket)], Step(f, w, op);
              && after.handed == w.handed
              && after.db == w.db.(tickets := after.db.tickets, downloads := after.db.downloads)
              && after.db.tickets == w.db.tickets[f.digest(op.ticket) := Ticket(op.id, t.expiresAt, t.remaining - 1)]
              && (forall d :: d in after.db.downloads <==> d == f.digest(op.token) || Spared(w.db, op.at.sweptAt, d))
              && forall d :: d in after.db.downloads ==>
                   after.db.downloads[d]
                   == if d == f.digest(op.token) then Download(op.id, MintExpiry(f, w.db, op), false)
                     else w.db.downloads[d]
  {
    hide Locator, UrlSafe;
    LocatorsAre();
  }

  /** A download is redeemed exactly by its token for its envelope, once, before it expires and
      while the grant is live and authorized. */
  lemma RedeemExact(f: Fixed, w: World, op: Op)
    requires op.RedeemOp?
    ensures Takes(f, w, op) <==>
              && UrlSafe(op.token) && w.db.onDisk && Live(w.db, op.id, op.now) && w.db.grants[op.id].authUsed
              && f.digest(op.token) in w.db.downloads && w.db.downloads[f.digest(op.token)].envelopeId == op.id
              && !w.db.downloads[f.digest(op.token)].used
              && op.now < w.db.downloads[f.digest(op.token)].expiresAt
    ensures Takes(f, w, op) ==>
              var d := w.db.downloads[f.digest(op.token)];
              Step(f, w, op) == w.(db := w.db.(
                downloads := w.db.downloads[f.digest(op.token) := Download(op.id, d.expiresAt, true)]))
  {
    hide Locator, UrlSafe;
    LocatorsAre();
  }

  // ----- which error a refusal raises

  lemma IssuanceRefused(f: Fixed, db: Db, op: Op)
    requires op.BeginOp? && NoncesIndexed(db)
    ensures Transact(f, db, op) == Failure(SessionError) <==> !Offered(f, op)
    ensures Transact(f, db, op) == Failure(Replay) <==> Offered(f, op) && !Issuable(f, db, op)
  {
    hide Locator, UrlSafe, Lit;
    LocatorsAre();
  }

  /** The first of five conditions that holds. */
  lemma ActivationRefused(f: Fixed, db: Db, op: Op)
    requires op.ActivateOp?
    ensures var unbound := op.provenance.Some?
                           && (!op.provenance.value.bound || op.provenance.value.buildDigest != op.build);
            var bare := op.network && (op.provenance.None? || op.e.schemaVersion != 2 || op.bundle.None?);
            var open := op.e.envelopeId in db.grants && db.grants[op.e.envelopeId].state == Preparing
                        && !db.grants[op.e.envelopeId].used;
            var r := Transact(f, db, op);
            && (r == Failure(AttestationScope) <==> unbound)
            && (r == Failure(Enrollment) <==> !unbound && bare)
            && (r == Failure(Storage) <==> !unbound && !bare && !op.prepared)
            && (r == Failure(SessionError) <==> !unbound && !bare && op.prepared && !db.onDisk)
            && (r == Failure(IssuanceState) <==> !unbound && !bare && op.prepared && db.onDisk && !open)
  {
  }

  /** A used row is a replay, an unauthorized network row an authorization error, and anything
      else a session error. */
  lemma ConsumptionRefused(f: Fixed, db: Db, op: Op)
    requires op.ConsumeOp? && NoncesIndexed(db) && (db.grants != map[] ==> db.onDisk)
    ensures var safe := UrlSafe(op.nonce) && (op.id != [] ==> UrlSafe(op.id));
            var r := Transact(f, db, op);
            && (r == Failure(Replay) <==> safe && exists id :: Named(f, db, op, id) && db.grants[id].used)
            && (r == Failure(AuthorizationError) <==>
                  safe && exists id ::
                    && Named(f, db, op, id) && !db.grants[id].used
                    && db.grants[id].networkEnabled && !db.grants[id].authUsed)
            && (r == Failure(SessionError) <==> !safe || forall id :: !Named(f, db, op, id))
  {
    hide Locator, UrlSafe;
    LocatorsAre();
    if f.digest(op.nonce) in db.byNonce {
      var id := db.byNonce[f.digest(op.nonce)];
      assert forall other :: Named(f, db, op, other) ==> other == id;
    }
  }

  /** An envelope that cannot be authorized any more, or never, is told apart from one that is not
      there, not READY or expired. */
  lemma ReadingRefused(db: Db, id: Text, checkedAt: real, readAt: real)
    ensures var current := db.onDisk && id in db.grants && db.grants[id].state == Ready
                           && checkedAt < db.grants[id].expiresAt as real;
            var r := ReadChallenge(db, id, checkedAt, readAt);
            && (r == Failure(SessionError) <==> !current)
            && (r == Failure(AuthorizationError) <==>
                  current && (!db.grants[id].networkEnabled || db.grants[id].authUsed || db.grants[id].used))
  {
  }

  lemma InsertionRefused(f: Fixed, db: Db, op: Op)
    requires op.InsertOp?
    ensures var open := |set c | c in db.challenges && Left(db, op.now, c) && db.challenges[c].envelopeId == op.id|;
            var r := Transact(f, db, op);
            && (r == Failure(SessionError) <==> !db.onDisk)
            && (r == Failure(ChallengeError) <==> db.onDisk && open >= 32)
            && (r == Failure(Replay) <==> db.onDisk && open < 32 && Left(db, op.now, op.identifier))
  {
    hide OpenChallenges;
    OpenIs(db, op.now, op.id);
  }

  lemma AuthorizationRefused(f: Fixed, db: Db, op: Op)
    requires op.AuthorizeOp?
    ensures var r := Transact(f, db, op);
            && (r == Failure(ModeError) <==> Spelled(op) && !Mode(op.mode))
            && (r == Failure(SessionError) <==> Spelled(op) && Mode(op.mode) && !db.onDisk)
            && (r == Failure(AuthorizationError) <==>
                  !Spelled(op) || (Mode(op.mode) && db.onDisk && !Answered(f, db, op)))
            && (r == Failure(Replay) <==>
                  Spelled(op) && Mode(op.mode) && db.onDisk && Answered(f, db, op) && f.digest(op.ticket) in db.tickets)
  {
    hide Locator, UrlSafe, Lit;
    LocatorsAre();
    assert MODES[0] == Lit("STANDARD_POLICY") && MODES[1] == Lit("QUICK_RUN_PROCESS_BYPASS");
  }

  lemma MintRefused(f: Fixed, db: Db, op: Op)
    requires op.MintOp?
    ensures var r, taken := Transact(f, db, op), Spared(db, op.at.sweptAt, f.digest(op.token));
            && (r == Failure(SessionError) <==> UrlSafe(op.ticket) && !db.onDisk)
            && (r == Failure(DownloadError) <==> !UrlSafe(op.ticket) || (db.onDisk && !Mintable(f, db, op)))
            && (r == Failure(Replay) <==> UrlSafe(op.ticket) && db.onDisk && Mintable(f, db, op) && taken)
  {
    hide Locator, UrlSafe;
    LocatorsAre();
  }

  lemma RedeemRefused(f: Fixed, w: World, op: Op)
    requires op.RedeemOp?
    ensures Transact(f, w.db, op) == Failure(SessionError) <==> UrlSafe(op.token) && !w.db.onDisk
    ensures Transact(f, w.db, op) == Failure(DownloadError) <==>
              !Takes(f, w, op) && (UrlSafe(op.token) ==> w.db.onDisk)
  {
    hide Locator, UrlSafe;
    LocatorsAre();
  }

  // ----- what a redemption needs of the run before it

  /** Minted at m, neither minted again nor redeemed since, and spared by every sweep since. */
  ghost predicate Waiting(f: Fixed, ops: seq<Op>, m: int, key: Text) {
    && 0 <= m < |ops| && ops[m].MintOp? && f.digest(ops[m].token) == key && Takes(f, Run(f, ops[..m]), ops[m])
    && f.digest(ops[m].ticket) in Run(f, ops[..m]).db.tickets
    && (forall k :: m < k < |ops| && Takes(f, Run(f, ops[..k]), ops[k]) && ops[k].RedeemOp? ==>
          f.digest(ops[k].token) != key)
    && forall k :: m < k < |ops| && Takes(f, Run(f, ops[..k]), ops[k]) && ops[k].MintOp? ==>
         f.digest(ops[k].token) != key && ops[k].at.sweptAt < MintExpiry(f, Run(f, ops[..m]).db, ops[m])
  }

  /** What the last transaction does to a waiting download. */
  ghost predicate Spoils(f: Fixed, w: World, op: Op, key: Text, expiry: real) {
    Takes(f, w, op) &&
    ((op.RedeemOp? && f.digest(op.token) == key)
     || (op.MintOp? && (f.digest(op.token) == key || expiry <= op.at.sweptAt)))
  }

  lemma WaitingEarlier(f: Fixed, ops: seq<Op>, op: Op, m: int, key: Text)
    requires m < |ops|
    ensures Waiting(f, ops + [op], m, key) <==>
              Waiting(f, ops, m, key) && !Spoils(f, Run(f, ops), op, key, MintExpiry(f, Run(f, ops[..m]).db, ops[m]))
  {
    hide Run, Takes;
    var all := ops + [op];
    if 0 <= m {
      assert all[..m] == ops[..m] && all[..|ops|] == ops && all[|ops|] == op;
      assert forall k :: m < k < |ops| ==> all[..k] == ops[..k] && all[k] == ops[k];
    }
  }

  lemma WaitingNow(f: Fixed, ops: seq<Op>, op: Op, key: Text)
    ensures Waiting(f, ops + [op], |ops|, key) <==>
              op.MintOp? && f.digest(op.token) == key && Takes(f, Run(f, ops), op)
  {
    hide Run, Takes, Live, UrlSafe;
    assert (ops + [op])[..|ops|] == ops;
    if op.MintOp? {
      MintExact(f, Run(f, ops), op);
    }
  }

  lemma WaitingInside(f: Fixed, ops: seq<Op>, m: int, key: Text)
    ensures Waiting(f, ops, m, key) ==>
              0 <= m < |ops| && ops[m].MintOp? && f.digest(ops[m].ticket) in Run(f, ops[..m]).db.tickets
  {
  }

  /** What one transaction does to the rows that can still be redeemed. */
  lemma DownloadStep(f: Fixed, w: World, op: Op, key: Text)
    ensures var rows, next := w.db.downloads, Step(f, w, op).db.downloads;
            if Takes(f, w, op) && op.MintOp? && f.digest(op.token) == key then
              && f.digest(op.ticket) in w.db.tickets && key in next
              && next[key] == Download(op.id, MintExpiry(f, w.db, op), false)
            else if key in rows && !rows[key].used then
              if Spoils(f, w, op, key, rows[key].expiresAt) then key !in next || next[key].used
              else key in next && next[key] == rows[key]
            else key !in next || next[key].used
  {
    hide Step, Takes, Live, UrlSafe;
    if op.MintOp? {
      MintExact(f, w, op);
      NotTaken(f, w, op);
    } else if op.RedeemOp? {
      RedeemExact(f, w, op);
      NotTaken(f, w, op);
    } else {
      OtherDownloads(f, w, op);
    }
  }

  lemma NotTaken(f: Fixed, w: World, op: Op)
    ensures !Takes(f, w, op) ==> Step(f, w, op) == w
  {
  }

  /** The row is there, unused, as the mint at m made it. */
  ghost predicate Unspent(f: Fixed, ops: seq<Op>, db: Db, key: Text, m: int)
    requires Waiting(f, ops, m, key)
  {
    key in db.downloads
    && db.downloads[key] == Download(ops[m].id, MintExpiry(f, Run(f, ops[..m]).db, ops[m]), false)
  }

  lemma UnspentEarlier(f: Fixed, ops: seq<Op>, op: Op, m: int, key: Text, db: Db)
    requires m < |ops| && Waiting(f, ops, m, key) && Waiting(f, ops + [op], m, key)
    ensures Unspent(f, ops, db, key, m) <==> Unspent(f, ops + [op], db, key, m)
  {
    hide Run, Takes;
    assert (ops + [op])[..m] == ops[..m];
  }

  /** After every run, the rows that can still be redeemed are exactly those of the mints that
      wait, with the envelope and the expiry they were minted with. */
  lemma {:induction false} DownloadsExact(f: Fixed, ops: seq<Op>, key: Text)
    ensures var db := Run(f, ops).db;
            key in db.downloads && !db.downloads[key].used ==> exists m :: Waiting(f, ops, m, key)
    ensures forall m :: Waiting(f, ops, m, key) ==> Unspent(f, ops, Run(f, ops).db, key, m)
  {
    hide Step, Takes, Waiting, Spoils;
    if ops == [] {
      NoneWaiting(f, key);
    } else {
      var before, op := ops[..|ops| - 1], ops[|ops| - 1];
      assert ops == before + [op];
      DownloadsExact(f, before, key);
      SurvivorWaits(f, before, op, key);
      forall m | Waiting(f, ops, m, key)
        ensures Unspent(f, ops, Run(f, ops).db, key, m)
      {
        WaiterSurvives(f, before, op, key, m);
      }
    }
  }

  lemma SurvivorWaits(f: Fixed, ops: seq<Op>, op: Op, key: Text)
    requires var db := Run(f, ops).db;
             key in db.downloads && !db.downloads[key].used ==> exists m :: Waiting(f, ops, m, key)
    requires forall m :: Waiting(f, ops, m, key) ==> Unspent(f, ops, Run(f, ops).db, key, m)
    ensures var db := Step(f, Run(f, ops), op).db;
            key in db.downloads && !db.downloads[key].used ==> exists m :: Waiting(f, ops + [op], m, key)
  {
    hide Step, Takes, Waiting, Spoils, Run;
    var w := Run(f, ops);
    DownloadStep(f, w, op, key);
    WaitingNow(f, ops, op, key);
    if key in w.db.downloads && !w.db.downloads[key].used {
      var m :| Waiting(f, ops, m, key);
      WaitingInside(f, ops, m, key);
      WaitingEarlier(f, ops, op, m, key);
    }
  }

  lemma WaiterSurvives(f: Fixed, ops: seq<Op>, op: Op, key: Text, m: int)
    requires forall k :: Waiting(f, ops, k, key) ==> Unspent(f, ops, Run(f, ops).db, key, k)
    requires Waiting(f, ops + [op], m, key)
    ensures Unspent(f, ops + [op], Step(f, Run(f, ops), op).db, key, m)
  {
    hide Step, Takes, Waiting, Run;
    var w, all := Run(f, ops), ops + [op];
    WaitingInside(f, all, m, key);
    DownloadStep(f, w, op, key);
    if m == |ops| {
      WaitingNow(f, ops, op, key);
      assert all[..m] == ops;
    } else {
      WaitingEarlier(f, ops, op, m, key);
      assert all[..m] == ops[..m];
      UnspentEarlier(f, ops, op, m, key, w.db);
    }
  }

  lemma NoneWaiting(f: Fixed, key: Text)
    ensures forall m :: !Waiting(f, [], m, key)
  {
  }

  /** After every run a redemption is taken exactly when its token was minted for the envelope, has
      been neither minted again nor redeemed since, expires after the reading of every sweep since
      and after its own, and the grant is READY, for the network, authorized, unused and
      unexpired. */
  lemma RedemptionExact(f: Fixed, ops: seq<Op>, op: Op)
    requires op.RedeemOp?
    ensures var db := Run(f, ops).db;
            Takes(f, Run(f, ops), op) <==>
              && UrlSafe(op.token) && op.id in db.grants
              && db.grants[op.id].state == Ready && db.grants[op.id].networkEnabled && db.grants[op.id].authUsed
              && !db.grants[op.id].used && op.now < db.grants[op.id].expiresAt as real
              && exists m ::
                   && Waiting(f, ops, m, f.digest(op.token)) && ops[m].id == op.id
                   && op.now < MintExpiry(f, Run(f, ops[..m]).db, ops[m])
  {
    hide Run, Takes, UrlSafe, Waiting;
    var w, key := Run(f, ops), f.digest(op.token);
    forall m
      ensures Waiting(f, ops, m, key) ==>
                0 <= m < |ops| && ops[m].MintOp? && f.digest(ops[m].ticket) in Run(f, ops[..m]).db.tickets
    {
      WaitingInside(f, ops, m, key);
    }
    RedeemExact(f, w, op);
    DownloadsExact(f, ops, key);
    RowsOnDisk(f, ops);
  }

  /** So a token that was minted can be redeemed after any number of later mints, as long as the
      clock of none of them has reached its expiry. */
  lemma LaterMintSpares(f: Fixed, ops: seq<Op>, mint: Op, key: Text)
    requires mint.MintOp? && f.digest(mint.token) != key
    requires key in Run(f, ops).db.downloads && mint.at.sweptAt < Run(f, ops).db.downloads[key].expiresAt
    ensures var next := Run(f, ops + [mint]).db.downloads;
            key in next && next[key] == Run(f, ops).db.downloads[key]
  {
    hide Step, Takes, Live, UrlSafe;
    assert (ops + [mint])[..|ops|] == ops;
    MintExact(f, Run(f, ops), mint);
    NotTaken(f, Run(f, ops), mint);
  }
}
