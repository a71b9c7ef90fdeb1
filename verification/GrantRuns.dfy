/**
 Every interleaving of grant transactions: what a run of them, in any order, with any
 arguments, clock readings and tokens, can have done to one session's database.
 */
module GrantRuns {
  import opened Wrappers
  import opened Unicode
  import opened TrustedGrants

  datatype Op =
    | BeginOp(e: Envelope, privateProof: Text, authSecret: Option<Text>, now: real)
    | ActivateOp(e: Envelope, build: Text, provenance: Option<Provenance>, bundle: Option<Text>, network: bool,
                 prepared: bool)
    | FailOp(id: Text, code: Text)
    | ReconcileOp(missing: set<Text>)
    | ConsumeOp(id: Text, nonce: Text, submissionId: Text, transport: Text, now: real)
    | ReadOp(id: Text, checkedAt: real, readAt: real)
    | InsertOp(id: Text, expires: real, identifier: Text, nonce: Text, now: real)
    | AuthorizeOp(id: Text, challengeId: Text, nonce: Text, recipient: Text, secret: Text, mode: Text, ticket: Text,
                  now: real)
    | MintOp(id: Text, ticket: Text, token: Text, at: Readings)
    | RedeemOp(id: Text, token: Text, now: real)

  datatype Handover = Handover(id: Text, expires: real)

  /** Handed holds what first challenge transactions have passed to second ones. */
  datatype World = World(db: Db, handed: set<Handover>)

  const START := World(NO_FILE, {})

  /** The digest function and the session the database belongs to. */
  datatype Fixed = Fixed(digest: Digest, session: SessionKey)

  function Transact(f: Fixed, db: Db, op: Op): Result<Db, TrustError> {
    match op
    case BeginOp(e, proof, secret, now) => BeginIssue(f.digest, db, f.session, e, proof, secret, now)
    case ActivateOp(e, build, provenance, bundle, network, prepared) =>
      Activate(db, e, build, provenance, bundle, network, prepared)
    case FailOp(id, code) => Success(FailIssue(db, id, code))
    case ReconcileOp(missing) => Success(Reconcile(db, missing))
    case ConsumeOp(id, nonce, submissionId, transport, now) =>
      Consume(f.digest, db, id, nonce, submissionId, transport, now)
    case ReadOp(id, checkedAt, readAt) =>
      if ReadChallenge(db, id, checkedAt, readAt).Success? then Success(db) else Failure(SessionError)
    case InsertOp(id, expires, identifier, nonce, now) =>
      InsertChallenge(f.digest, db, id, expires, identifier, nonce, now)
    case AuthorizeOp(id, challengeId, nonce, recipient, secret, mode, ticket, now) =>
      Authorize(f.digest, db, id, challengeId, nonce, recipient, secret, mode, ticket, now)
    case MintOp(id, ticket, token, at) => MintDownload(f.digest, db, id, ticket, token, at)
    case RedeemOp(id, token, now) => ConsumeDownload(f.digest, db, id, token, now)
  }

  /** A second challenge transaction only runs with what a first one handed it. */
  predicate Takes(f: Fixed, w: World, op: Op) {
    Transact(f, w.db, op).Success? && (op.InsertOp? ==> Handover(op.id, op.expires) in w.handed)
  }

  function Step(f: Fixed, w: World, op: Op): World {
    if !Takes(f, w, op) then w
    else
      var handed :=
        if op.ReadOp? then {Handover(op.id, ReadChallenge(w.db, op.id, op.checkedAt, op.readAt).value)} else {};
      World(Transact(f, w.db, op).value, w.handed + handed)
  }

  function Run(f: Fixed, ops: seq<Op>): World {
    if ops == [] then START else Step(f, Run(f, ops[..|ops| - 1]), ops[|ops| - 1])
  }

  /** How many transactions of a kind committed in a run. */
  function Count(f: Fixed, ops: seq<Op>, kind: Op -> bool): nat {
    if ops == [] then 0
    else
      var before, op := ops[..|ops| - 1], ops[|ops| - 1];
      Count(f, before, kind) + if kind(op) && Takes(f, Run(f, before), op) then 1 else 0
  }

  function MintFor(id: Text): Op -> bool { (op: Op) => op.MintOp? && op.id == id }

  function MintOf(f: Fixed, token: Text): Op -> bool { (op: Op) => op.MintOp? && f.digest(op.token) == token }

  function RedeemOf(f: Fixed, token: Text): Op -> bool { (op: Op) => op.RedeemOp? && f.digest(op.token) == token }

  // ----- grants only move forward

  /** FAILED and used are absorbing; a grant's identity, nonce, recipient, expiry and profile
      never change, nor do its build, provenance and reach once it is READY. */
  predicate Evolves(g: Grant, h: Grant) {
    && h.nonceDigest == g.nonceDigest && h.recipientId == g.recipientId && h.expiresAt == g.expiresAt
    && h.profileDigest == g.profileDigest && h.authSecretDigest == g.authSecretDigest
    && (g.state == Failed || g.used ==> h == g)
    && (g.state == Ready ==> h.state != Preparing && h.buildDigest == g.buildDigest && h.provenance == g.provenance
                             && h.bundlePath == g.bundlePath && h.networkEnabled == g.networkEnabled)
    && (g.authUsed ==> h.authUsed && h.requestedMode == g.requestedMode)
  }

  ghost predicate DbEvolves(before: Db, after: Db) {
    && (before.onDisk ==> after.onDisk)
    && forall id :: id in before.grants ==> id in after.grants && Evolves(before.grants[id], after.grants[id])
  }

  lemma IssuanceEvolves(f: Fixed, db: Db, op: Op, id: Text)
    requires op.BeginOp? || op.ActivateOp? || op.FailOp?
    requires id in db.grants && Transact(f, db, op).Success?
    ensures id in Transact(f, db, op).value.grants && Evolves(db.grants[id], Transact(f, db, op).value.grants[id])
  {
    hide Locator, LocatorChar, Lit, Least, OpenChallenges;
  }

  lemma ReconcileEvolves(db: Db, missing: set<Text>, id: Text)
    requires id in db.grants
    ensures id in Reconcile(db, missing).grants && Evolves(db.grants[id], Reconcile(db, missing).grants[id])
  {
    hide Lit;
  }

  lemma UseEvolves(f: Fixed, db: Db, op: Op, id: Text)
    requires !op.BeginOp? && !op.ActivateOp? && !op.FailOp? && !op.ReconcileOp?
    requires id in db.grants && Transact(f, db, op).Success?
    ensures id in Transact(f, db, op).value.grants && Evolves(db.grants[id], Transact(f, db, op).value.grants[id])
  {
    hide Locator, LocatorChar, Lit, Least, OpenChallenges;
  }

  lemma StepEvolvesOne(f: Fixed, w: World, op: Op, id: Text)
    requires id in w.db.grants
    ensures id in Step(f, w, op).db.grants && Evolves(w.db.grants[id], Step(f, w, op).db.grants[id])
  {
    hide Locator, LocatorChar, Lit, Least, OpenChallenges, ReadChallenge, Reconcile;
    if Takes(f, w, op) {
      if op.ReconcileOp? {
        ReconcileEvolves(w.db, op.missing, id);
      } else if op.BeginOp? || op.ActivateOp? || op.FailOp? {
        IssuanceEvolves(f, w.db, op, id);
      } else {
        UseEvolves(f, w.db, op, id);
      }
    }
  }

  lemma StepEvolves(f: Fixed, w: World, op: Op)
    ensures DbEvolves(w.db, Step(f, w, op).db)
  {
    hide Locator, LocatorChar, Lit, Least, OpenChallenges, Evolves;
    forall id | id in w.db.grants
      ensures id in Step(f, w, op).db.grants && Evolves(w.db.grants[id], Step(f, w, op).db.grants[id])
    {
      StepEvolvesOne(f, w, op, id);
    }
  }

  lemma {:induction false} RunEvolves(f: Fixed, ops: seq<Op>, n: nat)
    requires n <= |ops|
    ensures DbEvolves(Run(f, ops[..n]).db, Run(f, ops).db)
    decreases |ops|
  {
    hide Step;
    if n == |ops| {
      assert ops[..n] == ops;
    } else {
      var before := ops[..|ops| - 1];
      assert before[..n] == ops[..n];
      RunEvolves(f, before, n);
      StepEvolves(f, Run(f, before), ops[|ops| - 1]);
    }
  }

  // ----- the shape of the tables

  /** The UNIQUE index points where it should, so no two grants share a nonce. */
  ghost predicate NoncesIndexed(db: Db) {
    && (forall id :: id in db.grants ==>
          db.grants[id].nonceDigest in db.byNonce && db.byNonce[db.grants[id].nonceDigest] == id)
    && (forall n :: n in db.byNonce ==> db.byNonce[n] in db.grants && db.grants[db.byNonce[n]].nonceDigest == n)
  }

  predicate GrantSound(g: Grant) {
    && (g.used ==> g.state == Ready)
    && (g.authUsed ==> g.networkEnabled && g.state != Preparing)
    && (g.used && g.networkEnabled ==> g.authUsed)
    && (g.state == Preparing ==> !g.networkEnabled)
  }

  ghost predicate GrantsSound(db: Db) { forall id :: id in db.grants ==> GrantSound(db.grants[id]) }

  ghost predicate TicketsSound(db: Db) {
    && (forall t :: t in db.tickets ==>
          var row := db.tickets[t];
          && row.envelopeId in db.grants && db.grants[row.envelopeId].authUsed
          && row.expiresAt <= db.grants[row.envelopeId].Expiry() && 0 <= row.remaining <= 3)
    && (forall s, t ::
          s in db.tickets && t in db.tickets && db.tickets[s].envelopeId == db.tickets[t].envelopeId ==> s == t)
    && (forall id :: id in db.grants && db.grants[id].authUsed ==> HasTicket(db, id))
  }

  ghost predicate HasTicket(db: Db, id: Text) { exists t :: t in db.tickets && db.tickets[t].envelopeId == id }

  /** A download expires no later than the ticket it was minted from, which belongs to the
      same envelope. */
  ghost predicate DownloadsSound(db: Db) {
    forall d :: d in db.downloads ==>
      exists t :: t in db.tickets && db.tickets[t].envelopeId == db.downloads[d].envelopeId
                  && db.downloads[d].expiresAt <= db.tickets[t].expiresAt
  }

  ghost predicate ChallengesSound(w: World) {
    && (forall c :: c in w.db.challenges ==>
          && w.db.challenges[c].envelopeId in w.db.grants
          && w.db.challenges[c].expiresAt <= w.db.grants[w.db.challenges[c].envelopeId].Expiry())
    && (forall p :: p in w.handed ==> p.id in w.db.grants && p.expires <= w.db.grants[p.id].Expiry())
  }

  /** Only issuance adds a grant, under a new ID and a new nonce. */
  lemma StepGrantRows(f: Fixed, w: World, op: Op)
    ensures var after := Step(f, w, op).db;
            if op.BeginOp? && Takes(f, w, op) then
              && op.e.envelopeId !in w.db.grants && op.e.envelopeId in after.grants
              && var g := after.grants[op.e.envelopeId];
                 && g.nonceDigest !in w.db.byNonce && GrantSound(g) && !g.used && !g.authUsed
                 && after.grants == w.db.grants[op.e.envelopeId := g]
                 && after.byNonce == w.db.byNonce[g.nonceDigest := op.e.envelopeId]
            else after.grants.Keys == w.db.grants.Keys && after.byNonce == w.db.byNonce
  {
    hide Locator, LocatorChar, Lit, Least;
  }

  lemma StepNonces(f: Fixed, w: World, op: Op)
    requires NoncesIndexed(w.db)
    ensures NoncesIndexed(Step(f, w, op).db)
  {
    hide Step, Transact, Takes;
    StepGrantRows(f, w, op);
    StepEvolves(f, w, op);
  }

  lemma StepGrants(f: Fixed, w: World, op: Op)
    requires GrantsSound(w.db)
    ensures GrantsSound(Step(f, w, op).db)
  {
    hide Locator, LocatorChar, Lit, Least;
  }

  /** Only authorization opens a ticket and only minting draws on one. */
  lemma StepTicketRows(f: Fixed, w: World, op: Op)
    ensures var after := Step(f, w, op).db;
            if op.AuthorizeOp? && Takes(f, w, op) then
              && f.digest(op.ticket) !in w.db.tickets && op.id in w.db.grants && !w.db.grants[op.id].authUsed
              && after.tickets == w.db.tickets[f.digest(op.ticket) :=
                   Ticket(op.id, Least(op.now + 120.0, w.db.grants[op.id].Expiry()), 3)]
              && after.grants == w.db.grants[op.id := after.grants[op.id]] && after.grants[op.id].authUsed
            else if op.MintOp? && Takes(f, w, op) then
              && after.grants == w.db.grants && f.digest(op.ticket) in w.db.tickets
              && var row := w.db.tickets[f.digest(op.ticket)];
                 && row.envelopeId == op.id && row.remaining > 0
                 && after.tickets == w.db.tickets[f.digest(op.ticket) := row.(remaining := row.remaining - 1)]
            else after.tickets == w.db.tickets
    ensures !(op.AuthorizeOp? && Takes(f, w, op)) ==>
              forall id :: id in Step(f, w, op).db.grants && Step(f, w, op).db.grants[id].authUsed ==>
                id in w.db.grants && w.db.grants[id].authUsed
  {
  }

  lemma StepHasTicket(f: Fixed, w: World, op: Op, id: Text)
    requires TicketsSound(w.db) && id in Step(f, w, op).db.grants && Step(f, w, op).db.grants[id].authUsed
    ensures HasTicket(Step(f, w, op).db, id)
  {
    hide Step, Transact, Takes;
    var after := Step(f, w, op).db;
    StepTicketRows(f, w, op);
    if id in w.db.grants && w.db.grants[id].authUsed {
      var t :| t in w.db.tickets && w.db.tickets[t].envelopeId == id;
      assert t in after.tickets && after.tickets[t].envelopeId == id;
    } else {
      assert f.digest(op.ticket) in after.tickets && after.tickets[f.digest(op.ticket)].envelopeId == id;
    }
  }

  lemma StepTickets(f: Fixed, w: World, op: Op)
    requires TicketsSound(w.db)
    ensures TicketsSound(Step(f, w, op).db)
  {
    hide Step, Transact, Takes, HasTicket;
    var after := Step(f, w, op).db;
    StepTicketRows(f, w, op);
    StepEvolves(f, w, op);
    forall id | id in after.grants && after.grants[id].authUsed
      ensures HasTicket(after, id)
    {
      StepHasTicket(f, w, op, id);
    }
    if op.AuthorizeOp? && Takes(f, w, op) {
      AuthorizedNoTicket(w.db, op.id);
    }
  }

  /** An envelope not yet authorized has no ticket. */
  lemma AuthorizedNoTicket(db: Db, id: Text)
    requires TicketsSound(db) && id in db.grants && !db.grants[id].authUsed
    ensures forall t :: t in db.tickets ==> db.tickets[t].envelopeId != id
  {
  }

  /** Only minting adds a download; expired rows may go with it. */
  lemma StepDownloadRows(f: Fixed, w: World, op: Op)
    ensures var after := Step(f, w, op).db;
            forall d :: d in after.downloads ==>
              if op.MintOp? && Takes(f, w, op) && d == f.digest(op.token) then
                && f.digest(op.ticket) in w.db.tickets && w.db.tickets[f.digest(op.ticket)].envelopeId == op.id
                && after.downloads[d].envelopeId == op.id && !after.downloads[d].used
                && after.downloads[d].expiresAt <= w.db.tickets[f.digest(op.ticket)].expiresAt
              else
                && d in w.db.downloads && (w.db.downloads[d].used ==> after.downloads[d].used)
                && after.downloads[d].envelopeId == w.db.downloads[d].envelopeId
                && after.downloads[d].expiresAt == w.db.downloads[d].expiresAt
  {
  }

  lemma StepDownloads(f: Fixed, w: World, op: Op)
    requires DownloadsSound(w.db)
    ensures DownloadsSound(Step(f, w, op).db)
  {
    hide Step, Transact, Takes;
    var after := Step(f, w, op).db;
    StepDownloadRows(f, w, op);
    StepTicketRows(f, w, op);
    forall d | d in after.downloads
      ensures exists t :: t in after.tickets && after.tickets[t].envelopeId == after.downloads[d].envelopeId
                          && after.downloads[d].expiresAt <= after.tickets[t].expiresAt
    {
      if op.MintOp? && Takes(f, w, op) && d == f.digest(op.token) {
        assert f.digest(op.ticket) in after.tickets;
      } else {
        var t :| t in w.db.tickets && w.db.tickets[t].envelopeId == w.db.downloads[d].envelopeId
                 && w.db.downloads[d].expiresAt <= w.db.tickets[t].expiresAt;
        assert t in after.tickets;
      }
    }
  }

  /** Only a second challenge transaction adds a challenge, with an expiry handed to it. */
  lemma StepChallengeRows(f: Fixed, w: World, op: Op)
    ensures var after := Step(f, w, op);
            && (forall c :: c in after.db.challenges ==>
                 if c in w.db.challenges && !(op.InsertOp? && Takes(f, w, op) && c == op.identifier) then
                   && after.db.challenges[c].envelopeId == w.db.challenges[c].envelopeId
                   && after.db.challenges[c].expiresAt == w.db.challenges[c].expiresAt
                 else Handover(after.db.challenges[c].envelopeId, after.db.challenges[c].expiresAt) in w.handed)
            && (forall p :: p in after.handed ==>
                 p in w.handed || (p.id in w.db.grants && p.expires <= w.db.grants[p.id].Expiry()))
  {
    hide Locator, LocatorChar, Lit;
  }

  lemma StepChallenges(f: Fixed, w: World, op: Op)
    requires ChallengesSound(w)
    ensures ChallengesSound(Step(f, w, op))
  {
    hide Step, Transact, Takes;
    StepEvolves(f, w, op);
    StepChallengeRows(f, w, op);
  }

  ghost predicate Sound(w: World) {
    NoncesIndexed(w.db) && GrantsSound(w.db) && TicketsSound(w.db) && DownloadsSound(w.db) && ChallengesSound(w)
  }

  lemma StepSound(f: Fixed, w: World, op: Op)
    requires Sound(w)
    ensures Sound(Step(f, w, op))
  {
    hide Step, NoncesIndexed, GrantsSound, TicketsSound, DownloadsSound, ChallengesSound;
    StepNonces(f, w, op);
    StepGrants(f, w, op);
    StepTickets(f, w, op);
    StepDownloads(f, w, op);
    StepChallenges(f, w, op);
  }

  lemma StartTickets()
    ensures TicketsSound(NO_FILE)
  {
  }

  lemma StartSound()
    ensures Sound(START)
  {
    hide GrantSound, TicketsSound;
    StartTickets();
  }

  /** The shape holds after every run: in particular downloads, tickets, challenges and
      grants expire in nested order, and an envelope never has two tickets. */
  lemma {:induction false} RunSound(f: Fixed, ops: seq<Op>)
    ensures Sound(Run(f, ops))
  {
    hide Step, Sound;
    if ops == [] {
      StartSound();
    } else {
      RunSound(f, ops[..|ops| - 1]);
      StepSound(f, Run(f, ops[..|ops| - 1]), ops[|ops| - 1]);
    }
  }

  // ----- conservation of downloads

  /** The uses an envelope has left: three before authorization. */
  ghost function Remaining(db: Db, id: Text): (n: int) {
    if HasTicket(db, id) then
      var t :| t in db.tickets && db.tickets[t].envelopeId == id;
      db.tickets[t].remaining
    else 3
  }

  lemma RemainingIs(db: Db, id: Text, t: Text)
    requires TicketsSound(db) && t in db.tickets && db.tickets[t].envelopeId == id
    ensures HasTicket(db, id) && Remaining(db, id) == db.tickets[t].remaining
  {
    assert HasTicket(db, id);
  }

  lemma StepRemaining(f: Fixed, w: World, op: Op, id: Text)
    requires TicketsSound(w.db)
    ensures Remaining(Step(f, w, op).db, id)
            == Remaining(w.db, id) - if MintFor(id)(op) && Takes(f, w, op) then 1 else 0
  {
    hide Step, Transact, Takes, Remaining, TicketsSound;
    var after := Step(f, w, op).db;
    StepTicketRows(f, w, op);
    StepTickets(f, w, op);
    if HasTicket(w.db, id) {
      var t :| t in w.db.tickets && w.db.tickets[t].envelopeId == id;
      OneTicket(w.db, t);
      RemainingIs(w.db, id, t);
      RemainingIs(after, id, t);
    } else if HasTicket(after, id) {
      var t :| t in after.tickets && after.tickets[t].envelopeId == id;
      RemainingIs(after, id, t);
      NoTicket(w.db, id);
    } else {
      NoTicket(w.db, id);
      NoTicket(after, id);
    }
  }

  lemma OneTicket(db: Db, t: Text)
    requires TicketsSound(db) && t in db.tickets
    ensures forall s :: s in db.tickets && db.tickets[s].envelopeId == db.tickets[t].envelopeId ==> s == t
  {
  }

  lemma NoTicket(db: Db, id: Text)
    requires !HasTicket(db, id)
    ensures Remaining(db, id) == 3
  {
  }

  /** Uses left plus downloads ever minted make three, for every envelope after every run;
      before authorization nothing has been minted. */
  lemma {:induction false} DownloadsConserved(f: Fixed, ops: seq<Op>, id: Text)
    ensures Remaining(Run(f, ops).db, id) + Count(f, ops, MintFor(id)) == 3
    ensures 0 <= Remaining(Run(f, ops).db, id) <= 3
    ensures id !in Run(f, ops).db.grants || !Run(f, ops).db.grants[id].authUsed ==> Count(f, ops, MintFor(id)) == 0
  {
    hide Step, Takes, Remaining, TicketsSound, HasTicket, NoncesIndexed, GrantsSound, DownloadsSound, ChallengesSound;
    RunSound(f, ops);
    if ops == [] {
      RemainingBounds(NO_FILE, id);
    } else {
      var before := ops[..|ops| - 1];
      RunSound(f, before);
      DownloadsConserved(f, before, id);
      StepRemaining(f, Run(f, before), ops[|ops| - 1], id);
    }
    RemainingBounds(Run(f, ops).db, id);
  }

  lemma RemainingBounds(db: Db, id: Text)
    requires TicketsSound(db)
    ensures 0 <= Remaining(db, id) <= 3
    ensures id !in db.grants || !db.grants[id].authUsed ==> Remaining(db, id) == 3
  {
    hide Remaining;
    if HasTicket(db, id) {
      var t :| t in db.tickets && db.tickets[t].envelopeId == id;
      RemainingIs(db, id, t);
    } else {
      NoTicket(db, id);
    }
  }

  // ----- each minted download is redeemed at most once

  /** One when the row is there and still to be redeemed. */
  function Redeemable(db: Db, token: Text): nat {
    if token in db.downloads && !db.downloads[token].used then 1 else 0
  }

  lemma StepRedeemable(f: Fixed, w: World, op: Op, token: Text)
    ensures Redeemable(Step(f, w, op).db, token) + (if RedeemOf(f, token)(op) && Takes(f, w, op) then 1 else 0)
            <= Redeemable(w.db, token) + if MintOf(f, token)(op) && Takes(f, w, op) then 1 else 0
  {
  }

  /** Redemptions of a token never outnumber the downloads minted under it, although
      expired rows are deleted and the clock may run backwards. */
  lemma {:induction false} RedeemedAtMostMinted(f: Fixed, ops: seq<Op>, token: Text)
    ensures Redeemable(Run(f, ops).db, token) + Count(f, ops, RedeemOf(f, token)) <= Count(f, ops, MintOf(f, token))
  {
    hide Step, Takes;
    if ops == [] {
    } else {
      var before := ops[..|ops| - 1];
      RedeemedAtMostMinted(f, before, token);
      StepRedeemable(f, Run(f, before), ops[|ops| - 1], token);
    }
  }

  /** The transaction mints or redeems the token. */
  predicate TouchesToken(f: Fixed, w: World, op: Op, key: Text) {
    (MintOf(f, key)(op) || RedeemOf(f, key)(op)) && Takes(f, w, op)
  }

  /** The mint at m of a run made the row for the token, and nothing has touched it since. */
  ghost predicate MintedAt(f: Fixed, ops: seq<Op>, m: int, key: Text, id: Text) {
    && 0 <= m < |ops| && MintOf(f, key)(ops[m]) && ops[m].id == id && Takes(f, Run(f, ops[..m]), ops[m])
    && forall k :: m < k < |ops| ==> !TouchesToken(f, Run(f, ops[..k]), ops[k], key)
  }

  lemma MintedEarlier(f: Fixed, ops: seq<Op>, op: Op, m: int, key: Text, id: Text)
    requires MintedAt(f, ops, m, key, id) && !TouchesToken(f, Run(f, ops), op, key)
    ensures MintedAt(f, ops + [op], m, key, id)
  {
    hide Run, Takes, TouchesToken;
    var all := ops + [op];
    assert all[..m] == ops[..m];
    forall k | m < k < |all|
      ensures !TouchesToken(f, Run(f, all[..k]), all[k], key)
    {
      assert all[..k] == if k < |ops| then ops[..k] else ops;
    }
  }

  lemma StepUnused(f: Fixed, w: World, op: Op, key: Text)
    requires key in Step(f, w, op).db.downloads && !Step(f, w, op).db.downloads[key].used
    ensures var row := Step(f, w, op).db.downloads[key];
            if MintOf(f, key)(op) && Takes(f, w, op) then row.envelopeId == op.id
            else
              && !TouchesToken(f, w, op, key)
              && key in w.db.downloads && !w.db.downloads[key].used && w.db.downloads[key].envelopeId == row.envelopeId
  {
  }

  /** A download that can be redeemed was minted by some transaction of the run. */
  lemma {:induction false} DownloadOrigin(f: Fixed, ops: seq<Op>, key: Text) returns (m: int)
    requires key in Run(f, ops).db.downloads && !Run(f, ops).db.downloads[key].used
    ensures MintedAt(f, ops, m, key, Run(f, ops).db.downloads[key].envelopeId)
  {
    hide Step, Takes;
    if ops == [] {
      assert false;
    } else {
      var before, op := ops[..|ops| - 1], ops[|ops| - 1];
      assert ops == before + [op];
      StepUnused(f, Run(f, before), op, key);
      if MintOf(f, key)(op) && Takes(f, Run(f, before), op) {
        m := |before|;
        assert ops[..m] == before;
      } else {
        m := DownloadOrigin(f, before, key);
        MintedEarlier(f, before, op, m, key, Run(f, before).db.downloads[key].envelopeId);
      }
    }
  }

  /** Every redemption of a run goes back to a mint for the same envelope under the same token,
      and the token was neither minted again nor redeemed in between. */
  lemma RedemptionTraced(f: Fixed, ops: seq<Op>, n: nat) returns (m: int)
    requires n < |ops| && ops[n].RedeemOp? && Takes(f, Run(f, ops[..n]), ops[n])
    ensures MintedAt(f, ops[..n], m, f.digest(ops[n].token), ops[n].id)
    ensures DownloadsOpen(Run(f, ops[..n]).db, ops[n].id, ops[n].now)
  {
    hide Run, MintedAt, DownloadsOpen;
    DownloadEarned(f, Run(f, ops[..n]), ops[n]);
    m := DownloadOrigin(f, ops[..n], f.digest(ops[n].token));
  }

  function MintedLive(db: Db, id: Text): set<Text> {
    set d | d in db.downloads && db.downloads[d].envelopeId == id && !db.downloads[d].used
  }

  lemma {:induction false} SubsetSize(a: set<Text>, b: set<Text>)
    requires a <= b
    ensures |a| <= |b|
    decreases a
  {
    if a != {} {
      var x :| x in a;
      SubsetSize(a - {x}, b - {x});
    }
  }

  function RedeemFor(id: Text): Op -> bool { (op: Op) => op.RedeemOp? && op.id == id }

  lemma OtherDownloads(f: Fixed, w: World, op: Op)
    requires !op.MintOp? && !op.RedeemOp?
    ensures Step(f, w, op).db.downloads == w.db.downloads
  {
    hide Locator, LocatorChar, Lit, Least, OpenChallenges;
  }

  lemma StepLive(f: Fixed, w: World, op: Op, id: Text)
    ensures |MintedLive(Step(f, w, op).db, id)| + (if RedeemFor(id)(op) && Takes(f, w, op) then 1 else 0)
            <= |MintedLive(w.db, id)| + if MintFor(id)(op) && Takes(f, w, op) then 1 else 0
  {
    hide Locator, LocatorChar, Lit, Least, DownloadsOpen;
    hide BeginIssue, Activate, FailIssue, Reconcile, Consume, ReadChallenge, InsertChallenge, Authorize;
    var live, after := MintedLive(w.db, id), MintedLive(Step(f, w, op).db, id);
    if op.MintOp? && Takes(f, w, op) {
      var key := f.digest(op.token);
      if op.id == id {
        assert after <= live + {key};
        SubsetSize(after, live + {key});
      } else {
        assert after <= live;
        SubsetSize(after, live);
      }
    } else if op.RedeemOp? && Takes(f, w, op) {
      assert after == live - {f.digest(op.token)};
    } else if !op.MintOp? && !op.RedeemOp? {
      OtherDownloads(f, w, op);
    }
  }

  /** However its tokens are drawn, an envelope is never downloaded more often than it was
      minted for, and so never more than three times. */
  lemma {:induction false} DownloadedAtMostMinted(f: Fixed, ops: seq<Op>, id: Text)
    ensures |MintedLive(Run(f, ops).db, id)| + Count(f, ops, RedeemFor(id)) <= Count(f, ops, MintFor(id)) <= 3
  {
    hide Step, Takes;
    DownloadsConserved(f, ops, id);
    if ops == [] {
    } else {
      var before := ops[..|ops| - 1];
      DownloadedAtMostMinted(f, before, id);
      StepLive(f, Run(f, before), ops[|ops| - 1], id);
    }
  }

  /** Taking a submission ends the download phase: from then on nothing is minted or
      redeemed for the envelope. */
  lemma UsedClosesDownloads(f: Fixed, ops: seq<Op>, n: nat, id: Text)
    requires n < |ops| && id in Run(f, ops[..n]).db.grants
    requires Run(f, ops[..n]).db.grants[id].used || Run(f, ops[..n]).db.grants[id].state == Failed
    requires (ops[|ops| - 1].MintOp? || ops[|ops| - 1].RedeemOp?) && ops[|ops| - 1].id == id
    ensures !Takes(f, Run(f, ops[..|ops| - 1]), ops[|ops| - 1])
  {
    hide Step, Run;
    var before := ops[..|ops| - 1];
    assert before[..n] == ops[..n];
    RunEvolves(f, before, n);
  }

  // ----- authorization

  function AuthorizeFor(id: Text): Op -> bool { (op: Op) => op.AuthorizeOp? && op.id == id }

  function Authorized(db: Db, id: Text): nat { if id in db.grants && db.grants[id].authUsed then 1 else 0 }

  lemma StepAuthorized(f: Fixed, w: World, op: Op, id: Text)
    ensures Authorized(Step(f, w, op).db, id)
            == Authorized(w.db, id) + if AuthorizeFor(id)(op) && Takes(f, w, op) then 1 else 0
  {
    hide Step, Transact, Takes;
    StepTicketRows(f, w, op);
    StepEvolves(f, w, op);
  }

  /** An endpoint is authorized at most once per envelope, and its mark says whether it was. */
  lemma {:induction false} AuthorizedOnce(f: Fixed, ops: seq<Op>, id: Text)
    ensures Count(f, ops, AuthorizeFor(id)) == Authorized(Run(f, ops).db, id)
  {
    hide Step, Takes;
    if ops == [] {
    } else {
      AuthorizedOnce(f, ops[..|ops| - 1], id);
      StepAuthorized(f, Run(f, ops[..|ops| - 1]), ops[|ops| - 1], id);
    }
  }

  /** Authorization takes a READY, unused, unexpired network grant, the recipient and secret
      it was issued for, and an unanswered challenge of the same envelope, which it uses up;
      the ticket lasts two minutes or until the grant expires. */
  lemma AuthorizationEarned(f: Fixed, w: World, op: Op)
    requires op.AuthorizeOp? && Takes(f, w, op)
    ensures op.id in w.db.grants && op.challengeId in w.db.challenges
    ensures var g, c := w.db.grants[op.id], w.db.challenges[op.challengeId];
            && g.state == Ready && g.networkEnabled && !g.used && !g.authUsed && g.Expiry() > op.now
            && g.recipientId == op.recipient && g.authSecretDigest == Some(f.digest(op.secret))
            && c.envelopeId == op.id && !c.used && c.expiresAt > op.now && c.nonceDigest == f.digest(op.nonce)
    ensures var after := Step(f, w, op).db;
            && after.challenges[op.challengeId].used
            && f.digest(op.ticket) in after.tickets && after.tickets[f.digest(op.ticket)].envelopeId == op.id
            && after.tickets[f.digest(op.ticket)].expiresAt <= op.now + 120.0
  {
    hide Locator, LocatorChar, Lit;
  }

  /** Minting and redeeming both need the grant to be READY, authorized, unused and unexpired
      at their own reading of the clock, and the ticket or download itself to be live. */
  lemma DownloadEarned(f: Fixed, w: World, op: Op)
    requires (op.MintOp? || op.RedeemOp?) && Takes(f, w, op)
    ensures op.MintOp? ==>
              && DownloadsOpen(w.db, op.id, op.at.selectedAt) && f.digest(op.ticket) in w.db.tickets
              && w.db.tickets[f.digest(op.ticket)].envelopeId == op.id
              && w.db.tickets[f.digest(op.ticket)].expiresAt > op.at.checkedAt
    ensures op.RedeemOp? ==>
              && DownloadsOpen(w.db, op.id, op.now) && f.digest(op.token) in w.db.downloads
              && var row := w.db.downloads[f.digest(op.token)];
                 row.envelopeId == op.id && !row.used && row.expiresAt > op.now
  {
    hide Locator, LocatorChar, Lit, DownloadsOpen;
  }

  /** A count is not zero without a transaction that it counts. */
  lemma {:induction false} CountedAt(f: Fixed, ops: seq<Op>, kind: Op -> bool) returns (m: nat)
    requires Count(f, ops, kind) > 0
    ensures m < |ops| && kind(ops[m]) && Takes(f, Run(f, ops[..m]), ops[m])
  {
    hide Run, Takes;
    var before := ops[..|ops| - 1];
    if kind(ops[|ops| - 1]) && Takes(f, Run(f, before), ops[|ops| - 1]) {
      m := |ops| - 1;
    } else {
      m := CountedAt(f, before, kind);
      assert before[..m] == ops[..m];
    }
  }

  /** Every mint of a run goes back to the envelope's one authorization, which met the grant READY
      and unexpired, the recipient and secret it was issued for and an unanswered challenge. */
  lemma MintTraced(f: Fixed, ops: seq<Op>, n: nat) returns (m: nat)
    requires n < |ops| && ops[n].MintOp? && Takes(f, Run(f, ops[..n]), ops[n])
    ensures m < n && ops[m].AuthorizeOp? && ops[m].id == ops[n].id && Takes(f, Run(f, ops[..m]), ops[m])
    ensures Count(f, ops[..n], AuthorizeFor(ops[n].id)) == 1
    ensures var db, op := Run(f, ops[..m]).db, ops[m];
            && op.id in db.grants && op.challengeId in db.challenges
            && db.grants[op.id].state == Ready && !db.grants[op.id].authUsed && db.grants[op.id].Expiry() > op.now
            && db.grants[op.id].recipientId == op.recipient
            && db.grants[op.id].authSecretDigest == Some(f.digest(op.secret))
            && db.challenges[op.challengeId].envelopeId == op.id && !db.challenges[op.challengeId].used
  {
    hide Run, Step, Takes;
    DownloadEarned(f, Run(f, ops[..n]), ops[n]);
    AuthorizedOnce(f, ops[..n], ops[n].id);
    m := CountedAt(f, ops[..n], AuthorizeFor(ops[n].id));
    assert ops[..n][..m] == ops[..m];
    AuthorizationEarned(f, Run(f, ops[..m]), ops[m]);
  }

  // ----- grants and submissions

  /** At most one consumption ever names a submission through a given grant: the grant was
      unused before it and names that submission for ever after. */
  lemma ConsumedOnce(f: Fixed, ops: seq<Op>, n: nat)
    returns (id: Text)
    requires n < |ops| && ops[n].ConsumeOp? && Takes(f, Run(f, ops[..n]), ops[n])
    ensures id in Run(f, ops[..n]).db.grants && !Run(f, ops[..n]).db.grants[id].used
    ensures var g := Run(f, ops).db.grants;
            && id in g && g[id].used && g[id].state == Ready
            && g[id].nonceDigest == f.digest(ops[n].nonce)
            && g[id].submissionId == ops[n].submissionId && g[id].transport == ops[n].transport
            && g[id].Expiry() > ops[n].now && (g[id].networkEnabled ==> g[id].authUsed)
  {
    hide Run;
    var w := Run(f, ops[..n]);
    id := w.db.byNonce[f.digest(ops[n].nonce)];
    RunSound(f, ops[..n]);
    RunEvolves(f, ops, n + 1);
    assert ops[..n + 1][..n] == ops[..n];
    RunNext(f, ops, n);
  }

  lemma RunNext(f: Fixed, ops: seq<Op>, n: nat)
    requires n < |ops|
    ensures Run(f, ops[..n + 1]) == Step(f, Run(f, ops[..n]), ops[n])
  {
    assert ops[..n + 1][..n] == ops[..n];
  }

  /** No nonce is consumed twice, so two consumptions used two grants. */
  lemma NonceConsumedOnce(f: Fixed, ops: seq<Op>, m: nat, n: nat)
    requires m < n < |ops| && ops[m].ConsumeOp? && ops[n].ConsumeOp?
    requires Takes(f, Run(f, ops[..m]), ops[m]) && Takes(f, Run(f, ops[..n]), ops[n])
    ensures f.digest(ops[m].nonce) != f.digest(ops[n].nonce)
  {
    hide Run, Step, Takes, Transact;
    assert ops[..n][..m] == ops[..m];
    assert ops[..n][m] == ops[m];
    var a := ConsumedOnce(f, ops[..n], m);
    var b := ConsumedOnce(f, ops, n);
    RunSound(f, ops[..n]);
    RunEvolves(f, ops, n);
  }
}
