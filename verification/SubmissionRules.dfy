/**
 The submission protocol's answers in the fields of sessions, grants and nonces: for each kind of
 request the checks it has to pass, in order; the first one that fails decides the answer, and
 when all pass the new state is the one given.
 */
module SubmissionRules {
  import opened Wrappers
  import opened Ordering
  import opened Unicode
  import opened TrustedGrants
  import opened Submissions
  import GrantRuns
  import GrantRules
  import GrantMatching
  import SubmissionRuns

  // ----- the enrollment token

  /** Unexpired, used less often than both limits allow, and the one the session was enrolled
      with. */
  ghost predicate TokenGood(f: Fixed, s: Session, token: Text, now: real) {
    && now < s.tokenExpiresAt && s.uses < s.maxUses && s.uses < s.allowedSubmissions
    && BeforeFirstDot(token, s.tokenId) && f.digest(token) == s.tokenHash
  }

  lemma TokenIs(f: Fixed, s: Session, token: Text, now: real)
    ensures TokenHolds(f, s, token, now) <==> TokenGood(f, s, token, now)
  {
    hide BeforeDot, BeforeFirstDot;
    BeforeDotIs(token, s.tokenId);
  }

  // ----- grants that name a submission

  function GrantDb(c: Console, sessionId: Text): Db {
    if sessionId in c.grants then c.grants[sessionId].db else NO_FILE
  }

  predicate EnvelopesNeeded(c: Console, sessionId: Text) {
    (sessionId in c.sessions && c.sessions[sessionId].envelopeRequired) || GrantDb(c, sessionId).onDisk
  }

  predicate NamesSubmission(db: Db, id: Text, submissionId: Text, transport: Text) {
    && id in db.grants && db.grants[id].state == Ready && db.grants[id].used
    && db.grants[id].submissionId == submissionId && db.grants[id].transport == transport
  }

  /** The row is the only unexpired one that was consumed for the submission over HTTPS. */
  ghost predicate OnlyConsumed(db: Db, id: Text, submissionId: Text, now: real) {
    && NamesSubmission(db, id, submissionId, Lit("HTTPS")) && now < db.grants[id].expiresAt as real
    && forall other ::
         NamesSubmission(db, other, submissionId, Lit("HTTPS")) && now < db.grants[other].expiresAt as real ==>
           other == id
  }

  /** The row is the only one that names the submission, and the package has the build and profile
      it records. */
  ghost predicate OnlyNaming(db: Db, id: Text, submissionId: Text, transport: Text, facts: Facts) {
    && NamesSubmission(db, id, submissionId, transport)
    && (forall other :: NamesSubmission(db, other, submissionId, transport) ==> other == id)
    && (db.grants[id].buildDigest != [] ==> db.grants[id].buildDigest == facts.build)
    && (db.grants[id].profileDigest != [] ==> db.grants[id].profileDigest == facts.profile)
  }

  ghost predicate Only(s: set<Text>, x: Text) { x in s && forall y :: y in s ==> y == x }

  lemma OneElement(s: set<Text>)
    ensures |s| == 1 <==> exists x :: Only(s, x)
  {
    if |s| == 1 {
      var x :| x in s;
      assert |s - {x}| == 0;
      assert Only(s, x);
    }
    if x :| Only(s, x) {
      assert s == {x};
    }
  }

  lemma ConsumedIs(db: Db, submissionId: Text, now: real)
    ensures AuthorizedSubmission(db, submissionId, now) <==>
              db.onDisk && exists id :: OnlyConsumed(db, id, submissionId, now)
  {
    hide Lit;
    var s := set id | id in Naming(db, submissionId, Lit("HTTPS")) && id in db.grants && db.grants[id].Expiry() > now;
    OneElement(s);
    forall id
      ensures id in s <==>
                NamesSubmission(db, id, submissionId, Lit("HTTPS")) && now < db.grants[id].expiresAt as real
    {
    }
    forall id
      ensures Only(s, id) <==> OnlyConsumed(db, id, submissionId, now)
    {
    }
  }

  lemma EvidenceIs(db: Db, submissionId: Text, transport: Text, facts: Facts)
    ensures EvidenceBound(db, submissionId, transport, facts.build, facts.profile) <==>
              db.onDisk && exists id :: OnlyNaming(db, id, submissionId, transport, facts)
  {
    var s := Naming(db, submissionId, transport);
    OneElement(s);
    forall id
      ensures id in s <==> NamesSubmission(db, id, submissionId, transport)
    {
    }
    if EvidenceBound(db, submissionId, transport, facts.build, facts.profile) {
      var id :| Only(s, id);
      assert OnlyNaming(db, id, submissionId, transport, facts);
    }
    if id :| OnlyNaming(db, id, submissionId, transport, facts) {
      assert Only(s, id);
    }
  }

  // ----- what a request leaves behind

  /** The console after an acceptance: the archive is filed, the item indexed in order, the session's
      token used once more. */
  ghost predicate Files(c: Console, after: Console, item: Item, archive: Bytes) {
    && item.sessionId in c.sessions
    && after == c.(accepted := after.accepted, index := after.index, sessions := after.sessions)
    && after.accepted == c.accepted[item.submissionId := archive]
    && multiset(after.index) == multiset(c.index) + multiset{item}
    && (forall i, j :: 0 <= i < j < |after.index| ==>
          !Precedes(after.index[j].submissionId, after.index[i].submissionId))
    && after.sessions
       == c.sessions[item.sessionId := c.sessions[item.sessionId].(uses := c.sessions[item.sessionId].uses + 1)]
  }

  lemma RecordFiles(c: Console, item: Item, archive: Bytes)
    requires item.sessionId in c.sessions
    ensures Files(c, Record(c, item, archive), item, archive)
  {
    hide Less, Precedes;
    var all := c.index + [item];
    SortBySorted(BY_SUBMISSION, all);
    SortByMultiset(BY_SUBMISSION, all);
    var index := SortBy(BY_SUBMISSION, all);
    forall i, j | 0 <= i < j < |index|
      ensures !Precedes(index[j].submissionId, index[i].submissionId)
    {
      LessExactly(index[j].submissionId, index[i].submissionId);
      assert !Less(BY_SUBMISSION(index[j]), BY_SUBMISSION(index[i]));
    }
  }

  // ----- HTTPS uploads

  datatype UploadCheck =
    | SessionKnown | SessionUnexpired | SourceInScope | TokenAccepted | GrantConsumed | NonceThere | NonceMatches
    | ArchiveFits | PackageValid | BuildTrusted | EvidenceMatches | NotIndexed

  /** The place of a check in their order. */
  function Place(check: UploadCheck): nat {
    match check
    case SessionKnown => 0
    case SessionUnexpired => 1
    case SourceInScope => 2
    case TokenAccepted => 3
    case GrantConsumed => 4
    case NonceThere => 5
    case NonceMatches => 6
    case ArchiveFits => 7
    case PackageValid => 8
    case BuildTrusted => 9
    case EvidenceMatches => 10
    case NotIndexed => 11
  }

  function RulingOn(f: Fixed, s: Session, r: Upload): Verdict {
    f.validate(r.archive, Expectation(token := r.token, sessionId := r.sessionId, submissionId := r.submissionId,
                                      nonce := r.nonce, profileDigest := s.profileDigest,
                                      maximumPackageSize := s.maximumPackageSize))
  }

  ghost predicate UploadPasses(f: Fixed, c: Console, r: Upload, check: UploadCheck) {
    r.sessionId in c.sessions &&
    var s := c.sessions[r.sessionId];
    var db, ruling := GrantDb(c, r.sessionId), RulingOn(f, s, r);
    match check
    case SessionKnown => true
    case SessionUnexpired => r.sourceAt < s.expiresAt
    case SourceInScope => f.inScope(r.sessionId, r.source)
    case TokenAccepted => s.status == Open && TokenGood(f, s, r.token, r.tokenAt)
    case GrantConsumed =>
      EnvelopesNeeded(c, r.sessionId) ==> db.onDisk && exists id :: OnlyConsumed(db, id, r.submissionId, r.grantAt)
    case NonceThere => r.submissionId in c.nonces
    case NonceMatches =>
      && r.submissionId in c.nonces
      && var n := c.nonces[r.submissionId];
         && n.sessionId == r.sessionId && n.submissionId == r.submissionId && n.value == r.nonce
         && n.source == r.source && !n.used && r.nonceAt < n.expiresAt
    case ArchiveFits => |r.archive| <= s.maximumPackageSize
    case PackageValid => ruling.Validated?
    case BuildTrusted => ruling.Validated? && ruling.facts.build in s.trustedBuilds
    case EvidenceMatches =>
      && ruling.Validated?
      && (EnvelopesNeeded(c, r.sessionId) ==>
            db.onDisk && exists id :: OnlyNaming(db, id, r.submissionId, Lit("HTTPS"), ruling.facts))
    case NotIndexed =>
      && ruling.Validated?
      && forall i :: 0 <= i < |c.index| ==>
           c.index[i].submissionId != r.submissionId && c.index[i].packageDigest != ruling.facts.packageDigest
  }

  /** The nonce of the submission is used up. */
  function NonceSpent(c: Console, submissionId: Text): Console
    requires submissionId in c.nonces
  {
    c.(nonces := c.nonces[submissionId := c.nonces[submissionId].(used := true)])
  }

  /** ... and no file lies in quarantine under its name. */
  function Emptied(c: Console, submissionId: Text): Console
    requires submissionId in c.nonces
  {
    NonceSpent(c, submissionId).(quarantine := c.quarantine - {submissionId})
  }

  function Refusal(c: Console, submissionId: Text, state: RejectedState): Reply {
    Reply(c.(rejected := c.rejected[submissionId := state]), Rejected(state))
  }

  /** The answer to an upload whose first failing check is this one. */
  ghost function UploadRefusal(f: Fixed, c: Console, r: Upload, check: UploadCheck): Reply
    requires Place(check) > 5 ==> r.sessionId in c.sessions && r.submissionId in c.nonces
  {
    match check
    case SessionKnown => Reply(c, Raised)
    case SessionUnexpired => Reply(c, Rejected(RejectedExpired))
    case SourceInScope => Reply(c, Rejected(RejectedUnauthorizedSource))
    case TokenAccepted => Refusal(c, r.submissionId, RejectedToken)
    case GrantConsumed => Refusal(c, r.submissionId, RejectedReplay)
    case NonceThere => Reply(c, Raised)
    case NonceMatches => Refusal(c, r.submissionId, RejectedReplay)
    case ArchiveFits => Refusal(NonceSpent(c, r.submissionId), r.submissionId, RejectedPackageLimit)
    case PackageValid =>
      (match RulingOn(f, c.sessions[r.sessionId], r)
       case Refused(state) => Refusal(Emptied(c, r.submissionId), r.submissionId, state)
       case _ =>
         Reply(NonceSpent(c, r.submissionId).(quarantine := c.quarantine[r.submissionId := r.archive]), Raised))
    case BuildTrusted => Refusal(Emptied(c, r.submissionId), r.submissionId, RejectedUntrustedCollector)
    case EvidenceMatches => Refusal(Emptied(c, r.submissionId), r.submissionId, RejectedUntrustedCollector)
    case NotIndexed => Refusal(Emptied(c, r.submissionId), r.submissionId, RejectedReplay)
  }

  /** The upload passes every check before this one. */
  ghost predicate UploadReaches(f: Fixed, c: Console, r: Upload, check: UploadCheck) {
    forall earlier :: Place(earlier) < Place(check) ==> UploadPasses(f, c, r, earlier)
  }

  lemma ReachedThere(f: Fixed, c: Console, r: Upload, check: UploadCheck)
    requires UploadReaches(f, c, r, check) && Place(check) > 5
    ensures r.sessionId in c.sessions && r.submissionId in c.nonces
  {
    assert UploadPasses(f, c, r, NonceThere);
  }

  /** What an upload that is turned away fails, in the model's own tests. */
  lemma TurnedIs(f: Fixed, c: Console, r: Upload)
    ensures UploadPasses(f, c, r, SessionKnown) <==> r.sessionId in c.sessions
    ensures r.sessionId in c.sessions ==>
              var s := c.sessions[r.sessionId];
              && (UploadPasses(f, c, r, TokenAccepted) <==> s.status == Open && TokenHolds(f, s, r.token, r.tokenAt))
              && (UploadPasses(f, c, r, GrantConsumed) <==>
                    EnvelopeRequired(c, r.sessionId) ==>
                      AuthorizedSubmission(GrantWorld(c, r.sessionId).db, r.submissionId, r.grantAt))
              && (UploadPasses(f, c, r, NonceMatches) <==> NonceHolds(c, r))
  {
    hide TokenHolds, TokenGood, AuthorizedSubmission, OnlyConsumed, Lit;
    if r.sessionId in c.sessions {
      TokenIs(f, c.sessions[r.sessionId], r.token, r.tokenAt);
      ConsumedIs(GrantDb(c, r.sessionId), r.submissionId, r.grantAt);
    }
  }

  lemma UploadTurned(f: Fixed, c: Console, r: Upload, check: UploadCheck)
    requires Place(check) <= 7 && UploadReaches(f, c, r, check) && !UploadPasses(f, c, r, check)
    ensures Place(check) > 5 ==> r.sessionId in c.sessions && r.submissionId in c.nonces
    ensures Turned(f, c, r) == Some(UploadRefusal(f, c, r, check))
  {
    hide TokenHolds, TokenGood, AuthorizedSubmission, OnlyConsumed, EnvelopeRequired, NonceHolds, Lit;
    TurnedIs(f, c, r);
    assert check != SessionKnown ==> UploadPasses(f, c, r, SessionKnown);
    assert Place(check) > 1 ==> UploadPasses(f, c, r, SessionUnexpired);
    assert Place(check) > 2 ==> UploadPasses(f, c, r, SourceInScope);
    assert Place(check) > 3 ==> UploadPasses(f, c, r, TokenAccepted);
    assert Place(check) > 4 ==> UploadPasses(f, c, r, GrantConsumed);
    assert Place(check) > 5 ==> UploadPasses(f, c, r, NonceThere);
    assert Place(check) > 6 ==> UploadPasses(f, c, r, NonceMatches);
  }

  lemma UploadStaged(f: Fixed, c: Console, r: Upload)
    requires UploadReaches(f, c, r, PackageValid)
    ensures Turned(f, c, r).None? && r.sessionId in c.sessions && r.submissionId in c.nonces
  {
    hide TokenHolds, TokenGood, AuthorizedSubmission, OnlyConsumed, EnvelopeRequired, NonceHolds, Lit;
    TurnedIs(f, c, r);
    assert UploadPasses(f, c, r, SessionKnown) && UploadPasses(f, c, r, SessionUnexpired);
    assert UploadPasses(f, c, r, SourceInScope) && UploadPasses(f, c, r, TokenAccepted);
    assert UploadPasses(f, c, r, GrantConsumed) && UploadPasses(f, c, r, NonceThere);
    assert UploadPasses(f, c, r, NonceMatches) && UploadPasses(f, c, r, ArchiveFits);
  }

  /** What a staged upload fails, in the model's own tests. */
  lemma JudgedIs(f: Fixed, c: Console, r: Upload)
    requires r.sessionId in c.sessions && r.submissionId in c.nonces
    requires RulingOn(f, c.sessions[r.sessionId], r).Validated?
    ensures var facts := RulingOn(f, c.sessions[r.sessionId], r).facts;
            && (UploadPasses(f, c, r, EvidenceMatches) <==>
                  Bound(Staged(c, r.submissionId), r.sessionId, r.submissionId, HTTPS, facts))
            && (UploadPasses(f, c, r, NotIndexed) <==>
                  !Duplicate(Staged(c, r.submissionId).index, r.submissionId, facts.packageDigest))
  {
    hide EvidenceBound, OnlyNaming, Lit;
    EvidenceIs(GrantDb(c, r.sessionId), r.submissionId, HTTPS, RulingOn(f, c.sessions[r.sessionId], r).facts);
  }

  lemma UploadJudged(f: Fixed, c: Console, r: Upload, check: UploadCheck)
    requires Place(check) > 7 && UploadReaches(f, c, r, check) && !UploadPasses(f, c, r, check)
    ensures r.sessionId in c.sessions && r.submissionId in c.nonces
    ensures Judge(f, Staged(c, r.submissionId), r) == UploadRefusal(f, c, r, check)
  {
    hide Bound, Duplicate, OnlyNaming, Lit, Turned;
    ReachedThere(f, c, r, check);
    assert Place(check) > 8 ==> UploadPasses(f, c, r, PackageValid);
    assert Place(check) > 9 ==> UploadPasses(f, c, r, BuildTrusted);
    assert Place(check) > 10 ==> UploadPasses(f, c, r, EvidenceMatches);
    if RulingOn(f, c.sessions[r.sessionId], r).Validated? {
      JudgedIs(f, c, r);
    }
  }

  /** The first check an upload fails decides its answer and what it leaves behind. */
  lemma UploadRefused(f: Fixed, c: Console, r: Upload, check: UploadCheck)
    requires UploadReaches(f, c, r, check) && !UploadPasses(f, c, r, check)
    ensures Place(check) > 5 ==> r.sessionId in c.sessions && r.submissionId in c.nonces
    ensures Accept(f, c, r) == UploadRefusal(f, c, r, check)
  {
    hide Turned, Judge, UploadPasses, UploadRefusal;
    if Place(check) <= 7 {
      UploadTurned(f, c, r, check);
    } else {
      assert UploadReaches(f, c, r, PackageValid);
      UploadStaged(f, c, r);
      UploadJudged(f, c, r, check);
    }
  }

  /** An upload that passes all of them is filed, and nothing else happens. */
  lemma UploadAccepted(f: Fixed, c: Console, r: Upload)
    requires forall check :: UploadPasses(f, c, r, check)
    ensures r.sessionId in c.sessions && r.submissionId in c.nonces
    ensures RulingOn(f, c.sessions[r.sessionId], r).Validated?
    ensures var facts, reply := RulingOn(f, c.sessions[r.sessionId], r).facts, Accept(f, c, r);
            && reply.outcome == Done
            && Files(Emptied(c, r.submissionId), reply.console,
                     Item(sessionId := r.sessionId, submissionId := r.submissionId, deviceId := facts.deviceId,
                          packageDigest := facts.packageDigest, transport := Lit("HTTPS"), processingState := []),
                     r.archive)
  {
    hide Bound, Duplicate, OnlyNaming, Lit, Turned, Files, Record;
    assert UploadReaches(f, c, r, PackageValid);
    UploadStaged(f, c, r);
    assert UploadPasses(f, c, r, PackageValid) && UploadPasses(f, c, r, BuildTrusted);
    assert UploadPasses(f, c, r, EvidenceMatches) && UploadPasses(f, c, r, NotIndexed);
    JudgedIs(f, c, r);
    var facts := RulingOn(f, c.sessions[r.sessionId], r).facts;
    RecordFiles(Staged(c, r.submissionId),
                Item(r.sessionId, r.submissionId, facts.deviceId, facts.packageDigest, HTTPS, []), r.archive);
  }

  lemma UploadRefusalIs(f: Fixed, c: Console, r: Upload, check: UploadCheck)
    requires Place(check) > 5 ==> r.sessionId in c.sessions && r.submissionId in c.nonces
    ensures !UploadRefusal(f, c, r, check).outcome.Done?
  {
  }

  /** The check that comes first among those that fail. */
  lemma {:induction false} FirstFailing(f: Fixed, c: Console, r: Upload, check: UploadCheck)
    returns (first: UploadCheck)
    requires !UploadPasses(f, c, r, check)
    ensures UploadReaches(f, c, r, first) && !UploadPasses(f, c, r, first) && Place(first) <= Place(check)
    decreases Place(check)
  {
    hide UploadPasses;
    if earlier :| Place(earlier) < Place(check) && !UploadPasses(f, c, r, earlier) {
      first := FirstFailing(f, c, r, earlier);
    } else {
      first := check;
    }
  }

  /** An upload is accepted exactly when it passes all of them. */
  lemma UploadExact(f: Fixed, c: Console, r: Upload)
    ensures Accept(f, c, r).outcome == Done <==> forall check :: UploadPasses(f, c, r, check)
  {
    hide UploadPasses, Accept, Files;
    if forall check :: UploadPasses(f, c, r, check) {
      UploadAccepted(f, c, r);
    } else {
      var check :| !UploadPasses(f, c, r, check);
      var first := FirstFailing(f, c, r, check);
      UploadRefused(f, c, r, first);
      UploadRefusalIs(f, c, r, first);
    }
  }

  /** An upload to an open, unexpired session from a source in scope is turned away for its token
      exactly when the token is not the one the session was enrolled with, has expired or has been
      used as often as either limit allows. */
  lemma TokenDecides(f: Fixed, c: Console, r: Upload)
    requires r.sessionId in c.sessions && c.sessions[r.sessionId].status == Open
    requires r.sourceAt < c.sessions[r.sessionId].expiresAt && f.inScope(r.sessionId, r.source)
    ensures var s := c.sessions[r.sessionId];
            Turned(f, c, r) == Some(Refusal(c, r.submissionId, RejectedToken)) <==>
              || f.digest(r.token) != s.tokenHash || !BeforeFirstDot(r.token, s.tokenId)
              || s.tokenExpiresAt <= r.tokenAt || s.maxUses <= s.uses || s.allowedSubmissions <= s.uses
  {
    hide BeforeFirstDot, AuthorizedSubmission, EnvelopeRequired, NonceHolds, Lit, BeforeDot;
    BeforeDotIs(r.token, c.sessions[r.sessionId].tokenId);
  }

  // ----- nonce requests

  /** The grant tables of every session are indexed by nonce and on disk. */
  ghost predicate GrantsIndexed(c: Console) {
    forall id :: id in c.grants ==> Indexed(c.grants[id].db)
  }

  ghost predicate Indexed(db: Db) { GrantRuns.NoncesIndexed(db) && (db.grants != map[] ==> db.onDisk) }

  /** The one grant transaction of a request: some row can be consumed, and it is. */
  ghost predicate ConsumesRow(f: Fixed, c: Console, after: Console, sessionId: Text, op: GrantRuns.Op, id: Text)
    requires op.ConsumeOp?
  {
    && GrantRules.Consumable(GrantFixed(f, sessionId), GrantDb(c, sessionId), op, id)
    && sessionId in after.grants && after == c.(grants := c.grants[sessionId := after.grants[sessionId]])
    && after.grants[sessionId].db == GrantRules.Consumed(GrantDb(c, sessionId), op, id)
  }

  ghost predicate MayConsume(f: Fixed, c: Console, sessionId: Text, op: GrantRuns.Op)
    requires op.ConsumeOp?
  {
    && GrantRules.UrlSafe(op.nonce) && (op.id != [] ==> GrantRules.UrlSafe(op.id))
    && exists id :: GrantRules.Consumable(GrantFixed(f, sessionId), GrantDb(c, sessionId), op, id)
  }

  lemma ConsumptionIs(f: Fixed, c: Console, sessionId: Text, op: GrantRuns.Op)
    requires GrantsIndexed(c) && op.ConsumeOp?
    ensures GrantTakes(f, c, sessionId, op) <==> MayConsume(f, c, sessionId, op)
    ensures MayConsume(f, c, sessionId, op) ==>
              exists id :: ConsumesRow(f, c, GrantStep(f, c, sessionId, op), sessionId, op, id)
  {
    hide GrantRuns.Takes, GrantRuns.Step, GrantRules.UrlSafe, GrantRules.Consumable, GrantRuns.NoncesIndexed;
    NothingIndexed();
    var w := GrantWorld(c, sessionId);
    assert w.db == GrantDb(c, sessionId);
    GrantRules.ConsumeExact(GrantFixed(f, sessionId), w, op);
    if MayConsume(f, c, sessionId, op) {
      var id :| GrantRules.Consumable(GrantFixed(f, sessionId), GrantDb(c, sessionId), op, id);
      assert ConsumesRow(f, c, GrantStep(f, c, sessionId, op), sessionId, op, id);
    }
  }

  lemma NothingIndexed()
    ensures Indexed(NO_FILE)
  {
  }

  datatype RequestCheck = ForSession | BeforeExpiry | FromScope | WithToken | WithGrant

  function Rank(check: RequestCheck): nat {
    match check
    case ForSession => 0
    case BeforeExpiry => 1
    case FromScope => 2
    case WithToken => 3
    case WithGrant => 4
  }

  /** The consumption that a nonce request stands for. */
  function RequestConsumption(r: NonceRequest): GrantRuns.Op {
    GrantRuns.ConsumeOp(id := r.envelopeId, nonce := r.proof, submissionId := r.submissionId,
                        transport := Lit("HTTPS"), now := r.grantAt)
  }

  ghost predicate RequestPasses(f: Fixed, c: Console, r: NonceRequest, check: RequestCheck) {
    r.sessionId in c.sessions &&
    var s := c.sessions[r.sessionId];
    match check
    case ForSession => true
    case BeforeExpiry => r.sourceAt < s.expiresAt
    case FromScope => f.inScope(r.sessionId, r.source)
    case WithToken => s.status == Open && TokenGood(f, s, r.token, r.tokenAt)
    case WithGrant => EnvelopesNeeded(c, r.sessionId) ==> MayConsume(f, c, r.sessionId, RequestConsumption(r))
  }

  function RequestRefusal(check: RequestCheck): Outcome {
    match check
    case ForSession => Raised
    case BeforeExpiry => Rejected(RejectedExpired)
    case FromScope => Rejected(RejectedUnauthorizedSource)
    case WithToken => Rejected(RejectedToken)
    case WithGrant => Rejected(RejectedReplay)
  }

  lemma RequestIs(f: Fixed, c: Console, r: NonceRequest)
    requires GrantsIndexed(c) && r.sessionId in c.sessions
    ensures var s := c.sessions[r.sessionId];
            && (RequestPasses(f, c, r, WithToken) <==> s.status == Open && TokenHolds(f, s, r.token, r.tokenAt))
            && (RequestPasses(f, c, r, WithGrant) <==>
                  EnvelopeRequired(c, r.sessionId) ==> GrantTakes(f, c, r.sessionId, ConsumeOf(r)))
  {
    hide TokenHolds, TokenGood, GrantTakes, MayConsume, Lit;
    TokenIs(f, c.sessions[r.sessionId], r.token, r.tokenAt);
    ConsumptionIs(f, c, r.sessionId, ConsumeOf(r));
  }

  /** The first check a nonce request fails decides the answer, and nothing changes. */
  lemma RequestRefused(f: Fixed, c: Console, r: NonceRequest, check: RequestCheck)
    requires GrantsIndexed(c) && !RequestPasses(f, c, r, check)
    requires forall earlier :: Rank(earlier) < Rank(check) ==> RequestPasses(f, c, r, earlier)
    ensures RequestNonce(f, c, r) == Reply(c, RequestRefusal(check))
  {
    hide TokenHolds, TokenGood, GrantTakes, GrantStep, MayConsume, EnvelopeRequired, Lit, GrantsIndexed;
    assert Rank(check) > 0 ==> RequestPasses(f, c, r, ForSession);
    assert Rank(check) > 1 ==> RequestPasses(f, c, r, BeforeExpiry);
    assert Rank(check) > 2 ==> RequestPasses(f, c, r, FromScope);
    assert Rank(check) > 3 ==> RequestPasses(f, c, r, WithToken);
    if r.sessionId in c.sessions {
      RequestIs(f, c, r);
    }
  }

  /** A request that passes all of them gets a nonce for two minutes, bound to session, submission
      and source, and where envelopes are needed costs the grant it names. */
  lemma RequestGranted(f: Fixed, c: Console, r: NonceRequest)
    requires GrantsIndexed(c) && forall check :: RequestPasses(f, c, r, check)
    ensures var reply := RequestNonce(f, c, r);
            && reply.outcome == Done && r.submissionId in reply.console.nonces
            && reply.console.nonces == c.nonces[r.submissionId := Nonce(
                 sessionId := r.sessionId, submissionId := r.submissionId, value := r.issued,
                 expiresAt := r.issuedAt + 120.0, source := r.source, used := false)]
            && if EnvelopesNeeded(c, r.sessionId) then
                exists id ::
                  ConsumesRow(f, c, reply.console.(nonces := c.nonces), r.sessionId, RequestConsumption(r), id)
              else reply.console == c.(nonces := reply.console.nonces)
  {
    hide TokenHolds, TokenGood, GrantTakes, GrantStep, MayConsume, Lit, GrantsIndexed, ConsumesRow;
    assert RequestPasses(f, c, r, ForSession) && RequestPasses(f, c, r, BeforeExpiry);
    assert RequestPasses(f, c, r, FromScope) && RequestPasses(f, c, r, WithToken);
    assert RequestPasses(f, c, r, WithGrant);
    RequestIs(f, c, r);
    if EnvelopesNeeded(c, r.sessionId) {
      ConsumptionIs(f, c, r.sessionId, ConsumeOf(r));
      GrantStepFrame(f, c, r.sessionId, ConsumeOf(r));
    }
  }

  lemma GrantStepFrame(f: Fixed, c: Console, id: Text, op: GrantRuns.Op)
    ensures var after := GrantStep(f, c, id, op); after == c.(grants := after.grants)
  {
    hide GrantRuns.Step;
  }

  // ----- offline imports

  datatype ImportCheck =
    | OwnAssessment | OpenOrClosed | TokenValid | Validates | TrustedBuild | SameDigest | CostsGrant

  function Turn(check: ImportCheck): nat {
    match check
    case OwnAssessment => 0
    case OpenOrClosed => 1
    case TokenValid => 2
    case Validates => 3
    case TrustedBuild => 4
    case SameDigest => 5
    case CostsGrant => 6
  }

  function ImportRuling(f: Fixed, s: Session, r: Import): Verdict {
    f.validate(r.archive, Expectation(token := r.token, sessionId := r.sessionId, submissionId := r.submissionId,
                                      nonce := r.nonce, profileDigest := s.profileDigest,
                                      maximumPackageSize := s.maximumPackageSize))
  }

  ghost predicate Prefixed(nonce: Text) { exists proof :: nonce == Lit("trusted:") + proof }

  function ImportConsumption(r: Import): GrantRuns.Op {
    GrantRuns.ConsumeOp(id := [], nonce := if |r.nonce| < 8 then [] else r.nonce[8..],
                        submissionId := r.submissionId, transport := Lit("OFFLINE_ENCRYPTED"), now := r.grantAt)
  }

  ghost predicate ImportPasses(f: Fixed, c: Console, r: Import, check: ImportCheck) {
    r.assessmentId == f.assessmentId && r.sessionId in c.sessions &&
    var s := c.sessions[r.sessionId];
    var ruling := ImportRuling(f, s, r);
    match check
    case OwnAssessment => true
    case OpenOrClosed => s.status == Open || s.status == Closed
    case TokenValid => TokenGood(f, s, r.token, r.tokenAt)
    case Validates => ruling.Validated?
    case TrustedBuild => ruling.Validated? && ruling.facts.build in s.trustedBuilds
    case SameDigest => ruling.Validated? && ruling.facts.packageDigest == r.packageDigest
    case CostsGrant =>
      EnvelopesNeeded(c, r.sessionId) ==> Prefixed(r.nonce) && MayConsume(f, c, r.sessionId, ImportConsumption(r))
  }

  lemma PrefixIs(nonce: Text)
    ensures HasTrustedPrefix(nonce) <==> Prefixed(nonce)
    ensures Prefixed(nonce) ==> |nonce| >= 8 && nonce[|TRUSTED_PREFIX|..] == nonce[8..]
  {
    if HasTrustedPrefix(nonce) {
      assert nonce == Lit("trusted:") + nonce[8..];
    }
  }

  lemma ImportIs(f: Fixed, c: Console, r: Import)
    requires GrantsIndexed(c)
    ensures HasTrustedPrefix(r.nonce) ==> ImportConsume(r) == ImportConsumption(r)
    ensures r.assessmentId == f.assessmentId && r.sessionId in c.sessions ==>
              (ImportPasses(f, c, r, CostsGrant) <==>
                EnvelopeRequired(c, r.sessionId) ==>
                  HasTrustedPrefix(r.nonce) && GrantTakes(f, c, r.sessionId, ImportConsume(r)))
  {
    hide GrantTakes, MayConsume, Lit, HasTrustedPrefix, Prefixed, GrantsIndexed;
    PrefixIs(r.nonce);
    if HasTrustedPrefix(r.nonce) {
      ConsumptionIs(f, c, r.sessionId, ImportConsume(r));
    }
  }

  /** An import that fails one of them raises, and nothing changes. */
  lemma ImportRefused(f: Fixed, c: Console, r: Import, check: ImportCheck)
    requires GrantsIndexed(c) && !ImportPasses(f, c, r, check)
    requires forall earlier :: Turn(earlier) < Turn(check) ==> ImportPasses(f, c, r, earlier)
    ensures ImportFile(f, c, r) == Reply(c, Raised)
  {
    hide TokenHolds, TokenGood, GrantTakes, GrantStep, MayConsume, EnvelopeRequired, Lit, GrantsIndexed, Settle;
    hide HasTrustedPrefix, Prefixed;
    assert Turn(check) > 0 ==> ImportPasses(f, c, r, OwnAssessment);
    assert Turn(check) > 1 ==> ImportPasses(f, c, r, OpenOrClosed);
    assert Turn(check) > 2 ==> ImportPasses(f, c, r, TokenValid);
    assert Turn(check) > 3 ==> ImportPasses(f, c, r, Validates);
    assert Turn(check) > 4 ==> ImportPasses(f, c, r, TrustedBuild);
    assert Turn(check) > 5 ==> ImportPasses(f, c, r, SameDigest);
    ImportIs(f, c, r);
    if r.sessionId in c.sessions {
      TokenIs(f, c.sessions[r.sessionId], r.token, r.tokenAt);
    }
  }

  /** The console once the grant, where one is needed, has been consumed. */
  ghost predicate Paid(f: Fixed, c: Console, paid: Console, r: Import) {
    if EnvelopesNeeded(c, r.sessionId) then exists id :: ConsumesRow(f, c, paid, r.sessionId, ImportConsumption(r), id)
    else paid == c
  }

  /** An import that passes all of them consumes its grant; it is filed if the grant fits the
      evidence and nothing is indexed under its submission or digest, and otherwise answered
      without another change. */
  lemma ImportSettled(f: Fixed, c: Console, r: Import) returns (paid: Console)
    requires GrantsIndexed(c) && forall check :: ImportPasses(f, c, r, check)
    ensures r.sessionId in c.sessions && ImportRuling(f, c.sessions[r.sessionId], r).Validated?
    ensures Paid(f, c, paid, r)
    ensures var facts, reply := ImportRuling(f, c.sessions[r.sessionId], r).facts, ImportFile(f, c, r);
            if EnvelopesNeeded(paid, r.sessionId)
               && !(GrantDb(paid, r.sessionId).onDisk
                    && exists id ::
                         OnlyNaming(GrantDb(paid, r.sessionId), id, r.submissionId, Lit("OFFLINE_ENCRYPTED"), facts))
            then reply == Reply(paid, Raised)
            else if exists i :: 0 <= i < |c.index| &&
                      (c.index[i].submissionId == r.submissionId || c.index[i].packageDigest == facts.packageDigest)
            then reply == Reply(paid, Rejected(RejectedReplay))
            else
              && reply.outcome == Done
              && Files(paid, reply.console,
                       Item(sessionId := r.sessionId, submissionId := r.submissionId, deviceId := facts.deviceId,
                            packageDigest := facts.packageDigest, transport := Lit("OFFLINE_ENCRYPTED"),
                            processingState := []),
                       r.archive)
  {
    hide TokenHolds, TokenGood, GrantTakes, GrantStep, MayConsume, Lit, GrantsIndexed;
    hide HasTrustedPrefix, Prefixed, ConsumesRow, OnlyNaming, EvidenceBound, Record, Files;
    assert ImportPasses(f, c, r, OwnAssessment) && ImportPasses(f, c, r, OpenOrClosed);
    assert ImportPasses(f, c, r, TokenValid) && ImportPasses(f, c, r, Validates);
    assert ImportPasses(f, c, r, TrustedBuild) && ImportPasses(f, c, r, SameDigest);
    assert ImportPasses(f, c, r, CostsGrant);
    ImportIs(f, c, r);
    TokenIs(f, c.sessions[r.sessionId], r.token, r.tokenAt);
    var facts := ImportRuling(f, c.sessions[r.sessionId], r).facts;
    paid := c;
    if EnvelopesNeeded(c, r.sessionId) {
      ConsumptionIs(f, c, r.sessionId, ImportConsume(r));
      GrantStepFrame(f, c, r.sessionId, ImportConsume(r));
      paid := GrantStep(f, c, r.sessionId, ImportConsume(r));
    }
    EvidenceIs(GrantDb(paid, r.sessionId), r.submissionId, OFFLINE, facts);
    RecordFiles(paid, Item(r.sessionId, r.submissionId, facts.deviceId, facts.packageDigest, OFFLINE, []), r.archive);
  }

  // ----- every request of a run

  /** The token of a request and the reading of the clock it was tested at. */
  function TokenOf(op: SubmissionRuns.Op): Option<(Text, Text, real)> {
    match op
    case NonceOp(r) => Some((r.sessionId, r.token, r.tokenAt))
    case AcceptOp(r) => Some((r.sessionId, r.token, r.tokenAt))
    case ImportOp(r) => Some((r.sessionId, r.token, r.tokenAt))
    case _ => None
  }

  /** Every nonce issued and every acceptance, over HTTPS or offline, had the token that the session
      was enrolled with, before it expired and below both limits on its use. */
  lemma TokensEarned(f: Fixed, c: Console, op: SubmissionRuns.Op)
    requires TokenOf(op).Some? && SubmissionRuns.Handle(f, c, op).outcome == Done
    ensures var (sessionId, token, now) := TokenOf(op).value;
            && sessionId in c.sessions
            && var s := c.sessions[sessionId];
               && f.digest(token) == s.tokenHash && BeforeFirstDot(token, s.tokenId)
               && now < s.tokenExpiresAt && s.uses < s.maxUses && s.uses < s.allowedSubmissions
  {
    hide Lit, BeforeDot, BeforeFirstDot, AuthorizedSubmission, EnvelopeRequired, NonceHolds, Judge, Settle;
    hide GrantTakes, GrantStep, HasTrustedPrefix;
    var (sessionId, token, now) := TokenOf(op).value;
    if sessionId in c.sessions {
      BeforeDotIs(token, c.sessions[sessionId].tokenId);
    }
  }

  lemma GrantStepIndexed(f: Fixed, c: Console, id: Text, op: GrantRuns.Op)
    requires GrantsIndexed(c)
    ensures GrantsIndexed(GrantStep(f, c, id, op))
  {
    hide GrantRuns.Step, Indexed;
    var w := GrantWorld(c, id);
    NothingIndexed();
    StepIndexed(GrantFixed(f, id), w, op);
  }

  lemma StepIndexed(f: GrantRuns.Fixed, w: GrantRuns.World, op: GrantRuns.Op)
    requires Indexed(w.db)
    ensures Indexed(GrantRuns.Step(f, w, op).db)
  {
    hide GrantRuns.Step, GrantRuns.NoncesIndexed;
    GrantRuns.StepNonces(f, w, op);
    GrantRules.GrantsStayOnDisk(f, w, op);
  }

  /** What the rules above ask of a console, every run keeps. */
  lemma {:induction false} RunIndexed(f: Fixed, ops: seq<SubmissionRuns.Op>)
    ensures GrantsIndexed(SubmissionRuns.Run(f, ops).console)
  {
    hide SubmissionRuns.Handle, SubmissionRuns.Logged, GrantStep, GrantMatching.Transaction, GrantTakes;
    if ops == [] {
    } else {
      var before, op := ops[..|ops| - 1], ops[|ops| - 1];
      var c := SubmissionRuns.Run(f, before).console;
      RunIndexed(f, before);
      GrantMatching.StepTransaction(f, c, op);
      var t := GrantMatching.Transaction(f, c, op);
      if t.Some? {
        GrantStepIndexed(f, c, t.value.0, t.value.1);
      }
    }
  }

  // ----- what operators do

  const TRANSITIONS: set<(SessionStatus, SessionStatus)> :=
    {(Open, Paused), (Open, Closed), (Paused, Open), (Paused, Closed), (Closed, Archived)}

  /** A session is opened once, unused; its status changes along five ways only; a trusted build is
      remembered, and that envelopes are needed is never forgotten. */
  lemma OperatorsExact(f: Fixed, c: Console, id: Text, s: Session, status: SessionStatus, build: Text, required: bool)
    ensures OpenSession(c, id, s)
            == if id in c.sessions then Reply(c, Raised)
              else Reply(c.(sessions := c.sessions[id := s.(status := Open, uses := 0)]), Done)
    ensures SetStatus(c, id, status)
            == if id in c.sessions && (c.sessions[id].status, status) in TRANSITIONS then
                 Reply(c.(sessions := c.sessions[id := c.sessions[id].(status := status)]), Done)
               else Reply(c, Raised)
    ensures id in c.sessions ==>
              var r, was := TrustBuild(c, id, build, required), c.sessions[id];
              && r.outcome == Done && id in r.console.sessions
              && r.console == c.(sessions := c.sessions[id := r.console.sessions[id]])
              && var now := r.console.sessions[id];
                 && now == was.(trustedBuilds := now.trustedBuilds, envelopeRequired := now.envelopeRequired)
                 && (now.envelopeRequired <==> was.envelopeRequired || required)
                 && forall b :: b in now.trustedBuilds <==>
                      b in was.trustedBuilds || (b == build && !(required && build == []))
    ensures id !in c.sessions ==> TrustBuild(c, id, build, required) == Reply(c, Raised)
  {
  }

  // ----- the index

  predicate ListedAt(c: Console, id: Text, i: int) { 0 <= i < |c.index| && c.index[i].submissionId == id }

  lemma NotListed(c: Console, id: Text, n: nat)
    requires n <= |c.index| && forall i :: 0 <= i < n ==> !ListedAt(c, id, i)
    ensures forall i :: 0 <= i < n ==> c.index[i].submissionId != id
  {
    assert forall i :: 0 <= i < n ==> (ListedAt(c, id, i) <==> c.index[i].submissionId == id);
  }

  lemma {:induction false} WithoutExact(index: seq<Item>, id: Text)
    ensures forall x :: multiset(Without(index, id))[x] == if x.submissionId == id then 0 else multiset(index)[x]
  {
    if index != [] {
      WithoutExact(index[1..], id);
      assert index == [index[0]] + index[1..];
    }
  }

  lemma {:induction false} WithoutShorter(index: seq<Item>, id: Text)
    ensures |Without(index, id)| <= |index|
    ensures |Without(index, id)| == |index| <==> forall i :: 0 <= i < |index| ==> index[i].submissionId != id
  {
    if index != [] {
      WithoutShorter(index[1..], id);
      assert forall i :: 0 < i < |index| ==> index[1..][i - 1] == index[i];
    }
  }

  /** A submission is removed exactly when it is listed: its items and its accepted file go, and
      nothing else. */
  lemma RemoveExact(c: Console, id: Text)
    ensures (forall i :: !ListedAt(c, id, i)) ==> RemoveSubmission(c, id) == Reply(c, Raised)
    ensures (exists i :: ListedAt(c, id, i)) ==>
              var r := RemoveSubmission(c, id);
              && r.outcome == Done && r.console == c.(index := r.console.index, accepted := r.console.accepted)
              && r.console.accepted == (map k | k in c.accepted && k != id :: c.accepted[k])
              && forall x :: multiset(r.console.index)[x] == if x.submissionId == id then 0 else multiset(c.index)[x]
  {
    WithoutExact(c.index, id);
    WithoutShorter(c.index, id);
    if i :| ListedAt(c, id, i) {
      assert |Without(c.index, id)| < |c.index|;
    } else {
      NotListed(c, id, |c.index|);
    }
  }

  predicate ProcessingState(state: Text) {
    || state == Lit("RECEIVED") || state == Lit("VALIDATING") || state == Lit("NORMALIZING")
    || state == Lit("ANALYZING") || state == Lit("COMPLETE") || state == Lit("ERROR")
  }

  /** The item listed first is at i. */
  ghost predicate FirstAt(c: Console, id: Text, i: int) {
    ListedAt(c, id, i) && forall j :: 0 <= j < i ==> !ListedAt(c, id, j)
  }

  lemma {:induction false} MarkFirst(index: seq<Item>, id: Text, state: Text, i: nat)
    requires i < |index| && index[i].submissionId == id && forall j :: 0 <= j < i ==> index[j].submissionId != id
    ensures Mark(index, id, state) == index[i := index[i].(processingState := state)]
  {
    if i > 0 {
      MarkFirst(index[1..], id, state, i - 1);
      assert index == [index[0]] + index[1..];
    }
  }

  lemma {:induction false} FirstListed(c: Console, id: Text, i: nat) returns (first: nat)
    requires ListedAt(c, id, i)
    ensures FirstAt(c, id, first)
    decreases i
  {
    first := i;
    if j :| 0 <= j < i && ListedAt(c, id, j) {
      first := FirstListed(c, id, j);
    }
  }

  /** A mark is taken exactly for one of six states on a listed submission; it changes the state of the
      first item of it. */
  lemma ProcessExact(c: Console, id: Text, state: Text)
    ensures !ProcessingState(state) || (forall i :: !ListedAt(c, id, i)) ==>
              UpdateProcessing(c, id, state) == Reply(c, Raised)
    ensures forall i: nat :: ProcessingState(state) && FirstAt(c, id, i) ==>
              UpdateProcessing(c, id, state)
              == Reply(c.(index := c.index[i := c.index[i].(processingState := state)]), Done)
    ensures (exists i :: ListedAt(c, id, i)) ==> exists i: nat :: FirstAt(c, id, i)
  {
    hide Lit;
    StatesAre(state);
    forall i: nat | FirstAt(c, id, i)
      ensures Mark(c.index, id, state) == c.index[i := c.index[i].(processingState := state)]
    {
      NotListed(c, id, i);
      MarkFirst(c.index, id, state, i);
    }
    if i :| ListedAt(c, id, i) {
      var first := FirstListed(c, id, i);
    } else {
      NotListed(c, id, |c.index|);
    }
  }

  lemma StatesAre(state: Text)
    ensures state in PROCESSING <==> ProcessingState(state)
  {
    hide Lit;
    assert PROCESSING[0] == Lit("RECEIVED") && PROCESSING[1] == Lit("VALIDATING");
    assert PROCESSING[2] == Lit("NORMALIZING") && PROCESSING[3] == Lit("ANALYZING") && PROCESSING[4] == Lit("COMPLETE") && PROCESSING[5] == Lit("ERROR");
  }
}
