/** Nonces, quarantine, and the one-to-one match of acceptances with grants. */
module SubmissionSafety {
  import opened Unicode
  import opened TrustedGrants
  import opened Submissions
  import opened SubmissionRuns
  import GrantRuns

  // ----- what an acceptance happened under

  /** An HTTPS acceptance happened while the session was OPEN and unexpired, from a source in
      scope, with a valid token, and it used up an unexpired nonce that had been issued to the
      same session, submission and source; in a session that needs envelopes one unexpired
      consumed grant named the submission and its build and profile are the package's. */
  lemma HttpsAcceptance(f: Fixed, c: Console, r: Upload)
    requires Accept(f, c, r).outcome.Done?
    ensures r.sessionId in c.sessions && r.submissionId in c.nonces
    ensures var s, n := c.sessions[r.sessionId], c.nonces[r.submissionId];
            && s.status == Open && r.sourceAt < s.expiresAt && f.inScope(r.sessionId, r.source)
            && TokenHolds(f, s, r.token, r.tokenAt) && |r.archive| <= s.maximumPackageSize
            && n.sessionId == r.sessionId && n.submissionId == r.submissionId && n.source == r.source
            && n.value == r.nonce && !n.used && r.nonceAt < n.expiresAt
            && Accept(f, c, r).console.nonces == c.nonces[r.submissionId := n.(used := true)]
    ensures Admission(f, c, AcceptOp(r)).Some?
    ensures var a := Admission(f, c, AcceptOp(r)).value;
            && a.build in c.sessions[r.sessionId].trustedBuilds
            && (a.required ==>
                  && AuthorizedSubmission(GrantWorld(c, r.sessionId).db, r.submissionId, r.grantAt)
                  && EvidenceBound(GrantWorld(c, r.sessionId).db, r.submissionId, HTTPS, a.build, a.profile))
  {
    hide Lit, BeforeDot, AuthorizedSubmission, EvidenceBound, Duplicate;
    AcceptRecords(f, c, r);
  }

  /** A nonce is issued only while the session is OPEN, to a source in scope with a valid token,
      and in a session that needs envelopes only against a grant consumed by this request. */
  lemma NonceIssued(f: Fixed, c: Console, r: NonceRequest)
    requires RequestNonce(f, c, r).outcome.Done?
    ensures r.sessionId in c.sessions
    ensures var s := c.sessions[r.sessionId];
            && s.status == Open && r.sourceAt < s.expiresAt
            && f.inScope(r.sessionId, r.source) && TokenHolds(f, s, r.token, r.tokenAt)
    ensures EnvelopeRequired(c, r.sessionId) ==> GrantTakes(f, c, r.sessionId, ConsumeOf(r))
    ensures RequestNonce(f, c, r).console.nonces
            == c.nonces[r.submissionId :=
                 Nonce(r.sessionId, r.submissionId, r.issued, r.issuedAt + 120.0, r.source, false)]
  {
    hide Lit, TokenHolds, GrantTakes, EnvelopeRequired, GrantRuns.Step;
  }

  /** The request leaves its archive in quarantine: it was staged, and the validator raised
      something that is not a package error. */
  predicate Strands(f: Fixed, c: Console, r: Upload) {
    && Turned(f, c, r).None?
    && r.sessionId in c.sessions
    && VerdictOn(f, c, r.sessionId, r.submissionId, r.token, r.nonce, r.archive).Crashed?
  }

  /** The quarantine after an upload: untouched when it was turned away before staging, with the
      new archive when it strands, without any under its name otherwise. */
  function QuarantineAfter(f: Fixed, c: Console, r: Upload): map<Text, Bytes> {
    if Turned(f, c, r).Some? then c.quarantine
    else if Strands(f, c, r) then c.quarantine[r.submissionId := r.archive]
    else c.quarantine - {r.submissionId}
  }

  // ----- nonces

  /** 1 when there is a nonce for the submission that can still be used. */
  function Usable(c: Console, submissionId: Text): nat {
    if submissionId in c.nonces && !c.nonces[submissionId].used then 1 else 0
  }

  function Issues(f: Fixed, submissionId: Text): (Console, Op) -> bool {
    (c: Console, op: Op) =>
      op.NonceOp? && op.request.submissionId == submissionId && RequestNonce(f, c, op.request).outcome.Done?
  }

  /** The request takes the nonce, whether or not it is accepted in the end. */
  function Uses(f: Fixed, submissionId: Text): (Console, Op) -> bool {
    (c: Console, op: Op) =>
      op.AcceptOp? && op.upload.submissionId == submissionId && Usable(c, submissionId) == 1
      && Usable(Accept(f, c, op.upload).console, submissionId) == 0
  }

  lemma TurnedFrame(f: Fixed, c: Console, r: Upload)
    requires Turned(f, c, r).Some?
    ensures var after := Turned(f, c, r).value.console;
            && after.grants == c.grants && after.quarantine == c.quarantine
            && (after.nonces == c.nonces || (NonceHolds(c, r) && after.nonces == UseNonce(c, r.submissionId).nonces))
  {
    hide Lit, AuthorizedSubmission, EnvelopeRequired, TokenHolds, Reject, NonceHolds;
  }

  lemma JudgeFrame(f: Fixed, c: Console, r: Upload)
    requires r.sessionId in c.sessions
    ensures var after := Judge(f, c, r).console;
            && after.grants == c.grants && after.nonces == c.nonces
            && after.quarantine
               == if VerdictOn(f, c, r.sessionId, r.submissionId, r.token, r.nonce, r.archive).Crashed? then
                 c.quarantine[r.submissionId := r.archive] else c.quarantine
  {
    hide Lit, Duplicate, Bound, Reject, Record;
  }

  lemma AcceptFrame(f: Fixed, c: Console, r: Upload)
    ensures var after := Accept(f, c, r).console;
            && after.grants == c.grants
            && (after.nonces == c.nonces || (NonceHolds(c, r) && after.nonces == UseNonce(c, r.submissionId).nonces))
            && after.quarantine == QuarantineAfter(f, c, r)
  {
    hide Judge;
    if Turned(f, c, r).Some? {
      TurnedFrame(f, c, r);
    } else {
      hide Lit, BeforeDot, AuthorizedSubmission, EnvelopeRequired, TokenHolds;
      JudgeFrame(f, Staged(c, r.submissionId), r);
    }
  }

  lemma ImportFrame(f: Fixed, c: Console, r: Import)
    ensures var after := ImportFile(f, c, r).console;
            after.nonces == c.nonces && after.quarantine == c.quarantine
  {
    hide Lit, BeforeDot, Duplicate, Bound, EnvelopeRequired, TokenHolds, GrantRuns.Step, GrantRuns.Takes;
  }

  lemma RequestFrame(f: Fixed, c: Console, r: NonceRequest)
    ensures var reply := RequestNonce(f, c, r);
            && reply.console.quarantine == c.quarantine
            && reply.console.nonces == if reply.outcome.Done? then Issue(c, r).nonces else c.nonces
  {
    hide Lit, BeforeDot, EnvelopeRequired, TokenHolds, GrantRuns.Step, GrantRuns.Takes;
  }

  lemma OtherFrame(f: Fixed, c: Console, op: Op)
    requires !op.AcceptOp? && !op.ImportOp? && !op.NonceOp?
    ensures var after := Handle(f, c, op).console;
            after.nonces == c.nonces && after.quarantine == c.quarantine
  {
    hide Without, Mark, Lit, GrantRuns.Step, GrantRuns.Takes;
  }

  lemma HandleRequest(f: Fixed, c: Console, op: Op)
    ensures op.NonceOp? ==> Handle(f, c, op) == RequestNonce(f, c, op.request)
  {
  }

  /** Only nonce requests and uploads touch the nonces; only uploads the quarantine. */
  lemma StepFrame(f: Fixed, c: Console, op: Op)
    ensures var after := Handle(f, c, op).console;
            && (op.NonceOp? ==>
                  after.nonces
                  == if RequestNonce(f, c, op.request).outcome.Done? then Issue(c, op.request).nonces else c.nonces)
            && (op.AcceptOp? && after.nonces != c.nonces ==>
                  NonceHolds(c, op.upload) && after.nonces == UseNonce(c, op.upload.submissionId).nonces)
            && (!op.NonceOp? && !op.AcceptOp? ==> after.nonces == c.nonces)
            && after.quarantine == if op.AcceptOp? then QuarantineAfter(f, c, op.upload) else c.quarantine
  {
    hide Handle, Accept, ImportFile, RequestNonce, Strands;
    HandleIs(f, c, op);
    HandleRequest(f, c, op);
    if op.AcceptOp? {
      AcceptFrame(f, c, op.upload);
    } else if op.ImportOp? {
      ImportFrame(f, c, op.file);
    } else if op.NonceOp? {
      RequestFrame(f, c, op.request);
    } else {
      OtherFrame(f, c, op);
    }
  }

  /** Nonces used for a submission never outnumber the nonces issued for it. */
  lemma {:induction false} NonceUsedOnce(f: Fixed, ops: seq<Op>, submissionId: Text)
    ensures Usable(Run(f, ops).console, submissionId) + Count(f, ops, Uses(f, submissionId))
            <= Count(f, ops, Issues(f, submissionId))
  {
    hide Handle, Accept, RequestNonce, Strands;
    if ops == [] {
    } else {
      var before, op := ops[..|ops| - 1], ops[|ops| - 1];
      NonceUsedOnce(f, before, submissionId);
      StepFrame(f, Run(f, before).console, op);
      HandleIs(f, Run(f, before).console, op);
    }
  }

  /** The step issues a nonce for the submission, or uses the one there is. */
  predicate Touches(f: Fixed, c: Console, op: Op, submissionId: Text) {
    Issues(f, submissionId)(c, op) || Uses(f, submissionId)(c, op)
  }

  /** The request m of a run issued this nonce, and nothing has issued another or used it since. */
  ghost predicate Issued(f: Fixed, ops: seq<Op>, m: int, nonce: Nonce) {
    && 0 <= m < |ops| && ops[m].NonceOp?
    && RequestNonce(f, Run(f, ops[..m]).console, ops[m].request).outcome.Done?
    && var r := ops[m].request;
       && nonce == Nonce(r.sessionId, r.submissionId, r.issued, r.issuedAt + 120.0, r.source, false)
       && forall k :: m < k < |ops| ==> !Touches(f, Run(f, ops[..k]).console, ops[k], r.submissionId)
  }

  lemma IssuedEarlier(f: Fixed, ops: seq<Op>, m: int, nonce: Nonce, op: Op)
    requires Issued(f, ops, m, nonce) && !Touches(f, Run(f, ops).console, op, nonce.submissionId)
    ensures Issued(f, ops + [op], m, nonce)
  {
    hide Run, RequestNonce, Touches;
    var all := ops + [op];
    assert all[..m] == ops[..m];
    forall k | m < k < |all|
      ensures !Touches(f, Run(f, all[..k]).console, all[k], nonce.submissionId)
    {
      if k < |ops| {
        assert all[..k] == ops[..k];
      } else {
        assert all[..k] == ops;
      }
    }
  }

  /** A nonce that can be used was issued by some request of the run and not touched since. */
  lemma {:induction false} NonceOrigin(f: Fixed, ops: seq<Op>, submissionId: Text) returns (m: int)
    requires var c := Run(f, ops).console; submissionId in c.nonces && !c.nonces[submissionId].used
    ensures Issued(f, ops, m, Run(f, ops).console.nonces[submissionId])
    ensures Run(f, ops).console.nonces[submissionId].submissionId == submissionId
  {
    hide Handle, Accept, RequestNonce, Strands, QuarantineAfter;
    if ops == [] {
      assert false;
    } else {
      var before, op := ops[..|ops| - 1], ops[|ops| - 1];
      var c := Run(f, before).console;
      assert ops == before + [op];
      StepFrame(f, c, op);
      HandleIs(f, c, op);
      if Issues(f, submissionId)(c, op) {
        m := |before|;
        assert ops[..m] == before;
      } else {
        assert !Uses(f, submissionId)(c, op);
        m := NonceOrigin(f, before, submissionId);
        IssuedEarlier(f, before, m, c.nonces[submissionId], op);
      }
    }
  }

  /** Every HTTPS acceptance of a run goes back to an earlier request for the same session,
      submission and source, which issued the very nonce within two minutes of the acceptance's
      reading of the clock to a valid token of an OPEN session, and no step in between issued
      another or used it. */
  lemma AcceptanceTraced(f: Fixed, ops: seq<Op>, n: nat) returns (m: int)
    requires n < |ops| && ops[n].AcceptOp? && Accept(f, Run(f, ops[..n]).console, ops[n].upload).outcome.Done?
    ensures 0 <= m < n && ops[m].NonceOp?
    ensures RequestNonce(f, Run(f, ops[..m]).console, ops[m].request).outcome.Done?
    ensures var r, u := ops[m].request, ops[n].upload;
            && r.sessionId == u.sessionId && r.submissionId == u.submissionId && r.source == u.source
            && r.issued == u.nonce && u.nonceAt < r.issuedAt + 120.0
    ensures var c, r := Run(f, ops[..m]).console, ops[m].request;
            && r.sessionId in c.sessions && c.sessions[r.sessionId].status == Open
            && r.sourceAt < c.sessions[r.sessionId].expiresAt && f.inScope(r.sessionId, r.source)
            && TokenHolds(f, c.sessions[r.sessionId], r.token, r.tokenAt)
            && (EnvelopeRequired(c, r.sessionId) ==> GrantTakes(f, c, r.sessionId, ConsumeOf(r)))
    ensures forall k :: m < k < n ==> !Touches(f, Run(f, ops[..k]).console, ops[k], ops[n].upload.submissionId)
  {
    hide Accept, RequestNonce, Run, Admission, TokenHolds;
    hide AuthorizedSubmission, EvidenceBound, EnvelopeRequired, Touches;
    HttpsAcceptance(f, Run(f, ops[..n]).console, ops[n].upload);
    m := NonceOrigin(f, ops[..n], ops[n].upload.submissionId);
    assert ops[..n][..m] == ops[..m];
    NonceIssued(f, Run(f, ops[..m]).console, ops[m].request);
    forall k | m < k < n
      ensures !Touches(f, Run(f, ops[..k]).console, ops[k], ops[n].upload.submissionId)
    {
      assert ops[..n][..k] == ops[..k];
    }
  }

  // ----- quarantine

  /** The upload at n was staged for the submission and left there. */
  ghost predicate StrandedAt(f: Fixed, ops: seq<Op>, n: int, submissionId: Text) {
    && 0 <= n < |ops| && ops[n].AcceptOp? && ops[n].upload.submissionId == submissionId
    && Strands(f, Run(f, ops[..n]).console, ops[n].upload)
  }

  /** The upload at n was staged for the submission. */
  ghost predicate StagedAt(f: Fixed, ops: seq<Op>, n: int, submissionId: Text) {
    && 0 <= n < |ops| && ops[n].AcceptOp? && ops[n].upload.submissionId == submissionId
    && Turned(f, Run(f, ops[..n]).console, ops[n].upload).None?
  }

  /** The upload at n stranded, and no later one was staged for the submission. */
  ghost predicate LeftBy(f: Fixed, ops: seq<Op>, n: int, submissionId: Text) {
    StrandedAt(f, ops, n, submissionId) && forall m :: n < m < |ops| ==> !StagedAt(f, ops, m, submissionId)
  }

  lemma PrefixStaging(f: Fixed, ops: seq<Op>, n: int, submissionId: Text)
    requires 0 <= n < |ops| - 1
    ensures StrandedAt(f, ops, n, submissionId) <==> StrandedAt(f, ops[..|ops| - 1], n, submissionId)
    ensures StagedAt(f, ops, n, submissionId) <==> StagedAt(f, ops[..|ops| - 1], n, submissionId)
  {
    assert ops[..|ops| - 1][..n] == ops[..n];
  }

  /** Left by the last step, or by an earlier one and not cleared by the last. */
  ghost predicate LeftNow(f: Fixed, ops: seq<Op>, n: int, submissionId: Text)
    requires ops != []
  {
    if n == |ops| - 1 then StrandedAt(f, ops, n, submissionId)
    else LeftBy(f, ops[..|ops| - 1], n, submissionId) && !StagedAt(f, ops, |ops| - 1, submissionId)
  }

  lemma LeftByStep(f: Fixed, ops: seq<Op>, n: int, submissionId: Text)
    requires ops != []
    ensures LeftBy(f, ops, n, submissionId) <==> LeftNow(f, ops, n, submissionId)
  {
    hide StrandedAt, StagedAt;
    var before := ops[..|ops| - 1];
    forall m | 0 <= m < |ops| - 1
      ensures StrandedAt(f, ops, m, submissionId) <==> StrandedAt(f, before, m, submissionId)
      ensures StagedAt(f, ops, m, submissionId) <==> StagedAt(f, before, m, submissionId)
    {
      PrefixStaging(f, ops, m, submissionId);
    }
    OutOfRange(f, ops, n, submissionId);
    OutOfRange(f, before, n, submissionId);
    if LeftBy(f, before, n, submissionId) && !StagedAt(f, ops, |ops| - 1, submissionId) {
      forall m | n < m < |ops|
        ensures !StagedAt(f, ops, m, submissionId)
      {
        assert m < |ops| - 1 ==> !StagedAt(f, before, m, submissionId);
      }
    }
    if LeftBy(f, ops, n, submissionId) && n < |ops| - 1 {
      forall m | n < m < |ops| - 1
        ensures !StagedAt(f, before, m, submissionId)
      {
        assert !StagedAt(f, ops, m, submissionId);
      }
    }
  }

  lemma OutOfRange(f: Fixed, ops: seq<Op>, n: int, submissionId: Text)
    ensures StrandedAt(f, ops, n, submissionId) ==> 0 <= n < |ops|
  {
  }

  /** After every run a file lies in quarantine under a submission's name exactly when some
      upload of the submission was left there by the validator and no later one was staged; the
      file is that upload's archive. */
  lemma {:induction false} QuarantineExact(f: Fixed, ops: seq<Op>, submissionId: Text)
    ensures submissionId in Run(f, ops).console.quarantine <==> exists n :: LeftBy(f, ops, n, submissionId)
    ensures forall n :: LeftBy(f, ops, n, submissionId) ==>
              && 0 <= n < |ops| && ops[n].AcceptOp? && submissionId in Run(f, ops).console.quarantine
              && Run(f, ops).console.quarantine[submissionId] == ops[n].upload.archive
  {
    hide Handle, Strands, StrandedAt, StagedAt, LeftBy, Turned;
    if ops == [] {
      forall n
        ensures !LeftBy(f, ops, n, submissionId)
      {
        NothingLeft(f, n, submissionId);
      }
    } else {
      var before, last := ops[..|ops| - 1], |ops| - 1;
      QuarantineExact(f, before, submissionId);
      forall n
        ensures LeftBy(f, ops, n, submissionId) <==> LeftNow(f, ops, n, submissionId)
      {
        LeftByStep(f, ops, n, submissionId);
      }
      QuarantineStep(f, ops, submissionId);
      if submissionId in Run(f, ops).console.quarantine {
        if StrandedAt(f, ops, last, submissionId) {
          assert LeftNow(f, ops, last, submissionId);
        } else {
          var n :| LeftBy(f, before, n, submissionId);
          assert LeftNow(f, ops, n, submissionId);
        }
      }
    }
  }

  lemma NothingLeft(f: Fixed, n: int, submissionId: Text)
    ensures !LeftBy(f, [], n, submissionId)
  {
  }

  lemma QuarantineStep(f: Fixed, ops: seq<Op>, submissionId: Text)
    requires ops != []
    ensures var was, now := Run(f, ops[..|ops| - 1]).console.quarantine, Run(f, ops).console.quarantine;
            var last := |ops| - 1;
            && (StrandedAt(f, ops, last, submissionId) ==>
                  ops[last].AcceptOp? && submissionId in now && now[submissionId] == ops[last].upload.archive)
            && (!StrandedAt(f, ops, last, submissionId) && StagedAt(f, ops, last, submissionId) ==>
                  submissionId !in now)
            && (!StagedAt(f, ops, last, submissionId) ==>
                  && !StrandedAt(f, ops, last, submissionId)
                  && (submissionId in now <==> submissionId in was)
                  && (submissionId in was ==> now[submissionId] == was[submissionId]))
  {
    hide Handle, Accept, Turned, VerdictOn;
    StepFrame(f, Run(f, ops[..|ops| - 1]).console, ops[|ops| - 1]);
  }

  /** So the quarantine is empty after a run in which no upload strands. */
  lemma QuarantineEmpty(f: Fixed, ops: seq<Op>)
    requires forall n :: 0 <= n < |ops| && ops[n].AcceptOp? ==> !Strands(f, Run(f, ops[..n]).console, ops[n].upload)
    ensures Run(f, ops).console.quarantine == map[]
  {
    hide Run, Strands, LeftBy;
    forall s
      ensures s !in Run(f, ops).console.quarantine
    {
      QuarantineExact(f, ops, s);
      forall n
        ensures !LeftBy(f, ops, n, s)
      {
        NotLeft(f, ops, n, s);
      }
    }
  }

  lemma NotLeft(f: Fixed, ops: seq<Op>, n: int, submissionId: Text)
    requires forall k :: 0 <= k < |ops| && ops[k].AcceptOp? ==> !Strands(f, Run(f, ops[..k]).console, ops[k].upload)
    ensures !LeftBy(f, ops, n, submissionId)
  {
    hide Run, Strands;
  }

  // ----- one run that leaves a file

  /** A session for one submission, a nonce and an upload. */
  function ShortRun(f: Fixed, id: Text, submissionId: Text, token: Text, source: Text, archive: Bytes): seq<Op> {
    [ OpenOp(id, Session(Open, 10.0, BeforeDot(token), f.digest(token), 10.0, 1, 1, 0, [], |archive|, false, {})),
      NonceOp(NonceRequest(id, submissionId, token, source, [], [], [1], 0.0, 0.0, 0.0, 0.0)),
      AcceptOp(Upload(id, submissionId, token, [1], source, archive, 1.0, 1.0, 1.0, 1.0)) ]
  }

  lemma ShortRunStages(f: Fixed, id: Text, submissionId: Text, token: Text, source: Text, archive: Bytes)
    requires f.inScope(id, source)
    ensures var ops := ShortRun(f, id, submissionId, token, source, archive);
            var c := Run(f, ops[..2]).console;
            && id in c.sessions && c.quarantine == map[]
            && Expected(c.sessions[id], id, submissionId, token, [1])
               == Expectation(token, id, submissionId, [1], [], |archive|)
            && Turned(f, c, ops[2].upload).None?
  {
    hide Lit, BeforeDot, GrantRuns.Takes, GrantRuns.Step;
    var ops := ShortRun(f, id, submissionId, token, source, archive);
    assert ops[..0] == [] && ops[..1][..0] == [] && ops[..2][..1] == ops[..1];
    assert ops[..1][0] == ops[0] && ops[..2][1] == ops[1];
    var none, one := Run(f, []).console, Run(f, ops[..1]).console;
    assert none == EMPTY_CONSOLE;
    assert one == Handle(f, none, ops[0]).console;
    assert one == EMPTY_CONSOLE.(sessions := map[id := ops[0].session]);
    assert !EnvelopeRequired(one, id);
    assert RequestNonce(f, one, ops[1].request) == Reply(Issue(one, ops[1].request), Done);
  }

  /** After the run the quarantine holds this archive under this name, and nothing else. */
  ghost predicate LeavesOnly(f: Fixed, ops: seq<Op>, submissionId: Text, archive: Bytes) {
    Run(f, ops).console.quarantine == map[submissionId := archive]
  }

  /** When the validator crashes on the archive, the upload leaves it in quarantine for good. */
  lemma ShortRunStrands(f: Fixed, id: Text, submissionId: Text, token: Text, source: Text, archive: Bytes)
    requires f.inScope(id, source)
    requires f.validate(archive, Expectation(token, id, submissionId, [1], [], |archive|)).Crashed?
    ensures LeavesOnly(f, ShortRun(f, id, submissionId, token, source, archive), submissionId, archive)
  {
    hide Handle, Accept, Turned;
    var ops := ShortRun(f, id, submissionId, token, source, archive);
    ShortRunStages(f, id, submissionId, token, source, archive);
    assert ops[..|ops| - 1] == ops[..2];
    StepFrame(f, Run(f, ops[..2]).console, ops[2]);
  }
}
