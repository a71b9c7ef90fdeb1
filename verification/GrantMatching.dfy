/**
 Acceptances and grants match one to one: in a session that needs envelopes every acceptance
 has a used grant of its own, even when submissions are removed and their IDs come again.
 */
module GrantMatching {
  import opened Wrappers
  import opened Unicode
  import opened TrustedGrants
  import opened Submissions
  import opened SubmissionRuns
  import opened SubmissionSafety
  import GrantRuns

  /** The used READY grants of a session that name a submission. */
  function Named(c: Console, sessionId: Text, submissionId: Text, transport: Text): set<Text> {
    Naming(GrantWorld(c, sessionId).db, submissionId, transport)
  }

  predicate Matches(g: Grant, a: Acceptance) {
    && (g.buildDigest != [] ==> a.build == g.buildDigest)
    && (g.profileDigest != [] ==> a.profile == g.profileDigest)
  }

  ghost predicate HasGrant(c: Console, a: Acceptance) {
    exists id ::
      && id in Named(c, a.item.sessionId, a.item.submissionId, a.item.transport)
      && Matches(GrantWorld(c, a.item.sessionId).db.grants[id], a)
  }

  // ----- grants only move forward, whatever the console does

  ghost predicate GrantsEvolve(c: Console, after: Console) {
    forall s :: GrantRuns.DbEvolves(GrantWorld(c, s).db, GrantWorld(after, s).db)
  }

  lemma DbEvolvesSelf(db: Db)
    ensures GrantRuns.DbEvolves(db, db)
  {
  }

  lemma GrantStepEvolves(f: Fixed, c: Console, id: Text, op: GrantRuns.Op)
    ensures GrantsEvolve(c, GrantStep(f, c, id, op))
  {
    hide GrantRuns.Step, GrantRuns.DbEvolves;
    GrantRuns.StepEvolves(GrantFixed(f, id), GrantWorld(c, id), op);
    forall s
      ensures GrantRuns.DbEvolves(GrantWorld(c, s).db, GrantWorld(GrantStep(f, c, id, op), s).db)
    {
      DbEvolvesSelf(GrantWorld(c, s).db);
    }
  }

  /** The transaction a step runs on a grant database, if it commits one. */
  function Transaction(f: Fixed, c: Console, op: Op): Option<(Text, GrantRuns.Op)> {
    match op
    case GrantOp(id, transaction) =>
      if !transaction.ConsumeOp? && GrantTakes(f, c, id, transaction) then Some((id, transaction)) else None
    case NonceOp(r) =>
      if EnvelopeRequired(c, r.sessionId) && RequestNonce(f, c, r).outcome.Done?
      then Some((r.sessionId, ConsumeOf(r))) else None
    case ImportOp(r) =>
      if ImportConsumes(f, c, r) then Some((r.sessionId, ImportConsume(r))) else None
    case _ => None
  }

  predicate ImportConsumes(f: Fixed, c: Console, r: Import) {
    && r.assessmentId == f.assessmentId && r.sessionId in c.sessions
    && (c.sessions[r.sessionId].status == Open || c.sessions[r.sessionId].status == Closed)
    && TokenHolds(f, c.sessions[r.sessionId], r.token, r.tokenAt)
    && EnvelopeRequired(c, r.sessionId)
    && (var verdict := VerdictOn(f, c, r.sessionId, r.submissionId, r.token, r.nonce, r.archive);
        && verdict.Validated? && verdict.facts.build in c.sessions[r.sessionId].trustedBuilds
        && verdict.facts.packageDigest == r.packageDigest)
    && HasTrustedPrefix(r.nonce) && GrantTakes(f, c, r.sessionId, ImportConsume(r))
  }

  lemma ImportGrants(f: Fixed, c: Console, r: Import)
    ensures ImportFile(f, c, r).console.grants
            == if ImportConsumes(f, c, r) then GrantStep(f, c, r.sessionId, ImportConsume(r)).grants else c.grants
  {
    hide Lit, BeforeDot, Duplicate, Bound, TokenHolds, EnvelopeRequired, GrantRuns.Step, GrantRuns.Takes;
  }

  lemma RequestGrants(f: Fixed, c: Console, r: NonceRequest)
    ensures RequestNonce(f, c, r).console.grants
            == if EnvelopeRequired(c, r.sessionId) && RequestNonce(f, c, r).outcome.Done? then
                 GrantStep(f, c, r.sessionId, ConsumeOf(r)).grants else c.grants
    ensures EnvelopeRequired(c, r.sessionId) && RequestNonce(f, c, r).outcome.Done? ==>
              GrantTakes(f, c, r.sessionId, ConsumeOf(r))
  {
    hide Lit, BeforeDot, TokenHolds, EnvelopeRequired, GrantRuns.Step, GrantRuns.Takes;
  }

  lemma StepTransaction(f: Fixed, c: Console, op: Op)
    ensures var after, t := Handle(f, c, op).console, Transaction(f, c, op);
            if t.Some? then
              GrantTakes(f, c, t.value.0, t.value.1) && after.grants == GrantStep(f, c, t.value.0, t.value.1).grants
            else after.grants == c.grants
  {
    hide Accept, ImportFile, RequestNonce, ImportConsumes, Strands, GrantTakes, EnvelopeRequired, Without, Mark, Lit;
    if op.AcceptOp? {
      AcceptFrame(f, c, op.upload);
    } else if op.ImportOp? {
      ImportGrants(f, c, op.file);
      ImportTakes(f, c, op.file);
    } else if op.NonceOp? {
      RequestGrants(f, c, op.request);
    }
  }

  lemma ImportTakes(f: Fixed, c: Console, r: Import)
    ensures ImportConsumes(f, c, r) ==> HasTrustedPrefix(r.nonce) && GrantTakes(f, c, r.sessionId, ImportConsume(r))
  {
    hide GrantTakes, EnvelopeRequired, TokenHolds;
  }

  lemma StepEvolves(f: Fixed, c: Console, op: Op)
    ensures GrantsEvolve(c, Handle(f, c, op).console)
  {
    hide Handle, GrantStep, Transaction;
    var after := Handle(f, c, op).console;
    StepTransaction(f, c, op);
    var t := Transaction(f, c, op);
    if t.Some? {
      GrantStepEvolves(f, c, t.value.0, t.value.1);
      SameGrants(GrantStep(f, c, t.value.0, t.value.1), after);
    } else {
      SameGrants(c, after);
      forall s
        ensures GrantRuns.DbEvolves(GrantWorld(c, s).db, GrantWorld(after, s).db)
      {
        DbEvolvesSelf(GrantWorld(c, s).db);
      }
    }
  }

  lemma SameGrants(c: Console, d: Console)
    requires c.grants == d.grants
    ensures forall s :: GrantWorld(c, s) == GrantWorld(d, s)
  {
  }

  // ----- what stays named

  lemma NamingGrows(before: Db, after: Db, submissionId: Text, transport: Text)
    requires GrantRuns.DbEvolves(before, after)
    ensures Naming(before, submissionId, transport) <= Naming(after, submissionId, transport)
    ensures forall id :: id in Naming(before, submissionId, transport) ==> after.grants[id] == before.grants[id]
    ensures |Naming(before, submissionId, transport)| <= |Naming(after, submissionId, transport)|
  {
    GrantRuns.SubsetSize(Naming(before, submissionId, transport), Naming(after, submissionId, transport));
  }

  /** Consuming a grant adds one to the grants naming the submission. */
  lemma ConsumeNames(f: GrantRuns.Fixed, w: GrantRuns.World, op: GrantRuns.Op)
    requires op.ConsumeOp? && GrantRuns.Takes(f, w, op)
    ensures |Naming(GrantRuns.Step(f, w, op).db, op.submissionId, op.transport)|
            > |Naming(w.db, op.submissionId, op.transport)|
  {
    hide Locator, LocatorChar, Lit, GrantRuns.DbEvolves;
    var after := GrantRuns.Step(f, w, op).db;
    var before, now := Naming(w.db, op.submissionId, op.transport), Naming(after, op.submissionId, op.transport);
    var id := w.db.byNonce[f.digest(op.nonce)];
    assert id !in before && id in now;
    assert before <= now - {id};
    GrantRuns.SubsetSize(before, now - {id});
  }

  lemma RequiredStays(f: Fixed, c: Console, op: Op, id: Text)
    requires EnvelopeRequired(c, id)
    ensures EnvelopeRequired(Handle(f, c, op).console, id)
  {
    hide Handle, GrantRuns.Evolves;
    StepEvolves(f, c, op);
    assert GrantRuns.DbEvolves(GrantWorld(c, id).db, GrantWorld(Handle(f, c, op).console, id).db);
    if id in c.sessions && c.sessions[id].envelopeRequired {
      FlagStays(f, c, op, id);
    }
  }

  lemma FlagStays(f: Fixed, c: Console, op: Op, id: Text)
    requires id in c.sessions && c.sessions[id].envelopeRequired
    ensures var after := Handle(f, c, op).console; id in after.sessions && after.sessions[id].envelopeRequired
  {
    hide Handle, Accept, ImportFile, Duplicate, SubmissionRuns.Admission;
    HandleIs(f, c, op);
    if op.AcceptOp? {
      AcceptRecords(f, c, op.upload);
    } else if op.ImportOp? {
      ImportRecords(f, c, op.file);
    } else {
      OtherFlags(f, c, op, id);
    }
  }

  lemma OtherFlags(f: Fixed, c: Console, op: Op, id: Text)
    requires !op.AcceptOp? && !op.ImportOp? && id in c.sessions && c.sessions[id].envelopeRequired
    ensures var after := Handle(f, c, op).console; id in after.sessions && after.sessions[id].envelopeRequired
  {
    hide Without, Mark, BeforeDot, TokenHolds, Lit, GrantRuns.Step, GrantRuns.Takes, EnvelopeRequired;
  }

  // ----- the match

  /** Two acceptances that would have to share a grant. */
  predicate Rivals(a: Acceptance, b: Acceptance) {
    && a.required && b.required && a.item.sessionId == b.item.sessionId
    && a.item.submissionId == b.item.submissionId && a.item.transport == b.item.transport
  }

  /** The session needs envelopes from then on, and the grant stays. */
  ghost predicate Granted(c: Console, a: Acceptance) {
    a.required ==> EnvelopeRequired(c, a.item.sessionId) && HasGrant(c, a)
  }

  /** A nonce with which the same submission could be sent again has cost a second grant. */
  predicate SecondGrantPaid(c: Console, a: Acceptance) {
    var x := a.item.submissionId;
    a.required && a.item.transport == HTTPS && x in c.nonces && !c.nonces[x].used
    && c.nonces[x].sessionId == a.item.sessionId ==>
      |Named(c, a.item.sessionId, x, HTTPS)| >= 2
  }

  ghost predicate Matched(t: Traced) {
    && (forall i :: 0 <= i < |t.log| ==> Granted(t.console, t.log[i]) && SecondGrantPaid(t.console, t.log[i]))
    && (forall i, j :: 0 <= i < j < |t.log| ==> !Rivals(t.log[i], t.log[j]))
  }

  lemma StepGranted(f: Fixed, c: Console, op: Op, a: Acceptance)
    requires Granted(c, a)
    ensures Granted(Handle(f, c, op).console, a)
  {
    hide Handle, EnvelopeRequired, GrantRuns.DbEvolves;
    if a.required {
      var after := Handle(f, c, op).console;
      RequiredStays(f, c, op, a.item.sessionId);
      StepEvolves(f, c, op);
      NamingGrows(GrantWorld(c, a.item.sessionId).db, GrantWorld(after, a.item.sessionId).db,
                  a.item.submissionId, a.item.transport);
      var id :| id in Named(c, a.item.sessionId, a.item.submissionId, a.item.transport)
                && Matches(GrantWorld(c, a.item.sessionId).db.grants[id], a);
      assert id in Named(after, a.item.sessionId, a.item.submissionId, a.item.transport);
    }
  }

  lemma HasGrantNamed(c: Console, a: Acceptance)
    requires HasGrant(c, a)
    ensures |Named(c, a.item.sessionId, a.item.submissionId, a.item.transport)| >= 1
  {
    var s := Named(c, a.item.sessionId, a.item.submissionId, a.item.transport);
    var id :| id in s;
    GrantRuns.SubsetSize({id}, s);
  }

  lemma StepPaid(f: Fixed, c: Console, op: Op, a: Acceptance)
    requires Granted(c, a) && SecondGrantPaid(c, a)
    ensures SecondGrantPaid(Handle(f, c, op).console, a)
  {
    hide Handle, RequestNonce, HasGrant, Strands, EnvelopeRequired, GrantRuns.DbEvolves, GrantStep, GrantTakes;
    var after, s, x := Handle(f, c, op).console, a.item.sessionId, a.item.submissionId;
    StepEvolves(f, c, op);
    NamingGrows(GrantWorld(c, s).db, GrantWorld(after, s).db, x, HTTPS);
    StepFrame(f, c, op);
    if op.NonceOp? && op.request.submissionId == x && op.request.sessionId == s
       && RequestNonce(f, c, op.request).outcome.Done? && a.required && a.item.transport == HTTPS {
      HasGrantNamed(c, a);
      RequestPays(f, c, op.request);
      HandleRequest(f, c, op);
    }
  }

  lemma RequestPays(f: Fixed, c: Console, r: NonceRequest)
    requires EnvelopeRequired(c, r.sessionId) && RequestNonce(f, c, r).outcome.Done?
    ensures |Named(RequestNonce(f, c, r).console, r.sessionId, r.submissionId, HTTPS)|
            > |Named(c, r.sessionId, r.submissionId, HTTPS)|
  {
    hide RequestNonce, EnvelopeRequired, GrantRuns.Step, GrantRuns.Takes, Naming;
    RequestGrants(f, c, r);
    ConsumeNames(GrantFixed(f, r.sessionId), GrantWorld(c, r.sessionId), ConsumeOf(r));
    SameGrants(GrantStep(f, c, r.sessionId, ConsumeOf(r)), RequestNonce(f, c, r).console);
  }

  /** A new acceptance that needs a grant has one, and it is the only one that names it. */
  lemma AdmissionGranted(f: Fixed, c: Console, op: Op)
    requires Admission(f, c, op).Some?
    ensures var a, after := Admission(f, c, op).value, Handle(f, c, op).console;
            && Granted(after, a) && SecondGrantPaid(after, a)
            && (a.required ==> |Named(after, a.item.sessionId, a.item.submissionId, a.item.transport)| == 1)
  {
    hide Handle, Accept, ImportFile, EnvelopeRequired, Admission, Granted, SecondGrantPaid, Named;
    HandleIs(f, c, op);
    AdmissionKinds(f, c, op);
    if op.AcceptOp? {
      AcceptGranted(f, c, op.upload);
    } else {
      ImportGranted(f, c, op.file);
    }
  }

  lemma AdmissionKinds(f: Fixed, c: Console, op: Op)
    requires Admission(f, c, op).Some?
    ensures op.AcceptOp? || op.ImportOp?
    ensures op.AcceptOp? ==> Accept(f, c, op.upload).outcome.Done?
    ensures op.ImportOp? ==> ImportFile(f, c, op.file).outcome.Done?
  {
    hide Accept, ImportFile;
  }

  lemma BoundGranted(c: Console, a: Acceptance)
    requires a.required
    requires var db := GrantWorld(c, a.item.sessionId).db;
             EvidenceBound(db, a.item.submissionId, a.item.transport, a.build, a.profile)
    requires EnvelopeRequired(c, a.item.sessionId)
    ensures Granted(c, a) && |Named(c, a.item.sessionId, a.item.submissionId, a.item.transport)| == 1
  {
    var s := Named(c, a.item.sessionId, a.item.submissionId, a.item.transport);
    assert s != {};
    var id :| id in s;
    assert Matches(GrantWorld(c, a.item.sessionId).db.grants[id], a);
  }

  lemma AcceptGranted(f: Fixed, c: Console, r: Upload)
    requires Accept(f, c, r).outcome.Done?
    ensures Admission(f, c, AcceptOp(r)).Some?
    ensures var a, after := Admission(f, c, AcceptOp(r)).value, Accept(f, c, r).console;
            && a.item.sessionId == r.sessionId && a.item.submissionId == r.submissionId && a.item.transport == HTTPS
            && Granted(after, a) && SecondGrantPaid(after, a)
            && (a.required ==> |Named(after, a.item.sessionId, a.item.submissionId, a.item.transport)| == 1)
  {
    hide Accept, Strands, Admission, EvidenceBound, AuthorizedSubmission, TokenHolds, Granted, Named, Lit;
    HttpsAcceptance(f, c, r);
    AcceptFrame(f, c, r);
    AcceptRecords(f, c, r);
    AdmissionItem(f, c, r);
    var a, after := Admission(f, c, AcceptOp(r)).value, Accept(f, c, r).console;
    SameGrants(c, after);
    if a.required {
      BoundGranted(after, a);
    } else {
      NotRequiredGranted(after, a);
    }
  }

  lemma NotRequiredGranted(c: Console, a: Acceptance)
    requires !a.required
    ensures Granted(c, a)
  {
  }

  lemma AdmissionItem(f: Fixed, c: Console, r: Upload)
    requires Admission(f, c, AcceptOp(r)).Some?
    ensures var a := Admission(f, c, AcceptOp(r)).value;
            && a.item.sessionId == r.sessionId && a.item.submissionId == r.submissionId && a.item.transport == HTTPS
            && a.required == EnvelopeRequired(c, r.sessionId)
  {
    hide Accept, EnvelopeRequired;
  }

  /** An offline acceptance needs a session that is OPEN or CLOSED, a valid token and, where
      envelopes are needed, a grant consumed by this very import that the evidence fits. */
  lemma ImportAcceptance(f: Fixed, c: Console, r: Import)
    requires ImportFile(f, c, r).outcome.Done?
    ensures r.sessionId in c.sessions && r.assessmentId == f.assessmentId
    ensures var s := c.sessions[r.sessionId];
            && (s.status == Open || s.status == Closed) && TokenHolds(f, s, r.token, r.tokenAt)
            && ImportFile(f, c, r).console.nonces == c.nonces
    ensures Admission(f, c, ImportOp(r)).Some?
    ensures var a, after := Admission(f, c, ImportOp(r)).value, ImportFile(f, c, r).console;
            && a.item.sessionId == r.sessionId && a.item.submissionId == r.submissionId && a.item.transport == OFFLINE
            && a.item.packageDigest == r.packageDigest && a.required == EnvelopeRequired(c, r.sessionId)
            && a.build in c.sessions[r.sessionId].trustedBuilds
            && (a.required ==>
                  && ImportConsumes(f, c, r)
                  && EvidenceBound(GrantWorld(after, r.sessionId).db, r.submissionId, OFFLINE, a.build, a.profile))
  {
    hide Lit, BeforeDot, Duplicate, EvidenceBound, TokenHolds, GrantRuns.Step, GrantRuns.Takes;
    ImportRecords(f, c, r);
    ImportFrame(f, c, r);
    ImportStaysRequired(f, c, r);
  }

  lemma ImportStaysRequired(f: Fixed, c: Console, r: Import)
    ensures EnvelopeRequired(c, r.sessionId) && HasTrustedPrefix(r.nonce) ==>
              EnvelopeRequired(GrantStep(f, c, r.sessionId, ImportConsume(r)), r.sessionId)
  {
    hide Lit, GrantRuns.Step, GrantRuns.Evolves, HasTrustedPrefix;
    if EnvelopeRequired(c, r.sessionId) && HasTrustedPrefix(r.nonce) {
      GrantStepEvolves(f, c, r.sessionId, ImportConsume(r));
      var after := GrantStep(f, c, r.sessionId, ImportConsume(r));
      assert GrantRuns.DbEvolves(GrantWorld(c, r.sessionId).db, GrantWorld(after, r.sessionId).db);
    }
  }

  lemma ImportGranted(f: Fixed, c: Console, r: Import)
    requires ImportFile(f, c, r).outcome.Done?
    ensures Admission(f, c, ImportOp(r)).Some?
    ensures var a, after := Admission(f, c, ImportOp(r)).value, ImportFile(f, c, r).console;
            && a.item.sessionId == r.sessionId && a.item.submissionId == r.submissionId && a.item.transport == OFFLINE
            && Granted(after, a) && SecondGrantPaid(after, a)
            && (a.required ==> |Named(after, a.item.sessionId, a.item.submissionId, a.item.transport)| == 1)
  {
    hide ImportFile, Admission, EvidenceBound, TokenHolds, Granted, Named, EnvelopeRequired, ImportConsumes;
    ImportAcceptance(f, c, r);
    TransportsDiffer();
    var a, after := Admission(f, c, ImportOp(r)).value, ImportFile(f, c, r).console;
    if a.required {
      RequiredStays(f, c, ImportOp(r), r.sessionId);
      HandleIs(f, c, ImportOp(r));
      BoundGranted(after, a);
    } else {
      NotRequiredGranted(after, a);
    }
  }

  lemma TransportsDiffer()
    ensures HTTPS != OFFLINE
  {
    assert |HTTPS| == 5 && |OFFLINE| == 17;
  }

  // ----- no acceptance shares its grant

  lemma UploadHasNoRival(f: Fixed, c: Console, r: Upload, earlier: Acceptance)
    requires Accept(f, c, r).outcome.Done? && Admission(f, c, AcceptOp(r)).Some?
    requires SecondGrantPaid(c, earlier)
    ensures !Rivals(earlier, Admission(f, c, AcceptOp(r)).value)
  {
    hide Accept, Strands, Admission, AuthorizedSubmission, TokenHolds;
    hide Lit, EvidenceBound, EnvelopeRequired, Granted, Naming;
    HttpsAcceptance(f, c, r);
    AdmissionItem(f, c, r);
    AcceptGranted(f, c, r);
    AcceptFrame(f, c, r);
    SameGrants(c, Accept(f, c, r).console);
  }

  lemma ImportHasNoRival(f: Fixed, c: Console, r: Import, earlier: Acceptance)
    requires ImportFile(f, c, r).outcome.Done? && Admission(f, c, ImportOp(r)).Some?
    requires Granted(c, earlier)
    ensures !Rivals(earlier, Admission(f, c, ImportOp(r)).value)
  {
    hide ImportFile, Admission, ImportConsumes, TokenHolds, Lit;
    hide EvidenceBound, EnvelopeRequired, HasGrant, SecondGrantPaid;
    hide GrantRuns.Step, GrantRuns.Takes, Naming, HasTrustedPrefix;
    ImportAcceptance(f, c, r);
    ImportGranted(f, c, r);
    var a, after := Admission(f, c, ImportOp(r)).value, ImportFile(f, c, r).console;
    if Rivals(earlier, a) {
      HasGrantNamed(c, earlier);
      ImportTakes(f, c, r);
      ImportGrants(f, c, r);
      SameGrants(GrantStep(f, c, r.sessionId, ImportConsume(r)), after);
      ConsumeNames(GrantFixed(f, r.sessionId), GrantWorld(c, r.sessionId), ImportConsume(r));
    }
  }

  lemma StepMatched(f: Fixed, t: Traced, op: Op)
    requires Matched(t)
    ensures Matched(Step(f, t, op))
  {
    hide Handle, Admission, Granted, SecondGrantPaid, Rivals, Accept, ImportFile;
    var c := t.console;
    var after := Handle(f, c, op).console;
    forall i | 0 <= i < |t.log|
      ensures Granted(after, t.log[i]) && SecondGrantPaid(after, t.log[i])
    {
      StepGranted(f, c, op, t.log[i]);
      StepPaid(f, c, op, t.log[i]);
    }
    if Admission(f, c, op).Some? {
      AdmissionGranted(f, c, op);
      AdmissionKinds(f, c, op);
      forall i | 0 <= i < |t.log|
        ensures !Rivals(t.log[i], Admission(f, c, op).value)
      {
        if op.AcceptOp? {
          UploadHasNoRival(f, c, op.upload, t.log[i]);
        } else {
          ImportHasNoRival(f, c, op.file, t.log[i]);
        }
      }
    }
  }

  /** After every run, each acceptance made in a session that needs envelopes has a used
      READY grant naming it whose build and profile it has, and no two of them have the same
      one, whatever was removed from the index in between. */
  lemma {:induction false} AcceptancesMatchGrants(f: Fixed, ops: seq<Op>)
    ensures Matched(Run(f, ops))
  {
    hide Step, Granted, SecondGrantPaid, Rivals;
    if ops == [] {
    } else {
      AcceptancesMatchGrants(f, ops[..|ops| - 1]);
      StepMatched(f, Run(f, ops[..|ops| - 1]), ops[|ops| - 1]);
    }
  }

  /** Spelled out as an injection: the grants of two acceptances of a run are different rows,
      or rows of different sessions. */
  lemma GrantsAreNotShared(f: Fixed, ops: seq<Op>, i: nat, j: nat) returns (g: Text, h: Text)
    requires i < j < |Run(f, ops).log| && Run(f, ops).log[i].required && Run(f, ops).log[j].required
    ensures var c, a, b := Run(f, ops).console, Run(f, ops).log[i], Run(f, ops).log[j];
            && g in Named(c, a.item.sessionId, a.item.submissionId, a.item.transport)
            && h in Named(c, b.item.sessionId, b.item.submissionId, b.item.transport)
            && (a.item.sessionId != b.item.sessionId || g != h)
  {
    hide Run, EnvelopeRequired, SecondGrantPaid;
    AcceptancesMatchGrants(f, ops);
    var c, a, b := Run(f, ops).console, Run(f, ops).log[i], Run(f, ops).log[j];
    assert Granted(c, a) && Granted(c, b) && !Rivals(a, b);
    g :| g in Named(c, a.item.sessionId, a.item.submissionId, a.item.transport);
    h :| h in Named(c, b.item.sessionId, b.item.submissionId, b.item.transport);
  }
}
