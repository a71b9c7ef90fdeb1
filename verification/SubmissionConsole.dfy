/** The submission service on its own files: each request does what its specification says. */
module SubmissionConsole {
  import opened Ordering
  import opened Unicode
  import opened TrustedGrants
  import opened Submissions
  import GrantRuns

  /** The scan for a duplicate. */
  method FindDuplicate(index: seq<Item>, submissionId: Text, packageDigest: Text) returns (duplicate: bool)
    ensures duplicate == Duplicate(index, submissionId, packageDigest)
  {
    for i := 0 to |index|
      invariant forall k :: 0 <= k < i ==>
                  index[k].submissionId != submissionId && index[k].packageDigest != packageDigest
    {
      if index[i].submissionId == submissionId || index[i].packageDigest == packageDigest {
        return true;
      }
    }
    return false;
  }

  lemma {:induction false} WithoutAppend(index: seq<Item>, item: Item, submissionId: Text)
    ensures Without(index + [item], submissionId)
            == Without(index, submissionId) + if item.submissionId == submissionId then [] else [item]
  {
    if index == [] {
      assert index + [item] == [item];
    } else {
      assert (index + [item])[1..] == index[1..] + [item];
      WithoutAppend(index[1..], item, submissionId);
    }
  }

  /** The items of the other submissions. */
  method Remaining(index: seq<Item>, submissionId: Text) returns (remaining: seq<Item>)
    ensures remaining == Without(index, submissionId)
  {
    remaining := [];
    for i := 0 to |index|
      invariant remaining == Without(index[..i], submissionId)
    {
      assert index[..i + 1] == index[..i] + [index[i]];
      WithoutAppend(index[..i], index[i], submissionId);
      if index[i].submissionId != submissionId {
        remaining := remaining + [index[i]];
      }
    }
    assert index[..|index|] == index;
  }

  lemma {:induction false} MarkAt(index: seq<Item>, submissionId: Text, state: Text, i: nat)
    requires i < |index| && index[i].submissionId == submissionId
    requires forall k :: 0 <= k < i ==> index[k].submissionId != submissionId
    ensures Mark(index, submissionId, state) == index[i := index[i].(processingState := state)]
  {
    if i > 0 {
      MarkAt(index[1..], submissionId, state, i - 1);
    }
  }

  /** The loop that marks the first item of the submission and stops. */
  method MarkFirst(index: seq<Item>, submissionId: Text, state: Text) returns (marked: seq<Item>, matched: bool)
    ensures matched <==> exists i :: 0 <= i < |index| && index[i].submissionId == submissionId
    ensures matched ==> marked == Mark(index, submissionId, state)
  {
    marked, matched := index, false;
    for i := 0 to |index|
      invariant marked == index && !matched
      invariant forall k :: 0 <= k < i ==> index[k].submissionId != submissionId
    {
      if index[i].submissionId == submissionId {
        MarkAt(index, submissionId, state, i);
        return index[i := index[i].(processingState := state)], true;
      }
    }
  }

  class SubmissionService {
    const fixed: Fixed
    var sessions: map<Text, Session>
    var grants: map<Text, GrantRuns.World>
    var nonces: map<Text, Nonce>
    var index: seq<Item>
    var accepted: map<Text, Bytes>
    var quarantine: map<Text, Bytes>
    var rejected: map<Text, RejectedState>

    constructor (fixed: Fixed)
      ensures this.fixed == fixed && State() == EMPTY_CONSOLE
    {
      this.fixed := fixed;
      sessions, grants, nonces, index := map[], map[], map[], [];
      accepted, quarantine, rejected := map[], map[], map[];
    }

    function State(): Console
      reads this
    {
      Console(sessions, grants, nonces, index, accepted, quarantine, rejected)
    }

    method Request(r: NonceRequest) returns (outcome: Outcome)
      modifies this
      ensures Reply(State(), outcome) == RequestNonce(fixed, old(State()), r)
    {
      hide TokenHolds, GrantRuns.Step, GrantRuns.Takes, EnvelopeRequired, Lit;
      if r.sessionId !in sessions {
        return Raised;
      }
      var session := sessions[r.sessionId];
      if r.sourceAt >= session.expiresAt {
        return Rejected(RejectedExpired);
      }
      if !fixed.inScope(r.sessionId, r.source) {
        return Rejected(RejectedUnauthorizedSource);
      }
      if session.status != Open || !TokenHolds(fixed, session, r.token, r.tokenAt) {
        return Rejected(RejectedToken);
      }
      if EnvelopeRequired(State(), r.sessionId) {
        if !GrantTakes(fixed, State(), r.sessionId, ConsumeOf(r)) {
          return Rejected(RejectedReplay);
        }
        grants := GrantStep(fixed, State(), r.sessionId, ConsumeOf(r)).grants;
      }
      var issued := Nonce(r.sessionId, r.submissionId, r.issued, r.issuedAt + 120.0, r.source, false);
      nonces := nonces[r.submissionId := issued];
      return Done;
    }

    method RejectUpload(submissionId: Text, state: RejectedState) returns (outcome: Outcome)
      modifies this
      ensures Reply(State(), outcome) == Reject(old(State()), submissionId, state)
    {
      rejected := rejected[submissionId := state];
      return Rejected(state);
    }

    /** The index and file writes and the token use of both acceptance paths. */
    method RecordAcceptance(item: Item, archive: Bytes)
      modifies this
      ensures State() == Record(old(State()), item, archive)
    {
      accepted := accepted[item.submissionId := archive];
      index := SortBy(BY_SUBMISSION, index + [item]);
      if item.sessionId in sessions {
        var current := sessions[item.sessionId];
        sessions := sessions[item.sessionId := current.(uses := current.uses + 1)];
      }
    }

    /** From staging on: the archive lies in quarantine until it is moved or deleted. */
    method JudgeUpload(r: Upload) returns (outcome: Outcome)
      requires r.sessionId in sessions && r.submissionId in quarantine && quarantine[r.submissionId] == r.archive
      modifies this
      ensures var staged := old(State()).(quarantine := old(quarantine) - {r.submissionId});
              Reply(State(), outcome) == Judge(fixed, staged, r)
    {
      hide EvidenceBound, EnvelopeRequired, Record, Duplicate, Lit;
      var session := sessions[r.sessionId];
      var verdict := fixed.validate(r.archive, Expected(session, r.sessionId, r.submissionId, r.token, r.nonce));
      if verdict.Crashed? {
        assert quarantine == (quarantine - {r.submissionId})[r.submissionId := r.archive];
        return Raised;
      }
      var bound := verdict.Validated? && Bound(State(), r.sessionId, r.submissionId, HTTPS, verdict.facts);
      quarantine := quarantine - {r.submissionId};
      BoundIgnoresQuarantine(old(State()), State(), r, verdict);
      if verdict.Refused? {
        outcome := RejectUpload(r.submissionId, verdict.state);
        return;
      }
      if verdict.facts.build !in session.trustedBuilds || !bound {
        outcome := RejectUpload(r.submissionId, RejectedUntrustedCollector);
        return;
      }
      var duplicate := FindDuplicate(index, r.submissionId, verdict.facts.packageDigest);
      if duplicate {
        outcome := RejectUpload(r.submissionId, RejectedReplay);
        return;
      }
      var facts := verdict.facts;
      RecordAcceptance(Item(r.sessionId, r.submissionId, facts.deviceId, facts.packageDigest, HTTPS, []), r.archive);
      return Done;
    }

    method AcceptUpload(r: Upload) returns (outcome: Outcome)
      modifies this
      ensures Reply(State(), outcome) == Accept(fixed, old(State()), r)
    {
      hide TokenHolds, AuthorizedSubmission, EnvelopeRequired, Judge, Lit, Reject;
      if r.sessionId !in sessions {
        return Raised;
      }
      var session := sessions[r.sessionId];
      if r.sourceAt >= session.expiresAt {
        return Rejected(RejectedExpired);
      }
      if !fixed.inScope(r.sessionId, r.source) {
        return Rejected(RejectedUnauthorizedSource);
      }
      if session.status != Open || !TokenHolds(fixed, session, r.token, r.tokenAt) {
        outcome := RejectUpload(r.submissionId, RejectedToken);
        return;
      }
      if EnvelopeRequired(State(), r.sessionId)
         && !AuthorizedSubmission(GrantWorld(State(), r.sessionId).db, r.submissionId, r.grantAt) {
        outcome := RejectUpload(r.submissionId, RejectedReplay);
        return;
      }
      if r.submissionId !in nonces {
        return Raised;
      }
      if !NonceHolds(State(), r) {
        outcome := RejectUpload(r.submissionId, RejectedReplay);
        return;
      }
      nonces := nonces[r.submissionId := nonces[r.submissionId].(used := true)];
      if |r.archive| > session.maximumPackageSize {
        outcome := RejectUpload(r.submissionId, RejectedPackageLimit);
        return;
      }
      quarantine := quarantine[r.submissionId := r.archive];
      assert quarantine - {r.submissionId} == old(quarantine) - {r.submissionId};
      outcome := JudgeUpload(r);
    }

    method Import(r: Submissions.Import) returns (outcome: Outcome)
      modifies this
      ensures Reply(State(), outcome) == ImportFile(fixed, old(State()), r)
    {
      hide TokenHolds, EvidenceBound, EnvelopeRequired, GrantRuns.Step, GrantRuns.Takes, Record, Duplicate, Lit, Bound;
      if r.assessmentId != fixed.assessmentId || r.sessionId !in sessions {
        return Raised;
      }
      var session := sessions[r.sessionId];
      if (session.status != Open && session.status != Closed) || !TokenHolds(fixed, session, r.token, r.tokenAt) {
        return Raised;
      }
      var verdict := fixed.validate(r.archive, Expected(session, r.sessionId, r.submissionId, r.token, r.nonce));
      if !verdict.Validated? {
        return Raised;
      }
      var facts := verdict.facts;
      if facts.build !in session.trustedBuilds || facts.packageDigest != r.packageDigest {
        return Raised;
      }
      if EnvelopeRequired(State(), r.sessionId) {
        if !HasTrustedPrefix(r.nonce) {
          return Raised;
        }
        if !GrantTakes(fixed, State(), r.sessionId, ImportConsume(r)) {
          return Raised;
        }
        grants := GrantStep(fixed, State(), r.sessionId, ImportConsume(r)).grants;
      }
      if !Bound(State(), r.sessionId, r.submissionId, OFFLINE, facts) {
        return Raised;
      }
      var duplicate := FindDuplicate(index, r.submissionId, facts.packageDigest);
      if duplicate {
        return Rejected(RejectedReplay);
      }
      RecordAcceptance(Item(r.sessionId, r.submissionId, facts.deviceId, facts.packageDigest, OFFLINE, []), r.archive);
      return Done;
    }

    method Remove(submissionId: Text) returns (outcome: Outcome)
      modifies this
      ensures Reply(State(), outcome) == RemoveSubmission(old(State()), submissionId)
    {
      var remaining := Remaining(index, submissionId);
      if |remaining| == |index| {
        return Raised;
      }
      accepted := accepted - {submissionId};
      index := remaining;
      return Done;
    }

    method Process(submissionId: Text, state: Text) returns (outcome: Outcome)
      modifies this
      ensures Reply(State(), outcome) == UpdateProcessing(old(State()), submissionId, state)
    {
      if state !in PROCESSING {
        return Raised;
      }
      var marked, matched := MarkFirst(index, submissionId, state);
      if !matched {
        return Raised;
      }
      index := marked;
      return Done;
    }
  }

  lemma BoundIgnoresQuarantine(c: Console, d: Console, r: Upload, verdict: Verdict)
    requires d == c.(quarantine := d.quarantine)
    ensures verdict.Validated? ==>
              Bound(c, r.sessionId, r.submissionId, HTTPS, verdict.facts)
              == Bound(d, r.sessionId, r.submissionId, HTTPS, verdict.facts)
  {
  }
}
