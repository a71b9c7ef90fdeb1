/** What every run of requests, operator actions and grant transactions keeps. */
module SubmissionRuns {
  import opened Wrappers
  import opened Ordering
  import opened Unicode
  import opened TrustedGrants
  import opened Submissions
  import GrantRuns

  datatype Op =
    | OpenOp(id: Text, session: Session)
    | StatusOp(id: Text, status: SessionStatus)
    | TrustOp(id: Text, build: Text, required: bool)
    | GrantOp(id: Text, transaction: GrantRuns.Op)
    | NonceOp(request: NonceRequest)
    | AcceptOp(upload: Upload)
    | ImportOp(file: Import)
    | RemoveOp(submissionId: Text)
    | ProcessOp(submissionId: Text, state: Text)

  function Handle(f: Fixed, c: Console, op: Op): Reply {
    match op
    case OpenOp(id, session) => OpenSession(c, id, session)
    case StatusOp(id, status) => SetStatus(c, id, status)
    case TrustOp(id, build, required) => TrustBuild(c, id, build, required)
    case GrantOp(id, transaction) =>
      if transaction.ConsumeOp? || !GrantTakes(f, c, id, transaction) then Reply(c, Raised)
      else Reply(GrantStep(f, c, id, transaction), Done)
    case NonceOp(request) => RequestNonce(f, c, request)
    case AcceptOp(upload) => Accept(f, c, upload)
    case ImportOp(file) => ImportFile(f, c, file)
    case RemoveOp(submissionId) => RemoveSubmission(c, submissionId)
    case ProcessOp(submissionId, state) => UpdateProcessing(c, submissionId, state)
  }

  /** One acceptance: the item it recorded, and what it was accepted on. */
  datatype Acceptance = Acceptance(item: Item, archive: Bytes, required: bool, build: Text, profile: Text)

  function VerdictOn(f: Fixed, c: Console, sessionId: Text, submissionId: Text, token: Text, nonce: Text,
                     archive: Bytes): Verdict
    requires sessionId in c.sessions
  {
    f.validate(archive, Expected(c.sessions[sessionId], sessionId, submissionId, token, nonce))
  }

  function AcceptanceOf(c: Console, sessionId: Text, submissionId: Text, transport: Text, archive: Bytes,
                        facts: Facts): Acceptance {
    Acceptance(Item(sessionId, submissionId, facts.deviceId, facts.packageDigest, transport, []), archive,
               EnvelopeRequired(c, sessionId), facts.build, facts.profile)
  }

  /** What a request accepts, if it does. */
  function Admission(f: Fixed, c: Console, op: Op): Option<Acceptance> {
    match op
    case AcceptOp(r) =>
      if r.sessionId !in c.sessions || !Accept(f, c, r).outcome.Done? then None
      else
        var verdict := VerdictOn(f, c, r.sessionId, r.submissionId, r.token, r.nonce, r.archive);
        if verdict.Validated?
        then Some(AcceptanceOf(c, r.sessionId, r.submissionId, HTTPS, r.archive, verdict.facts)) else None
    case ImportOp(r) =>
      if r.sessionId !in c.sessions || !ImportFile(f, c, r).outcome.Done? then None
      else
        var verdict := VerdictOn(f, c, r.sessionId, r.submissionId, r.token, r.nonce, r.archive);
        if verdict.Validated?
        then Some(AcceptanceOf(c, r.sessionId, r.submissionId, OFFLINE, r.archive, verdict.facts)) else None
    case _ => None
  }

  function Logged(f: Fixed, c: Console, op: Op): (log: seq<Acceptance>)
    ensures |log| <= 1
  {
    var a := Admission(f, c, op);
    if a.Some? then [a.value] else []
  }

  datatype Traced = Traced(console: Console, log: seq<Acceptance>)

  function Step(f: Fixed, t: Traced, op: Op): Traced {
    Traced(Handle(f, t.console, op).console, t.log + Logged(f, t.console, op))
  }

  function Run(f: Fixed, ops: seq<Op>): Traced {
    if ops == [] then Traced(EMPTY_CONSOLE, []) else Step(f, Run(f, ops[..|ops| - 1]), ops[|ops| - 1])
  }

  /** How many steps of a run did something of a kind. */
  function Count(f: Fixed, ops: seq<Op>, kind: (Console, Op) -> bool): nat {
    if ops == [] then 0
    else
      var before, op := ops[..|ops| - 1], ops[|ops| - 1];
      Count(f, before, kind) + if kind(Run(f, before).console, op) then 1 else 0
  }

  // ----- the token budget

  function AcceptedIn(log: seq<Acceptance>, sessionId: Text): nat {
    if log == [] then 0
    else AcceptedIn(log[..|log| - 1], sessionId) + if log[|log| - 1].item.sessionId == sessionId then 1 else 0
  }

  ghost predicate BudgetKept(t: Traced) {
    forall id ::
      if id in t.console.sessions then
        && t.console.sessions[id].uses == AcceptedIn(t.log, id)
        && t.console.sessions[id].uses <= t.console.sessions[id].Limit()
      else AcceptedIn(t.log, id) == 0
  }

  lemma AcceptedInAppend(log: seq<Acceptance>, more: seq<Acceptance>, id: Text)
    requires |more| <= 1
    ensures AcceptedIn(log + more, id)
            == AcceptedIn(log, id) + if more != [] && more[0].item.sessionId == id then 1 else 0
  {
    if more == [] {
      assert log + more == log;
    } else {
      assert (log + more)[..|log|] == log;
    }
  }

  // ----- what a step records

  /** The sessions, index and accepted files after an acceptance. */
  predicate Recorded(c: Console, after: Console, a: Acceptance) {
    && a.item.sessionId in c.sessions
    && var s := c.sessions[a.item.sessionId];
       && s.uses < s.Limit()
       && after.sessions == c.sessions[a.item.sessionId := s.(uses := s.uses + 1)]
       && !Duplicate(c.index, a.item.submissionId, a.item.packageDigest)
       && after.index == SortBy(BY_SUBMISSION, c.index + [a.item])
       && after.accepted == c.accepted[a.item.submissionId := a.archive]
  }

  predicate Untouched(c: Console, after: Console) {
    after.sessions == c.sessions && after.index == c.index && after.accepted == c.accepted
  }

  lemma RecordRecords(c: Console, a: Acceptance)
    requires a.item.sessionId in c.sessions && c.sessions[a.item.sessionId].uses < c.sessions[a.item.sessionId].Limit()
    requires !Duplicate(c.index, a.item.submissionId, a.item.packageDigest)
    ensures Recorded(c, Record(c, a.item, a.archive), a)
  {
    hide Duplicate, SortBy;
  }

  lemma JudgeRecords(f: Fixed, c: Console, r: Upload)
    requires r.sessionId in c.sessions && c.sessions[r.sessionId].uses < c.sessions[r.sessionId].Limit()
    ensures var verdict := VerdictOn(f, c, r.sessionId, r.submissionId, r.token, r.nonce, r.archive);
            if Judge(f, c, r).outcome.Done? then
              && verdict.Validated?
              && Recorded(c, Judge(f, c, r).console,
                          AcceptanceOf(c, r.sessionId, r.submissionId, HTTPS, r.archive, verdict.facts))
            else Untouched(c, Judge(f, c, r).console)
  {
    hide Lit, Duplicate, SortBy, EvidenceBound, EnvelopeRequired, Bound, Record, Recorded;
    var verdict := VerdictOn(f, c, r.sessionId, r.submissionId, r.token, r.nonce, r.archive);
    if Judge(f, c, r).outcome.Done? {
      RecordRecords(c, AcceptanceOf(c, r.sessionId, r.submissionId, HTTPS, r.archive, verdict.facts));
    }
  }

  lemma TurnedUntouched(f: Fixed, c: Console, r: Upload)
    ensures Turned(f, c, r).Some? ==>
              !Turned(f, c, r).value.outcome.Done? && Untouched(c, Turned(f, c, r).value.console)
    ensures Turned(f, c, r).None? ==>
              && r.sessionId in c.sessions && r.submissionId in c.nonces
              && c.sessions[r.sessionId].uses < c.sessions[r.sessionId].Limit()
  {
    hide Lit, BeforeDot, AuthorizedSubmission, EnvelopeRequired, Reject, NonceHolds;
  }

  lemma AcceptRecords(f: Fixed, c: Console, r: Upload)
    ensures var a := Admission(f, c, AcceptOp(r));
            if Accept(f, c, r).outcome.Done? then a.Some? && Recorded(c, Accept(f, c, r).console, a.value)
            else a.None? && Untouched(c, Accept(f, c, r).console)
  {
    hide Lit, SortBy, Duplicate, Judge, Turned;
    TurnedUntouched(f, c, r);
    if Turned(f, c, r).None? {
      JudgeRecords(f, Staged(c, r.submissionId), r);
    }
  }

  lemma ImportRecords(f: Fixed, c: Console, r: Import)
    ensures var a := Admission(f, c, ImportOp(r));
            if ImportFile(f, c, r).outcome.Done? then a.Some? && Recorded(c, ImportFile(f, c, r).console, a.value)
            else a.None? && Untouched(c, ImportFile(f, c, r).console)
  {
    hide Lit, BeforeDot, SortBy, Duplicate, EvidenceBound, EnvelopeRequired, Bound;
    hide GrantRuns.Step, GrantRuns.Takes;
  }

  /** Session by session, what an operator's action may do to the budget: nothing, except that
      a new session starts unused. */
  predicate BudgetUntouched(c: Console, after: Console, id: Text) {
    if id in c.sessions then
      && id in after.sessions && after.sessions[id].Limit() == c.sessions[id].Limit()
      && after.sessions[id].uses == c.sessions[id].uses
    else id in after.sessions ==> after.sessions[id].uses == 0
  }

  lemma OpenBudget(c: Console, created: Text, s: Session, id: Text)
    ensures BudgetUntouched(c, OpenSession(c, created, s).console, id)
  {
  }

  lemma StatusBudget(c: Console, changed: Text, status: SessionStatus, id: Text)
    ensures BudgetUntouched(c, SetStatus(c, changed, status).console, id)
  {
    hide Transition;
  }

  lemma TrustBudget(c: Console, changed: Text, build: Text, required: bool, id: Text)
    ensures BudgetUntouched(c, TrustBuild(c, changed, build, required).console, id)
  {
  }

  lemma SameBudget(c: Console, after: Console, id: Text)
    requires after.sessions == c.sessions
    ensures BudgetUntouched(c, after, id)
  {
  }

  lemma OtherSessions(f: Fixed, c: Console, op: Op, id: Text)
    requires !op.AcceptOp? && !op.ImportOp?
    ensures BudgetUntouched(c, Handle(f, c, op).console, id)
  {
    hide BudgetUntouched, RemoveSubmission, UpdateProcessing, RequestNonce, GrantTakes;
    hide GrantStep, OpenSession, SetStatus, TrustBuild;
    match op
    case OpenOp(created, s) => OpenBudget(c, created, s, id);
    case StatusOp(changed, status) => StatusBudget(c, changed, status, id);
    case TrustOp(changed, build, required) => TrustBudget(c, changed, build, required, id);
    case GrantOp(changed, transaction) =>
      GrantSessions(f, c, changed, transaction);
      SameBudget(c, GrantStep(f, c, changed, transaction), id);
      SameBudget(c, c, id);
    case NonceOp(request) =>
      RequestSessions(f, c, request);
      SameBudget(c, RequestNonce(f, c, request).console, id);
    case RemoveOp(submissionId) => SameBudget(c, RemoveSubmission(c, submissionId).console, id);
    case ProcessOp(submissionId, state) => SameBudget(c, UpdateProcessing(c, submissionId, state).console, id);
  }

  lemma RequestSessions(f: Fixed, c: Console, r: NonceRequest)
    ensures RequestNonce(f, c, r).console.sessions == c.sessions
  {
    hide TokenHolds, Lit, GrantTakes, EnvelopeRequired;
  }

  lemma GrantSessions(f: Fixed, c: Console, id: Text, op: GrantRuns.Op)
    ensures GrantStep(f, c, id, op).sessions == c.sessions
  {
    hide GrantRuns.Step;
  }

  /** Uses grow with the log, and only below the limit. */
  lemma StepSessions(f: Fixed, c: Console, op: Op, id: Text)
    ensures var after, more := Handle(f, c, op).console, Logged(f, c, op);
            if id in c.sessions then
              && id in after.sessions && after.sessions[id].Limit() == c.sessions[id].Limit()
              && after.sessions[id].uses
                 == c.sessions[id].uses + (if more != [] && more[0].item.sessionId == id then 1 else 0)
              && (more != [] && more[0].item.sessionId == id ==> c.sessions[id].uses < c.sessions[id].Limit())
            else
              && (id in after.sessions ==> after.sessions[id].uses == 0)
              && (more != [] ==> more[0].item.sessionId != id)
  {
    hide Handle, Accept, ImportFile, Duplicate, SortBy;
    HandleIs(f, c, op);
    if op.AcceptOp? {
      AcceptRecords(f, c, op.upload);
    } else if op.ImportOp? {
      ImportRecords(f, c, op.file);
    } else {
      OtherSessions(f, c, op, id);
    }
  }

  lemma HandleIs(f: Fixed, c: Console, op: Op)
    ensures op.AcceptOp? ==> Handle(f, c, op) == Accept(f, c, op.upload)
    ensures op.ImportOp? ==> Handle(f, c, op) == ImportFile(f, c, op.file)
  {
  }

  /** After every run, every session's token uses are the acceptances ever made in it, and
      they never exceed the smaller of its two limits. */
  lemma {:induction false} TokenBudget(f: Fixed, ops: seq<Op>)
    ensures BudgetKept(Run(f, ops))
  {
    hide Handle, Logged;
    if ops == [] {
    } else {
      var t, op := Run(f, ops[..|ops| - 1]), ops[|ops| - 1];
      TokenBudget(f, ops[..|ops| - 1]);
      forall id
        ensures var s := Step(f, t, op);
                if id in s.console.sessions then
                  && s.console.sessions[id].uses == AcceptedIn(s.log, id)
                  && s.console.sessions[id].uses <= s.console.sessions[id].Limit()
                else AcceptedIn(s.log, id) == 0
      {
        StepSessions(f, t.console, op, id);
        AcceptedInAppend(t.log, Logged(f, t.console, op), id);
      }
    }
  }

  // ----- the index

  ghost predicate DistinctItems(index: seq<Item>) {
    forall i, j :: 0 <= i < j < |index| ==>
      index[i].submissionId != index[j].submissionId && index[i].packageDigest != index[j].packageDigest
  }

  predicate Indexed(index: seq<Item>, submissionId: Text) {
    exists i :: 0 <= i < |index| && index[i].submissionId == submissionId
  }

  ghost predicate IndexKept(c: Console) {
    && SortedBy(BY_SUBMISSION, c.index) && DistinctItems(c.index)
    && forall s :: s in c.accepted <==> Indexed(c.index, s)
  }

  lemma DistinctPermuted(a: seq<Item>, b: seq<Item>)
    requires multiset(a) == multiset(b) && DistinctItems(a)
    ensures DistinctItems(b)
  {
    forall i, j | 0 <= i < j < |b|
      ensures b[i].submissionId != b[j].submissionId && b[i].packageDigest != b[j].packageDigest
    {
      var rest := b[..i] + b[i + 1..j] + b[j + 1..];
      assert b == b[..i] + [b[i]] + b[i + 1..j] + [b[j]] + b[j + 1..];
      assert multiset(b) == multiset(rest) + multiset{b[i], b[j]};
      TwoPlaces(a, b[i], b[j]);
    }
  }

  lemma PairCount(x: Item, y: Item)
    ensures multiset{x, y}[x] == if x == y then 2 else 1
  {
  }

  lemma TwoPlaces(a: seq<Item>, x: Item, y: Item)
    requires DistinctItems(a) && multiset{x, y} <= multiset(a)
    ensures x.submissionId != y.submissionId && x.packageDigest != y.packageDigest
  {
    assert x in multiset(a) && y in multiset(a);
    var i :| 0 <= i < |a| && a[i] == x;
    var j :| 0 <= j < |a| && a[j] == y;
    assert NoDuplicates(a);
    NoDuplicatesCount(a);
    PairCount(x, y);
    assert x != y;
  }

  lemma RecordKeepsIndex(index: seq<Item>, item: Item)
    requires DistinctItems(index) && !Duplicate(index, item.submissionId, item.packageDigest)
    ensures var after := SortBy(BY_SUBMISSION, index + [item]);
            && SortedBy(BY_SUBMISSION, after) && DistinctItems(after)
            && forall s :: Indexed(after, s) <==> s == item.submissionId || Indexed(index, s)
  {
    hide Less;
    var all := index + [item];
    var after := SortBy(BY_SUBMISSION, all);
    SortBySorted(BY_SUBMISSION, all);
    SortByMultiset(BY_SUBMISSION, all);
    SortByMembers(BY_SUBMISSION, all);
    assert DistinctItems(all);
    DistinctPermuted(all, after);
    forall s
      ensures Indexed(after, s) <==> s == item.submissionId || Indexed(index, s)
    {
      IndexedMembers(after, s);
      IndexedMembers(all, s);
      IndexedMembers(index, s);
    }
  }

  lemma IndexedMembers(index: seq<Item>, s: Text)
    ensures Indexed(index, s) <==> exists x :: x in index && x.submissionId == s
  {
    if Indexed(index, s) {
      var i :| 0 <= i < |index| && index[i].submissionId == s;
      assert index[i] in index;
    }
  }

  lemma {:induction false} WithoutMembers(index: seq<Item>, s: Text)
    ensures var after := Without(index, s);
            && (forall x :: x in after <==> x in index && x.submissionId != s)
            && |after| <= |index| && (|after| == |index| ==> after == index)
  {
    if index == [] {
    } else {
      WithoutMembers(index[1..], s);
      assert index == [index[0]] + index[1..];
    }
  }

  lemma TailElsewhere(index: seq<Item>, s: Text, x: Item) returns (k: nat)
    requires index != [] && x in Without(index[1..], s)
    ensures 1 <= k < |index| && index[k] == x
  {
    WithoutMembers(index[1..], s);
    var i :| 0 <= i < |index| - 1 && index[1..][i] == x;
    k := i + 1;
  }

  lemma {:induction false} WithoutSorted(index: seq<Item>, s: Text)
    requires SortedBy(BY_SUBMISSION, index)
    ensures SortedBy(BY_SUBMISSION, Without(index, s))
  {
    hide Less;
    if index == [] {
    } else {
      WithoutSorted(index[1..], s);
      var rest := Without(index[1..], s);
      forall j | 0 <= j < |rest|
        ensures !Less(BY_SUBMISSION(rest[j]), BY_SUBMISSION(index[0]))
      {
        var k := TailElsewhere(index, s, rest[j]);
      }
    }
  }

  lemma {:induction false} WithoutDistinct(index: seq<Item>, s: Text)
    requires DistinctItems(index)
    ensures DistinctItems(Without(index, s))
  {
    if index == [] {
    } else {
      WithoutDistinct(index[1..], s);
      var rest := Without(index[1..], s);
      forall j | 0 <= j < |rest|
        ensures rest[j].submissionId != index[0].submissionId && rest[j].packageDigest != index[0].packageDigest
      {
        var k := TailElsewhere(index, s, rest[j]);
      }
    }
  }

  /** Marking an item changes no key. */
  lemma {:induction false} MarkKeepsKeys(index: seq<Item>, s: Text, state: Text)
    ensures var after := Mark(index, s, state);
            && |after| == |index|
            && forall i :: 0 <= i < |index| ==> after[i] == index[i].(processingState := after[i].processingState)
  {
    if index == [] {
    } else {
      MarkKeepsKeys(index[1..], s, state);
    }
  }

  /** In a sound index a mark changes the state of the one item of that submission. */
  lemma {:induction false} MarkExact(index: seq<Item>, s: Text, state: Text)
    requires DistinctItems(index)
    ensures |Mark(index, s, state)| == |index|
    ensures forall i :: 0 <= i < |index| ==>
              Mark(index, s, state)[i]
              == if index[i].submissionId == s then index[i].(processingState := state) else index[i]
  {
    if index != [] && index[0].submissionId != s {
      MarkExact(index[1..], s, state);
    }
  }

  lemma OtherIndex(f: Fixed, c: Console, op: Op)
    requires !op.AcceptOp? && !op.ImportOp?
    ensures var after := Handle(f, c, op).console;
            if op.RemoveOp? && Handle(f, c, op).outcome.Done? then
              after.index == Without(c.index, op.submissionId) && after.accepted == c.accepted - {op.submissionId}
            else if op.ProcessOp? && Handle(f, c, op).outcome.Done? then
              after.index == Mark(c.index, op.submissionId, op.state) && after.accepted == c.accepted
            else after.index == c.index && after.accepted == c.accepted
  {
    hide Without, Mark, Lit, RequestNonce, GrantTakes, GrantStep, Transition;
    if op.NonceOp? {
      RequestIndex(f, c, op.request);
    } else if op.GrantOp? {
      GrantIndex(f, c, op.id, op.transaction);
    }
  }

  lemma GrantIndex(f: Fixed, c: Console, id: Text, op: GrantRuns.Op)
    ensures GrantStep(f, c, id, op).index == c.index && GrantStep(f, c, id, op).accepted == c.accepted
  {
    hide GrantRuns.Step;
  }

  lemma RequestIndex(f: Fixed, c: Console, r: NonceRequest)
    ensures RequestNonce(f, c, r).console.index == c.index && RequestNonce(f, c, r).console.accepted == c.accepted
  {
    hide TokenHolds, Lit, GrantTakes, EnvelopeRequired;
  }

  /** Only an acceptance, a removal and a processing mark touch the index. */
  lemma StepIndex(f: Fixed, c: Console, op: Op)
    ensures var after, a := Handle(f, c, op).console, Admission(f, c, op);
            if a.Some? then Recorded(c, after, a.value)
            else if op.RemoveOp? && Handle(f, c, op).outcome.Done? then
              after.index == Without(c.index, op.submissionId) && after.accepted == c.accepted - {op.submissionId}
            else if op.ProcessOp? && Handle(f, c, op).outcome.Done? then
              after.index == Mark(c.index, op.submissionId, op.state) && after.accepted == c.accepted
            else after.index == c.index && after.accepted == c.accepted
  {
    hide Handle, Accept, ImportFile, Recorded;
    HandleIs(f, c, op);
    if op.AcceptOp? {
      AcceptRecords(f, c, op.upload);
    } else if op.ImportOp? {
      ImportRecords(f, c, op.file);
    } else {
      OtherIndex(f, c, op);
    }
  }

  lemma StepIndexKept(f: Fixed, c: Console, op: Op)
    requires IndexKept(c)
    ensures IndexKept(Handle(f, c, op).console)
  {
    hide Handle, Admission, Less, Without, Mark, SortBy, Duplicate, Indexed;
    var after := Handle(f, c, op).console;
    StepIndex(f, c, op);
    if Admission(f, c, op).Some? {
      RecordKeepsIndex(c.index, Admission(f, c, op).value.item);
    } else if op.RemoveOp? && Handle(f, c, op).outcome.Done? {
      WithoutSorted(c.index, op.submissionId);
      WithoutDistinct(c.index, op.submissionId);
      WithoutMembers(c.index, op.submissionId);
      forall s
        ensures Indexed(after.index, s) <==> s != op.submissionId && Indexed(c.index, s)
      {
        IndexedMembers(after.index, s);
        IndexedMembers(c.index, s);
      }
    } else if op.ProcessOp? && Handle(f, c, op).outcome.Done? {
      MarkKeepsIndex(c.index, op.submissionId, op.state);
    }
  }

  lemma MarkKeepsIndex(index: seq<Item>, s: Text, state: Text)
    requires SortedBy(BY_SUBMISSION, index) && DistinctItems(index)
    ensures var after := Mark(index, s, state);
            && SortedBy(BY_SUBMISSION, after) && DistinctItems(after)
            && forall x :: Indexed(after, x) <==> Indexed(index, x)
  {
    hide Mark, Less;
    MarkKeepsKeys(index, s, state);
    var after := Mark(index, s, state);
    forall x
      ensures Indexed(after, x) <==> Indexed(index, x)
    {
      if Indexed(index, x) {
        var i :| 0 <= i < |index| && index[i].submissionId == x;
        assert after[i].submissionId == x;
      }
    }
    forall i | 0 <= i < |index|
      ensures BY_SUBMISSION(after[i]) == BY_SUBMISSION(index[i]) && after[i].packageDigest == index[i].packageDigest
    {
    }
  }

  /** After every run the index is sorted, without a repeated submission ID or package
      digest, and an accepted file exists exactly for the submissions it lists. */
  lemma {:induction false} IndexSound(f: Fixed, ops: seq<Op>)
    ensures IndexKept(Run(f, ops).console)
  {
    hide Handle, IndexKept;
    if ops == [] {
      EmptyIndexKept();
    } else {
      IndexSound(f, ops[..|ops| - 1]);
      StepIndexKept(f, Run(f, ops[..|ops| - 1]).console, ops[|ops| - 1]);
    }
  }

  lemma EmptyIndexKept()
    ensures IndexKept(EMPTY_CONSOLE)
  {
  }
}
