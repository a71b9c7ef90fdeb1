/**
 The download portal's throttle. A call reads the monotonic clock once, and a second time
 when the code was right and the session is examined.
 */
module PortalThrottle {
  import opened Wrappers
  import opened Unicode
  import opened Times

  datatype Limits = Limits(attempts: nat, window: real, throttle: real, maximumDownloads: nat)

  const DEFAULTS := Limits(5, 60.0, 30.0, 0)

  datatype Portal = Portal(
    failed: map<Text, seq<real>>,
    blocked: map<Text, real>,
    failedCount: nat,
    throttledCount: nat,
    downloads: nat
  )

  const FRESH := Portal(map[], map[], 0, 0, 0)

  /** One call of `authorize` or `authorize_launcher`: matches tells whether the code or
      credential is the right one, open whether the session is OPEN and the portal has not
      expired, inScope whether the source is. */
  datatype Call = Call(source: Text, at: real, matches: bool, sessionAt: real, open: bool, inScope: bool)

  function Attempts(p: Portal, source: Text): seq<real> { if source in p.failed then p.failed[source] else [] }

  function BlockedUntil(p: Portal, source: Text): real { if source in p.blocked then p.blocked[source] else 0.0 }

  function RecordFailure(l: Limits, p: Portal, source: Text, now: real): Portal {
    var attempts := Keep(Attempts(p, source), AtLeast(now - l.window)) + [now];
    var q := p.(failed := p.failed[source := attempts], failedCount := p.failedCount + 1);
    if |attempts| >= l.attempts then
      q.(blocked := q.blocked[source := now + l.throttle], throttledCount := q.throttledCount + 1)
    else q
  }

  /** The time at which the call records a failed authorization, if it does. */
  function FailedAt(p: Portal, c: Call): Option<real> {
    if c.at < BlockedUntil(p, c.source) then None
    else if !c.matches then Some(c.at)
    else if c.open && !c.inScope then Some(c.sessionAt)
    else None
  }

  function Authorize(l: Limits, p: Portal, c: Call): (Portal, bool) {
    if c.at < BlockedUntil(p, c.source) then (p.(throttledCount := p.throttledCount + 1), false)
    else if FailedAt(p, c).Some? then (RecordFailure(l, p, c.source, FailedAt(p, c).value), false)
    else (p, c.open && p.downloads < l.maximumDownloads)
  }

  /** Access is granted exactly to an unthrottled source in scope that has the right code of
      an open session with downloads left; a refusal spends no download. */
  lemma GrantedExactly(l: Limits, p: Portal, c: Call)
    ensures Authorize(l, p, c).1 <==>
              c.at >= BlockedUntil(p, c.source) && c.matches && c.open && c.inScope && p.downloads < l.maximumDownloads
    ensures Authorize(l, p, c).0.downloads == p.downloads
  {
    hide Keep;
  }

  // ----- runs

  /** A call, or the end of a download that an earlier call admitted. */
  datatype Event = Asked(call: Call) | Downloaded

  /** `record_download`: counted unless the budget is spent, which raises. */
  function CountDownload(l: Limits, p: Portal): (Portal, bool) {
    if p.downloads < l.maximumDownloads then (p.(downloads := p.downloads + 1), true) else (p, false)
  }

  function Next(l: Limits, p: Portal, e: Event): Portal {
    match e
    case Asked(c) => Authorize(l, p, c).0
    case Downloaded => CountDownload(l, p).0
  }

  /** Calls follow one another on a clock that does not run backwards; downloads end at any
      time. */
  predicate Sequential(events: seq<Event>) {
    && (forall i :: 0 <= i < |events| && events[i].Asked? ==> events[i].call.at <= events[i].call.sessionAt)
    && forall i, j :: 0 <= i < j < |events| && events[i].Asked? && events[j].Asked? ==>
         events[i].call.sessionAt <= events[j].call.at
  }

  function Run(l: Limits, events: seq<Event>): Portal {
    if events == [] then FRESH else Next(l, Run(l, events[..|events| - 1]), events[|events| - 1])
  }

  /** The failed authorization an event records for a source, if it does. */
  function FailureOf(p: Portal, e: Event, source: Text): seq<real> {
    if e.Asked? && e.call.source == source && FailedAt(p, e.call).Some? then [FailedAt(p, e.call).value] else []
  }

  /** When the failed authorizations of one source were recorded, in order. */
  function Failures(l: Limits, events: seq<Event>, source: Text): seq<real> {
    if events == [] then []
    else
      var before := events[..|events| - 1];
      Failures(l, before, source) + FailureOf(Run(l, before), events[|events| - 1], source)
  }

  // ----- the download budget

  /** How many downloads of a run were counted. */
  function Counted(l: Limits, events: seq<Event>): nat {
    if events == [] then 0
    else
      var before := events[..|events| - 1];
      Counted(l, before)
      + if events[|events| - 1].Downloaded? && CountDownload(l, Run(l, before)).1 then 1 else 0
  }

  lemma NextDownloads(l: Limits, p: Portal, e: Event)
    ensures Next(l, p, e).downloads == p.downloads + if e.Downloaded? && CountDownload(l, p).1 then 1 else 0
  {
    hide Keep;
  }

  /** After every run the portal's count is the number of downloads counted, and it is never
      above the maximum, however many downloads were admitted before the budget was spent. */
  lemma {:induction false} DownloadsBounded(l: Limits, events: seq<Event>)
    ensures Run(l, events).downloads == Counted(l, events) <= l.maximumDownloads
  {
    hide Next;
    if events == [] {
    } else {
      var before := events[..|events| - 1];
      DownloadsBounded(l, before);
      NextDownloads(l, Run(l, before), events[|events| - 1]);
    }
  }

  /** The count never falls, so once the budget is spent no call is granted any more. */
  lemma {:induction false} SpentForGood(l: Limits, events: seq<Event>, n: nat, c: Call)
    requires n <= |events| && Counted(l, events[..n]) == l.maximumDownloads
    ensures Counted(l, events) == l.maximumDownloads && !Authorize(l, Run(l, events), c).1
    decreases |events|
  {
    hide Next, Run, Keep;
    DownloadsBounded(l, events);
    GrantedExactly(l, Run(l, events), c);
    if n == |events| {
      assert events[..n] == events;
    } else {
      var before := events[..|events| - 1];
      assert before[..n] == events[..n];
      SpentForGood(l, before, n, c);
    }
  }

  /** After a failure that fills the window, the next one is a throttle period away. */
  predicate Spaced(l: Limits, times: seq<real>) {
    forall k :: 0 <= k < |times| - 1 && |Keep(times[..k + 1], AtLeast(times[k] - l.window))| >= l.attempts ==>
      times[k + 1] >= times[k] + l.throttle
  }

  /** What the portal remembers of one source is exactly what is left of its history. */
  predicate Remembers(l: Limits, p: Portal, source: Text, times: seq<real>) {
    if times == [] then Attempts(p, source) == []
    else
      var last := times[|times| - 1];
      && Attempts(p, source) == Keep(times, AtLeast(last - l.window))
      && (|Keep(times, AtLeast(last - l.window))| >= l.attempts ==> BlockedUntil(p, source) == last + l.throttle)
  }

  lemma RecordRemembers(l: Limits, p: Portal, source: Text, times: seq<real>, now: real)
    requires l.window >= 0.0 && Remembers(l, p, source, times) && Rising(times + [now])
    ensures Remembers(l, RecordFailure(l, p, source, now), source, times + [now])
  {
    hide Keep;
    var all := times + [now];
    assert all[|all| - 1] == now;
    KeepAll([], AtLeast(now - l.window));
    KeepAppend(times, now, AtLeast(now - l.window));
    if times == [] {
    } else {
      assert all[|times| - 1] <= all[|times|];
      KeepTwice(times, AtLeast(times[|times| - 1] - l.window), AtLeast(now - l.window));
    }
  }

  lemma SpacedAppend(l: Limits, times: seq<real>, now: real)
    requires Spaced(l, times)
    requires times != [] ==> var last := times[|times| - 1];
                             |Keep(times, AtLeast(last - l.window))| >= l.attempts ==> now >= last + l.throttle
    ensures Spaced(l, times + [now])
  {
    hide Keep;
    var all := times + [now];
    forall k | 0 <= k < |all| - 1 && |Keep(all[..k + 1], AtLeast(all[k] - l.window))| >= l.attempts
      ensures all[k + 1] >= all[k] + l.throttle
    {
      assert all[..k + 1] == times[..k + 1];
      if k == |times| - 1 {
        assert times[..k + 1] == times;
      }
    }
  }

  lemma FailureStep(l: Limits, p: Portal, c: Call)
    requires FailedAt(p, c).Some?
    ensures Authorize(l, p, c).0 == RecordFailure(l, p, c.source, FailedAt(p, c).value)
    ensures BlockedUntil(p, c.source) <= c.at
    ensures c.at <= c.sessionAt ==> c.at <= FailedAt(p, c).value <= c.sessionAt
  {
  }

  lemma OtherSource(l: Limits, p: Portal, c: Call, source: Text)
    requires c.source != source || FailedAt(p, c).None?
    ensures var q := Authorize(l, p, c).0;
            Attempts(q, source) == Attempts(p, source) && BlockedUntil(q, source) == BlockedUntil(p, source)
  {
  }

  lemma HistoryStep(l: Limits, p: Portal, c: Call, source: Text, times: seq<real>)
    requires l.window >= 0.0 && c.at <= c.sessionAt
    requires Rising(times) && Spaced(l, times) && Remembers(l, p, source, times) && forall x :: x in times ==> x <= c.at
    ensures var q, after := Authorize(l, p, c).0, times + FailureOf(p, Asked(c), source);
            && Rising(after) && Spaced(l, after) && Remembers(l, q, source, after)
            && forall x :: x in after ==> x <= c.sessionAt
  {
    hide Authorize, Keep, RecordFailure, Spaced, Remembers;
    if c.source == source && FailedAt(p, c).Some? {
      var now := FailedAt(p, c).value;
      FailureStep(l, p, c);
      RisingAppend(times, now);
      SpacedNext(l, p, source, times, c.at, now);
      RecordRemembers(l, p, source, times, now);
    } else {
      OtherSource(l, p, c, source);
      RemembersSame(l, p, Authorize(l, p, c).0, source, times);
      assert times + [] == times;
    }
  }

  lemma SpacedNext(l: Limits, p: Portal, source: Text, times: seq<real>, at: real, now: real)
    requires Spaced(l, times) && Remembers(l, p, source, times) && BlockedUntil(p, source) <= at <= now
    ensures Spaced(l, times + [now])
  {
    SpacedAppend(l, times, now);
  }

  lemma RemembersSame(l: Limits, p: Portal, q: Portal, source: Text, times: seq<real>)
    requires Remembers(l, p, source, times)
    requires Attempts(q, source) == Attempts(p, source) && BlockedUntil(q, source) == BlockedUntil(p, source)
    ensures Remembers(l, q, source, times)
  {
  }

  /** No reading of the history comes after the last call. */
  ghost predicate Past(events: seq<Event>, times: seq<real>) {
    forall x :: x in times ==> exists i :: 0 <= i < |events| && events[i].Asked? && x <= events[i].call.sessionAt
  }

  lemma PastCall(events: seq<Event>, times: seq<real>, c: Call)
    requires Past(events, times) && Sequential(events + [Asked(c)])
    ensures forall x :: x in times ==> x <= c.at
  {
    var all := events + [Asked(c)];
    forall x | x in times
      ensures x <= c.at
    {
      var i :| 0 <= i < |events| && events[i].Asked? && x <= events[i].call.sessionAt;
      assert all[i] == events[i] && all[|events|] == Asked(c);
    }
  }

  lemma PastNext(events: seq<Event>, times: seq<real>, e: Event, more: seq<real>)
    requires Past(events, times) && (more != [] ==> e.Asked?)
    requires e.Asked? ==> forall x :: x in more ==> x <= e.call.sessionAt
    ensures Past(events + [e], times + more)
  {
    var all := events + [e];
    forall x | x in times + more
      ensures exists i :: 0 <= i < |all| && all[i].Asked? && x <= all[i].call.sessionAt
    {
      if x in times {
        var i :| 0 <= i < |events| && events[i].Asked? && x <= events[i].call.sessionAt;
        assert all[i] == events[i];
      } else {
        assert all[|events|] == e;
      }
    }
  }

  lemma SequentialPrefix(events: seq<Event>)
    requires Sequential(events) && events != []
    ensures Sequential(events[..|events| - 1])
  {
  }

  lemma {:induction false} History(l: Limits, events: seq<Event>, source: Text)
    requires l.window >= 0.0 && Sequential(events)
    ensures var times := Failures(l, events, source);
            Rising(times) && Spaced(l, times) && Remembers(l, Run(l, events), source, times) && Past(events, times)
  {
    hide Authorize, Keep, Spaced, Rising, Remembers, Past, Sequential;
    if events == [] {
      NoHistory(l, source);
    } else {
      var before, e := events[..|events| - 1], events[|events| - 1];
      var p, times := Run(l, before), Failures(l, before, source);
      SequentialPrefix(events);
      History(l, before, source);
      assert events == before + [e];
      if e.Asked? {
        PastCall(before, times, e.call);
        CallRises(events);
        HistoryStep(l, p, e.call, source, times);
      } else {
        RemembersSame(l, p, CountDownload(l, p).0, source, times);
        assert times + [] == times;
      }
      PastNext(before, times, e, FailureOf(p, e, source));
    }
  }

  lemma CallRises(events: seq<Event>)
    requires Sequential(events) && events != [] && events[|events| - 1].Asked?
    ensures events[|events| - 1].call.at <= events[|events| - 1].call.sessionAt
  {
  }

  lemma NoHistory(l: Limits, source: Text)
    ensures Rising([]) && Spaced(l, []) && Remembers(l, FRESH, source, []) && Past([], [])
  {
  }

  // ----- the bound

  lemma WindowFull(l: Limits, times: seq<real>, a: nat, k: nat)
    requires Rising(times) && a <= k < |times| && times[k] < times[a] + l.window
    ensures |Keep(times[..k + 1], AtLeast(times[k] - l.window))| >= k + 1 - a
  {
    hide Keep;
    var seen := times[..k + 1];
    forall i | a <= i < |seen|
      ensures seen[i] >= times[k] - l.window
    {
      assert times[a] <= times[i];
    }
    KeepCovers(seen, k + 1 - a, AtLeast(times[k] - l.window));
  }

  /** In one window, each failure after the N-th comes a throttle period after the one before. */
  lemma {:induction false} FailuresApart(l: Limits, times: seq<real>, a: nat, n: nat)
    requires l.attempts >= 1 && Rising(times) && Spaced(l, times)
    requires a + l.attempts - 1 <= a + n < |times| && n >= l.attempts - 1
    requires times[a + n] < times[a] + l.window
    ensures times[a + n] >= times[a] + (n - (l.attempts - 1)) as real * l.throttle
    decreases n
  {
    hide Keep;
    if n > l.attempts - 1 {
      var k := a + n - 1;
      assert times[k] <= times[a + n];
      FailuresApart(l, times, a, n - 1);
      WindowFull(l, times, a, k);
      assert times[k + 1] >= times[k] + l.throttle;
      OneMore(n - l.attempts, l.throttle);
    }
  }

  lemma OneMore(j: int, t: real)
    ensures (j + 1) as real * t == j as real * t + t
  {
  }

  function Ceiling(x: real): int { -(-x).Floor }

  /** The failed authorizations of one source in any half-open window number at most
      N - 1 + ceil(W / T), join codes and launcher credentials together. */
  lemma GuessBound(l: Limits, events: seq<Event>, source: Text, start: real)
    requires l.attempts >= 1 && l.window >= 0.0 && l.throttle > 0.0 && Sequential(events)
    ensures InWindow(Failures(l, events, source), start, l.window) <= l.attempts - 1 + Ceiling(l.window / l.throttle)
  {
    hide Failures, Sequential, Spaced, Rising, InWindow, Remembers, Ceiling;
    var times := Failures(l, events, source);
    History(l, events, source);
    WindowBound(l, times, start);
    var m := InWindow(times, start, l.window);
    CeilingBound(l.window, l.throttle, m - l.attempts);
  }

  lemma WindowBound(l: Limits, times: seq<real>, start: real)
    requires l.attempts >= 1 && l.window >= 0.0 && Rising(times) && Spaced(l, times)
    ensures var m := InWindow(times, start, l.window);
            m >= l.attempts ==> (m - l.attempts) as real * l.throttle < l.window
  {
    hide InWindow, Spaced;
    var a := WindowIsSlice(times, start, l.window);
    var m := InWindow(times, start, l.window);
    if m >= l.attempts {
      FailuresApart(l, times, a, m - 1);
    }
  }

  lemma CeilingBound(w: real, t: real, k: int)
    requires t > 0.0
    ensures k as real * t < w ==> k < Ceiling(w / t)
    ensures w >= 0.0 ==> Ceiling(w / t) >= 0
  {
    var q := w / t;
    assert q * t == w;
    if k as real * t < w {
      if k as real >= q {
        Multiply(q, k as real, t);
      }
    }
    if w >= 0.0 && q < 0.0 {
      Multiply(0.0, -q, t);
    }
  }

  lemma Multiply(a: real, b: real, t: real)
    requires a <= b && t > 0.0
    ensures a * t <= b * t
  {
  }

  lemma DefaultGuessBound(events: seq<Event>, source: Text, start: real)
    requires Sequential(events)
    ensures InWindow(Failures(DEFAULTS, events, source), start, 60.0) <= 6
  {
    GuessBound(DEFAULTS, events, source, start);
    assert 60.0 / 30.0 == 2.0;
  }

  // ----- the binding on its own fields

  class PortalBinding {
    const limits: Limits
    var failedAttempts: map<Text, seq<real>>
    var blockedUntil: map<Text, real>
    var failedAuthorizationCount: nat
    var throttledAuthorizationCount: nat
    var downloadCount: nat

    constructor (limits: Limits)
      ensures this.limits == limits && State() == FRESH
    {
      this.limits := limits;
      failedAttempts, blockedUntil := map[], map[];
      failedAuthorizationCount, throttledAuthorizationCount, downloadCount := 0, 0, 0;
    }

    function State(): Portal
      reads this
    {
      Portal(failedAttempts, blockedUntil, failedAuthorizationCount, throttledAuthorizationCount, downloadCount)
    }

    method RecordFailedAuthorization(source: Text, now: real)
      modifies this
      ensures State() == RecordFailure(limits, old(State()), source, now)
    {
      var cutoff := now - limits.window;
      var known := if source in failedAttempts then failedAttempts[source] else [];
      var attempts: seq<real> := [];
      for i := 0 to |known|
        invariant attempts == Keep(known[..i], AtLeast(cutoff))
      {
        assert known[..i + 1][..i] == known[..i];
        if known[i] >= cutoff {
          attempts := attempts + [known[i]];
        }
      }
      assert known[..|known|] == known;
      attempts := attempts + [now];
      failedAttempts := failedAttempts[source := attempts];
      failedAuthorizationCount := failedAuthorizationCount + 1;
      if |attempts| >= limits.attempts {
        blockedUntil := blockedUntil[source := now + limits.throttle];
        throttledAuthorizationCount := throttledAuthorizationCount + 1;
      }
    }

    method AuthorizeCall(c: Call) returns (granted: bool)
      modifies this
      ensures (State(), granted) == Authorize(limits, old(State()), c)
    {
      if c.at < (if c.source in blockedUntil then blockedUntil[c.source] else 0.0) {
        throttledAuthorizationCount := throttledAuthorizationCount + 1;
        return false;
      }
      if !c.matches {
        RecordFailedAuthorization(c.source, c.at);
        return false;
      }
      if !c.open {
        return false;
      }
      if !c.inScope {
        RecordFailedAuthorization(c.source, c.sessionAt);
        return false;
      }
      return downloadCount < limits.maximumDownloads;
    }

    method RecordDownload() returns (recorded: bool)
      modifies this`downloadCount
      ensures (State(), recorded) == CountDownload(limits, old(State()))
    {
      recorded := downloadCount < limits.maximumDownloads;
      if recorded {
        downloadCount := downloadCount + 1;
      }
    }
  }

  // ----- the throttle, exactly

  /** The last failure is the one that fills the window: counting back from it as many failures as
      are allowed, one is still inside. */
  predicate Fills(l: Limits, times: seq<real>) {
    times != [] &&
    (l.attempts == 0
     || (l.attempts <= |times| && times[|times| - l.attempts] >= times[|times| - 1] - l.window))
  }

  /** Until when failures at these times throttle their source: a throttle period from the last one
      that filled the window. */
  function ThrottledUntil(l: Limits, times: seq<real>): real {
    if times == [] then 0.0
    else if Fills(l, times) then times[|times| - 1] + l.throttle
    else ThrottledUntil(l, times[..|times| - 1])
  }

  lemma {:induction false} KeptCount(times: seq<real>, cutoff: real, n: nat)
    requires Rising(times)
    ensures |Keep(times, AtLeast(cutoff))| >= n <==> n == 0 || (n <= |times| && times[|times| - n] >= cutoff)
  {
    if times == [] {
    } else {
      var init := times[..|times| - 1];
      if times[|times| - 1] >= cutoff {
        if n > 0 {
          KeptCount(init, cutoff, n - 1);
        }
      } else {
        KeptCount(init, cutoff, n);
        if 0 < n <= |times| {
          assert times[|times| - n] <= times[|times| - 1];
        }
      }
    }
  }

  lemma RecordThrottles(l: Limits, p: Portal, source: Text, times: seq<real>, now: real)
    requires l.window >= 0.0 && Remembers(l, p, source, times) && Rising(times + [now])
    requires BlockedUntil(p, source) == ThrottledUntil(l, times)
    ensures var q := RecordFailure(l, p, source, now);
            && BlockedUntil(q, source) == ThrottledUntil(l, times + [now])
            && q.failedCount == p.failedCount + 1
            && q.downloads == p.downloads
            && q.throttledCount == p.throttledCount + if Fills(l, times + [now]) then 1 else 0
  {
    hide Keep, Rising, Remembers, Fills;
    var all := times + [now];
    assert all[..|all| - 1] == times;
    RecordFills(l, p, source, times, now);
  }

  /** The attempts kept reach the limit exactly when the failure fills the window. */
  lemma RecordFills(l: Limits, p: Portal, source: Text, times: seq<real>, now: real)
    requires l.window >= 0.0 && Remembers(l, p, source, times) && Rising(times + [now])
    ensures |Keep(Attempts(p, source), AtLeast(now - l.window)) + [now]| >= l.attempts <==> Fills(l, times + [now])
  {
    hide Keep;
    RecordRemembers(l, p, source, times, now);
    KeptCount(times + [now], now - l.window, l.attempts);
  }

  /** After every run a source is throttled until a throttle period after the last of its failures
      that filled the window, and not at all before one does. */
  lemma {:induction false} ThrottleExact(l: Limits, events: seq<Event>, source: Text)
    requires l.window >= 0.0 && Sequential(events)
    ensures BlockedUntil(Run(l, events), source) == ThrottledUntil(l, Failures(l, events, source))
  {
    hide Authorize, Keep, Rising, Remembers, Past, Sequential, FailedAt, ThrottledUntil, RecordFailure, Spaced;
    if events == [] {
      assert ThrottledUntil(l, []) == 0.0 by {
        NeverThrottled(l);
      }
    } else {
      var before, e := events[..|events| - 1], events[|events| - 1];
      var p, times := Run(l, before), Failures(l, before, source);
      SequentialPrefix(events);
      ThrottleExact(l, before, source);
      if e.Asked? && e.call.source == source && FailedAt(p, e.call).Some? {
        History(l, before, source);
        History(l, events, source);
        FailureStep(l, p, e.call);
        RecordThrottles(l, p, source, times, FailedAt(p, e.call).value);
      } else {
        assert times + [] == times;
        if e.Asked? {
          OtherSource(l, p, e.call, source);
        }
      }
    }
  }

  /** With the defaults the fifth failure within sixty seconds throttles for thirty, and a failure that is
      not the fifth does not throttle any longer. */
  lemma DefaultThrottle(times: seq<real>, now: real)
    ensures ThrottledUntil(DEFAULTS, times + [now])
            == if |times| >= 4 && now - times[|times| - 4] <= 60.0 then now + 30.0 else ThrottledUntil(DEFAULTS, times)
  {
    assert (times + [now])[..|times|] == times;
  }

  lemma NeverThrottled(l: Limits)
    ensures ThrottledUntil(l, []) == 0.0
  {
  }

  /** The failure a call records after a run: none while its source is throttled, the first reading
      of the clock for a wrong code, the second for a source out of scope of an open session. */
  function FailureAfter(l: Limits, events: seq<Event>, c: Call): Option<real> {
    if c.at < ThrottledUntil(l, Failures(l, events, c.source)) then None
    else if !c.matches then Some(c.at)
    else if c.open && !c.inScope then Some(c.sessionAt)
    else None
  }

  /** After every run a call is granted exactly to a source that is not throttled and in scope, with
      the right code of an open session, as long as downloads are left. */
  lemma AnswerExact(l: Limits, events: seq<Event>, c: Call)
    requires l.window >= 0.0 && Sequential(events)
    ensures Authorize(l, Run(l, events), c).1 <==>
              && c.at >= ThrottledUntil(l, Failures(l, events, c.source))
              && c.matches && c.open && c.inScope && Counted(l, events) < l.maximumDownloads
    ensures FailureOf(Run(l, events), Asked(c), c.source)
            == if FailureAfter(l, events, c).Some? then [FailureAfter(l, events, c).value] else []
  {
    hide Keep, Run, Failures, ThrottledUntil;
    ThrottleExact(l, events, c.source);
    DownloadsBounded(l, events);
  }

  /** A download that ends is counted while the budget lasts. */
  lemma DownloadExact(l: Limits, events: seq<Event>)
    ensures Counted(l, events + [Downloaded])
            == if Counted(l, events) < l.maximumDownloads then Counted(l, events) + 1 else Counted(l, events)
  {
    hide Run;
    DownloadsBounded(l, events);
    assert (events + [Downloaded])[..|events|] == events;
  }

  /** How many failures were recorded in a run, of all sources. */
  function FailuresMet(l: Limits, events: seq<Event>): nat {
    if events == [] then 0
    else
      var before, e := events[..|events| - 1], events[|events| - 1];
      FailuresMet(l, before) + if e.Asked? && FailureAfter(l, before, e.call).Some? then 1 else 0
  }

  /** How often a call met the throttle or set it off. */
  function ThrottlesMet(l: Limits, events: seq<Event>): nat {
    if events == [] then 0
    else
      var before, e := events[..|events| - 1], events[|events| - 1];
      ThrottlesMet(l, before)
      + if !e.Asked? then 0
        else if e.call.at < ThrottledUntil(l, Failures(l, before, e.call.source)) then 1
        else if FailureAfter(l, before, e.call).Some?
                && Fills(l, Failures(l, before, e.call.source) + [FailureAfter(l, before, e.call).value]) then 1
        else 0
  }

  /** The two counters the portal reports are these numbers after every run. */
  lemma {:induction false} CountersExact(l: Limits, events: seq<Event>)
    requires l.window >= 0.0 && Sequential(events)
    ensures Run(l, events).failedCount == FailuresMet(l, events)
    ensures Run(l, events).throttledCount == ThrottlesMet(l, events)
  {
    hide Keep, Rising, Remembers, Past, Sequential, ThrottledUntil, RecordFailure, Spaced, Fills;
    if events == [] {
    } else {
      var before, e := events[..|events| - 1], events[|events| - 1];
      var p := Run(l, before);
      SequentialPrefix(events);
      CountersExact(l, before);
      if e.Asked? {
        var source, times := e.call.source, Failures(l, before, e.call.source);
        ThrottleExact(l, before, source);
        if FailedAt(p, e.call).Some? {
          History(l, before, source);
          History(l, events, source);
          RecordThrottles(l, p, source, times, FailedAt(p, e.call).value);
        }
      }
    }
  }
}
