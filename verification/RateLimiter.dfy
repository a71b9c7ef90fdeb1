/** The request limiter: a deque of accepted times for each source. */
module RateLimiter {
  import opened Unicode
  import opened Times

  /** `while values and values[0] <= cutoff: popleft()`. */
  function DropOld(values: seq<real>, cutoff: real): seq<real> {
    if values != [] && values[0] <= cutoff then DropOld(values[1..], cutoff) else values
  }

  datatype Call = Call(source: Text, now: real)

  datatype Limits = Limits(limit: nat, window: real)

  function Deque(values: map<Text, seq<real>>, source: Text): seq<real> {
    if source in values then values[source] else []
  }

  function Allow(l: Limits, values: map<Text, seq<real>>, c: Call): (map<Text, seq<real>>, bool) {
    var kept := DropOld(Deque(values, c.source), c.now - l.window);
    if |kept| >= l.limit then (values[c.source := kept], false) else (values[c.source := kept + [c.now]], true)
  }

  // ----- the complete history

  /** A clock that does not run backwards. */
  predicate Monotone(calls: seq<Call>) { forall i, j :: 0 <= i < j < |calls| ==> calls[i].now <= calls[j].now }

  function Run(l: Limits, calls: seq<Call>): map<Text, seq<real>> {
    if calls == [] then map[] else Allow(l, Run(l, calls[..|calls| - 1]), calls[|calls| - 1]).0
  }

  /** Every time at which the source was let through. */
  function Accepted(l: Limits, calls: seq<Call>, source: Text): seq<real> {
    if calls == [] then []
    else
      var before, c := calls[..|calls| - 1], calls[|calls| - 1];
      if c.source == source && Allow(l, Run(l, before), c).1 then Accepted(l, before, source) + [c.now]
      else Accepted(l, before, source)
  }

  /** On rising times popping from the left and filtering are the same. */
  lemma {:induction false} DropIsKeep(times: seq<real>, cutoff: real)
    requires Rising(times)
    ensures DropOld(times, cutoff) == Keep(times, Beyond(cutoff))
  {
    if times == [] {
    } else {
      assert times == [times[0]] + times[1..];
      KeepHead(times[0], times[1..], Beyond(cutoff));
      DropIsKeep(times[1..], cutoff);
      if times[0] > cutoff {
        KeepAll(times, Beyond(cutoff));
      }
    }
  }

  // ----- the deque refines the history

  /** The deque holds the accepts of the window that ended at some reading of the clock, and
      nothing of it can be missed later. */
  ghost predicate Refines(l: Limits, values: map<Text, seq<real>>, source: Text, times: seq<real>, upTo: real) {
    && Rising(times) && (forall x :: x in times ==> x <= upTo)
    && exists cutoff :: cutoff <= upTo - l.window && Deque(values, source) == Keep(times, Beyond(cutoff))
  }

  lemma DropRefines(l: Limits, values: map<Text, seq<real>>, source: Text, times: seq<real>, upTo: real, now: real)
    requires l.window >= 0.0 && Refines(l, values, source, times, upTo) && upTo <= now
    ensures DropOld(Deque(values, source), now - l.window) == Keep(times, Beyond(now - l.window))
  {
    hide DropOld, Keep;
    var cutoff :| cutoff <= upTo - l.window && Deque(values, source) == Keep(times, Beyond(cutoff));
    KeepRising(times, Beyond(cutoff));
    DropIsKeep(Keep(times, Beyond(cutoff)), now - l.window);
    KeepTwice(times, Beyond(cutoff), Beyond(now - l.window));
  }

  /** One call of the source: what it decides, and what it leaves. */
  lemma AllowRefines(l: Limits, values: map<Text, seq<real>>, times: seq<real>, upTo: real, c: Call)
    requires l.window > 0.0 && Refines(l, values, c.source, times, upTo) && upTo <= c.now
    ensures var (after, allowed) := Allow(l, values, c);
            var all := if allowed then times + [c.now] else times;
            && (allowed <==> |Keep(times, Beyond(c.now - l.window))| < l.limit)
            && after[c.source] == Keep(all, Beyond(c.now - l.window))
            && Refines(l, after, c.source, all, c.now)
  {
    hide DropOld, Keep, Rising;
    DropRefines(l, values, c.source, times, upTo, c.now);
    KeepAppend(times, c.now, Beyond(c.now - l.window));
    RisingAppend(times, c.now);
  }

  lemma OtherDeque(l: Limits, values: map<Text, seq<real>>, source: Text, times: seq<real>, upTo: real, c: Call)
    requires c.source != source && Refines(l, values, source, times, upTo) && upTo <= c.now
    ensures Refines(l, Allow(l, values, c).0, source, times, c.now)
  {
    hide Keep, Rising, DropOld;
    assert Deque(Allow(l, values, c).0, source) == Deque(values, source);
  }

  lemma {:induction false} DequeRefinesHistory(l: Limits, calls: seq<Call>, source: Text, upTo: real)
    requires l.window > 0.0 && Monotone(calls) && (calls != [] ==> calls[|calls| - 1].now <= upTo)
    ensures Refines(l, Run(l, calls), source, Accepted(l, calls, source), upTo)
  {
    hide Refines, Allow;
    if calls == [] {
      NothingYet(l, source, upTo);
    } else {
      var before, c := calls[..|calls| - 1], calls[|calls| - 1];
      DequeRefinesHistory(l, before, source, c.now);
      var times := Accepted(l, before, source);
      if c.source == source {
        AllowRefines(l, Run(l, before), times, c.now, c);
      } else {
        OtherDeque(l, Run(l, before), source, times, c.now, c);
      }
      RefinesLater(l, Run(l, calls), source, Accepted(l, calls, source), c.now, upTo);
    }
  }

  lemma NothingYet(l: Limits, source: Text, upTo: real)
    ensures Refines(l, map[], source, [], upTo)
  {
    assert Keep([], Beyond(upTo - l.window)) == [];
  }

  lemma RefinesLater(l: Limits, values: map<Text, seq<real>>, source: Text, times: seq<real>, upTo: real, later: real)
    requires Refines(l, values, source, times, upTo) && upTo <= later
    ensures Refines(l, values, source, times, later)
  {
    hide Keep, Rising;
    var cutoff :| cutoff <= upTo - l.window && Deque(values, source) == Keep(times, Beyond(cutoff));
    assert cutoff <= later - l.window;
  }

  lemma MonotoneInit(calls: seq<Call>, c: Call)
    requires Monotone(calls + [c])
    ensures Monotone(calls) && (calls != [] ==> calls[|calls| - 1].now <= c.now)
  {
    var all := calls + [c];
    forall i, j | 0 <= i < j < |calls|
      ensures calls[i].now <= calls[j].now
    {
      assert all[i].now <= all[j].now;
    }
    if calls == [] {
    } else {
      assert all[|calls| - 1].now <= all[|calls|].now;
    }
  }

  /** A request is refused exactly when the complete history already has `limit` accepts of
      its source in the window that ends with it; after the call the deque holds exactly the
      accepts of that window. */
  lemma RefusedExactly(l: Limits, calls: seq<Call>, c: Call)
    requires l.window > 0.0 && Monotone(calls + [c])
    ensures var (values, allowed) := Allow(l, Run(l, calls), c);
            && (allowed <==> |Keep(Accepted(l, calls, c.source), Beyond(c.now - l.window))| < l.limit)
            && values[c.source] == Keep(Accepted(l, calls + [c], c.source), Beyond(c.now - l.window))
  {
    hide Keep, Refines, Monotone;
    var all := calls + [c];
    MonotoneInit(calls, c);
    DequeRefinesHistory(l, calls, c.source, c.now);
    AllowRefines(l, Run(l, calls), Accepted(l, calls, c.source), c.now, c);
    assert all[..|all| - 1] == calls && all[|all| - 1] == c;
  }

  // ----- no window holds more than the limit

  /** After each accept, the window that ends with it is within the limit. */
  predicate Bounded(l: Limits, times: seq<real>) {
    forall k :: 0 <= k < |times| ==> |Keep(times[..k + 1], Beyond(times[k] - l.window))| <= l.limit
  }

  lemma BoundedAppend(l: Limits, times: seq<real>, now: real)
    requires l.window > 0.0 && Bounded(l, times) && |Keep(times, Beyond(now - l.window))| < l.limit
    ensures Bounded(l, times + [now])
  {
    hide Keep;
    var all := times + [now];
    forall k | 0 <= k < |all|
      ensures |Keep(all[..k + 1], Beyond(all[k] - l.window))| <= l.limit
    {
      if k < |times| {
        assert all[..k + 1] == times[..k + 1];
      } else {
        assert all[..k + 1] == all;
        KeepAppend(times, now, Beyond(now - l.window));
      }
    }
  }

  lemma {:induction false} HistoryBounded(l: Limits, calls: seq<Call>, source: Text)
    requires l.window > 0.0 && Monotone(calls)
    ensures Bounded(l, Accepted(l, calls, source))
  {
    hide Bounded, Keep, Allow;
    if calls == [] {
      EmptyBounded(l);
    } else {
      var before, c := calls[..|calls| - 1], calls[|calls| - 1];
      HistoryBounded(l, before, source);
      assert before + [c] == calls;
      RefusedExactly(l, before, c);
      if c.source == source && Allow(l, Run(l, before), c).1 {
        BoundedAppend(l, Accepted(l, before, source), c.now);
      }
    }
  }

  lemma EmptyBounded(l: Limits)
    ensures Bounded(l, [])
  {
  }

  lemma WindowFull(l: Limits, times: seq<real>, a: nat, k: nat)
    requires Rising(times) && a <= k < |times| && times[k] < times[a] + l.window
    ensures |Keep(times[..k + 1], Beyond(times[k] - l.window))| >= k + 1 - a
  {
    hide Keep;
    var seen := times[..k + 1];
    forall i | a <= i < |seen|
      ensures seen[i] > times[k] - l.window
    {
      assert times[a] <= times[i];
    }
    KeepCovers(seen, k + 1 - a, Beyond(times[k] - l.window));
  }

  /** No half-open window of the configured length ever holds more than `limit` accepts of
      one source. */
  lemma WindowBound(l: Limits, calls: seq<Call>, source: Text, start: real)
    requires l.window > 0.0 && Monotone(calls)
    ensures InWindow(Accepted(l, calls, source), start, l.window) <= l.limit
  {
    hide Accepted, Keep, Monotone, InWindow;
    var times := Accepted(l, calls, source);
    HistoryBounded(l, calls, source);
    HistoryRises(l, calls, source);
    var a := WindowIsSlice(times, start, l.window);
    var m := InWindow(times, start, l.window);
    if m > 0 {
      WindowFull(l, times, a, a + m - 1);
    }
  }

  lemma HistoryRises(l: Limits, calls: seq<Call>, source: Text)
    requires l.window > 0.0 && Monotone(calls)
    ensures Rising(Accepted(l, calls, source))
  {
    if calls == [] {
    } else {
      DequeRefinesHistory(l, calls, source, calls[|calls| - 1].now);
    }
  }

  // ----- the limiter on its own deques

  class RequestLimiter {
    const limits: Limits
    var values: map<Text, seq<real>>

    constructor (limits: Limits)
      ensures this.limits == limits && values == map[]
    {
      this.limits, values := limits, map[];
    }

    method AllowRequest(source: Text, now: real) returns (allowed: bool)
      modifies this
      ensures (values, allowed) == Allow(limits, old(values), Call(source, now))
    {
      var deque := if source in values then values[source] else [];
      while deque != [] && deque[0] <= now - limits.window
        invariant DropOld(deque, now - limits.window) == DropOld(Deque(old(values), source), now - limits.window)
        invariant values == old(values)
        decreases |deque|
      {
        deque := deque[1..];
      }
      if |deque| >= limits.limit {
        values := values[source := deque];
        return false;
      }
      values := values[source := deque + [now]];
      return true;
    }
  }
}
