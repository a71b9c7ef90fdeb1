/** Sequences of clock readings: filtering them and counting them in windows. */
module Times {

  predicate Rising(times: seq<real>) { forall i, j :: 0 <= i < j < |times| ==> times[i] <= times[j] }

  function AtLeast(cutoff: real): real -> bool { (x: real) => x >= cutoff }

  function Beyond(cutoff: real): real -> bool { (x: real) => x > cutoff }

  function Keep(times: seq<real>, wanted: real -> bool): seq<real> {
    if times == [] then []
    else
      var last := times[|times| - 1];
      if wanted(last) then Keep(times[..|times| - 1], wanted) + [last] else Keep(times[..|times| - 1], wanted)
  }

  lemma KeepAppend(times: seq<real>, x: real, wanted: real -> bool)
    ensures Keep(times + [x], wanted) == if wanted(x) then Keep(times, wanted) + [x] else Keep(times, wanted)
  {
    assert (times + [x])[..|times|] == times;
  }

  lemma {:induction false} KeepTwice(times: seq<real>, first: real -> bool, second: real -> bool)
    requires forall x :: second(x) ==> first(x)
    ensures Keep(Keep(times, first), second) == Keep(times, second)
  {
    if times == [] {
    } else {
      var init, last := times[..|times| - 1], times[|times| - 1];
      KeepTwice(init, first, second);
      KeepAppend(Keep(init, first), last, second);
    }
  }

  lemma {:induction false} KeepHead(x: real, rest: seq<real>, wanted: real -> bool)
    ensures Keep([x] + rest, wanted) == (if wanted(x) then [x] else []) + Keep(rest, wanted)
  {
    if rest == [] {
      assert [x] + rest == [] + [x];
      KeepAppend([], x, wanted);
    } else {
      var init, last := rest[..|rest| - 1], rest[|rest| - 1];
      assert [x] + rest == ([x] + init) + [last];
      KeepAppend([x] + init, last, wanted);
      KeepHead(x, init, wanted);
    }
  }

  lemma {:induction false} KeepAll(times: seq<real>, wanted: real -> bool)
    requires forall i :: 0 <= i < |times| ==> wanted(times[i])
    ensures Keep(times, wanted) == times
  {
    if times == [] {
    } else {
      assert times == times[..|times| - 1] + [times[|times| - 1]];
      KeepAll(times[..|times| - 1], wanted);
    }
  }

  lemma {:induction false} KeepMembers(times: seq<real>, wanted: real -> bool)
    ensures forall x :: x in Keep(times, wanted) ==> x in times && wanted(x)
  {
    if times == [] {
    } else {
      KeepMembers(times[..|times| - 1], wanted);
      assert times == times[..|times| - 1] + [times[|times| - 1]];
    }
  }

  lemma RisingAppend(times: seq<real>, x: real)
    requires Rising(times) && forall y :: y in times ==> y <= x
    ensures Rising(times + [x])
  {
    var all := times + [x];
    forall i, j | 0 <= i < j < |all|
      ensures all[i] <= all[j]
    {
      assert all[i] == times[i] && times[i] in times;
    }
  }

  lemma {:induction false} KeepRising(times: seq<real>, wanted: real -> bool)
    requires Rising(times)
    ensures Rising(Keep(times, wanted))
  {
    if times == [] {
    } else {
      var init, last := times[..|times| - 1], times[|times| - 1];
      KeepRising(init, wanted);
      KeepMembers(init, wanted);
      forall x | x in init
        ensures x <= last
      {
        var i :| 0 <= i < |init| && init[i] == x;
        assert times[i] <= times[|times| - 1];
      }
      RisingAppend(Keep(init, wanted), last);
    }
  }

  lemma {:induction false} KeepCovers(times: seq<real>, n: nat, wanted: real -> bool)
    requires n <= |times| && forall i :: |times| - n <= i < |times| ==> wanted(times[i])
    ensures |Keep(times, wanted)| >= n
    decreases n
  {
    if n > 0 {
      KeepCovers(times[..|times| - 1], n - 1, wanted);
    }
  }

  // ----- windows

  /** How many of the times lie in the half-open window that begins at start. */
  function InWindow(times: seq<real>, start: real, window: real): nat {
    if times == [] then 0
    else
      var last := times[|times| - 1];
      InWindow(times[..|times| - 1], start, window) + if start <= last < start + window then 1 else 0
  }

  function Below(times: seq<real>, x: real): nat {
    if times == [] then 0 else Below(times[..|times| - 1], x) + if times[|times| - 1] < x then 1 else 0
  }

  lemma {:induction false} WindowCount(times: seq<real>, start: real, window: real)
    requires window >= 0.0
    ensures InWindow(times, start, window) == Below(times, start + window) - Below(times, start)
  {
    if times == [] {
    } else {
      WindowCount(times[..|times| - 1], start, window);
    }
  }

  lemma {:induction false} BelowRising(times: seq<real>, x: real)
    requires Rising(times)
    ensures Below(times, x) <= |times|
    ensures forall i :: 0 <= i < |times| ==> (times[i] < x <==> i < Below(times, x))
  {
    if times == [] {
    } else {
      var init := times[..|times| - 1];
      BelowRising(init, x);
      if times[|times| - 1] < x {
        if init != [] {
          assert init[|init| - 1] < x;
        }
      }
    }
  }

  /** The times of a window are neighbours: first to last of them, they lie within it. */
  lemma WindowIsSlice(times: seq<real>, start: real, window: real) returns (a: nat)
    requires Rising(times) && window >= 0.0
    ensures a + InWindow(times, start, window) <= |times|
    ensures forall i :: a <= i < a + InWindow(times, start, window) ==> start <= times[i] < start + window
  {
    hide Below, InWindow;
    WindowCount(times, start, window);
    BelowRising(times, start);
    BelowRising(times, start + window);
    a := Below(times, start);
  }
}
