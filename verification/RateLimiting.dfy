/** The sliding-window rate limiter: its bound for callers that await each acquire in turn, and
    when callers that overlap keep it. */
module RateLimiting {

  // The times still inside the window.
  function Recent(times: seq<int>, window: int, now: int): seq<int> {
    if times == [] then []
    else
      var t := times[|times| - 1];
      Recent(times[..|times| - 1], window, now) + if now - t < window then [t] else []
  }

  // How long an acquire that starts at `now` sleeps. With a limit of zero or less and no
  // recent request there is no oldest one, and the original then does not sleep.
  function WaitTime(times: seq<int>, limit: int, window: int, now: int): nat {
    var kept := Recent(times, window, now);
    if |kept| >= limit && kept != [] && window - (now - kept[0]) > 0 then window - (now - kept[0]) else 0
  }

  class RateLimiter {
    var requests: seq<int>
    const maxRequests: int
    const windowMs: int

    constructor (maxRequests: int, windowMs: int)
      ensures requests == [] && this.maxRequests == maxRequests && this.windowMs == windowMs
    {
      requests := [];
      this.maxRequests := maxRequests;
      this.windowMs := windowMs;
    }

    // `now` is the clock at entry; the timer may fire any time `extra` after it is due.
    method Acquire(now: int, extra: nat) returns (granted: int)
      modifies this
      ensures granted == now + WaitTime(old(requests), maxRequests, windowMs, now) + extra
      ensures requests == Recent(old(requests), windowMs, now) + [granted]
    {
      requests := Recent(requests, windowMs, now);
      var clock := now;
      if |requests| >= maxRequests && requests != [] {
        var oldestRequest := requests[0];
        var waitTime := windowMs - (now - oldestRequest);
        if waitTime > 0 {
          clock := clock + waitTime;
        }
      }
      granted := clock + extra;
      requests := requests + [granted];
    }
  }

  // ---------- runs ----------

  // A call starts `idle` after the grant before it and is granted `extra` after it is due.
  datatype Call = Call(idle: nat, extra: nat)

  datatype State = State(requests: seq<int>, clock: int, grants: seq<int>)

  function Next(limit: int, window: int, s: State, c: Call): State {
    var now := s.clock + c.idle;
    var granted := now + WaitTime(s.requests, limit, window, now) + c.extra;
    State(Recent(s.requests, window, now) + [granted], granted, s.grants + [granted])
  }

  function Run(limit: int, window: int, start: int, calls: seq<Call>): State {
    if calls == [] then State([], start, [])
    else Next(limit, window, Run(limit, window, start, calls[..|calls| - 1]), calls[|calls| - 1])
  }

  // A limit below one acts as a limit of one.
  function Limit(limit: int): nat
    ensures Limit(limit) >= 1
    ensures limit >= 1 ==> Limit(limit) == limit
    ensures limit < 1 ==> Limit(limit) == 1
  {
    if limit < 1 then 1 else limit
  }

  ghost predicate Ordered(times: seq<int>) {
    forall i, j :: 0 <= i < j < |times| ==> times[i] <= times[j]
  }

  ghost predicate Spaced(times: seq<int>, m: nat, window: int) {
    forall i :: 0 <= i && i + m < |times| ==> times[i + m] - times[i] >= window
  }

  // The list is the tail of all grants, and the grants no longer on it have left the window.
  ghost predicate Inv(limit: int, window: int, s: State) {
    var dropped := |s.grants| - |s.requests|;
    && Ordered(s.grants) && (forall i :: 0 <= i < |s.grants| ==> s.grants[i] <= s.clock)
    && dropped >= 0 && s.requests == s.grants[dropped..]
    && (forall i :: 0 <= i < dropped ==> s.clock - s.grants[i] >= window)
    && Spaced(s.grants, Limit(limit), window)
  }

  lemma {:induction false} AllExpired(times: seq<int>, window: int, now: int)
    requires Ordered(times) && times != [] && now - times[|times| - 1] >= window
    ensures Recent(times, window, now) == []
  {
    if |times| > 1 {
      AllExpired(times[..|times| - 1], window, now);
    }
  }

  // On ordered times the filter keeps a tail.
  lemma {:induction false} RecentIsTail(times: seq<int>, window: int, now: int) returns (j: nat)
    requires Ordered(times)
    ensures j <= |times| && Recent(times, window, now) == times[j..]
    ensures forall i :: 0 <= i < |times| ==> (now - times[i] < window <==> j <= i)
  {
    if times == [] {
      j := 0;
    } else if now - times[|times| - 1] >= window {
      AllExpired(times, window, now);
      j := |times|;
    } else {
      var init, t := times[..|times| - 1], times[|times| - 1];
      assert Recent(times, window, now) == Recent(init, window, now) + [t];
      assert Ordered(init) && times == init + [t];
      hide Recent, Ordered;
      j := RecentIsTail(init, window, now);
      TailExtends(init, t, window, now, j);
    }
  }

  lemma TailExtends(init: seq<int>, t: int, window: int, now: int, j: nat)
    requires j <= |init| && now - t < window
    requires forall i :: 0 <= i < |init| ==> (now - init[i] < window <==> j <= i)
    ensures init[j..] + [t] == (init + [t])[j..]
    ensures forall i :: 0 <= i < |init + [t]| ==> (now - (init + [t])[i] < window <==> j <= i)
  {
  }

  lemma SpacedTail(times: seq<int>, m: nat, window: int, d: nat)
    requires Ordered(times) && Spaced(times, m, window)
    ensures d + m < |times| ==> times[|times| - 1] - times[d] >= window
  {
    if d + m < |times| {
      assert times[d + m] - times[d] >= window;
      assert d + m < |times| - 1 ==> times[d + m] <= times[|times| - 1];
    }
  }

  // The filtered list is the tail of all grants still in the window, at most the limit.
  lemma WindowStart(limit: int, window: int, s: State, now: int) returns (d: nat)
    requires Inv(limit, window, s) && now >= s.clock
    ensures d <= |s.grants| && Recent(s.requests, window, now) == s.grants[d..]
    ensures forall i :: 0 <= i < |s.grants| ==> (now - s.grants[i] < window <==> d <= i)
    ensures |s.grants| - d <= Limit(limit)
  {
    var dropped := |s.grants| - |s.requests|;
    var j := RecentIsTail(s.requests, window, now);
    d := dropped + j;
    SpacedTail(s.grants, Limit(limit), window, d);
    hide Recent, Spaced, Ordered, Limit;
    forall i | 0 <= i < |s.grants| ensures now - s.grants[i] < window <==> d <= i {
      if i >= dropped {
        assert s.requests[i - dropped] == s.grants[i];
      }
    }
    assert s.requests[j..] == s.grants[d..];
  }

  // The wait is exactly the time until the grant `limit` places back leaves the window.
  lemma WaitIsExact(limit: int, window: int, s: State, now: int)
    requires Inv(limit, window, s) && now >= s.clock
    ensures var m, n := Limit(limit), |s.grants|;
      WaitTime(s.requests, limit, window, now) ==
        if n >= m && now - s.grants[n - m] < window then window - (now - s.grants[n - m]) else 0
  {
    var d := WindowStart(limit, window, s, now);
    hide Inv, Recent;
  }

  lemma NextKeepsInv(limit: int, window: int, s: State, c: Call)
    requires Inv(limit, window, s)
    ensures Inv(limit, window, Next(limit, window, s, c))
  {
    hide WaitTime, Recent, Inv;
    var now := s.clock + c.idle;
    var wait := WaitTime(s.requests, limit, window, now);
    WaitIsExact(limit, window, s, now);
    var d := WindowStart(limit, window, s, now);
    GrantKeepsInv(limit, window, s, s.grants[d..], d, now + wait + c.extra);
  }

  lemma GrantKeepsInv(limit: int, window: int, s: State, kept: seq<int>, d: nat, granted: int)
    requires Inv(limit, window, s) && d <= |s.grants| && kept == s.grants[d..] && granted >= s.clock
    requires forall i :: 0 <= i < d ==> granted - s.grants[i] >= window
    requires |s.grants| >= Limit(limit) ==> granted - s.grants[|s.grants| - Limit(limit)] >= window
    ensures Inv(limit, window, State(kept + [granted], granted, s.grants + [granted]))
  {
    var grants := s.grants + [granted];
    assert kept + [granted] == grants[d..];
    forall i | 0 <= i && i + Limit(limit) < |grants| ensures grants[i + Limit(limit)] - grants[i] >= window {
      assert i + Limit(limit) < |s.grants| ==> s.grants[i + Limit(limit)] - s.grants[i] >= window;
    }
  }

  lemma RunStep(limit: int, window: int, start: int, calls: seq<Call>)
    ensures calls == [] ==> Run(limit, window, start, calls) == State([], start, [])
    ensures calls != [] ==>
      var s := Run(limit, window, start, calls[..|calls| - 1]);
      && Run(limit, window, start, calls) == Next(limit, window, s, calls[|calls| - 1])
      && |Run(limit, window, start, calls).grants| == |s.grants| + 1
  {
  }

  lemma StartSatisfiesInv(limit: int, window: int, start: int)
    ensures Inv(limit, window, State([], start, []))
  {
  }

  lemma {:induction false} RunKeepsInv(limit: int, window: int, start: int, calls: seq<Call>)
    ensures Inv(limit, window, Run(limit, window, start, calls))
    ensures |Run(limit, window, start, calls).grants| == |calls|
  {
    hide *;
    RunStep(limit, window, start, calls);
    if calls == [] {
      StartSatisfiesInv(limit, window, start);
    } else {
      RunKeepsInv(limit, window, start, calls[..|calls| - 1]);
      NextKeepsInv(limit, window, Run(limit, window, start, calls[..|calls| - 1]), calls[|calls| - 1]);
    }
  }

  // In every run, for every limit and window, a grant is at least a window after the grant
  // `limit` places before it.
  lemma SlidingWindow(limit: int, window: int, start: int, calls: seq<Call>, i: nat)
    requires i + Limit(limit) < |calls|
    ensures var grants := Run(limit, window, start, calls).grants;
      |grants| == |calls| && grants[i + Limit(limit)] - grants[i] >= window
  {
    RunKeepsInv(limit, window, start, calls);
  }

  // And no call waits longer than that bound forces it to.
  lemma NoNeedlessWait(limit: int, window: int, start: int, calls: seq<Call>, c: Call)
    ensures var s := Run(limit, window, start, calls);
      var m, n, now := Limit(limit), |s.grants|, s.clock + c.idle;
      |Run(limit, window, start, calls + [c]).grants| == n + 1 &&
      Run(limit, window, start, calls + [c]).grants[n] ==
        (if n >= m && now < s.grants[n - m] + window then s.grants[n - m] + window else now) + c.extra
  {
    hide Inv, WaitTime, Recent, Run;
    RunKeepsInv(limit, window, start, calls);
    var s := Run(limit, window, start, calls);
    WaitIsExact(limit, window, s, s.clock + c.idle);
    RunExtends(limit, window, start, calls, c);
  }

  lemma RunExtends(limit: int, window: int, start: int, calls: seq<Call>, c: Call)
    ensures Run(limit, window, start, calls + [c]) == Next(limit, window, Run(limit, window, start, calls), c)
  {
  }

  // ---------- calls that overlap ----------

  // What calls that start at `nows`, none of them granted before the last has started, leave
  // on the list and when their timers are due.
  datatype Waiting = Waiting(requests: seq<int>, due: seq<int>)

  function Begun(limit: int, window: int, requests: seq<int>, nows: seq<int>): Waiting {
    if nows == [] then Waiting(requests, [])
    else
      var before, now := Begun(limit, window, requests, nows[..|nows| - 1]), nows[|nows| - 1];
      Waiting(Recent(before.requests, window, now), before.due + [now + WaitTime(before.requests, limit, window, now)])
  }

  lemma RecentAppend(times: seq<int>, t: int, window: int, now: int)
    ensures Recent(times + [t], window, now) ==
            if now - t < window then Recent(times, window, now) + [t] else Recent(times, window, now)
  {
    assert (times + [t])[..|times|] == times;
  }

  // Filtering again later is filtering later.
  lemma {:induction false} RecentTwice(times: seq<int>, window: int, a: int, b: int)
    requires a <= b
    ensures Recent(Recent(times, window, a), window, b) == Recent(times, window, b)
  {
    hide *;
    if times == [] {
      RecentOfNone(window, a);
      RecentOfNone(window, b);
    } else {
      var init, t := times[..|times| - 1], times[|times| - 1];
      assert init + [t] == times;
      RecentTwice(init, window, a, b);
      RecentAppend(init, t, window, a);
      RecentAppend(init, t, window, b);
      RecentAppend(Recent(init, window, a), t, window, b);
    }
  }

  lemma RecentOfNone(window: int, now: int)
    ensures Recent([], window, now) == []
  {
  }

  // As long as the last of them has to wait, all wait for the same grant to leave the window.
  lemma {:induction false} AllDueTogether(limit: int, window: int, s: State, nows: seq<int>)
    requires Inv(limit, window, s) && nows != [] && Ordered(nows) && nows[0] >= s.clock
    requires WaitTime(s.requests, limit, window, nows[|nows| - 1]) > 0
    ensures var m, n, p := Limit(limit), |s.grants|, Begun(limit, window, s.requests, nows);
      && n >= m && s.clock <= nows[|nows| - 1] < s.grants[n - m] + window
      && p == Waiting(Recent(s.requests, window, nows[|nows| - 1]), seq(|nows|, _ => s.grants[n - m] + window))
  {
    hide *;
    var before, now := nows[..|nows| - 1], nows[|nows| - 1];
    BegunStep(limit, window, s.requests, nows);
    OrderedEnds(nows);
    WaitIsExact(limit, window, s, now);
    if before != [] {
      var last := before[|before| - 1];
      WaitIsExact(limit, window, s, last);
      AllDueTogether(limit, window, s, before);
      FilterThenWait(limit, window, s.requests, last, now);
    } else {
      NoneBegun(limit, window, s.requests);
    }
  }

  lemma BegunStep(limit: int, window: int, requests: seq<int>, nows: seq<int>)
    requires nows != []
    ensures var before, now := Begun(limit, window, requests, nows[..|nows| - 1]), nows[|nows| - 1];
      && Begun(limit, window, requests, nows).requests == Recent(before.requests, window, now)
      && Begun(limit, window, requests, nows).due == before.due + [now + WaitTime(before.requests, limit, window, now)]
  {
    hide Recent, WaitTime;
  }

  lemma NoneBegun(limit: int, window: int, requests: seq<int>)
    ensures Begun(limit, window, requests, []) == Waiting(requests, [])
  {
    hide Recent, WaitTime;
  }

  lemma OrderedEnds(times: seq<int>)
    requires Ordered(times) && times != []
    ensures times[0] <= times[|times| - 1] && Ordered(times[..|times| - 1])
    ensures |times| > 1 ==> times[0] <= times[|times| - 2] <= times[|times| - 1]
  {
  }

  lemma FilterThenWait(limit: int, window: int, requests: seq<int>, a: int, b: int)
    requires a <= b
    ensures Recent(Recent(requests, window, a), window, b) == Recent(requests, window, b)
    ensures WaitTime(Recent(requests, window, a), limit, window, b) == WaitTime(requests, limit, window, b)
  {
    RecentTwice(requests, window, a, b);
    hide Recent;
  }

  // So they are granted together, and then the bound holds exactly when there are no more of
  // them than the limit and all the grants they follow a limit behind were given together too.
  lemma OverlappingCalls(limit: int, window: int, s: State, nows: seq<int>)
    requires Inv(limit, window, s) && nows != [] && Ordered(nows) && nows[0] >= s.clock
    requires WaitTime(s.requests, limit, window, nows[|nows| - 1]) > 0
    ensures var m, n, k, due := Limit(limit), |s.grants|, |nows|, Begun(limit, window, s.requests, nows).due;
      && n >= m && due == seq(k, _ => s.grants[n - m] + window)
      && (Spaced(s.grants + due, m, window) <==> k <= m && s.grants[n - m + k - 1] == s.grants[n - m])
  {
    hide *;
    AllDueTogether(limit, window, s, nows);
    InvMeans(limit, window, s);
    GrantedTogether(s.grants, Limit(limit), window, |nows|);
  }

  lemma InvMeans(limit: int, window: int, s: State)
    requires Inv(limit, window, s)
    ensures Limit(limit) >= 1 && Ordered(s.grants) && Spaced(s.grants, Limit(limit), window)
    ensures forall i :: 0 <= i < |s.grants| ==> s.grants[i] <= s.clock
  {
  }

  lemma GrantedTogether(grants: seq<int>, m: nat, window: int, k: nat)
    requires Ordered(grants) && Spaced(grants, m, window) && 1 <= m <= |grants| && window > 0 && k >= 1
    ensures var n := |grants|;
      Spaced(grants + seq(k, _ => grants[n - m] + window), m, window) <==>
        k <= m && grants[n - m + k - 1] == grants[n - m]
  {
    var n := |grants|;
    var all := grants + seq(k, _ => grants[n - m] + window);
    if k > m {
      assert all[n + m] - all[n] == 0;
    } else if Spaced(all, m, window) {
      assert all[n - m + k - 1 + m] - all[n - m + k - 1] >= window;
    }
    if k <= m && grants[n - m + k - 1] == grants[n - m] {
      forall i | 0 <= i && i + m < |all| ensures all[i + m] - all[i] >= window {
        assert i + m < n ==> grants[i + m] - grants[i] >= window;
        assert i + m >= n ==> grants[i] <= grants[n - m + k - 1];
      }
    }
  }

  // The smallest case: a limit of one, and two calls while the first grant is in the window.
  lemma OverlappingCallsBurst()
    ensures var limit, window, s := 1, 10, State([0], 0, [0]);
      && Inv(limit, window, s) && Begun(limit, window, s.requests, [1, 1]).due == [10, 10]
      && !Spaced(s.grants + [10, 10], Limit(limit), window)
  {
    hide *;
    var s, nows := State([0], 0, [0]), [1, 1];
    OneGrant(s, nows);
    OverlappingCalls(1, 10, s, nows);
    assert seq(|nows|, _ => s.grants[|s.grants| - 1] + 10) == [10, 10];
  }

  lemma OneGrant(s: State, nows: seq<int>)
    requires s == State([0], 0, [0]) && nows == [1, 1]
    ensures Limit(1) == 1 && Inv(1, 10, s) && Ordered(nows) && WaitTime(s.requests, 1, 10, 1) > 0
  {
    hide Recent, WaitTime;
    OneRecent(1);
  }

  lemma OneRecent(now: nat)
    requires now < 10
    ensures Recent([0], 10, now) == [0] && WaitTime([0], 1, 10, now) == 10 - now
  {
    RecentOfNone(10, now);
    RecentAppend([], 0, 10, now);
    assert [] + [0] == [0];
  }
}
