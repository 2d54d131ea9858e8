// What the traffic baseline changes in detection/detection.go: runs of CheckRateLimit over all
// addresses, with the global traffic in the calls and the baseline in the state.
module AdaptiveLimits {
  import opened PenaltyBoxes
  import opened Meters

  function Serve(s: Limiter, events: seq<Event>): Limiter {
    if events == [] then s else Handle(Serve(s, events[..|events| - 1]), events[|events| - 1])
  }

  predicate IsAsk(e: Event, ip: string) {
    e.Ask? && e.ip == ip
  }

  // Traffic below half of a positive baseline, in an engine that adapts to it.
  predicate LowTraffic(s: Limiter, e: Event)
    requires e.Ask?
  {
    s.limits.adaptive && s.avgRPS > 0.0 && 2.0 * (e.globalRPS as real) < s.avgRPS
  }

  // The requests of an address that pass.
  function PassedOf(s: Limiter, events: seq<Event>, ip: string): nat {
    if events == [] then 0
    else
      var before, e := events[..|events| - 1], events[|events| - 1];
      PassedOf(s, before, ip) + if IsAsk(e, ip) && Answer(Serve(s, before), e).status == 0 then 1 else 0
  }

  // The clock never goes back.
  predicate InOrder(start: real, events: seq<Event>) {
    && start >= ZERO_TIME
    && (forall i :: 0 <= i < |events| && events[i].Ask? ==> events[i].now >= start)
    && (forall i, j :: 0 <= i < j < |events| && events[i].Ask? && events[j].Ask? ==> events[i].now <= events[j].now)
  }

  predicate Starts(s: Limiter, ip: string) {
    s.limits.enabled && ip !in s.buckets
  }

  // ---- The checks of one address ----------------------------------------

  function Own(s: Limiter, events: seq<Event>, ip: string): seq<Check> {
    if events == [] then []
    else
      var before, e := events[..|events| - 1], events[|events| - 1];
      Own(s, before, ip) + if IsAsk(e, ip) then [Check(e.now, LowTraffic(Serve(s, before), e))] else []
  }

  lemma OwnStep(s: Limiter, events: seq<Event>, ip: string, i: nat)
    requires i < |events|
    ensures var e, at := events[i], Serve(s, events[..i]);
      && Serve(s, events[..i + 1]) == Handle(at, e)
      && Own(s, events[..i + 1], ip) ==
         Own(s, events[..i], ip) + (if IsAsk(e, ip) then [Check(e.now, LowTraffic(at, e))] else [])
      && PassedOf(s, events[..i + 1], ip) ==
         PassedOf(s, events[..i], ip) + if IsAsk(e, ip) && Answer(at, e).status == 0 then 1 else 0
  {
    assert events[..i + 1][..i] == events[..i];
  }

  function Born(s: Limiter, checks: seq<Check>): Bucket {
    New(s.limits, if checks == [] then 0.0 else checks[0].now)
  }

  // An address's bucket is the one its own checks produce, and its passes are counted there.
  lemma {:induction false} OwnBucket(s: Limiter, events: seq<Event>, ip: string, i: nat)
    requires Starts(s, ip) && i <= |events|
    ensures var own, at := Own(s, events[..i], ip), Serve(s, events[..i]);
      && at.limits == s.limits
      && (ip in at.buckets <==> own != [])
      && (own != [] ==> at.buckets[ip] == Run(Born(s, own), own))
      && PassedOf(s, events[..i], ip) == Passed(Born(s, own), own)
  {
    if i > 0 {
      OwnBucket(s, events, ip, i - 1);
      OwnStep(s, events, ip, i - 1);
      var before, e, at := Own(s, events[..i - 1], ip), events[i - 1], Serve(s, events[..i - 1]);
      OthersKeep(at, e, ip);
      if IsAsk(e, ip) {
        OneMore(s, at, before, e);
      } else {
        assert before + [] == before;
      }
      hide Own, Serve, Handle, PassedOf, Passed, Run, Answer, LowTraffic;
    }
  }

  lemma OthersKeep(at: Limiter, e: Event, ip: string)
    ensures var next := Handle(at, e);
      && next.limits == at.limits
      && (at.limits.enabled && IsAsk(e, ip) ==> ip in next.buckets)
      && (!IsAsk(e, ip) ==>
            (ip in next.buckets <==> ip in at.buckets) && (ip in at.buckets ==> next.buckets[ip] == at.buckets[ip]))
  {
    hide Step, Lookup;
  }

  lemma OneMore(s: Limiter, at: Limiter, before: seq<Check>, e: Event)
    requires e.Ask? && s.limits.enabled && at.limits == s.limits && (e.ip in at.buckets <==> before != [])
    requires before != [] ==> at.buckets[e.ip] == Run(Born(s, before), before)
    ensures var c := Check(e.now, LowTraffic(at, e));
      var own := before + [c];
      && Handle(at, e).buckets[e.ip] == Run(Born(s, own), own)
      && Passed(Born(s, own), own) == Passed(Born(s, before), before) + if Answer(at, e).status == 0 then 1 else 0
  {
    var c := Check(e.now, LowTraffic(at, e));
    var own := before + [c];
    assert own[..|before|] == before;
    assert c == CheckOf(at, e);
    assert Born(s, own) == Lookup(map[], e.ip, s.limits, own[0].now);
    assert before == [] ==> Passed(Born(s, before), before) == 0 && Run(Born(s, own), []) == Born(s, own);
    hide Step, Refilled, New;
  }

  // The a-th event asked for the check.
  predicate Asked(s: Limiter, events: seq<Event>, ip: string, c: Check, a: nat) {
    a < |events| && IsAsk(events[a], ip) && c == Check(events[a].now, LowTraffic(Serve(s, events[..a]), events[a]))
  }

  ghost predicate AskedBetween(s: Limiter, events: seq<Event>, ip: string, c: Check, n: nat, i: nat) {
    exists a: nat :: n <= a < i && Asked(s, events, ip, c, a)
  }

  // Each check after the first n events was asked for by one of the later events.
  lemma {:induction false} OwnIndex(s: Limiter, events: seq<Event>, ip: string, n: nat, i: nat)
    requires n <= i <= |events|
    ensures var before, own := Own(s, events[..n], ip), Own(s, events[..i], ip);
      && |before| <= |own| && own[..|before|] == before
      && forall m :: |before| <= m < |own| ==> AskedBetween(s, events, ip, own[m], n, i)
    decreases i
  {
    if n < i {
      OwnIndex(s, events, ip, n, i - 1);
      OwnStep(s, events, ip, i - 1);
      var before, mid, own := Own(s, events[..n], ip), Own(s, events[..i - 1], ip), Own(s, events[..i], ip);
      hide Own, Serve, LowTraffic;
      assert IsAsk(events[i - 1], ip) ==> Asked(s, events, ip, own[|own| - 1], i - 1);
      hide Asked, IsAsk;
      assert own[..|before|] == mid[..|before|];
      forall m | |before| <= m < |own| ensures AskedBetween(s, events, ip, own[m], n, i) {
        if m < |mid| {
          assert own[m] == mid[m];
        }
      }
    }
  }

  lemma {:induction false} OwnTimely(s: Limiter, start: real, events: seq<Event>, ip: string, i: nat)
    requires InOrder(start, events) && i <= |events|
    ensures Timely(start, Own(s, events[..i], ip))
  {
    if i > 0 {
      OwnTimely(s, start, events, ip, i - 1);
      OwnIndex(s, events, ip, 0, i - 1);
      OwnStep(s, events, ip, i - 1);
      assert events[..0] == [];
      hide Own, Serve, LowTraffic;
    }
  }

  // ---- Windows ----------------------------------------------------------

  function WindowLimit(limits: Limits, low: bool, elapsed: real): real {
    var burst, rps := limits.burst as real, limits.requestsPerSecond as real;
    if low then (burst + 5.0) + (rps + 2.0) * elapsed else burst + rps * elapsed
  }

  // MAIN RESULT. In a window of time T in which the traffic is never below half of a positive
  // baseline, or in an engine that does not adapt, at most Burst + RPS * T requests of an address
  // pass, whatever else is asked and however the baseline moves; in any window at most
  // (Burst + 5) + (RPS + 2) * T.
  lemma AdaptiveWindowBound(s: Limiter, start: real, events: seq<Event>, ip: string, k: nat, j: nat, low: bool)
    requires Starts(s, ip) && InOrder(start, events)
    requires k <= j < |events| && IsAsk(events[k], ip) && IsAsk(events[j], ip)
    requires forall i :: k <= i <= j && IsAsk(events[i], ip) && LowTraffic(Serve(s, events[..i]), events[i]) ==> low
    ensures var passed := PassedOf(s, events[..j + 1], ip) - PassedOf(s, events[..k], ip);
      passed as real <= WindowLimit(s.limits, low, events[j].now - events[k].now)
  {
    hide Own, Serve, LowTraffic, PassedOf, Passed, Run, InOrder, Timely, Sound, Starts, PassLimit, WindowLimit, Born;
    var before, own := Own(s, events[..k], ip), Own(s, events[..j + 1], ip);
    WindowOfOwn(s, start, events, ip, k, j, low);
    WindowPasses(s, events, ip, k, j);
    BornSound(s, own);
    LimitIs(s, own, low, events[j].now - events[k].now);
    assert own[..|own| - 1 + 1] == own;
    PassWindowBound(Born(s, own), own, own[0].now, |before|, |own| - 1, low);
  }

  lemma BornSound(s: Limiter, checks: seq<Check>)
    ensures checks != [] && checks[0].now >= ZERO_TIME ==> Sound(Born(s, checks), checks[0].now)
  {}

  lemma LimitIs(s: Limiter, checks: seq<Check>, low: bool, elapsed: real)
    ensures PassLimit(Born(s, checks), low, elapsed) == WindowLimit(s.limits, low, elapsed)
  {}

  // The window's first and last check of the address.
  lemma WindowOfOwn(s: Limiter, start: real, events: seq<Event>, ip: string, k: nat, j: nat, low: bool)
    requires InOrder(start, events)
    requires k <= j < |events| && IsAsk(events[k], ip) && IsAsk(events[j], ip)
    requires forall i :: k <= i <= j && IsAsk(events[i], ip) && LowTraffic(Serve(s, events[..i]), events[i]) ==> low
    ensures var before, own := Own(s, events[..k], ip), Own(s, events[..j + 1], ip);
      && |before| < |own|
      && own[|before|].now == events[k].now
      && own[|own| - 1].now == events[j].now
      && ZERO_TIME <= own[0].now
      && Timely(own[0].now, own)
      && forall i :: |before| <= i < |own| && own[i].lenient ==> low
  {
    hide Own, Serve, LowTraffic, AskedBetween;
    OwnEnds(s, events, ip, k, j);
    OwnTimely(s, start, events, ip, j + 1);
    OwnIndex(s, events, ip, k, j + 1);
    var own := Own(s, events[..j + 1], ip);
    forall i | |Own(s, events[..k], ip)| <= i < |own| && own[i].lenient ensures low {
      LowCheckAsked(s, events, ip, own[i], k, j);
    }
    hide InOrder;
  }

  lemma LowCheckAsked(s: Limiter, events: seq<Event>, ip: string, c: Check, k: nat, j: nat)
    requires AskedBetween(s, events, ip, c, k, j + 1) && c.lenient
    ensures exists i :: k <= i <= j && i < |events| && IsAsk(events[i], ip) &&
                        LowTraffic(Serve(s, events[..i]), events[i])
  {
    hide Serve, LowTraffic;
  }

  lemma OwnEnds(s: Limiter, events: seq<Event>, ip: string, k: nat, j: nat)
    requires k <= j < |events| && IsAsk(events[k], ip) && IsAsk(events[j], ip)
    ensures var before, own := Own(s, events[..k], ip), Own(s, events[..j + 1], ip);
      && |before| < |own|
      && own[|before|].now == events[k].now
      && own[|own| - 1].now == events[j].now
  {
    OwnStep(s, events, ip, k);
    OwnStep(s, events, ip, j);
    OwnIndex(s, events, ip, k + 1, j + 1);
    hide Own, Serve, LowTraffic;
    var first, own := Own(s, events[..k + 1], ip), Own(s, events[..j + 1], ip);
    assert own[|first| - 1] == own[..|first|][|first| - 1];
  }

  lemma WindowPasses(s: Limiter, events: seq<Event>, ip: string, k: nat, j: nat)
    requires Starts(s, ip) && k <= j < |events|
    ensures var before, own := Own(s, events[..k], ip), Own(s, events[..j + 1], ip);
      && |before| <= |own|
      && PassedOf(s, events[..k], ip) == Passed(Born(s, own), own[..|before|])
      && PassedOf(s, events[..j + 1], ip) == Passed(Born(s, own), own)
  {
    OwnBucket(s, events, ip, k);
    OwnBucket(s, events, ip, j + 1);
    OwnIndex(s, events, ip, k, j + 1);
    hide Own, Serve, LowTraffic, PassedOf, Run;
  }

  // An engine whose limit is off lets every request pass and keeps no buckets for it.
  lemma {:induction false} DisabledPassesAll(s: Limiter, events: seq<Event>)
    requires !s.limits.enabled
    ensures var at := Serve(s, events);
      at.buckets == s.buckets && at.limits == s.limits && forall e: Event :: e.Ask? ==> Answer(at, e) == Reply(0, 0)
  {
    if events != [] {
      DisabledPassesAll(s, events[..|events| - 1]);
    }
  }

  // ---- The extra five ---------------------------------------------------

  // What the request finds in its bucket.
  function LevelMet(s: Limiter, e: Event): real
    requires e.Ask? && s.limits.enabled
  {
    Handle(s, e).buckets[e.ip].tokens + if Answer(s, e).status == 0 then 1.0 else 0.0
  }

  predicate OutOfBox(s: Limiter, ip: string, now: real)
    requires ip in s.buckets
  {
    now >= s.buckets[ip].lastRefill && now >= s.buckets[ip].penaltyUntil
  }

  function Inflow(b: Bucket, rate: real, now: real): real {
    (now - b.lastRefill) * rate
  }

  function Lesser(x: real, y: real): real {
    if x < y then x else y
  }

  lemma LevelIs(s: Limiter, e: Event)
    requires s.limits.enabled && e.Ask? && e.ip in s.buckets && LivedUnder(s.buckets[e.ip], s.limits)
    requires OutOfBox(s, e.ip, e.now)
    ensures var b := s.buckets[e.ip];
      var burst, rps := s.limits.burst as real, s.limits.requestsPerSecond as real;
      LevelMet(s, e) == if LowTraffic(s, e) then Lesser(burst + 5.0, b.tokens + Inflow(b, rps + 2.0, e.now))
                        else Lesser(burst, b.tokens + Inflow(b, rps, e.now))
  {
    var b, c := s.buckets[e.ip], CheckOf(s, e);
    assert c.lenient == LowTraffic(s, e);
    assert Accrual(b, c) == Inflow(b, RefillRate(b, c.lenient), c.now);
    assert Lookup(s.buckets, e.ip, s.limits, e.now) == b;
    hide Accrual, Inflow, CheckOf, LowTraffic, Lookup;
    assert LevelMet(s, e) == Refilled(b, c);
  }

  lemma FillsUp(b: Bucket, limits: Limits, now: real)
    requires LivedUnder(b, limits) && now == b.lastRefill + PENALTY + limits.burst as real + 5.0
    ensures b.tokens + Inflow(b, limits.requestsPerSecond as real + 2.0, now) >= limits.burst as real + 5.0
    ensures now >= b.penaltyUntil
  {
    Scale(now - b.lastRefill, 1.0, limits.requestsPerSecond as real + 2.0);
  }

  // MAIN RESULT. The level that a request outside the box draws on is what has flowed in since the
  // last one, up to a ceiling; rate and ceiling are 2 and 5 higher exactly in low traffic, and then
  // requests do find Burst + 5.
  lemma RoomForFiveIff(s: Limiter, ip: string, globalRPS: int)
    requires s.limits.enabled && ip in s.buckets && LivedUnder(s.buckets[ip], s.limits)
    ensures var b, low := s.buckets[ip], LowTraffic(s, Ask(ip, 0.0, globalRPS));
      var burst, rps := s.limits.burst as real, s.limits.requestsPerSecond as real;
      && (forall now :: OutOfBox(s, ip, now) ==>
            LevelMet(s, Ask(ip, now, globalRPS)) ==
              if low then Lesser(burst + 5.0, b.tokens + Inflow(b, rps + 2.0, now))
              else Lesser(burst, b.tokens + Inflow(b, rps, now)))
      && (low <==> exists now :: OutOfBox(s, ip, now) && LevelMet(s, Ask(ip, now, globalRPS)) == burst + 5.0)
  {
    var b := s.buckets[ip];
    var full := b.lastRefill + PENALTY + s.limits.burst as real + 5.0;
    FillsUp(b, s.limits, full);
    assert OutOfBox(s, ip, full);
    hide Inflow, LevelMet, OutOfBox;
    forall now | OutOfBox(s, ip, now)
      ensures var burst, rps := s.limits.burst as real, s.limits.requestsPerSecond as real;
        LevelMet(s, Ask(ip, now, globalRPS)) ==
          if LowTraffic(s, Ask(ip, 0.0, globalRPS)) then Lesser(burst + 5.0, b.tokens + Inflow(b, rps + 2.0, now))
          else Lesser(burst, b.tokens + Inflow(b, rps, now))
    {
      LevelIs(s, Ask(ip, now, globalRPS));
    }
  }

  function Again(n: nat, e: Event): (events: seq<Event>)
    ensures |events| == n && forall x :: x in events ==> x == e
  {
    seq(n, _ => e)
  }

  // One call, and n more at a later instant.
  function Burst(n: nat, ip: string, later: real, globalRPS: int): seq<Event> {
    [Ask(ip, 0.0, globalRPS)] + Again(n, Ask(ip, later, globalRPS))
  }

  lemma {:induction false} OwnOfBurst(s: Limiter, n: nat, ip: string, later: real, globalRPS: int)
    ensures var events, low := Burst(n, ip, later, globalRPS), LowTraffic(s, Ask(ip, 0.0, globalRPS));
      && Own(s, events, ip) == [Check(0.0, low)] + Hits(n, Check(later, low))
      && var at := Serve(s, events); at.limits == s.limits && at.avgRPS == s.avgRPS
  {
    var events, low := Burst(n, ip, later, globalRPS), LowTraffic(s, Ask(ip, 0.0, globalRPS));
    OwnStep(s, events, ip, n);
    assert events[..n + 1] == events;
    if n == 0 {
      assert events[..0] == [];
    } else {
      assert events[..n] == Burst(n - 1, ip, later, globalRPS);
      OwnOfBurst(s, n - 1, ip, later, globalRPS);
      assert Hits(n, Check(later, low)) == Hits(n - 1, Check(later, low)) + [Check(later, low)];
      hide Own, Serve, LowTraffic, Hits;
    }
  }

  // A bucket that has filled up in low traffic lets Burst + 5 requests pass at one instant.
  lemma FilledPasses(limits: Limits, later: real)
    requires later == PENALTY + limits.burst as real + 5.0
    ensures var b, checks := New(limits, 0.0), [Check(0.0, true)] + Hits(limits.burst + 5, Check(later, true));
      Passed(b, checks) == Passed(b, checks[..1]) + limits.burst + 5
  {
    var n, c := limits.burst + 5, Check(later, true);
    var b, first := New(limits, 0.0), Check(0.0, true);
    var checks := [first] + Hits(n, c);
    var x := Step(b, first);
    assert Accrual(b, first) == 0.0;
    FillsUp(x, limits, later);
    assert Refilled(x, c) == limits.burst as real + 5.0 by {
      assert Accrual(x, c) == Inflow(x, limits.requestsPerSecond as real + 2.0, later);
    }
    hide Refilled, Accrual, Inflow, FullAt;
    Hammered(x, limits.burst as real + 5.0, n, c);
    FirstThenRest(b, checks);
    assert checks[..1] == [first] && checks[1..] == Hits(n, c);
    assert Run(b, [first]) == x by { assert [first][..0] == []; }
    ViolationsCountRefusals(b, checks);
    ViolationsCountRefusals(b, [first]);
  }

  // MAIN RESULT. The bound without the extra five fails in low traffic: some run lets Burst + 5
  // requests of an address pass at one instant.
  lemma FiveMorePass(limits: Limits, avgRPS: real, globalRPS: int, ip: string)
    requires limits.enabled && LowTraffic(Limiter(limits, avgRPS, map[]), Ask(ip, 0.0, globalRPS))
    ensures var later := PENALTY + limits.burst as real + 5.0;
      var s, events := Limiter(limits, avgRPS, map[]), Burst(limits.burst + 5, ip, later, globalRPS);
      && InOrder(0.0, events)
      && PassedOf(s, events, ip) - PassedOf(s, events[..1], ip) == limits.burst + 5
  {
    var later, n := PENALTY + limits.burst as real + 5.0, limits.burst + 5;
    var s, checks := Limiter(limits, avgRPS, map[]), [Check(0.0, true)] + Hits(n, Check(later, true));
    FilledPasses(limits, later);
    BurstPasses(s, n, ip, later, globalRPS);
    BurstPasses(s, 0, ip, later, globalRPS);
    BurstInOrder(n, ip, later, globalRPS);
    assert Burst(n, ip, later, globalRPS)[..1] == Burst(0, ip, later, globalRPS);
    assert checks[..1] == [Check(0.0, true)] + Hits(0, Check(later, true));
    hide PassedOf, Passed, New, Hits, LowTraffic, InOrder;
  }

  lemma BurstInOrder(n: nat, ip: string, later: real, globalRPS: int)
    ensures later >= 0.0 ==> InOrder(0.0, Burst(n, ip, later, globalRPS))
  {}

  lemma BurstPasses(s: Limiter, n: nat, ip: string, later: real, globalRPS: int)
    requires Starts(s, ip) && LowTraffic(s, Ask(ip, 0.0, globalRPS))
    ensures var events := Burst(n, ip, later, globalRPS);
      PassedOf(s, events, ip) == Passed(New(s.limits, 0.0), [Check(0.0, true)] + Hits(n, Check(later, true)))
  {
    var events := Burst(n, ip, later, globalRPS);
    hide Own, Serve, LowTraffic, PassedOf, Passed, Run, Hits, New, Again;
    assert events[..n + 1] == events;
    OwnOfBurst(s, n, ip, later, globalRPS);
    OwnBucket(s, events, ip, n + 1);
  }
}
