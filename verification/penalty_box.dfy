// The adaptive per-IP limiter with a penalty box of detection/detection.go.
module PenaltyBoxes {
  import opened Meters

  // protection.rate_limit of the configuration.
  datatype Limits = Limits(enabled: bool, burst: nat, requestsPerSecond: nat, adaptive: bool)

  datatype Bucket = Bucket(
    tokens: real, maxTokens: real, refillRate: real, lastRefill: real, penaltyUntil: real, violations: nat)

  // status: 0 = pass, 1 = rate limited, 2 = ban required; wait is in seconds.
  datatype Reply = Reply(status: int, wait: int)

  // One request of the address; lenient is decided by the traffic baseline.
  datatype Check = Check(now: real, lenient: bool)

  const PENALTY: real := 10.0
  const BOX_LIMIT: nat := 50
  const BREACH_LIMIT: nat := 3
  const IDLE: real := 300.0

  // time.Time{}: before every clock reading.
  const ZERO_TIME: real := 0.0

  function Ceil(x: real): int {
    if x.Floor as real == x then x.Floor else x.Floor + 1
  }

  function New(limits: Limits, now: real): Bucket {
    Bucket(limits.burst as real, limits.burst as real, limits.requestsPerSecond as real, now, ZERO_TIME, 0)
  }

  predicate InBox(b: Bucket, now: real) {
    now < b.penaltyUntil
  }

  function MaxTokens(b: Bucket, lenient: bool): real {
    if lenient then b.maxTokens + 5.0 else b.maxTokens
  }

  function RefillRate(b: Bucket, lenient: bool): real {
    if lenient then b.refillRate + 2.0 else b.refillRate
  }

  function Accrual(b: Bucket, c: Check): real {
    (c.now - b.lastRefill) * RefillRate(b, c.lenient)
  }

  function Refilled(b: Bucket, c: Check): real {
    var t := b.tokens + Accrual(b, c);
    if t > MaxTokens(b, c.lenient) then MaxTokens(b, c.lenient) else t
  }

  predicate Passes(b: Bucket, c: Check) {
    !InBox(b, c.now) && Refilled(b, c) >= 1.0
  }

  // The request that puts the address into the box.
  predicate Breaches(b: Bucket, c: Check) {
    !InBox(b, c.now) && Refilled(b, c) < 1.0
  }

  function Step(b: Bucket, c: Check): Bucket {
    if InBox(b, c.now) then b.(violations := b.violations + 1)
    else
      var t := Refilled(b, c);
      if t >= 1.0 then b.(tokens := t - 1.0, lastRefill := c.now)
      else b.(tokens := t, lastRefill := c.now, penaltyUntil := c.now + PENALTY, violations := b.violations + 1)
  }

  function Respond(b: Bucket, c: Check): Reply {
    if InBox(b, c.now) then
      var remaining := Ceil(b.penaltyUntil - c.now);
      var wait := if remaining < 1 then 1 else remaining;
      Reply(if b.violations + 1 > BOX_LIMIT then 2 else 1, wait)
    else if Refilled(b, c) >= 1.0 then Reply(0, 0)
    else Reply(if b.violations + 1 > BREACH_LIMIT then 2 else 1, PENALTY.Floor)
  }

  // ---- Runs -------------------------------------------------------------

  function Run(b: Bucket, checks: seq<Check>): Bucket {
    if checks == [] then b else Step(Run(b, checks[..|checks| - 1]), checks[|checks| - 1])
  }

  // The clock never goes back.
  predicate Timely(start: real, checks: seq<Check>) {
    && (forall i :: 0 <= i < |checks| ==> checks[i].now >= start)
    && (forall i, j :: 0 <= i < j < |checks| ==> checks[i].now <= checks[j].now)
  }

  function PassCount(b: Bucket, c: Check): nat {
    if Passes(b, c) then 1 else 0
  }

  function Passed(b: Bucket, checks: seq<Check>): (n: nat)
    ensures n <= |checks|
  {
    if checks == [] then 0
    else
      var before := checks[..|checks| - 1];
      Passed(b, before) + PassCount(Run(b, before), checks[|checks| - 1])
  }

  function Refused(b: Bucket, checks: seq<Check>): nat {
    |checks| - Passed(b, checks)
  }

  ghost predicate Sound(b: Bucket, clock: real) {
    && 0.0 <= b.tokens <= b.maxTokens + 5.0
    && 0.0 <= b.maxTokens && 0.0 <= b.refillRate
    && b.lastRefill <= clock
    && b.penaltyUntil <= b.lastRefill + PENALTY
  }

  lemma AccrualBounds(b: Bucket, c: Check)
    requires b.refillRate >= 0.0 && c.now >= b.lastRefill
    ensures 0.0 <= Accrual(b, c) <= (c.now - b.lastRefill) * (b.refillRate + 2.0)
  {
    var d := c.now - b.lastRefill;
    Scale(d, 0.0, RefillRate(b, c.lenient));
    Scale(d, RefillRate(b, c.lenient), b.refillRate + 2.0);
  }

  lemma StepKeepsSound(b: Bucket, c: Check, clock: real)
    requires Sound(b, clock) && c.now >= clock
    ensures Sound(Step(b, c), c.now)
    ensures Step(b, c).maxTokens == b.maxTokens && Step(b, c).refillRate == b.refillRate
  {
    AccrualBounds(b, c);
  }

  lemma RunStep(b: Bucket, checks: seq<Check>, k: nat)
    requires k < |checks|
    ensures Run(b, checks[..k + 1]) == Step(Run(b, checks[..k]), checks[k])
    ensures Passed(b, checks[..k + 1]) == Passed(b, checks[..k]) + PassCount(Run(b, checks[..k]), checks[k])
  {
    assert checks[..k + 1][..k] == checks[..k];
  }

  lemma {:induction false} RunKeepsSound(b: Bucket, checks: seq<Check>, start: real, k: nat)
    requires Sound(b, start) && Timely(start, checks) && k <= |checks|
    ensures Sound(Run(b, checks[..k]), if k == 0 then start else checks[k - 1].now)
    ensures Run(b, checks[..k]).maxTokens == b.maxTokens && Run(b, checks[..k]).refillRate == b.refillRate
    decreases k
  {
    if k > 0 {
      RunKeepsSound(b, checks, start, k - 1);
      RunStep(b, checks, k - 1);
      StepKeepsSound(Run(b, checks[..k - 1]), checks[k - 1], if k == 1 then start else checks[k - 2].now);
    }
  }

  lemma NewIsSound(limits: Limits, now: real)
    requires now >= ZERO_TIME
    ensures Sound(New(limits, now), now)
  {}

  // ---- Grants in a window -----------------------------------------------

  // One request pays for its own pass out of level and refill.
  lemma OnePass(s: Bucket, c: Check)
    ensures InBox(s, c.now) ==> PassCount(s, c) == 0 && Step(s, c).(violations := s.violations) == s
    ensures !InBox(s, c.now) ==>
      && Step(s, c).lastRefill == c.now
      && PassCount(s, c) as real + Step(s, c).tokens <= s.tokens + Accrual(s, c)
      && PassCount(s, c) as real + Step(s, c).tokens <= MaxTokens(s, c.lenient)
  {}

  // No request from k to j is lenient, unless `lenient` admits such requests.
  predicate Within(checks: seq<Check>, k: nat, j: nat, lenient: bool) {
    forall i :: k <= i <= j && i < |checks| && checks[i].lenient ==> lenient
  }

  // A meter bounds what can have been refilled by any moment; keeping it
  // abstract keeps products of rates and times out of the induction below.
  ghost predicate Metered(b: Bucket, checks: seq<Check>, k: nat, j: nat, meter: real -> real) {
    forall i :: k <= i <= j && i < |checks| ==>
      Accrual(Run(b, checks[..i]), checks[i]) <= meter(checks[i].now) - meter(Run(b, checks[..i]).lastRefill)
  }

  lemma MeteredAt(b: Bucket, checks: seq<Check>, k: nat, j: nat, meter: real -> real, i: nat)
    requires Metered(b, checks, k, j, meter) && k <= i <= j && i < |checks|
    ensures Accrual(Run(b, checks[..i]), checks[i]) <= meter(checks[i].now) - meter(Run(b, checks[..i]).lastRefill)
  {}

  lemma RoomOf(s: Bucket, b: Bucket, checks: seq<Check>, k: nat, j: nat, lenient: bool, i: nat)
    requires Within(checks, k, j, lenient) && k <= i <= j && i < |checks|
    requires s.maxTokens == b.maxTokens && s.refillRate == b.refillRate
    ensures MaxTokens(s, checks[i].lenient) <= MaxTokens(b, lenient)
    ensures RefillRate(s, checks[i].lenient) <= RefillRate(b, lenient)
  {}

  // From a request k outside the box on, passes are paid for by the level
  // after k and the refill since k.
  lemma {:induction false} PassesPaidFor(
    b: Bucket, checks: seq<Check>, start: real, k: nat, j: nat, lenient: bool, meter: real -> real)
    requires Sound(b, start) && Timely(start, checks)
    requires Metered(b, checks, k, j, meter) && Within(checks, k, j, lenient)
    requires k <= j < |checks| && !InBox(Run(b, checks[..k]), checks[k].now)
    ensures Passed(b, checks[..j + 1]) as real - Passed(b, checks[..k]) as real + Run(b, checks[..j + 1]).tokens
            <= MaxTokens(b, lenient) + meter(Run(b, checks[..j + 1]).lastRefill) - meter(checks[k].now)
    decreases j
  {
    hide *;
    RunKeepsSound(b, checks, start, j);
    RunStep(b, checks, j);
    OnePass(Run(b, checks[..j]), checks[j]);
    RoomOf(Run(b, checks[..j]), b, checks, k, j, lenient, j);
    if j > k {
      MeteredAt(b, checks, k, j, meter, j);
      WindowShrinks(b, checks, k, j, lenient, meter);
      PassesPaidFor(b, checks, start, k, j - 1, lenient, meter);
    }
  }

  lemma WindowShrinks(b: Bucket, checks: seq<Check>, k: nat, j: nat, lenient: bool, meter: real -> real)
    ensures Metered(b, checks, k, j, meter) && j > 0 ==> Metered(b, checks, k, j - 1, meter)
    ensures Within(checks, k, j, lenient) ==>
      Within(checks, k + 1, j, lenient) && (j > 0 ==> Within(checks, k, j - 1, lenient))
  {
    hide Run, Accrual;
  }

  lemma LineMeters(s: Bucket, c: Check, top: real)
    requires s.refillRate >= 0.0 && c.now >= s.lastRefill && RefillRate(s, c.lenient) <= top
    ensures Accrual(s, c) <= Line(top)(c.now) - Line(top)(s.lastRefill)
  {
    Scale(c.now - s.lastRefill, RefillRate(s, c.lenient), top);
    LineDifference(top, s.lastRefill, c.now);
  }

  lemma RunIsMetered(b: Bucket, checks: seq<Check>, start: real, k: nat, j: nat, lenient: bool)
    requires Sound(b, start) && Timely(start, checks) && Within(checks, k, j, lenient)
    ensures Metered(b, checks, k, j, Line(RefillRate(b, lenient)))
  {
    var top := RefillRate(b, lenient);
    forall i | k <= i <= j && i < |checks|
      ensures Accrual(Run(b, checks[..i]), checks[i])
              <= Line(top)(checks[i].now) - Line(top)(Run(b, checks[..i]).lastRefill)
    {
      hide Run, Accrual, Line;
      RunKeepsSound(b, checks, start, i);
      RoomOf(Run(b, checks[..i]), b, checks, k, j, lenient, i);
      LineMeters(Run(b, checks[..i]), checks[i], top);
    }
  }

  lemma AfterRequest(b: Bucket, checks: seq<Check>, start: real, j: nat, lenient: bool)
    requires Sound(b, start) && Timely(start, checks) && j < |checks|
    ensures Run(b, checks[..j + 1]).tokens >= 0.0 && Run(b, checks[..j + 1]).lastRefill <= checks[j].now
    ensures RefillRate(b, lenient) >= 0.0
  {
    RunKeepsSound(b, checks, start, j + 1);
  }

  lemma WindowWithinMeter(b: Bucket, checks: seq<Check>, start: real, k: nat, j: nat, lenient: bool)
    requires Sound(b, start) && Timely(start, checks) && k <= j < |checks| && Within(checks, k, j, lenient)
    requires !InBox(Run(b, checks[..k]), checks[k].now)
    ensures Passed(b, checks[..j + 1]) as real - Passed(b, checks[..k]) as real
            <= PassLimit(b, lenient, checks[j].now - checks[k].now)
  {
    hide *;
    var top := RefillRate(b, lenient);
    AfterRequest(b, checks, start, j, lenient);
    RunIsMetered(b, checks, start, k, j, lenient);
    PassesPaidFor(b, checks, start, k, j, lenient, Line(top));
    LineGrows(top, Run(b, checks[..j + 1]).lastRefill, checks[j].now);
    LimitOnLine(b, lenient, checks[k].now, checks[j].now);
  }

  // MAIN RESULT. Between requests k and j of one bucket's life at most
  // (Burst + 5) + (RPS + 2) * T requests pass, T being the time between them,
  // and at most Burst + RPS * T if none of them is lenient. Requests inside the
  // box only move the window's start forward.
  lemma {:induction false} PassWindowBound(
    b: Bucket, checks: seq<Check>, start: real, k: nat, j: nat, lenient: bool)
    requires Sound(b, start) && Timely(start, checks) && k <= j < |checks|
    requires forall i :: k <= i <= j && checks[i].lenient ==> lenient
    ensures Passed(b, checks[..j + 1]) as real - Passed(b, checks[..k]) as real
            <= PassLimit(b, lenient, checks[j].now - checks[k].now)
    decreases j - k
  {
    assert Within(checks, k, j, lenient);
    assert k < j ==> checks[k].now <= checks[k + 1].now;
    hide *;
    if InBox(Run(b, checks[..k]), checks[k].now) {
      RunStep(b, checks, k);
      OnePass(Run(b, checks[..k]), checks[k]);
      LimitGrows(b, lenient, start);
      if k < j {
        LimitOnLine(b, lenient, checks[k].now, checks[j].now);
        LimitOnLine(b, lenient, checks[k + 1].now, checks[j].now);
        LineGrows(RefillRate(b, lenient), checks[k].now, checks[k + 1].now);
        PassWindowBound(b, checks, start, k + 1, j, lenient);
      }
    } else {
      WindowWithinMeter(b, checks, start, k, j, lenient);
    }
  }

  function PassLimit(b: Bucket, lenient: bool, elapsed: real): real {
    if lenient then (b.maxTokens + 5.0) + (b.refillRate + 2.0) * elapsed else b.maxTokens + b.refillRate * elapsed
  }

  lemma LimitOnLine(b: Bucket, lenient: bool, x: real, y: real)
    ensures var top := RefillRate(b, lenient);
      PassLimit(b, lenient, y - x) == MaxTokens(b, lenient) + Line(top)(y) - Line(top)(x)
  {
    LineDifference(RefillRate(b, lenient), x, y);
  }

  lemma LimitGrows(b: Bucket, lenient: bool, start: real)
    requires Sound(b, start)
    ensures RefillRate(b, lenient) >= 0.0 && PassLimit(b, lenient, 0.0) >= 0.0
  {}

  // ---- The box ----------------------------------------------------------

  // Once in the box at k, the box is closed until its time is up.
  lemma {:induction false} BoxStaysClosed(b: Bucket, checks: seq<Check>, start: real, k: nat, j: nat)
    requires Timely(start, checks) && k < j < |checks|
    requires InBox(Run(b, checks[..k + 1]), checks[j].now)
    ensures Run(b, checks[..j]).penaltyUntil == Run(b, checks[..k + 1]).penaltyUntil
    decreases j
  {
    if k + 1 < j {
      BoxStaysClosed(b, checks, start, k, j - 1);
      RunStep(b, checks, j - 1);
    }
  }

  // MAIN RESULT. In the 10 seconds after a breach nothing passes and no
  // further breach is counted, so breaches are at least 10 seconds apart.
  lemma BreachClosesBox(b: Bucket, checks: seq<Check>, start: real, k: nat, j: nat)
    requires Timely(start, checks) && k < j < |checks|
    requires Breaches(Run(b, checks[..k]), checks[k])
    requires checks[j].now < checks[k].now + PENALTY
    ensures !Passes(Run(b, checks[..j]), checks[j]) && !Breaches(Run(b, checks[..j]), checks[j])
    ensures Respond(Run(b, checks[..j]), checks[j]).status != 0
  {
    RunStep(b, checks, k);
    BoxStaysClosed(b, checks, start, k, j);
  }

  // MAIN RESULT. A refusal reports a wait of 1 to 10 seconds, and it is the
  // least whole number of seconds after which the box is open.
  lemma WaitIsLeast(b: Bucket, checks: seq<Check>, start: real, j: nat)
    requires Sound(b, start) && Timely(start, checks) && j < |checks|
    ensures var r := Respond(Run(b, checks[..j]), checks[j]);
      var after := Run(b, checks[..j + 1]);
      if r.status == 0 then r.wait == 0
      else
        && 1 <= r.wait <= 10
        && !InBox(after, checks[j].now + r.wait as real)
        && InBox(after, checks[j].now + (r.wait - 1) as real)
  {
    RunKeepsSound(b, checks, start, j);
    RunStep(b, checks, j);
  }

  // Violations count the refusals of this bucket's life.
  lemma {:induction false} ViolationsCountRefusals(b: Bucket, checks: seq<Check>)
    requires b.violations == 0
    ensures Run(b, checks).violations == Refused(b, checks)
  {
    if checks != [] {
      ViolationsCountRefusals(b, checks[..|checks| - 1]);
    }
  }

  // MAIN RESULT. Exactly when a refusal asks for a ban: a breach that is at
  // least the fourth refusal, or a request inside the box that is at least
  // the fifty-first.
  lemma BanRequiredIff(b: Bucket, checks: seq<Check>, j: nat)
    requires b.violations == 0 && j < |checks|
    ensures var s := Run(b, checks[..j]);
      Respond(s, checks[j]).status == 2 <==>
        !Passes(s, checks[j]) &&
        Refused(b, checks[..j + 1]) > if InBox(s, checks[j].now) then 50 else 3
  {
    ViolationsCountRefusals(b, checks[..j]);
    RunStep(b, checks, j);
  }

  // ---- The sweep --------------------------------------------------------

  predicate Idle(b: Bucket, now: real) {
    now - b.lastRefill > IDLE
  }

  // MAIN RESULT. The sweep never frees an address from an active penalty.
  lemma SweepSparesTheBox(b: Bucket, checks: seq<Check>, start: real, now: real)
    requires Sound(b, start) && Timely(start, checks)
    requires Idle(Run(b, checks), now)
    ensures !InBox(Run(b, checks), now)
  {
    RunKeepsSound(b, checks, start, |checks|);
    assert checks[..|checks|] == checks;
  }

  function Replies(b: Bucket, checks: seq<Check>): seq<Reply> {
    if checks == [] then []
    else
      var before := checks[..|checks| - 1];
      Replies(b, before) + [Respond(Run(b, before), checks[|checks| - 1])]
  }

  predicate Strict(checks: seq<Check>) {
    forall c :: c in checks ==> !c.lenient
  }

  // Full again by a strict request at `now`.
  predicate FullAt(b: Bucket, now: real) {
    Refilled(b, Check(now, false)) == b.maxTokens
  }

  // What such a bucket still remembers, apart from its violations, is gone
  // after one strict request.
  lemma FullMatchesNew(b: Bucket, limits: Limits, now: real, c: Check)
    requires LivedUnder(b, limits) && b.lastRefill <= now <= c.now && FullAt(b, now) && !c.lenient
    ensures Refilled(b, c) == Refilled(New(limits, c.now), c) == limits.burst as real
  {
    Scale(b.refillRate, now - b.lastRefill, c.now - b.lastRefill);
    assert Accrual(b, c) == b.refillRate * (c.now - b.lastRefill);
    assert Accrual(b, Check(now, false)) == b.refillRate * (now - b.lastRefill);
    assert Accrual(New(limits, c.now), c) == 0.0;
    hide Accrual;
  }

  ghost predicate Twins(x: Bucket, y: Bucket, clock: real) {
    && x.(penaltyUntil := 0.0, violations := 0) == y.(penaltyUntil := 0.0, violations := 0)
    && (x.penaltyUntil == y.penaltyUntil || (x.penaltyUntil <= clock && y.penaltyUntil <= clock))
  }

  lemma TwinStep(x: Bucket, y: Bucket, c: Check, clock: real)
    requires Twins(x, y, clock) && x.violations == y.violations && clock <= c.now
    ensures Respond(x, c) == Respond(y, c)
    ensures Twins(Step(x, c), Step(y, c), c.now) && Step(x, c).violations == Step(y, c).violations
  {
    assert x.lastRefill == y.lastRefill && RefillRate(x, c.lenient) == RefillRate(y, c.lenient);
    assert Accrual(x, c) == Accrual(y, c);
    assert Refilled(x, c) == Refilled(y, c);
    hide Refilled, Accrual;
  }

  lemma {:induction false} TwinsReplyAlike(x: Bucket, y: Bucket, checks: seq<Check>, clock: real)
    requires Twins(x, y, clock) && Timely(clock, checks) && x.violations == y.violations
    ensures Replies(x, checks) == Replies(y, checks)
    ensures Twins(Run(x, checks), Run(y, checks), if checks == [] then clock else checks[|checks| - 1].now)
    ensures Run(x, checks).violations == Run(y, checks).violations
  {
    if checks != [] {
      var before := checks[..|checks| - 1];
      var last := if before == [] then clock else before[|before| - 1].now;
      TwinsReplyAlike(x, y, before, clock);
      assert Run(x, checks) == Step(Run(x, before), checks[|checks| - 1]);
      assert Run(y, checks) == Step(Run(y, before), checks[|checks| - 1]);
      hide Refilled, Accrual, Step, Respond, Run, Twins;
      TwinStep(Run(x, before), Run(y, before), checks[|checks| - 1], last);
    }
  }

  // k requests at one instant.
  function Hits(k: nat, c: Check): (checks: seq<Check>)
    ensures |checks| == k && forall h :: h in checks ==> h == c
  {
    seq(k, _ => c)
  }

  // Hammering a bucket at one instant: as many requests pass as it holds whole
  // tokens, the next one breaches, the rest hit the closed box.
  lemma {:induction false} Hammered(b: Bucket, level: real, k: nat, c: Check)
    requires !InBox(b, c.now) && Refilled(b, c) == level >= 0.0
    ensures var s := Run(b, Hits(k, c));
      && s.maxTokens == b.maxTokens
      && s.violations == b.violations + (if k <= level.Floor then 0 else k - level.Floor)
      && (if k <= level.Floor then !InBox(s, c.now) && Refilled(s, c) == level - k as real else InBox(s, c.now))
    decreases k
  {
    if k > 0 {
      Hammered(b, level, k - 1, c);
      assert Hits(k, c)[..k - 1] == Hits(k - 1, c);
      var s := Run(b, Hits(k - 1, c));
      assert Run(b, Hits(k, c)) == Step(s, c);
      hide *;
      HitStep(s, c);
    }
  }

  lemma HitStep(s: Bucket, c: Check)
    ensures var s' := Step(s, c);
      && s'.maxTokens == s.maxTokens
      && (if Passes(s, c)
          then s'.violations == s.violations && !InBox(s', c.now) && Refilled(s', c) == Refilled(s, c) - 1.0
          else s'.violations == s.violations + 1 && InBox(s', c.now))
    ensures Passes(s, c) <==> !InBox(s, c.now) && Refilled(s, c) >= 1.0
  {
    var s' := Step(s, c);
    assert Refilled(s, c) <= MaxTokens(s, c.lenient) == MaxTokens(s', c.lenient);
    if Passes(s, c) {
      assert s'.lastRefill == c.now;
      assert Accrual(s', c) == 0.0;
    }
  }

  lemma StrictHits(k: nat, now: real)
    requires k > 0
    ensures var checks := Hits(k, Check(now, false));
      checks != [] && Timely(now, checks) && Strict(checks) && checks[0].now == now
  {}

  // MAIN RESULT. For strict traffic, after the sweep has evicted an idle bucket
  // all replies agree with the ones it would have given if and only if it had
  // refused nothing and was full again.
  lemma EvictionUnseenIff(b: Bucket, limits: Limits, now: real)
    requires LivedUnder(b, limits) && Idle(b, now) && now >= ZERO_TIME
    ensures b.violations == 0 && FullAt(b, now) <==>
      (forall checks: seq<Check> :: checks != [] && Timely(now, checks) && Strict(checks) ==>
         Replies(b, checks) == Replies(New(limits, checks[0].now), checks))
  {
    hide *;
    if !FullAt(b, now) {
      LevelShows(b, limits, now);
      StrictHits(Refilled(b, Check(now, false)).Floor + 1, now);
    } else if b.violations == 0 {
      forall checks: seq<Check> | checks != [] && Timely(now, checks) && Strict(checks)
        ensures Replies(b, checks) == Replies(New(limits, checks[0].now), checks)
      {
        NoViolationsNoTrace(b, limits, now, checks);
      }
    } else {
      ViolationsShow(b, limits, now);
      StrictHits(HitsToBan(b, limits), now);
    }
  }

  // The level in numbers; in particular a burst that refills within the five
  // minutes is full again whatever its level was.
  lemma FullAtIff(b: Bucket, limits: Limits, now: real)
    requires LivedUnder(b, limits) && Idle(b, now)
    ensures FullAt(b, now) <==>
      b.tokens + (now - b.lastRefill) * limits.requestsPerSecond as real >= limits.burst as real
    ensures limits.burst as real <= IDLE * limits.requestsPerSecond as real ==> FullAt(b, now)
  {
    FullFromLevel(b, now);
    var burst, rps, elapsed := limits.burst as real, limits.requestsPerSecond as real, now - b.lastRefill;
    assert b.tokens >= 0.0 && b.maxTokens == burst && b.refillRate == rps && elapsed > IDLE;
    hide *;
    if burst <= IDLE * rps {
      LevelAfterIdle(b.tokens, burst, rps, elapsed);
    }
  }

  lemma FullFromLevel(b: Bucket, now: real)
    ensures FullAt(b, now) <==> b.tokens + (now - b.lastRefill) * b.refillRate >= b.maxTokens
  {}

  lemma LevelAfterIdle(tokens: real, burst: real, rps: real, elapsed: real)
    requires tokens >= 0.0 && rps >= 0.0 && elapsed > IDLE && burst <= IDLE * rps
    ensures tokens + elapsed * rps >= burst
  {
    Scale(rps, IDLE, elapsed);
    var least, inflow := rps * IDLE, rps * elapsed;
    assert least <= inflow && IDLE * rps == least && elapsed * rps == inflow;
  }

  // MAIN RESULT. Lenient traffic sees every eviction: the old bucket could go on
  // to fill up to five tokens above the burst, a new one starts at the burst.
  lemma LenientTrafficSeesEviction(b: Bucket, limits: Limits, now: real)
    requires LivedUnder(b, limits) && Idle(b, now) && now >= ZERO_TIME
    ensures var c := Check(now + limits.burst as real + 5.0, true);
      Replies(b, Hits(limits.burst + 1, c)) != Replies(New(limits, c.now), Hits(limits.burst + 1, c))
  {
    var c := Check(now + limits.burst as real + 5.0, true);
    var y := New(limits, c.now);
    FullAbove(b, limits, now, c);
    assert !InBox(b, c.now) && !InBox(y, c.now);
    hide Refilled, Accrual, Idle, New;
    FirstDifference(b, y, limits.burst as real + 5.0, limits.burst as real, c);
  }

  lemma FullAbove(b: Bucket, limits: Limits, now: real, c: Check)
    requires LivedUnder(b, limits) && Idle(b, now)
    requires c == Check(now + limits.burst as real + 5.0, true)
    ensures Refilled(b, c) == limits.burst as real + 5.0
    ensures Refilled(New(limits, c.now), c) == limits.burst as real
  {
    var d := c.now - b.lastRefill;
    Scale(d, 1.0, b.refillRate + 2.0);
    assert Accrual(b, c) == d * (b.refillRate + 2.0);
    assert Accrual(New(limits, c.now), c) == 0.0;
    hide Accrual;
  }

  // Two buckets hammered at one instant part where the lower one runs dry.
  lemma FirstDifference(x: Bucket, y: Bucket, high: real, low: real, c: Check)
    requires !InBox(x, c.now) && !InBox(y, c.now)
    requires Refilled(x, c) == high && Refilled(y, c) == low && 0.0 <= low
    requires high.Floor > low.Floor
    ensures Replies(x, Hits(low.Floor + 1, c)) != Replies(y, Hits(low.Floor + 1, c))
  {
    var k := low.Floor;
    var checks := Hits(k + 1, c);
    Hammered(x, high, k, c);
    Hammered(y, low, k, c);
    assert checks[..k] == Hits(k, c) && checks[k] == c;
    hide Refilled, Run, Step, InBox;
    assert Respond(Run(x, checks[..k]), c).status == 0;
    assert Respond(Run(y, checks[..k]), c).status != 0;
    LastReply(x, checks);
    LastReply(y, checks);
  }

  // A bucket created under `limits`, at any later point of its life.
  ghost predicate LivedUnder(b: Bucket, limits: Limits) {
    && b == New(limits, b.lastRefill).(tokens := b.tokens, penaltyUntil := b.penaltyUntil, violations := b.violations)
    && Sound(b, b.lastRefill)
  }

  lemma EveryLifeQualifies(limits: Limits, start: real, checks: seq<Check>)
    requires start >= ZERO_TIME && Timely(start, checks)
    ensures LivedUnder(Run(New(limits, start), checks), limits)
  {
    RunKeepsSound(New(limits, start), checks, start, |checks|);
    assert checks[..|checks|] == checks;
  }

  lemma NoViolationsNoTrace(b: Bucket, limits: Limits, now: real, checks: seq<Check>)
    requires LivedUnder(b, limits) && Idle(b, now) && now >= ZERO_TIME && b.violations == 0 && FullAt(b, now)
    requires checks != [] && Timely(now, checks) && Strict(checks)
    ensures Replies(b, checks) == Replies(New(limits, checks[0].now), checks)
  {
    var y := New(limits, checks[0].now);
    FirstStepTwins(b, limits, now, checks[0]);
    assert Timely(checks[0].now, checks[1..]);
    hide *;
    FirstThenRest(b, checks);
    FirstThenRest(y, checks);
    TwinsReplyAlike(Step(b, checks[0]), Step(y, checks[0]), checks[1..], checks[0].now);
  }

  lemma FirstStepTwins(b: Bucket, limits: Limits, now: real, c: Check)
    requires LivedUnder(b, limits) && Idle(b, now) && ZERO_TIME <= now <= c.now && FullAt(b, now)
    requires b.violations == 0 && !c.lenient
    ensures var y := New(limits, c.now);
      Respond(b, c) == Respond(y, c) && Twins(Step(b, c), Step(y, c), c.now) &&
      Step(b, c).violations == Step(y, c).violations
  {
    FullMatchesNew(b, limits, now, c);
    hide Refilled, Accrual;
  }

  // A bucket below its burst runs dry before a new one.
  lemma LevelShows(b: Bucket, limits: Limits, now: real)
    requires LivedUnder(b, limits) && Idle(b, now) && now >= ZERO_TIME && !FullAt(b, now)
    ensures var c := Check(now, false);
      && Refilled(b, c) >= 0.0
      && var checks := Hits(Refilled(b, c).Floor + 1, c);
         Replies(b, checks) != Replies(New(limits, now), checks)
  {
    var c := Check(now, false);
    var y := New(limits, now);
    var low := Refilled(b, c);
    assert !InBox(b, now) && !InBox(y, now);
    assert Refilled(y, c) == limits.burst as real by { assert Accrual(y, c) == 0.0; }
    AccrualBounds(b, c);
    assert 0.0 <= low < limits.burst as real;
    hide Refilled, Accrual, Idle, New;
    FirstDifference(y, b, limits.burst as real, low, c);
  }

  // Hammering at one instant until the old bucket's refusals pass fifty.
  function HitsToBan(b: Bucket, limits: Limits): (k: nat)
    ensures k > 0
  {
    limits.burst + 1 + if b.violations >= BOX_LIMIT then 1 else BOX_LIMIT - b.violations
  }

  lemma ViolationsShow(b: Bucket, limits: Limits, now: real)
    requires LivedUnder(b, limits) && Idle(b, now) && now >= ZERO_TIME && FullAt(b, now)
    requires b.violations > 0
    ensures var checks := Hits(HitsToBan(b, limits), Check(now, false));
      Replies(b, checks) != Replies(New(limits, now), checks)
  {
    var c, m := Check(now, false), HitsToBan(b, limits);
    var checks := Hits(m, c);
    var y := New(limits, now);
    assert !InBox(b, now) && !InBox(y, now);
    FullMatchesNew(b, limits, now, c);
    hide Refilled, Accrual, Step, Idle, New;
    Hammered(b, limits.burst as real, m - 1, c);
    Hammered(y, limits.burst as real, m - 1, c);
    assert checks[..m - 1] == Hits(m - 1, c);
    assert Respond(Run(b, checks[..m - 1]), checks[m - 1]).status == 2;
    assert Respond(Run(y, checks[..m - 1]), checks[m - 1]).status == 1;
    LastReply(b, checks);
    LastReply(y, checks);
  }

  type SomeChecks = checks: seq<Check> | checks != [] witness [Check(0.0, false)]

  lemma {:induction false} LastReply(b: Bucket, checks: SomeChecks)
    ensures |Replies(b, checks)| == |checks|
    ensures Replies(b, checks)[|checks| - 1] == Respond(Run(b, checks[..|checks| - 1]), checks[|checks| - 1])
  {
    if |checks| > 1 {
      LastReply(b, checks[..|checks| - 1]);
    }
  }

  lemma {:induction false} FirstThenRest(b: Bucket, checks: SomeChecks)
    ensures Replies(b, checks) == [Respond(b, checks[0])] + Replies(Step(b, checks[0]), checks[1..])
    ensures Run(b, checks) == Run(Step(b, checks[0]), checks[1..])
  {
    var n := |checks|;
    if n == 1 {
      assert checks[..0] == [] && checks[1..] == [];
    } else {
      FirstThenRest(b, checks[..n - 1]);
      assert checks[..n - 1][1..] == checks[1..][..n - 2];
      assert checks[1..][n - 2] == checks[n - 1];
      hide Step, Respond;
    }
  }

  // ---- The objects ------------------------------------------------------

  class RateLimitBucket {
    var tokens: real
    var maxTokens: real
    var refillRate: real
    var lastRefill: real
    var penaltyUntil: real
    var violations: nat

    function Value(): Bucket
      reads this
    {
      Bucket(tokens, maxTokens, refillRate, lastRefill, penaltyUntil, violations)
    }

    constructor (limits: Limits, now: real)
      ensures Value() == New(limits, now)
    {
      tokens := limits.burst as real;
      maxTokens := limits.burst as real;
      refillRate := limits.requestsPerSecond as real;
      lastRefill := now;
      penaltyUntil := ZERO_TIME;
      violations := 0;
    }

    // The locked part of CheckRateLimit.
    method Decide(now: real, lenient: bool) returns (r: Reply)
      modifies this
      ensures Value() == Step(old(Value()), Check(now, lenient))
      ensures r == Respond(old(Value()), Check(now, lenient))
    {
      if now < penaltyUntil {
        violations := violations + 1;
        var remaining := Ceil(penaltyUntil - now);
        if remaining < 1 {
          remaining := 1;
        }
        if violations > BOX_LIMIT {
          return Reply(2, remaining);
        }
        return Reply(1, remaining);
      }
      var ceiling := maxTokens;
      var rate := refillRate;
      if lenient {
        ceiling := ceiling + 5.0;
        rate := rate + 2.0;
      }
      var elapsed := now - lastRefill;
      assert rate == RefillRate(old(Value()), lenient);
      assert elapsed * rate == Accrual(old(Value()), Check(now, lenient));
      tokens := tokens + elapsed * rate;
      if tokens > ceiling {
        tokens := ceiling;
      }
      lastRefill := now;
      if tokens >= 1.0 {
        tokens := tokens - 1.0;
        return Reply(0, 0);
      }
      penaltyUntil := now + PENALTY;
      violations := violations + 1;
      if violations > BREACH_LIMIT {
        return Reply(2, PENALTY.Floor);
      }
      return Reply(1, PENALTY.Floor);
    }
  }

  function Lookup(buckets: map<string, Bucket>, ip: string, limits: Limits, now: real): Bucket {
    if ip in buckets then buckets[ip] else New(limits, now)
  }

  predicate Lenient(limits: Limits, globalRPS: int, avgRPS: real) {
    limits.adaptive && avgRPS > 0.0 && (globalRPS as real) < avgRPS * 0.5
  }

  // The limiter as a value: its configuration, the traffic baseline and a bucket per address.
  datatype Limiter = Limiter(limits: Limits, avgRPS: real, buckets: map<string, Bucket>)

  // A call for an address at some global traffic, and a new baseline.
  datatype Event = Ask(ip: string, now: real, globalRPS: int) | Learn(avgRPS: real)

  function CheckOf(s: Limiter, e: Event): Check
    requires e.Ask?
  {
    Check(e.now, Lenient(s.limits, e.globalRPS, s.avgRPS))
  }

  function Handle(s: Limiter, e: Event): Limiter {
    if e.Learn? then s.(avgRPS := e.avgRPS)
    else if !s.limits.enabled then s
    else s.(buckets := s.buckets[e.ip := Step(Lookup(s.buckets, e.ip, s.limits, e.now), CheckOf(s, e))])
  }

  function Answer(s: Limiter, e: Event): Reply
    requires e.Ask?
  {
    if !s.limits.enabled then Reply(0, 0)
    else Respond(Lookup(s.buckets, e.ip, s.limits, e.now), CheckOf(s, e))
  }

  class Engine {
    var limits: Limits
    var avgRPS: real
    var counters: map<string, RateLimitBucket>

    ghost predicate Valid()
      reads this
    {
      forall x, y :: x in counters && y in counters && counters[x] == counters[y] ==> x == y
    }

    ghost function View(): map<string, Bucket>
      reads this, counters.Values
    {
      map ip | ip in counters :: counters[ip].Value()
    }

    ghost function State(): Limiter
      reads this, counters.Values
    {
      Limiter(limits, avgRPS, View())
    }

    constructor (limits: Limits, avgRPS: real)
      ensures Valid() && View() == map[] && this.limits == limits && this.avgRPS == avgRPS
    {
      this.limits, this.avgRPS, counters := limits, avgRPS, map[];
    }

    method CheckRateLimit(ip: string, globalRPS: int, now: real) returns (r: Reply)
      requires Valid()
      modifies this`counters, counters.Values
      ensures Valid() && fresh(counters.Values - old(counters.Values))
      ensures r == Answer(old(State()), Ask(ip, now, globalRPS))
      ensures State() == Handle(old(State()), Ask(ip, now, globalRPS))
    {
      if !limits.enabled {
        return Reply(0, 0);
      }
      if ip !in counters {
        var b := new RateLimitBucket(limits, now);
        counters := counters[ip := b];
      }
      var bucket := counters[ip];
      assert bucket in counters.Values;
      assert bucket.Value() == Lookup(old(View()), ip, limits, now);
      r := bucket.Decide(now, Lenient(limits, globalRPS, avgRPS));
    }

    // A reload starts every address afresh under the new limits.
    method UpdateConfig(newLimits: Limits)
      requires Valid()
      modifies this`limits, this`counters
      ensures Valid() && limits == newLimits && View() == map[]
    {
      limits, counters := newLimits, map[];
    }

    // The rate-limit part of CleanupSessions.
    method CleanupBuckets(now: real)
      requires Valid()
      modifies this`counters
      ensures Valid() && counters.Values <= old(counters.Values)
      ensures View() == map ip | ip in old(View()) && now - old(View())[ip].lastRefill <= 300.0 :: old(View())[ip]
    {
      var todo := counters.Keys;
      while todo != {}
        invariant Valid() && todo <= counters.Keys
        invariant forall ip :: ip in counters <==>
          ip in old(counters) && (ip in todo || !Idle(old(counters)[ip].Value(), now))
        invariant forall ip :: ip in counters ==> counters[ip] == old(counters)[ip]
      {
        var ip :| ip in todo;
        if now - counters[ip].lastRefill > IDLE {
          counters := counters - {ip};
        }
        todo := todo - {ip};
      }
    }
  }
}
