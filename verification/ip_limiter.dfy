// The sharded per-IP limiter of perf/pool.go and its background sweep.
module IpLimiters {
  import opened Meters
  import opened Sharding
  import opened TB = TokenBuckets

  // Buckets idle for longer than this many seconds are swept away.
  const IDLE: real := 600.0

  // ---- What the limiter means -------------------------------------------

  datatype Limiter = Limiter(rate: real, capacity: real, buckets: map<string, Bucket>)

  datatype Event =
    | Allow(ip: string, now: real)
    | SetRate(rps: real, burst: real)
    | SetGlobalRate(rps: real)
    | Sweep(now: real)

  function Lookup(l: Limiter, ip: string, now: real): Bucket {
    if ip in l.buckets then l.buckets[ip] else Fresh(l.rate, l.capacity, now)
  }

  predicate Answer(l: Limiter, ip: string, now: real) {
    Grants(Lookup(l, ip, now), 1.0, now)
  }

  predicate Idle(b: Bucket, now: real) {
    now - b.lastTime > IDLE
  }

  function WithRate(l: Limiter, rps: real): Limiter {
    l.(rate := rps, buckets := map ip | ip in l.buckets :: l.buckets[ip].(rate := rps))
  }

  // `evicting` is the limiter of the source; without it, the same limiter
  // keeps one bucket per address for ever.
  function After(l: Limiter, e: Event, evicting: bool): Limiter {
    match e
    case Allow(ip, now) => l.(buckets := l.buckets[ip := Take(Lookup(l, ip, now), 1.0, now)])
    case SetRate(rps, burst) =>
      var l' := if burst > 0.0 then l.(capacity := burst) else l;
      if rps > 0.0 then WithRate(l', rps) else l'
    case SetGlobalRate(rps) => WithRate(l, rps)
    case Sweep(now) =>
      if evicting then l.(buckets := map ip | ip in l.buckets && !Idle(l.buckets[ip], now) :: l.buckets[ip])
      else l
  }

  function Run(l: Limiter, events: seq<Event>, evicting: bool): Limiter
    decreases |events|
  {
    if events == [] then l else Run(After(l, events[0], evicting), events[1..], evicting)
  }

  // The answers of a run, one per Allow.
  function Answers(l: Limiter, events: seq<Event>, evicting: bool): seq<bool>
    decreases |events|
  {
    if events == [] then []
    else
      (if events[0].Allow? then [Answer(l, events[0].ip, events[0].now)] else [])
      + Answers(After(l, events[0], evicting), events[1..], evicting)
  }

  predicate Timely(clock: real, events: seq<Event>)
    decreases |events|
  {
    events == [] ||
    match events[0]
    case Allow(_, now) => clock <= now && Timely(now, events[1..])
    case Sweep(now) => clock <= now && Timely(now, events[1..])
    case _ => Timely(clock, events[1..])
  }

  // An event after which the burst is still `capacity` and still refills
  // within the idle time.
  predicate Harmless(e: Event, capacity: real) {
    match e
    case SetRate(rps, burst) => (burst > 0.0 ==> burst == capacity) && (rps > 0.0 ==> capacity <= IDLE * rps)
    case SetGlobalRate(rps) => capacity <= IDLE * rps
    case _ => true
  }

  // ---- Eviction is invisible --------------------------------------------

  ghost predicate Uniform(l: Limiter, clock: real) {
    forall ip :: ip in l.buckets ==>
      var b := l.buckets[ip];
      InRange(b) && b.capacity == l.capacity && b.rate == l.rate && b.lastTime <= clock
  }

  // l has evicted some buckets that r still holds; each has been idle long
  // enough to be full at the next call.
  ghost predicate Simulates(l: Limiter, r: Limiter, clock: real) {
    && l.rate == r.rate && l.capacity == r.capacity
    && 0.0 <= r.capacity <= IDLE * r.rate
    && Uniform(r, clock)
    && (forall ip :: ip in l.buckets ==> ip in r.buckets && l.buckets[ip] == r.buckets[ip])
    && (forall ip :: ip in r.buckets && ip !in l.buckets ==> Idle(r.buckets[ip], clock))
  }

  lemma FullAfterIdle(b: Bucket, now: real)
    requires InRange(b) && Idle(b, now) && b.capacity <= IDLE * b.rate
    ensures Refilled(b, now) == b.capacity
  {
    var d := now - b.lastTime;
    assert b.rate >= 0.0;
    Scale(b.rate, IDLE, d);
    assert Accrual(b, now) == b.rate * d;
  }

  lemma FreshIsFull(rate: real, capacity: real, now: real)
    ensures Refilled(Fresh(rate, capacity, now), now) == capacity
  {}

  lemma AllowSimulates(l: Limiter, r: Limiter, ip: string, now: real, clock: real)
    requires Simulates(l, r, clock) && clock <= now
    ensures Answer(l, ip, now) == Answer(r, ip, now)
    ensures Simulates(After(l, Allow(ip, now), true), After(r, Allow(ip, now), false), now)
  {
    var bl, br := Lookup(l, ip, now), Lookup(r, ip, now);
    FreshIsFull(l.rate, l.capacity, now);
    if ip in r.buckets && ip !in l.buckets {
      FullAfterIdle(br, now);
    }
    assert Refilled(bl, now) == Refilled(br, now);
    assert Take(bl, 1.0, now) == Take(br, 1.0, now);
    assert r.rate >= 0.0;
    TakeKeeps(br, 1.0, now, r.rate);
  }

  lemma StepSimulates(l: Limiter, r: Limiter, e: Event, clock: real) returns (clock': real)
    requires Simulates(l, r, clock) && Harmless(e, r.capacity) && Timely(clock, [e])
    ensures e.Allow? ==> Answer(l, e.ip, e.now) == Answer(r, e.ip, e.now)
    ensures clock' == if e.Allow? || e.Sweep? then e.now else clock
    ensures Simulates(After(l, e, true), After(r, e, false), clock')
    ensures After(r, e, false).capacity == r.capacity
  {
    clock' := if e.Allow? || e.Sweep? then e.now else clock;
    if e.Allow? {
      AllowSimulates(l, r, e.ip, e.now, clock);
    }
  }

  lemma {:induction false} RunsAgree(l: Limiter, r: Limiter, events: seq<Event>, clock: real)
    requires Simulates(l, r, clock) && Timely(clock, events)
    requires forall e :: e in events ==> Harmless(e, r.capacity)
    ensures Answers(l, events, true) == Answers(r, events, false)
    decreases |events|
  {
    if events != [] {
      var clock' := StepSimulates(l, r, events[0], clock);
      RunsAgree(After(l, events[0], true), After(r, events[0], false), events[1..], clock');
    }
  }

  // MAIN RESULT. While the burst is unchanged and refills within the idle
  // time at every rate in force, no caller can tell the sharded, sweeping
  // limiter from one that never evicts, in any run.
  lemma EvictionInvisible(rate: real, capacity: real, start: real, events: seq<Event>)
    requires 0.0 <= capacity <= IDLE * rate
    requires Timely(start, events)
    requires forall e :: e in events ==> Harmless(e, capacity)
    ensures Answers(Limiter(rate, capacity, map[]), events, true)
            == Answers(Limiter(rate, capacity, map[]), events, false)
  {
    RunsAgree(Limiter(rate, capacity, map[]), Limiter(rate, capacity, map[]), events, start);
  }

  // What the bucket of one address sees of a run.
  function Own(events: seq<Event>, ip: string): seq<TB.Event>
    decreases |events|
  {
    if events == [] then []
    else
      (match events[0]
       case Allow(x, now) => if x == ip then [Call(1.0, now)] else []
       case SetRate(rps, _) => if rps > 0.0 then [NewRate(rps)] else []
       case SetGlobalRate(rps) => [NewRate(rps)]
       case Sweep(_) => [])
      + Own(events[1..], ip)
  }

  lemma {:induction false} HeldBucket(l: Limiter, events: seq<Event>, ip: string)
    requires ip in l.buckets
    ensures ip in Run(l, events, false).buckets
    ensures Run(l, events, false).buckets[ip] == TB.Run(l.buckets[ip], Own(events, ip))
    decreases |events|
  {
    if events != [] {
      var l' := After(l, events[0], false);
      HeldBucket(l', events[1..], ip);
      var rest := Own(events[1..], ip);
      match events[0] {
        case Allow(x, now) =>
          if x == ip {
            RunFromFirst(l.buckets[ip], Call(1.0, now), rest);
          } else {
            assert [] + rest == rest;
          }
        case SetRate(rps, _) =>
          if rps > 0.0 {
            RunFromFirst(l.buckets[ip], NewRate(rps), rest);
          } else {
            assert [] + rest == rest;
          }
        case SetGlobalRate(rps) => RunFromFirst(l.buckets[ip], NewRate(rps), rest);
        case Sweep(_) => assert [] + rest == rest;
      }
    }
  }

  // The first call of an address, |events| if there is none.
  function FirstCall(events: seq<Event>, ip: string): (i: nat)
    ensures i <= |events| && (i < |events| ==> events[i].Allow? && events[i].ip == ip)
    ensures forall j :: 0 <= j < i && events[j].Allow? ==> events[j].ip != ip
    decreases |events|
  {
    if events == [] || (events[0].Allow? && events[0].ip == ip) then 0 else 1 + FirstCall(events[1..], ip)
  }

  // Rate and burst for new buckets after some changes.
  function Settings(rate: real, capacity: real, events: seq<Event>): (real, real)
    decreases |events|
  {
    if events == [] then (rate, capacity)
    else
      match events[0]
      case SetRate(rps, burst) =>
        Settings(if rps > 0.0 then rps else rate, if burst > 0.0 then burst else capacity, events[1..])
      case SetGlobalRate(rps) => Settings(rps, capacity, events[1..])
      case _ => Settings(rate, capacity, events[1..])
  }

  // MAIN RESULT. Never-evicted buckets do not interfere: an address has the
  // bucket that its own calls and the rate changes produce, whatever the other
  // addresses do, starting full at its first call with the settings then in force.
  lemma {:induction false} OwnBucket(l: Limiter, events: seq<Event>, ip: string)
    ensures var buckets := Run(l, events, false).buckets;
      var i := FirstCall(events, ip);
      if ip in l.buckets then ip in buckets && buckets[ip] == TB.Run(l.buckets[ip], Own(events, ip))
      else if i == |events| then ip !in buckets
      else
        var (rate, capacity) := Settings(l.rate, l.capacity, events[..i]);
        ip in buckets && buckets[ip] == TB.Run(Fresh(rate, capacity, events[i].now), Own(events[i..], ip))
    decreases |events|
  {
    if ip in l.buckets {
      HeldBucket(l, events, ip);
    } else if events != [] {
      var l', e, rest := After(l, events[0], false), events[0], events[1..];
      var i := FirstCall(events, ip);
      if i == 0 {
        HeldBucket(l', rest, ip);
        assert events[0..] == events;
        hide Run, Own, FirstCall, Take;
        BucketAtFirstCall(l, events, ip);
      } else {
        OwnBucket(l', rest, ip);
        ElsewhereAfter(l, e, ip);
        SettingsStep(l.rate, l.capacity, events, i);
        assert rest[i - 1..] == events[i..] && FirstCall(rest, ip) == i - 1;
        assert Run(l, events, false) == Run(l', rest, false);
        hide Run, Own, FirstCall, After, Settings;
      }
    }
  }

  lemma BucketAtFirstCall(l: Limiter, events: seq<Event>, ip: string)
    requires events != [] && events[0].Allow? && events[0].ip == ip && ip !in l.buckets
    ensures var b, now := Fresh(l.rate, l.capacity, events[0].now), events[0].now;
      && ip in After(l, events[0], false).buckets
      && TB.Run(After(l, events[0], false).buckets[ip], Own(events[1..], ip)) == TB.Run(b, Own(events, ip))
  {
    RunFromFirst(Fresh(l.rate, l.capacity, events[0].now), Call(1.0, events[0].now), Own(events[1..], ip));
  }

  lemma ElsewhereAfter(l: Limiter, e: Event, ip: string)
    requires e.Allow? ==> e.ip != ip
    ensures var l' := After(l, e, false);
      && (ip in l'.buckets <==> ip in l.buckets)
      && (l'.rate, l'.capacity) == Settings(l.rate, l.capacity, [e])
  {
    assert [e][1..] == [];
  }

  lemma SettingsStep(rate: real, capacity: real, events: seq<Event>, i: nat)
    requires 0 < i <= |events|
    ensures var (rate', capacity') := Settings(rate, capacity, [events[0]]);
      Settings(rate, capacity, events[..i]) == Settings(rate', capacity', events[1..][..i - 1])
  {
    assert events[..i][1..] == events[1..][..i - 1];
    assert [events[0]][1..] == [];
  }

  // ---- ... and exactly when ---------------------------------------------

  predicate Traffic(events: seq<Event>) {
    forall e :: e in events ==> e.Allow? || e.Sweep?
  }

  ghost predicate Invisible(rate: real, capacity: real) {
    forall start: real, events: seq<Event> :: Timely(start, events) && Traffic(events) ==>
      Answers(Limiter(rate, capacity, map[]), events, true) == Answers(Limiter(rate, capacity, map[]), events, false)
  }

  // A bucket that cannot hold one token refuses everybody, evicted or not.
  lemma {:induction false} TinyBurstRefuses(l: Limiter, events: seq<Event>, evicting: bool)
    requires l.capacity < 1.0 && Traffic(events)
    requires forall ip :: ip in l.buckets ==> l.buckets[ip].capacity < 1.0
    ensures forall a :: a in Answers(l, events, evicting) ==> !a
    ensures |Answers(l, events, evicting)| == |Answers(l, events, !evicting)|
    decreases |events|
  {
    if events != [] {
      TinyBurstRefuses(After(l, events[0], evicting), events[1..], evicting);
      AnswerCount(After(l, events[0], evicting), After(l, events[0], !evicting), events[1..], evicting, !evicting);
    }
  }

  lemma {:induction false} AnswerCount(l: Limiter, r: Limiter, events: seq<Event>, x: bool, y: bool)
    ensures |Answers(l, events, x)| == |Answers(r, events, y)|
    decreases |events|
  {
    if events != [] {
      AnswerCount(After(l, events[0], x), After(r, events[0], y), events[1..], x, y);
    }
  }

  lemma {:induction false} AnswersConcat(l: Limiter, a: seq<Event>, b: seq<Event>, evicting: bool)
    ensures Answers(l, a + b, evicting) == Answers(l, a, evicting) + Answers(Run(l, a, evicting), b, evicting)
    ensures Run(l, a + b, evicting) == Run(Run(l, a, evicting), b, evicting)
    decreases |a|
  {
    if a == [] {
      assert a + b == b;
    } else {
      assert (a + b)[1..] == a[1..] + b;
      AnswersConcat(After(l, a[0], evicting), a[1..], b, evicting);
    }
  }

  function Burst(ip: string, k: nat, t: real): (events: seq<Event>)
    ensures |events| == k && forall e :: e in events ==> e == Allow(ip, t)
  {
    if k == 0 then [] else [Allow(ip, t)] + Burst(ip, k - 1, t)
  }

  predicate AllTrue(answers: seq<bool>) {
    forall a :: a in answers ==> a
  }

  // The limiter that has seen only `ip`.
  function Only(rate: real, capacity: real, ip: string, b: Bucket): Limiter {
    Limiter(rate, capacity, map[ip := b])
  }

  lemma TakeAgain(b: Bucket, t: real)
    requires Grants(b, 1.0, t)
    ensures Refilled(Take(b, 1.0, t), t) == Refilled(b, t) - 1.0
  {
    assert Refilled(b, t) <= b.capacity;
    var b' := Take(b, 1.0, t);
    assert b'.lastTime == t;
    assert Accrual(b', t) == 0.0;
  }

  // k calls at one instant all pass exactly when k tokens are there.
  lemma {:induction false} BurstOutcome(l: Limiter, ip: string, k: nat, t: real, evicting: bool)
    requires l.buckets.Keys <= {ip} && k > 0
    requires Refilled(Lookup(l, ip, t), t) >= 0.0
    ensures var b := Lookup(l, ip, t);
      if Refilled(b, t) >= k as real then
        AllTrue(Answers(l, Burst(ip, k, t), evicting)) &&
        Run(l, Burst(ip, k, t), evicting) ==
          Only(l.rate, l.capacity, ip, b.(tokens := Refilled(b, t) - k as real, lastTime := t))
      else !AllTrue(Answers(l, Burst(ip, k, t), evicting))
    decreases k
  {
    var b := Lookup(l, ip, t);
    var l' := After(l, Allow(ip, t), evicting);
    assert Burst(ip, k, t)[1..] == Burst(ip, k - 1, t);
    var rest := Answers(l', Burst(ip, k - 1, t), evicting);
    assert Answers(l, Burst(ip, k, t), evicting) == [Answer(l, ip, t)] + rest;
    assert l' == Only(l.rate, l.capacity, ip, Take(b, 1.0, t));
    if Grants(b, 1.0, t) {
      TakeAgain(b, t);
      if k > 1 {
        BurstOutcome(l', ip, k - 1, t, evicting);
        if Refilled(b, t) < k as real {
          var a :| a in rest && !a;
          assert a in [Answer(l, ip, t)] + rest;
        }
      }
    } else {
      assert Answer(l, ip, t) in [Answer(l, ip, t)] + rest;
    }
  }

  lemma {:induction false} BurstTimely(ip: string, k: nat, t: real, rest: seq<Event>, clock: real)
    requires clock <= t && Timely(t, rest)
    ensures Timely(clock, Burst(ip, k, t) + rest)
    decreases k
  {
    if k == 0 {
      assert Burst(ip, k, t) + rest == rest;
      TimelyEarlier(rest, clock, t);
    } else {
      BurstTimely(ip, k - 1, t, rest, t);
      BurstStep(ip, k, t, rest);
      hide Burst;
    }
  }

  lemma BurstStep(ip: string, k: nat, t: real, rest: seq<Event>)
    requires k > 0
    ensures (Burst(ip, k, t) + rest)[0] == Allow(ip, t)
    ensures (Burst(ip, k, t) + rest)[1..] == Burst(ip, k - 1, t) + rest
  {}

  lemma {:induction false} TimelyEarlier(events: seq<Event>, clock: real, t: real)
    requires clock <= t && Timely(t, events)
    ensures Timely(clock, events)
    decreases |events|
  {
    if events != [] && !events[0].Allow? && !events[0].Sweep? {
      TimelyEarlier(events[1..], clock, t);
    }
  }

  lemma RefillAfter(tokens: real, capacity: real, rate: real, t: real, d: real)
    requires tokens + d * rate <= capacity
    ensures Refilled(Bucket(tokens, capacity, rate, t), t + d) == tokens + d * rate
  {
    assert Accrual(Bucket(tokens, capacity, rate, t), t + d) == d * rate;
  }

  // F calls at u and one more `wait` seconds later, which gains exactly the
  // fraction of a token that F calls leave missing.
  function Probe(ip: string, F: nat, u: real, wait: real): seq<Event> {
    Burst(ip, F, u) + [Allow(ip, u + wait)]
  }

  // Waiting this long gains the fraction of a token that is missing after
  // a full bucket has answered all the calls it can.
  predicate Completes(wait: real, rate: real, capacity: real) {
    wait >= 0.0 && wait * rate == 1.0 - (capacity - capacity.Floor as real)
  }

  lemma AfterWaiting(tokens: real, capacity: real, rate: real, t: real, wait: real)
    requires Completes(wait, rate, capacity) && tokens <= capacity - capacity.Floor as real && capacity >= 1.0
    ensures Refilled(Bucket(tokens, capacity, rate, t), t + wait)
            == tokens + 1.0 - (capacity - capacity.Floor as real)
  {
    RefillAfter(tokens, capacity, rate, t, wait);
  }

  // A limiter whose bucket holds `level` at u answers every call of the probe
  // exactly when the bucket is full at u.
  lemma ProbeOutcome(l: Limiter, ip: string, u: real, level: real, wait: real, evicting: bool)
    requires l.buckets.Keys <= {ip} && l.capacity >= 1.0
    requires Lookup(l, ip, u).capacity == l.capacity && Lookup(l, ip, u).rate == l.rate
    requires Refilled(Lookup(l, ip, u), u) == level && 0.0 <= level <= l.capacity
    requires Completes(wait, l.rate, l.capacity)
    ensures AllTrue(Answers(l, Probe(ip, l.capacity.Floor, u, wait), evicting)) <==> level == l.capacity
  {
    hide Accrual, Completes, Refilled;
    var F: nat := l.capacity.Floor;
    BurstOutcome(l, ip, F, u, evicting);
    AnswersConcat(l, Burst(ip, F, u), [Allow(ip, u + wait)], evicting);
    var first := Answers(l, Burst(ip, F, u), evicting);
    if level >= F as real {
      var b := Bucket(level - F as real, l.capacity, l.rate, u);
      AfterWaiting(b.tokens, b.capacity, b.rate, u, wait);
      LastAnswer(l.rate, l.capacity, ip, b, u + wait, evicting);
      var a := Grants(b, 1.0, u + wait);
      assert a in first + [a];
      assert a <==> level == l.capacity;
    } else {
      var a :| a in first && !a;
      assert a in first + Answers(Run(l, Burst(ip, F, u), evicting), [Allow(ip, u + wait)], evicting);
    }
  }

  // From any moment at which the single bucket is empty, sweeping after T
  // idle seconds and probing tells the two limiters apart, when T seconds
  // refill less than the burst.
  lemma SweepShows(l: Limiter, ip: string, t: real, T: real, wait: real)
    requires l.capacity >= 1.0 && l.rate >= 0.0
    requires l == Only(l.rate, l.capacity, ip, Bucket(0.0, l.capacity, l.rate, t))
    requires T > IDLE && Starves(T, l.rate, l.capacity) && Completes(wait, l.rate, l.capacity)
    ensures var events := [Sweep(t + T)] + Probe(ip, l.capacity.Floor, t + T, wait);
      Timely(t, events) && Traffic(events) && Answers(l, events, true) != Answers(l, events, false)
  {
    assert wait >= 0.0;
    hide Accrual, Completes, Starves, Refilled;
    var F: nat := l.capacity.Floor;
    var u := t + T;
    var probe := Probe(ip, F, u, wait);
    var events := [Sweep(u)] + probe;
    assert events[1..] == probe;
    BurstTimely(ip, F, u, [Allow(ip, u + wait)], u);

    var l1 := After(l, Sweep(u), true);
    assert l1.buckets == map[];
    FreshIsFull(l.rate, l.capacity, u);
    ProbeOutcome(l1, ip, u, l.capacity, wait, true);

    AfterStarving(l.capacity, l.rate, t, T);
    ProbeOutcome(l, ip, u, Refilled(Bucket(0.0, l.capacity, l.rate, t), u), wait, false);
    assert Answers(l, events, true) == Answers(l1, probe, true);
    assert Answers(l, events, false) == Answers(l, probe, false);
  }

  predicate Starves(T: real, rate: real, capacity: real) {
    T * rate < capacity
  }

  lemma AfterStarving(capacity: real, rate: real, t: real, T: real)
    requires rate >= 0.0 && T >= 0.0 && Starves(T, rate, capacity)
    ensures 0.0 <= Refilled(Bucket(0.0, capacity, rate, t), t + T) < capacity
  {
    Scale(T, 0.0, rate);
    RefillAfter(0.0, capacity, rate, t, T);
  }

  lemma LastAnswer(rate: real, capacity: real, ip: string, b: Bucket, t: real, evicting: bool)
    ensures Answers(Only(rate, capacity, ip, b), [Allow(ip, t)], evicting) == [Grants(b, 1.0, t)]
  {
    var l := Only(rate, capacity, ip, b);
    assert [Allow(ip, t)][1..] == [];
    assert Answers(l, [Allow(ip, t)], evicting) ==
           [Answer(l, ip, t)] + Answers(After(l, Allow(ip, t), evicting), [], evicting);
  }

  // With a burst of at least one token that the idle time does not refill,
  // some traffic tells the two limiters apart.
  lemma EvictionShows(rate: real, capacity: real)
    requires rate >= 0.0 && capacity >= 1.0 && capacity > IDLE * rate
    ensures !Invisible(rate, capacity)
  {
    var f := capacity - capacity.Floor as real;
    DrainedShows(rate, capacity, f);
    var rest :| Apart(Only(rate, capacity, "", Bucket(f, capacity, rate, 0.0)), 0.0, rest);
    DrainFirst(rate, capacity, f, rest);
    assert Apart(Limiter(rate, capacity, map[]), 0.0, Burst("", capacity.Floor, 0.0) + rest);
  }

  lemma DrainFirst(rate: real, capacity: real, f: real, rest: seq<Event>)
    requires rate >= 0.0 && capacity >= 1.0 && f == capacity - capacity.Floor as real
    ensures Apart(Only(rate, capacity, "", Bucket(f, capacity, rate, 0.0)), 0.0, rest) ==>
      Apart(Limiter(rate, capacity, map[]), 0.0, Burst("", capacity.Floor, 0.0) + rest)
  {
    var drained := Only(rate, capacity, "", Bucket(f, capacity, rate, 0.0));
    if Apart(drained, 0.0, rest) {
      hide Accrual, Refilled;
      var l := Limiter(rate, capacity, map[]);
      var F: nat := capacity.Floor;
      var drain := Burst("", F, 0.0);
      FreshIsFull(rate, capacity, 0.0);
      BurstOutcome(l, "", F, 0.0, true);
      BurstOutcome(l, "", F, 0.0, false);
      BurstTimely("", F, 0.0, rest, 0.0);
      AnswersConcat(l, drain, rest, true);
      AnswersConcat(l, drain, rest, false);
      hide Answers, Run, Timely, After;
      AllTrueUnique(Answers(l, drain, true), Answers(l, drain, false), l, F);
      SamePrefix(Answers(l, drain, true), Answers(drained, rest, true), Answers(drained, rest, false));
    }
  }

  // What tells the two apart once a full bucket has been drained at time 0.
  lemma DrainedShows(rate: real, capacity: real, f: real)
    requires rate >= 0.0 && capacity >= 1.0 && capacity > IDLE * rate
    requires f == capacity - capacity.Floor as real
    ensures var drained := Only(rate, capacity, "", Bucket(f, capacity, rate, 0.0));
      exists rest :: Apart(drained, 0.0, rest)
  {
    var drained := Only(rate, capacity, "", Bucket(f, capacity, rate, 0.0));
    if rate == 0.0 {
      StuckBucketShows(capacity, f);
      assert Apart(drained, 0.0, [Sweep(601.0), Allow("", 601.0)]);
    } else {
      Waits(rate, capacity);
      var wait, T :| Completes(wait, rate, capacity) && T > IDLE && Starves(T, rate, capacity);
      EmptiedShows(rate, capacity, f, wait, T);
    }
  }

  // Traffic that the two limiters answer differently from the state l on.
  ghost predicate Apart(l: Limiter, clock: real, events: seq<Event>) {
    Timely(clock, events) && Traffic(events) && Answers(l, events, true) != Answers(l, events, false)
  }

  lemma EmptiedShows(rate: real, capacity: real, f: real, wait: real, T: real)
    requires rate >= 0.0 && capacity >= 1.0 && f == capacity - capacity.Floor as real
    requires Completes(wait, rate, capacity) && T > IDLE && Starves(T, rate, capacity)
    ensures var drained := Only(rate, capacity, "", Bucket(f, capacity, rate, 0.0));
      exists rest :: Apart(drained, 0.0, rest)
  {
    assert wait >= 0.0;
    AfterWaiting(f, capacity, rate, 0.0, wait);
    hide Accrual, Completes, Starves, Refilled;
    var F: nat := capacity.Floor;
    var drained := Only(rate, capacity, "", Bucket(f, capacity, rate, 0.0));
    var emptied := Only(rate, capacity, "", Bucket(0.0, capacity, rate, wait));
    var tail := [Sweep(wait + T)] + Probe("", F, wait + T, wait);
    var rest := [Allow("", wait)] + tail;
    assert rest[1..] == tail;
    SweepShows(emptied, "", wait, T, wait);
    assert After(drained, Allow("", wait), true) == emptied == After(drained, Allow("", wait), false);
    assert Answers(drained, rest, true) == [Answer(drained, "", wait)] + Answers(emptied, tail, true);
    assert Answers(drained, rest, false) == [Answer(drained, "", wait)] + Answers(emptied, tail, false);
    SamePrefix([Answer(drained, "", wait)], Answers(emptied, tail, true), Answers(emptied, tail, false));
    assert Apart(drained, 0.0, rest);
  }

  lemma SamePrefix(p: seq<bool>, a: seq<bool>, b: seq<bool>)
    requires a != b
    ensures p + a != p + b
  {
    assert (p + a)[|p|..] == a && (p + b)[|p|..] == b;
  }

  lemma AllTrueUnique(p: seq<bool>, q: seq<bool>, l: Limiter, F: nat)
    requires AllTrue(p) && AllTrue(q)
    requires p == Answers(l, Burst("", F, 0.0), true) && q == Answers(l, Burst("", F, 0.0), false)
    ensures p == q
  {
    AnswerCount(l, l, Burst("", F, 0.0), true, false);
    forall i | 0 <= i < |p| ensures p[i] == q[i] {
      assert p[i] in p && q[i] in q;
    }
  }

  lemma Waits(rate: real, capacity: real)
    requires rate > 0.0 && capacity >= 1.0 && capacity > IDLE * rate
    ensures exists wait :: Completes(wait, rate, capacity)
    ensures exists T :: T > IDLE && Starves(T, rate, capacity)
  {
    var missing := 1.0 - (capacity - capacity.Floor as real);
    assert Completes(missing / rate, rate, capacity);
    var full := capacity / rate;
    assert full * rate == capacity;
    assert full > IDLE by {
      if full <= IDLE {
        Scale(rate, full, IDLE);
      }
    }
    var T := (IDLE + full) / 2.0;
    assert (full - T) * rate > 0.0;
    assert Starves(T, rate, capacity);
  }

  // With no refill at all, one call after the sweep is enough.
  lemma StuckBucketShows(capacity: real, f: real)
    requires capacity >= 1.0 && 0.0 <= f < 1.0
    ensures var l := Only(0.0, capacity, "", Bucket(f, capacity, 0.0, 0.0));
      var events := [Sweep(601.0), Allow("", 601.0)];
      Timely(0.0, events) && Traffic(events) && Answers(l, events, true) != Answers(l, events, false)
  {
    var l := Only(0.0, capacity, "", Bucket(f, capacity, 0.0, 0.0));
    var events := [Sweep(601.0), Allow("", 601.0)];
    assert events[1..] == [Allow("", 601.0)] && events[1..][1..] == [];
    var l1 := After(l, Sweep(601.0), true);
    assert l1.buckets == map[];
    assert Answers(l1, [Allow("", 601.0)], true) == [true] by {
      assert Answers(l1, [Allow("", 601.0)], true)
             == [Answer(l1, "", 601.0)] + Answers(After(l1, Allow("", 601.0), true), [], true);
    }
    LastAnswer(0.0, capacity, "", Bucket(f, capacity, 0.0, 0.0), 601.0, false);
    assert Answers(l, events, true) == Answers(l1, events[1..], true);
    assert Answers(l, events, false) == Answers(l, events[1..], false);
  }

  // MAIN RESULT. For traffic at a fixed rate and burst the sweep is invisible
  // exactly when the bucket never grants anything or refills while idle.
  lemma EvictionInvisibleIff(rate: real, capacity: real)
    requires rate >= 0.0 && capacity >= 0.0
    ensures Invisible(rate, capacity) <==> (capacity < 1.0 || capacity <= IDLE * rate)
  {
    var l := Limiter(rate, capacity, map[]);
    if capacity < 1.0 {
      forall start: real, events: seq<Event> | Timely(start, events) && Traffic(events)
        ensures Answers(l, events, true) == Answers(l, events, false)
      {
        TinyBurstRefuses(l, events, true);
        TinyBurstRefuses(l, events, false);
        AllFalseUnique(Answers(l, events, true), Answers(l, events, false));
      }
    } else if capacity <= IDLE * rate {
      forall start: real, events: seq<Event> | Timely(start, events) && Traffic(events)
        ensures Answers(l, events, true) == Answers(l, events, false)
      {
        EvictionInvisible(rate, capacity, start, events);
      }
    } else {
      EvictionShows(rate, capacity);
    }
  }

  lemma AllFalseUnique(p: seq<bool>, q: seq<bool>)
    requires |p| == |q| && (forall a :: a in p ==> !a) && (forall a :: a in q ==> !a)
    ensures p == q
  {
    forall i | 0 <= i < |p| ensures p[i] == q[i] {
      assert p[i] in p && q[i] in q;
    }
  }

  // ---- The object -------------------------------------------------------

  class IPRateLimiter {
    var shards: array<map<string, TokenBucket>>
    var rate: real
    var capacity: real
    ghost var all: map<string, TokenBucket>

    ghost predicate Valid()
      reads this, shards
    {
      && shards.Length == SHARDS
      && (forall i :: 0 <= i < SHARDS ==> Holds(shards[i], all, i))
      && (forall x, y :: x in all && y in all && all[x] == all[y] ==> x == y)
    }

    ghost function View(): Limiter
      reads this, all.Values
    {
      Limiter(rate, capacity, map ip | ip in all :: all[ip].Value())
    }

    constructor (rps: real, burst: real)
      ensures Valid() && fresh(shards)
      ensures View() == Limiter(rps, burst, map[])
    {
      shards := new map<string, TokenBucket>[SHARDS](_ => map[]);
      rate, capacity, all := rps, burst, map[];
    }

    // The bucket of an address, created full on first sight.
    method Find(ip: string, now: real) returns (limiter: TokenBucket)
      requires Valid()
      modifies this, shards
      ensures Valid() && shards == old(shards)
      ensures fresh(all.Values - old(all.Values))
      ensures ip in all && limiter == all[ip]
      ensures forall x :: x in old(all) ==> x in all && all[x] == old(all[x])
      ensures View() == old(View()).(buckets := old(View()).buckets[ip := Lookup(old(View()), ip, now)])
    {
      hide Shard, Holds;
      var i := Shard(ip);
      HoldsAt(shards[i], all, i, ip);
      if ip in shards[i] {
        limiter := shards[i][ip];
      } else {
        limiter := new TokenBucket(rate, capacity, now);
        ghost var was, before := shards[..], all;
        shards[i] := shards[i][ip := limiter];
        all := all[ip := limiter];
        forall j | 0 <= j < SHARDS
          ensures Holds(shards[j], all, j)
        {
          HoldsPut(was[j], before, j, ip, limiter);
        }
      }
      assert View().buckets == old(View()).buckets[ip := Lookup(old(View()), ip, now)];
    }

    method Allow(ip: string, now: real) returns (allowed: bool)
      requires Valid()
      modifies this, shards, all.Values
      ensures Valid() && shards == old(shards)
      ensures fresh(all.Values - old(all.Values))
      ensures View() == After(old(View()), Event.Allow(ip, now), true)
      ensures allowed == Answer(old(View()), ip, now)
    {
      var limiter := Find(ip, now);
      assert limiter in all.Values;
      ghost var found := View();
      allowed := limiter.Allow(now);
      assert View().buckets == found.buckets[ip := Take(found.buckets[ip], 1.0, now)];
    }

    // Give every bucket of every shard the new rate.
    method PushRate(rps: real)
      requires Valid()
      modifies all.Values
      ensures Valid()
      ensures View() == old(View()).(buckets := WithRate(old(View()), rps).buckets)
    {
      hide Shard, Holds;
      var i := 0;
      while i < SHARDS
        invariant 0 <= i <= SHARDS && Valid()
        invariant forall ip :: ip in all ==>
          all[ip].Value() == if Shard(ip) < i then old(all[ip].Value()).(rate := rps) else old(all[ip].Value())
      {
        var todo := shards[i].Keys;
        forall ip | Shard(ip) == i
          ensures ip in all <==> ip in todo
        {
          HoldsAt(shards[i], all, i, ip);
        }
        while todo != {}
          invariant todo <= shards[i].Keys && Valid()
          invariant forall ip :: ip in all ==>
            all[ip].Value() ==
              if Shard(ip) < i || (Shard(ip) == i && ip !in todo)
              then old(all[ip].Value()).(rate := rps) else old(all[ip].Value())
        {
          var ip :| ip in todo;
          HoldsAt(shards[i], all, i, ip);
          var limiter := shards[i][ip];
          limiter.SetRate(rps);
          todo := todo - {ip};
        }
        i := i + 1;
      }
    }

    method SetGlobalRate(rps: real)
      requires Valid()
      modifies this, all.Values
      ensures Valid() && all == old(all) && shards == old(shards)
      ensures View() == After(old(View()), Event.SetGlobalRate(rps), true)
    {
      rate := rps;
      PushRate(rps);
    }

    method SetRate(rps: real, burst: real)
      requires Valid()
      modifies this, all.Values
      ensures Valid() && all == old(all) && shards == old(shards)
      ensures View() == After(old(View()), Event.SetRate(rps, burst), true)
    {
      if rps > 0.0 {
        rate := rps;
      }
      if burst > 0.0 {
        capacity := burst;
      }
      if rps > 0.0 {
        PushRate(rps);
      }
    }

    // One tick of cleanupLoop.
    method Sweep(now: real)
      requires Valid()
      modifies this`all, shards
      ensures Valid() && shards == old(shards)
      ensures all.Values <= old(all.Values)
      ensures View() == After(old(View()), Event.Sweep(now), true)
    {
      hide Shard, Holds;
      var i := 0;
      while i < SHARDS
        invariant 0 <= i <= SHARDS && Valid() && shards == old(shards)
        invariant forall ip :: ip in all <==>
          ip in old(all) && !(Shard(ip) < i && Idle(old(all)[ip].Value(), now))
        invariant forall ip :: ip in all ==> all[ip] == old(all)[ip]
      {
        SweepShard(i, now);
        i := i + 1;
      }
    }

    method SweepShard(i: nat, now: real)
      requires Valid() && i < SHARDS
      modifies this`all, shards
      ensures Valid() && shards == old(shards)
      ensures forall ip :: ip in all <==>
        ip in old(all) && !(Shard(ip) == i && Idle(old(all)[ip].Value(), now))
      ensures forall ip :: ip in all ==> all[ip] == old(all)[ip]
    {
      hide Shard, Holds;
      var todo := shards[i].Keys;
      forall ip | Shard(ip) == i
        ensures ip in all <==> ip in todo
      {
        HoldsAt(shards[i], all, i, ip);
      }
      while todo != {}
        invariant Valid() && shards == old(shards)
        invariant todo <= shards[i].Keys
        invariant forall ip :: ip in all <==>
          ip in old(all) && !(Shard(ip) == i && ip !in todo && Idle(old(all)[ip].Value(), now))
        invariant forall ip :: ip in all ==> all[ip] == old(all)[ip]
      {
        var ip :| ip in todo;
        HoldsAt(shards[i], all, i, ip);
        var seen := shards[i][ip].LastSeen();
        if now - seen > IDLE {
          Evict(i, ip);
        }
        todo := todo - {ip};
      }
    }

    method Evict(i: nat, ip: string)
      requires Valid() && i < SHARDS && Shard(ip) == i
      modifies this`all, shards
      ensures Valid() && shards == old(shards) && all == old(all) - {ip}
      ensures shards[i] == old(shards[i]) - {ip}
    {
      hide Shard, Holds;
      ghost var was, held := shards[..], all;
      shards[i] := shards[i] - {ip};
      all := all - {ip};
      forall j | 0 <= j < SHARDS
        ensures Holds(shards[j], all, j)
      {
        HoldsDrop(was[j], held, j, ip);
      }
    }
  }
}
