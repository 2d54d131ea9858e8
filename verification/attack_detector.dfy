// The per-domain "under attack" hysteresis of core/server.go.
module AttackDetectors {
  import opened Text

  // What a tick reads for one configured domain: its own rate limit and the requests per
  // second of this node and of its peers.
  datatype Reading = Reading(domain: string, rateLimitRPS: int, localRPS: int, peerRPS: int)

  datatype Event =
    | Started(name: string, at: real)
    | Ended(name: string, at: real, duration: real)

  // One domain checked at one tick.
  datatype Check = Check(name: string, exceeded: bool, at: real)

  datatype State = State(
    underAttack: map<string, bool>,
    normalCount: map<string, int>,
    attackStart: map<string, real>,
    attacksDetected: int,
    events: seq<Event>)

  const QUIET: int := 10
  const DEFAULT_THRESHOLD: int := 200

  function Threshold(emergencyRPS: int, rateLimitRPS: int): int {
    if rateLimitRPS > 0 then rateLimitRPS
    else if emergencyRPS == 0 then DEFAULT_THRESHOLD
    else emergencyRPS
  }

  function CheckOf(emergencyRPS: int, r: Reading, now: real): Check {
    Check(ToLower(r.domain), r.localRPS + r.peerRPS > Threshold(emergencyRPS, r.rateLimitRPS), now)
  }

  function ChecksOf(emergencyRPS: int, rs: seq<Reading>, now: real): seq<Check> {
    if rs == [] then []
    else ChecksOf(emergencyRPS, rs[..|rs| - 1], now) + [CheckOf(emergencyRPS, rs[|rs| - 1], now)]
  }

  // ---- Runs -------------------------------------------------------------

  function Under(s: State, d: string): bool {
    d in s.underAttack && s.underAttack[d]
  }

  function Quiet(s: State, d: string): int {
    if d in s.normalCount then s.normalCount[d] else 0
  }

  function StartOf(s: State, d: string, now: real): real {
    if d in s.attackStart then s.attackStart[d] else now
  }

  function Step(s: State, c: Check): State {
    var d := c.name;
    if c.exceeded then
      var calm := s.(normalCount := s.normalCount[d := 0]);
      if Under(s, d) then calm
      else calm.(underAttack := s.underAttack[d := true], attackStart := s.attackStart[d := c.at],
                 attacksDetected := s.attacksDetected + 1, events := s.events + [Started(d, c.at)])
    else if Under(s, d) then
      if Quiet(s, d) + 1 >= QUIET then
        s.(normalCount := s.normalCount[d := 0], underAttack := s.underAttack[d := false],
           events := s.events + [Ended(d, c.at, c.at - StartOf(s, d, c.at))])
      else s.(normalCount := s.normalCount[d := Quiet(s, d) + 1])
    else s
  }

  const START: State := State(map[], map[], map[], 0, [])

  function Run(checks: seq<Check>): State {
    if checks == [] then START else Step(Run(checks[..|checks| - 1]), checks[|checks| - 1])
  }

  // Which of a domain's checks exceeded the threshold, in order.
  function Seen(checks: seq<Check>, d: string): seq<bool> {
    if checks == [] then []
    else
      var c := checks[|checks| - 1];
      Seen(checks[..|checks| - 1], d) + if c.name == d then [c.exceeded] else []
  }

  // ---- The sliding window -----------------------------------------------

  // One of the last ten checks exceeded the threshold.
  predicate Recent(h: seq<bool>) {
    exists k :: 0 <= k < |h| && |h| - QUIET <= k && h[k]
  }

  predicate Tracks(under: bool, quiet: int, h: seq<bool>) {
    if under then
      && 0 <= quiet < QUIET && quiet < |h|
      && h[|h| - 1 - quiet]
      && forall k :: |h| - quiet <= k < |h| ==> !h[k]
    else !Recent(h)
  }

  lemma StepElsewhere(s: State, c: Check, d: string)
    ensures c.name != d ==> Under(Step(s, c), d) == Under(s, d) && Quiet(Step(s, c), d) == Quiet(s, d)
  {}

  lemma StepTracks(s: State, c: Check, h: seq<bool>)
    ensures Tracks(Under(s, c.name), Quiet(s, c.name), h) ==>
      Tracks(Under(Step(s, c), c.name), Quiet(Step(s, c), c.name), h + [c.exceeded])
  {}

  lemma {:induction false} RunTracks(checks: seq<Check>, d: string)
    ensures Tracks(Under(Run(checks), d), Quiet(Run(checks), d), Seen(checks, d))
  {
    if checks != [] {
      var past, c := checks[..|checks| - 1], checks[|checks| - 1];
      RunTracks(past, d);
      if c.name == d {
        StepTracks(Run(past), c, Seen(past, d));
      } else {
        StepElsewhere(Run(past), c, d);
        assert Seen(checks, d) == Seen(past, d);
      }
      hide Tracks, Step, Under, Quiet;
    }
  }

  // A domain is under attack exactly when one of its last ten checks exceeded the threshold.
  lemma UnderAttackIff(checks: seq<Check>, d: string)
    ensures Under(Run(checks), d) <==> Recent(Seen(checks, d))
  {
    RunTracks(checks, d);
  }

  // ---- Ticks ------------------------------------------------------------

  function Flatten(ticks: seq<seq<Check>>): seq<Check> {
    if ticks == [] then [] else Flatten(ticks[..|ticks| - 1]) + ticks[|ticks| - 1]
  }

  predicate CheckedAt(tick: seq<Check>, d: string, p: int) {
    0 <= p < |tick| && tick[p].name == d
  }

  ghost predicate CheckedOnlyAt(tick: seq<Check>, d: string, p: int) {
    CheckedAt(tick, d, p) && forall q :: CheckedAt(tick, d, q) ==> q == p
  }

  // The domain is configured, once.
  ghost predicate CheckedOnce(tick: seq<Check>, d: string) {
    exists p :: CheckedOnlyAt(tick, d, p)
  }

  ghost predicate Exceeded(tick: seq<Check>, d: string) {
    exists p :: (CheckedAt(tick, d, p) && tick[p].exceeded)
  }

  lemma {:induction false} SeenConcat(a: seq<Check>, b: seq<Check>, d: string)
    ensures Seen(a + b, d) == Seen(a, d) + Seen(b, d)
  {
    if b == [] {
      assert a + b == a;
    } else {
      SeenConcat(a, b[..|b| - 1], d);
      assert (a + b)[..|a + b| - 1] == a + b[..|b| - 1];
    }
  }

  lemma {:induction false} NotSeen(tick: seq<Check>, d: string)
    requires forall q :: !CheckedAt(tick, d, q)
    ensures Seen(tick, d) == []
  {
    if tick != [] {
      var n := |tick| - 1;
      assert forall q :: CheckedAt(tick[..n], d, q) ==> CheckedAt(tick, d, q);
      assert !CheckedAt(tick, d, n);
      NotSeen(tick[..n], d);
    }
  }

  lemma {:induction false} SeenAt(tick: seq<Check>, d: string, p: int)
    requires CheckedOnlyAt(tick, d, p)
    ensures Seen(tick, d) == [tick[p].exceeded]
  {
    var n := |tick| - 1;
    assert forall q :: CheckedAt(tick[..n], d, q) ==> CheckedAt(tick, d, q);
    if p == n {
      NotSeen(tick[..n], d);
    } else {
      assert !CheckedAt(tick, d, n);
      SeenAt(tick[..n], d, p);
    }
  }

  lemma SeenInTick(tick: seq<Check>, d: string)
    requires CheckedOnce(tick, d)
    ensures Seen(tick, d) == [Exceeded(tick, d)]
  {
    var p :| CheckedOnlyAt(tick, d, p);
    SeenAt(tick, d, p);
  }

  lemma {:induction false} SeenPerTick(ticks: seq<seq<Check>>, d: string)
    requires forall k :: 0 <= k < |ticks| ==> CheckedOnce(ticks[k], d)
    ensures |Seen(Flatten(ticks), d)| == |ticks|
    ensures forall k :: 0 <= k < |ticks| ==> Seen(Flatten(ticks), d)[k] == Exceeded(ticks[k], d)
  {
    hide Seen, CheckedOnce, Exceeded;
    if ticks != [] {
      var n := |ticks| - 1;
      SeenPerTick(ticks[..n], d);
      SeenConcat(Flatten(ticks[..n]), ticks[n], d);
      SeenInTick(ticks[n], d);
    } else {
      NoneSeen(d);
    }
  }

  lemma NoneSeen(d: string)
    ensures Seen([], d) == []
  {}

  // When a domain is configured once, ten checks are ten ticks.
  lemma SlidingWindow(ticks: seq<seq<Check>>, d: string)
    requires forall k :: 0 <= k < |ticks| ==> CheckedOnce(ticks[k], d)
    ensures Under(Run(Flatten(ticks)), d) <==>
            exists k :: 0 <= k < |ticks| && |ticks| - QUIET <= k && Exceeded(ticks[k], d)
  {
    SeenPerTick(ticks, d);
    UnderAttackIff(Flatten(ticks), d);
    hide Seen, CheckedOnce, Exceeded, Run;
  }

  // What one tick goes by: the configured emergency threshold, and a reading per domain.
  datatype Tick = Tick(emergencyRPS: int, readings: seq<Reading>, now: real)

  function ChecksIn(ticks: seq<Tick>): (r: seq<seq<Check>>)
    ensures |r| == |ticks|
  {
    seq(|ticks|, k requires 0 <= k < |ticks| => ChecksOf(ticks[k].emergencyRPS, ticks[k].readings, ticks[k].now))
  }

  predicate ReadAt(t: Tick, d: string, p: int) {
    0 <= p < |t.readings| && ToLower(t.readings[p].domain) == d
  }

  ghost predicate ReadOnlyAt(t: Tick, d: string, p: int) {
    ReadAt(t, d, p) && forall q :: ReadAt(t, d, q) ==> q == p
  }

  // The cluster's requests are above the domain's own limit, if it has one, else above the
  // emergency threshold, if there is one, else above 200.
  predicate Overloaded(t: Tick, r: Reading) {
    var rps := r.localRPS + r.peerRPS;
    && (r.rateLimitRPS > 0 ==> rps > r.rateLimitRPS)
    && (r.rateLimitRPS <= 0 && t.emergencyRPS != 0 ==> rps > t.emergencyRPS)
    && (r.rateLimitRPS <= 0 && t.emergencyRPS == 0 ==> rps > 200)
  }

  lemma {:induction false} ChecksRead(t: Tick, n: nat)
    requires n <= |t.readings|
    ensures var checks := ChecksOf(t.emergencyRPS, t.readings[..n], t.now);
      |checks| == n && forall p :: 0 <= p < n ==>
        checks[p].name == ToLower(t.readings[p].domain) && checks[p].exceeded == Overloaded(t, t.readings[p])
  {
    if n > 0 {
      ChecksRead(t, n - 1);
      assert t.readings[..n][..n - 1] == t.readings[..n - 1];
    }
  }

  lemma TickReads(t: Tick, d: string, p: int)
    requires ReadOnlyAt(t, d, p)
    ensures var checks := ChecksOf(t.emergencyRPS, t.readings, t.now);
      CheckedOnce(checks, d) && (Exceeded(checks, d) <==> Overloaded(t, t.readings[p]))
  {
    ChecksRead(t, |t.readings|);
    assert t.readings[..|t.readings|] == t.readings;
    var checks := ChecksOf(t.emergencyRPS, t.readings, t.now);
    hide ChecksOf, Overloaded, ToLower;
    assert forall q :: CheckedAt(checks, d, q) <==> ReadAt(t, d, q);
    assert CheckedOnlyAt(checks, d, p);
  }

  // MAIN RESULT. A domain that is configured once is under attack exactly when in one of the last
  // ten ticks the requests of the whole cluster to it were above its limit.
  lemma UnderAttackFromReadings(ticks: seq<Tick>, d: string)
    requires forall k :: 0 <= k < |ticks| ==> exists p :: ReadOnlyAt(ticks[k], d, p)
    ensures Under(Run(Flatten(ChecksIn(ticks))), d) <==>
      exists k, p :: 0 <= k < |ticks| && |ticks| - 10 <= k && ReadAt(ticks[k], d, p) &&
                     Overloaded(ticks[k], ticks[k].readings[p])
  {
    var checks := ChecksIn(ticks);
    forall k | 0 <= k < |ticks|
      ensures CheckedOnce(checks[k], d)
      ensures Exceeded(checks[k], d) <==>
        exists p :: ReadAt(ticks[k], d, p) && Overloaded(ticks[k], ticks[k].readings[p])
    {
      var p :| ReadOnlyAt(ticks[k], d, p);
      TickReads(ticks[k], d, p);
    }
    hide CheckedOnce, Exceeded, ReadAt, ReadOnlyAt, Overloaded, Run, Flatten, Under;
    SlidingWindow(checks, d);
  }

  // ---- Start and end events ---------------------------------------------

  function EventsOf(events: seq<Event>, d: string): seq<Event> {
    if events == [] then []
    else
      var e := events[|events| - 1];
      EventsOf(events[..|events| - 1], d) + if e.name == d then [e] else []
  }

  // Starts and ends take turns, a start first, and each end reports the time since its start.
  predicate Alternates(es: seq<Event>) {
    forall k :: 0 <= k < |es| ==>
      if k == 0 || es[k - 1].Ended? then es[k].Started?
      else es[k].Ended? && es[k].duration == es[k].at - es[k - 1].at
  }

  function Starts(events: seq<Event>): nat {
    if events == [] then 0
    else Starts(events[..|events| - 1]) + if events[|events| - 1].Started? then 1 else 0
  }

  predicate Paired(s: State, d: string) {
    var es := EventsOf(s.events, d);
    && Alternates(es)
    && (Under(s, d) <==> es != [] && es[|es| - 1].Started?)
    && (Under(s, d) ==> d in s.attackStart && es[|es| - 1].at == s.attackStart[d])
  }

  lemma Appended(events: seq<Event>, e: Event, d: string)
    ensures EventsOf(events + [e], d) == EventsOf(events, d) + if e.name == d then [e] else []
    ensures Starts(events + [e]) == Starts(events) + if e.Started? then 1 else 0
  {
    assert (events + [e])[..|events|] == events;
  }

  lemma AlternatesStep(es: seq<Event>, e: Event)
    requires Alternates(es)
    requires if es == [] || es[|es| - 1].Ended? then e.Started?
             else e.Ended? && e.duration == e.at - es[|es| - 1].at
    ensures Alternates(es + [e])
  {}

  lemma PairedStep(s: State, c: Check, d: string)
    requires Paired(s, d)
    ensures Paired(Step(s, c), d)
  {
    var s' := Step(s, c);
    var es := EventsOf(s.events, d);
    var e := if c.exceeded then Started(c.name, c.at) else Ended(c.name, c.at, c.at - StartOf(s, c.name, c.at));
    Appended(s.events, e, d);
    hide EventsOf, Starts, Alternates;
    if c.exceeded && !Under(s, c.name) {
      if c.name == d {
        AlternatesStep(es, e);
        assert EventsOf(s'.events, d) == es + [e];
      } else {
        assert EventsOf(s'.events, d) == es;
      }
    } else if !c.exceeded && Under(s, c.name) && Quiet(s, c.name) + 1 >= QUIET {
      if c.name == d {
        AlternatesStep(es, e);
        assert EventsOf(s'.events, d) == es + [e];
      } else {
        assert EventsOf(s'.events, d) == es;
      }
    } else {
      assert s'.events == s.events;
    }
  }

  lemma CountStep(s: State, c: Check)
    ensures Starts(Step(s, c).events) - Starts(s.events) == Step(s, c).attacksDetected - s.attacksDetected
  {
    Appended(s.events, Started(c.name, c.at), c.name);
    Appended(s.events, Ended(c.name, c.at, c.at - StartOf(s, c.name, c.at)), c.name);
    hide Starts, EventsOf, StartOf, Under, Quiet;
  }

  // For every domain, starts and ends strictly alternate, a start is open exactly while one
  // of the last ten checks exceeded, and AttacksDetected counts the starts of all domains.
  lemma {:induction false} StartsAndEndsAlternate(checks: seq<Check>, d: string)
    ensures var s := Run(checks);
            var es := EventsOf(s.events, d);
            && Alternates(es)
            && (Recent(Seen(checks, d)) <==> es != [] && es[|es| - 1].Started?)
            && s.attacksDetected == Starts(s.events)
    ensures Paired(Run(checks), d)
  {
    UnderAttackIff(checks, d);
    hide Recent, Seen, Alternates;
    if checks != [] {
      var past := checks[..|checks| - 1];
      StartsAndEndsAlternate(past, d);
      PairedStep(Run(past), checks[|checks| - 1], d);
      CountStep(Run(past), checks[|checks| - 1]);
    } else {
      assert Alternates([]) by { NoEvents(); }
    }
  }

  lemma NoEvents()
    ensures Alternates([])
  {}

  // An event is raised exactly when a check moves its domain into the window or out of it.
  lemma EventsAtTheEdges(checks: seq<Check>, c: Check)
    ensures var h := Seen(checks, c.name);
            var raised := Run(checks + [c]).events[|Run(checks).events|..];
            && |Run(checks).events| <= |Run(checks + [c]).events|
            && (raised == [Started(c.name, c.at)] <==> !Recent(h) && c.exceeded)
            && (|raised| == 1 && raised[0].Ended? <==> Recent(h) && !Recent(h + [c.exceeded]))
            && |raised| <= 1
  {
    assert (checks + [c])[..|checks|] == checks;
    UnderAttackIff(checks, c.name);
    UnderAttackIff(checks + [c], c.name);
    hide Recent, Seen;
    assert Seen(checks + [c], c.name) == Seen(checks, c.name) + [c.exceeded] by { SeenLast(checks, c); }
    ExceededIsRecent(Seen(checks, c.name));
  }

  lemma SeenLast(checks: seq<Check>, c: Check)
    ensures Seen(checks + [c], c.name) == Seen(checks, c.name) + [c.exceeded]
  {
    assert (checks + [c])[..|checks|] == checks;
  }

  lemma ExceededIsRecent(h: seq<bool>)
    ensures Recent(h + [true])
  {
    assert (h + [true])[|h|];
  }

  lemma RunMore(checks: seq<Check>, c: Check)
    ensures Run(checks + [c]) == Step(Run(checks), c)
  {
    assert (checks + [c])[..|checks|] == checks;
  }

  // ---- The detector -----------------------------------------------------

  class Detector {
    var domainUnderAttack: map<string, bool>
    var domainNormalCount: map<string, int>
    var domainAttackStart: map<string, real>
    var attacksDetected: int
    var alerts: seq<Event>
    ghost var checks: seq<Check>

    ghost function View(): State
      reads this
    {
      State(domainUnderAttack, domainNormalCount, domainAttackStart, attacksDetected, alerts)
    }

    ghost predicate Valid()
      reads this
    {
      View() == Run(checks)
    }

    constructor ()
      ensures Valid() && checks == []
    {
      domainUnderAttack, domainNormalCount, domainAttackStart := map[], map[], map[];
      attacksDetected, alerts := 0, [];
      checks := [];
    }

    // One tick over the configured domains; afterwards each domain of the tick is under
    // attack exactly when one of its last ten checks exceeded.
    method Tick(emergencyRPS: int, domains: seq<Reading>, now: real)
      requires Valid()
      modifies this
      ensures Valid() && checks == old(checks) + ChecksOf(emergencyRPS, domains, now)
      ensures forall d ::
        (d in domainUnderAttack && domainUnderAttack[d]) <==>
        Recent(Seen(old(checks) + ChecksOf(emergencyRPS, domains, now), d))
    {
      var thresholdRPS := if emergencyRPS == 0 then DEFAULT_THRESHOLD else emergencyRPS;
      for i := 0 to |domains|
        invariant Valid() && checks == old(checks) + ChecksOf(emergencyRPS, domains[..i], now)
      {
        var r := domains[i];
        var dThreshold := if r.rateLimitRPS <= 0 then thresholdRPS else r.rateLimitRPS;
        ghost var c := CheckOf(emergencyRPS, r, now);
        assert domains[..i + 1][..i] == domains[..i];
        assert ChecksOf(emergencyRPS, domains[..i + 1], now) == ChecksOf(emergencyRPS, domains[..i], now) + [c];
        Observe(ToLower(r.domain), r.localRPS + r.peerRPS > dThreshold, now);
      }
      assert domains[..|domains|] == domains;
      forall d: string
        ensures (d in domainUnderAttack && domainUnderAttack[d]) <==> Recent(Seen(checks, d))
      {
        UnderAttackIff(checks, d);
      }
    }

    method Observe(dName: string, isDomainAttack: bool, now: real)
      requires Valid()
      modifies this
      ensures Valid() && checks == old(checks) + [Check(dName, isDomainAttack, now)]
    {
      RunMore(checks, Check(dName, isDomainAttack, now));
      hide Run;
      var isCurrentlyUnderAttack := dName in domainUnderAttack && domainUnderAttack[dName];
      if isDomainAttack {
        domainNormalCount := domainNormalCount[dName := 0];
        if !isCurrentlyUnderAttack {
          domainUnderAttack := domainUnderAttack[dName := true];
          domainAttackStart := domainAttackStart[dName := now];
          attacksDetected := attacksDetected + 1;
          alerts := alerts + [Started(dName, now)];
        }
      } else if isCurrentlyUnderAttack {
        var nc := 0;
        if dName in domainNormalCount {
          nc := domainNormalCount[dName];
        }
        nc := nc + 1;
        domainNormalCount := domainNormalCount[dName := nc];
        if nc >= QUIET {
          domainUnderAttack := domainUnderAttack[dName := false];
          var start := now;
          if dName in domainAttackStart {
            start := domainAttackStart[dName];
          }
          alerts := alerts + [Ended(dName, now, now - start)];
          domainNormalCount := domainNormalCount[dName := 0];
          assert old(domainNormalCount)[dName := nc][dName := 0] == old(domainNormalCount)[dName := 0];
        }
      }
      assert View() == Step(old(View()), Check(dName, isDomainAttack, now));
      hide Step;
      checks := checks + [Check(dName, isDomainAttack, now)];
    }
  }
}
