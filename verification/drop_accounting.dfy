// core/xdp.go: the user-space manager that bans addresses in the kernel map
// and turns its per-address counters into a lifetime total.
module DropAccounting {
  import opened Blacklists
  import opened Bytes
  import opened PacketFilters

  // The kernel's counters, the manager's memory of them, and (for
  // specification only) the packets really dropped, by source.
  datatype System = System(
    kernel: map<Key, nat>, lastObserved: map<Key, nat>, lifetime: nat, dropped: map<Key, nat>)

  datatype Event =
    | Packet(frame: Frame)
    | Ban(key: Key)
    | Unban(key: Key)
    | Visit(key: Key)   // a poll reaches one entry of the map
    | Poll              // a poll that no other event interrupts

  // A manager that attaches to a kernel map: it has observed nothing yet, and
  // the counters it finds are drops like any others.
  function Attach(kernel: map<Key, nat>): System {
    System(kernel, map[], 0, kernel)
  }

  function Max(a: nat, b: nat): nat {
    if a < b then b else a
  }

  // What a poll remembers: the larger of the old memory and the counter.
  function Observed(last: map<Key, nat>, kernel: map<Key, nat>): map<Key, nat> {
    map k | k in last.Keys + kernel.Keys && (k in last || kernel[k] > 0) :: Max(Get(last, k), Get(kernel, k))
  }

  // ... and what it adds to the lifetime total.
  ghost function PolledTotal(lifetime: nat, last: map<Key, nat>, kernel: map<Key, nat>): nat {
    ObservedGrows(last, kernel);
    lifetime + (Sum(Observed(last, kernel)) - Sum(last))
  }

  ghost function Step(s: System, e: Event): System {
    match e
    case Packet(frame) =>
      var outcome := NewOutcome(frame, s.kernel.Keys);
      s.(kernel := Counted(s.kernel, outcome), dropped := Counted(s.dropped, outcome))
    case Ban(key) => s.(kernel := Inserted(s.kernel, key))
    case Unban(key) => s.(kernel := s.kernel - {key})
    case Visit(key) =>
      if key in s.kernel && s.kernel[key] > Get(s.lastObserved, key) then
        s.(lifetime := s.lifetime + (s.kernel[key] - Get(s.lastObserved, key)),
           lastObserved := s.lastObserved[key := s.kernel[key]])
      else s
    case Poll =>
      s.(lifetime := PolledTotal(s.lifetime, s.lastObserved, s.kernel),
         lastObserved := Observed(s.lastObserved, s.kernel))
  }

  ghost function Run(start: System, events: seq<Event>): System {
    if events == [] then start else Step(Run(start, events[..|events| - 1]), events[|events| - 1])
  }

  // What GetStats reports as the total.
  ghost function Reported(s: System): nat {
    Max(s.lifetime, Sum(s.kernel))
  }

  ghost function TrulyDropped(s: System): nat {
    Sum(s.dropped)
  }

  // Ban events never put more than a million addresses into the map.
  lemma {:induction false} NeverOverfull(start: System, events: seq<Event>)
    requires |start.kernel| <= 1_000_000
    ensures |Run(start, events).kernel| <= 1_000_000
  {
    if events != [] {
      var before, e := Run(start, events[..|events| - 1]), events[|events| - 1];
      NeverOverfull(start, events[..|events| - 1]);
      if e.Packet? {
        var m, outcome := before.kernel, NewOutcome(e.frame, before.kernel.Keys);
        assert Counted(m, outcome).Keys == m.Keys;
        assert |Counted(m, outcome)| == |Counted(m, outcome).Keys| == |m.Keys| == |m|;
      } else if e.Unban? {
        assert (before.kernel - {e.key}).Keys <= before.kernel.Keys;
        SubsetSmaller((before.kernel - {e.key}).Keys, before.kernel.Keys);
      }
    }
  }

  lemma {:induction false} SubsetSmaller(a: set<Key>, b: set<Key>)
    requires a <= b
    ensures |a| <= |b|
  {
    assert b == a + (b - a);
  }

  // ---- Conservation -----------------------------------------------------

  // For each address: its current counter is part of its drops, and the
  // memory of it never exceeds the larger of the two parts the drops split
  // into (those counted now, and those of entries since removed).
  ghost predicate BalancedAt(s: System, k: Key) {
    && Get(s.kernel, k) <= Get(s.dropped, k)
    && Get(s.lastObserved, k) <= Max(Get(s.kernel, k), Get(s.dropped, k) - Get(s.kernel, k))
  }

  ghost predicate Balanced(s: System) {
    forall k: Key :: BalancedAt(s, k)
  }

  lemma GetObserved(last: map<Key, nat>, kernel: map<Key, nat>, k: Key)
    ensures Get(Observed(last, kernel), k) == Max(Get(last, k), Get(kernel, k))
  {}

  lemma ObservedGrows(last: map<Key, nat>, kernel: map<Key, nat>)
    ensures Sum(last) <= Sum(Observed(last, kernel))
  {
    forall k: Key ensures Get(last, k) <= Get(Observed(last, kernel), k) {
      GetObserved(last, kernel, k);
    }
    SumMono(last, Observed(last, kernel));
  }

  lemma StepBalanced(s: System, e: Event)
    requires Balanced(s)
    ensures Balanced(Step(s, e))
  {
    hide Step;
    forall k: Key ensures BalancedAt(Step(s, e), k) {
      assert BalancedAt(s, k);
      StepBalancedAt(s, e, k);
    }
  }

  lemma StepBalancedAt(s: System, e: Event, k: Key)
    ensures BalancedAt(s, k) ==> BalancedAt(Step(s, e), k)
  {}

  lemma StepConserves(s: System, e: Event)
    ensures s.lifetime == Sum(s.lastObserved) ==>
      && Step(s, e).lifetime == Sum(Step(s, e).lastObserved)
      && Step(s, e).lifetime >= s.lifetime
  {
    match e {
      case Visit(key) => if key in s.kernel { SumPut(s.lastObserved, key, s.kernel[key]); }
      case Poll => ObservedGrows(s.lastObserved, s.kernel);
      case _ =>
    }
  }

  // What the theorems ask of the state a run starts in.
  ghost predicate Sound(s: System) {
    Balanced(s) && s.lifetime == Sum(s.lastObserved)
  }

  lemma AttachIsSound(kernel: map<Key, nat>)
    ensures Sound(Attach(kernel))
  {
    EmptySum();
    assert forall k: Key :: BalancedAt(Attach(kernel), k);
  }

  // MAIN RESULT. Whatever the interleaving, the lifetime total is the sum of
  // the last observations and never exceeds the packets really dropped.
  lemma {:induction false} Conservation(start: System, events: seq<Event>)
    requires Sound(start)
    ensures Sound(Run(start, events))
    ensures Run(start, events).lifetime <= TrulyDropped(Run(start, events))
  {
    hide Step;
    if events != [] {
      var before := events[..|events| - 1];
      Conservation(start, before);
      StepConserves(Run(start, before), events[|events| - 1]);
      StepBalanced(Run(start, before), events[|events| - 1]);
    }
    var s := Run(start, events);
    forall k: Key ensures Get(s.lastObserved, k) <= Get(s.dropped, k) {
      assert BalancedAt(s, k);
    }
    SumMono(s.lastObserved, s.dropped);
  }

  // After a poll nothing the kernel counts is missing from the total, so the
  // total is what GetStats reports.
  lemma PolledCovers(s: System)
    requires s.lifetime == Sum(s.lastObserved)
    ensures var s' := Step(s, Poll); Sum(s'.kernel) <= s'.lifetime && Reported(s') == s'.lifetime
  {
    var s' := Step(s, Poll);
    StepConserves(s, Poll);
    forall k: Key ensures Get(s'.kernel, k) <= Get(s'.lastObserved, k) {
      GetObserved(s.lastObserved, s.kernel, k);
    }
    SumMono(s'.kernel, s'.lastObserved);
  }

  lemma {:induction false} LifetimeGrows(start: System, events: seq<Event>, i: nat)
    requires Sound(start) && i <= |events|
    ensures Run(start, events[..i]).lifetime <= Run(start, events).lifetime
    decreases |events|
  {
    if i < |events| {
      var before := events[..|events| - 1];
      LifetimeGrows(start, before, i);
      assert before[..i] == events[..i];
      Conservation(start, before);
      StepConserves(Run(start, before), events[|events| - 1]);
    } else {
      assert events[..i] == events;
    }
  }

  // MAIN RESULT. The totals reported by successive polls never decrease.
  lemma ReportedNeverDecreases(start: System, events: seq<Event>, i: nat, j: nat)
    requires Sound(start) && i <= j < |events| && events[i] == Poll && events[j] == Poll
    ensures Reported(Run(start, events[..i + 1])) <= Reported(Run(start, events[..j + 1]))
  {
    hide NewOutcome, Counted, Sum, Observed, Get, Inserted;
    assert events[..i + 1][..i] == events[..i] && events[..j + 1][..j] == events[..j];
    Conservation(start, events[..i]);
    Conservation(start, events[..j]);
    PolledCovers(Run(start, events[..i]));
    PolledCovers(Run(start, events[..j]));
    LifetimeGrows(start, events[..j + 1], i + 1);
    assert events[..j + 1][..i + 1] == events[..i + 1];
  }

  // ---- Exactness --------------------------------------------------------

  // All drops of an address are in its present counter, or all were in one
  // removed entry and had been observed before it went.
  ghost predicate Accounted(s: System, k: Key) {
    Get(s.dropped, k) == Get(s.kernel, k) ||
    (Get(s.kernel, k) == 0 && Get(s.lastObserved, k) == Get(s.dropped, k))
  }

  lemma ExactIfAccounted(s: System)
    requires Sound(s)
    ensures Reported(Step(s, Poll)) == TrulyDropped(s) <==> forall k: Key :: Accounted(s, k)
  {
    var s' := Step(s, Poll);
    PolledCovers(s);
    StepConserves(s, Poll);
    assert TrulyDropped(s) == Sum(s.dropped) && Reported(s') == Sum(s'.lastObserved);
    forall k: Key
      ensures Get(s'.lastObserved, k) <= Get(s.dropped, k)
      ensures Get(s'.lastObserved, k) == Get(s.dropped, k) <==> Accounted(s, k)
    {
      PolledMemory(s, k);
    }
    hide *;
    if k: Key :| !Accounted(s, k) {
      SumStrict(s'.lastObserved, s.dropped, k);
    } else {
      SumMono(s'.lastObserved, s.dropped);
      SumMono(s.dropped, s'.lastObserved);
    }
  }

  lemma PolledMemory(s: System, k: Key)
    requires Balanced(s)
    ensures Get(Step(s, Poll).lastObserved, k) <= Get(s.dropped, k)
    ensures Get(Step(s, Poll).lastObserved, k) == Get(s.dropped, k) <==> Accounted(s, k)
  {
    GetObserved(s.lastObserved, s.kernel, k);
    assert BalancedAt(s, k);
  }

  type SomeEvents = events: seq<Event> | events != [] witness [Poll]

  // One address's life in the map as the events tell it. Event i is a drop for
  // k; event -1 stands for the drops that the map held at start.
  ghost predicate Hit(kernel: map<Key, nat>, events: seq<Event>, i: int, k: Key) {
    if i == -1 then Get(kernel, k) > 0
    else
      && 0 <= i < |events| && events[i].Packet?
      && NewOutcome(events[i].frame, Run(Attach(kernel), events[..i]).kernel.Keys) == Dropped(k)
  }

  predicate Ends(events: seq<Event>, u: int, k: Key) {
    0 <= u < |events| && events[u] == Unban(k)
  }

  predicate Reads(events: seq<Event>, v: int, k: Key) {
    0 <= v < |events| && (events[v] == Poll || events[v] == Visit(k))
  }

  // Some poll reads the counter between events i and u.
  ghost predicate ReadBetween(events: seq<Event>, i: int, u: int, k: Key) {
    exists v :: i < v < u && Reads(events, v, k)
  }

  ghost predicate NoHitAfter(kernel: map<Key, nat>, events: seq<Event>, u: int, k: Key) {
    forall j :: j > u ==> !Hit(kernel, events, j, k)
  }

  // If unban u ended the life in which drop i fell, a poll had read the counter
  // in between, and no drop came after it.
  ghost predicate Settled(kernel: map<Key, nat>, events: seq<Event>, i: int, u: int, k: Key) {
    i < u && Hit(kernel, events, i, k) && Ends(events, u, k) ==>
      ReadBetween(events, i, u, k) && NoHitAfter(kernel, events, u, k)
  }

  // The address was dropped from in one life of its entry only, and if an unban
  // ended that life, a poll had read the counter after its last drop.
  ghost predicate OneLife(kernel: map<Key, nat>, events: seq<Event>, k: Key) {
    forall i, u :: Settled(kernel, events, i, u, k)
  }

  ghost predicate AnyHit(kernel: map<Key, nat>, events: seq<Event>, k: Key) {
    exists i :: Hit(kernel, events, i, k)
  }

  ghost predicate EndedBy(kernel: map<Key, nat>, events: seq<Event>, i: int, u: int, k: Key) {
    i < u && Hit(kernel, events, i, k) && Ends(events, u, k)
  }

  ghost predicate Ended(kernel: map<Key, nat>, events: seq<Event>, k: Key) {
    exists i, u :: EndedBy(kernel, events, i, u, k)
  }

  ghost predicate AllRead(kernel: map<Key, nat>, events: seq<Event>, k: Key) {
    forall i :: Hit(kernel, events, i, k) ==> ReadBetween(events, i, |events|, k)
  }

  // The events before the last one look the same without it.
  lemma Prefix(kernel: map<Key, nat>, events: seq<Event>, i: int, k: Key)
    requires events != [] && i < |events| - 1
    ensures var before := events[..|events| - 1];
            && (Hit(kernel, events, i, k) <==> Hit(kernel, before, i, k))
            && (Ends(events, i, k) <==> Ends(before, i, k))
            && (Reads(events, i, k) <==> Reads(before, i, k))
  {
    var before := events[..|events| - 1];
    if i >= 0 {
      assert before[..i] == events[..i];
    }
  }

  lemma ReadPrefix(events: seq<Event>, i: int, u: int, k: Key)
    requires events != [] && u <= |events| - 1
    ensures ReadBetween(events, i, u, k) <==> ReadBetween(events[..|events| - 1], i, u, k)
  {
    var before := events[..|events| - 1];
    assert forall v :: v < |before| ==> (Reads(events, v, k) <==> Reads(before, v, k));
    hide Reads;
    if ReadBetween(events, i, u, k) {
      var v :| i < v < u && Reads(events, v, k);
      assert Reads(before, v, k);
    }
  }

  lemma AnyHitStep(kernel: map<Key, nat>, events: SomeEvents, k: Key)
    ensures var n := |events| - 1;
            AnyHit(kernel, events, k) <==> AnyHit(kernel, events[..n], k) || Hit(kernel, events, n, k)
  {
    var n := |events| - 1;
    forall i | i < n ensures Hit(kernel, events, i, k) <==> Hit(kernel, events[..n], i, k) {
      Prefix(kernel, events, i, k);
    }
    OutOfRange(kernel, events, n, k);
    hide Hit;
  }

  lemma OutOfRange(kernel: map<Key, nat>, events: seq<Event>, n: nat, k: Key)
    ensures n == |events| - 1 ==>
      && (forall i :: i > n ==> !Hit(kernel, events, i, k) && !Ends(events, i, k))
      && (forall i :: i >= n ==> !Hit(kernel, events[..n], i, k) && !Ends(events[..n], i, k))
  {}

  lemma EndedByStep(kernel: map<Key, nat>, events: SomeEvents, i: int, u: int, k: Key)
    ensures var n := |events| - 1;
            EndedBy(kernel, events, i, u, k) <==>
              EndedBy(kernel, events[..n], i, u, k) ||
              (i < u == n && Hit(kernel, events[..n], i, k) && Ends(events, n, k))
  {
    var n := |events| - 1;
    OutOfRange(kernel, events, n, k);
    if i < n { Prefix(kernel, events, i, k); }
    if u < n { Prefix(kernel, events, u, k); }
    hide Hit, Ends;
  }

  lemma EndedStep(kernel: map<Key, nat>, events: SomeEvents, k: Key)
    ensures var n := |events| - 1;
            Ended(kernel, events, k) <==>
              Ended(kernel, events[..n], k) || (AnyHit(kernel, events[..n], k) && Ends(events, n, k))
  {
    var n := |events| - 1;
    OutOfRange(kernel, events, n, k);
    hide EndedBy, Hit, Ends;
    if Ended(kernel, events, k) {
      var i, u :| EndedBy(kernel, events, i, u, k);
      EndedByStep(kernel, events, i, u, k);
    }
    if Ended(kernel, events[..n], k) {
      var i, u :| EndedBy(kernel, events[..n], i, u, k);
      EndedByStep(kernel, events, i, u, k);
    }
    if AnyHit(kernel, events[..n], k) && Ends(events, n, k) {
      var i :| Hit(kernel, events[..n], i, k);
      EndedByStep(kernel, events, i, n, k);
    }
  }

  lemma AllReadStep(kernel: map<Key, nat>, events: SomeEvents, k: Key)
    ensures var n := |events| - 1;
            AllRead(kernel, events, k) <==>
              Reads(events, n, k) || (AllRead(kernel, events[..n], k) && !Hit(kernel, events, n, k))
  {
    var n := |events| - 1;
    OutOfRange(kernel, events, n, k);
    assert !(Reads(events, n, k) && Hit(kernel, events, n, k));
    forall i | i < n
      ensures Hit(kernel, events, i, k) <==> Hit(kernel, events[..n], i, k)
      ensures ReadBetween(events, i, n + 1, k) <==> ReadBetween(events[..n], i, n, k) || Reads(events, n, k)
    {
      Prefix(kernel, events, i, k);
      ReadPrefix(events, i, n, k);
    }
    assert !ReadBetween(events, n, n + 1, k);
    hide Hit, Reads, ReadBetween;
    if AllRead(kernel, events, k) && !Reads(events, n, k) {
      forall i | Hit(kernel, events[..n], i, k) ensures ReadBetween(events[..n], i, n, k) {
        assert Hit(kernel, events, i, k);
      }
    }
  }

  // One drop and one unban, with and without the last event.
  lemma PairPrefix(kernel: map<Key, nat>, events: seq<Event>, i: int, u: int, k: Key)
    requires events != [] && i < u < |events| - 1
    ensures var n := |events| - 1;
            (Hit(kernel, events, i, k), Ends(events, u, k), ReadBetween(events, i, u, k),
             NoHitAfter(kernel, events, u, k))
            == (Hit(kernel, events[..n], i, k), Ends(events[..n], u, k), ReadBetween(events[..n], i, u, k),
                NoHitAfter(kernel, events[..n], u, k) && !Hit(kernel, events, n, k))
  {
    Prefix(kernel, events, i, k);
    Prefix(kernel, events, u, k);
    ReadPrefix(events, i, u, k);
    NoHitStep(kernel, events, u, k);
  }

  lemma SettledStep(kernel: map<Key, nat>, events: SomeEvents, i: int, u: int, k: Key)
    ensures var n := |events| - 1;
            Settled(kernel, events, i, u, k) <==>
              && Settled(kernel, events[..n], i, u, k)
              && (Hit(kernel, events, n, k) ==> !EndedBy(kernel, events[..n], i, u, k))
              && (u == n && i < n && Ends(events, n, k) && Hit(kernel, events[..n], i, k) ==>
                    ReadBetween(events[..n], i, n, k))
  {
    var n := |events| - 1;
    OutOfRange(kernel, events, n, k);
    if i < u < n {
      PairPrefix(kernel, events, i, u, k);
    } else if i < u == n {
      Prefix(kernel, events, i, k);
      ReadPrefix(events, i, n, k);
      assert NoHitAfter(kernel, events, n, k);
    }
    hide Hit, Ends, ReadBetween, NoHitAfter;
  }

  lemma OneLifeStep(kernel: map<Key, nat>, events: SomeEvents, k: Key)
    ensures var n := |events| - 1;
            OneLife(kernel, events, k) <==>
              && OneLife(kernel, events[..n], k)
              && (Ends(events, n, k) ==> AllRead(kernel, events[..n], k))
              && (Hit(kernel, events, n, k) ==> !Ended(kernel, events[..n], k))
  {
    var n := |events| - 1;
    var before := events[..n];
    OutOfRange(kernel, events, n, k);
    hide EndedBy, Hit, Ends, ReadBetween, NoHitAfter, Settled;
    if OneLife(kernel, events, k) {
      forall i, u ensures Settled(kernel, before, i, u, k) {
        SettledStep(kernel, events, i, u, k);
      }
      forall i | Ends(events, n, k) && Hit(kernel, before, i, k) ensures ReadBetween(before, i, n, k) {
        SettledStep(kernel, events, i, n, k);
      }
      forall i, u | Hit(kernel, events, n, k) ensures !EndedBy(kernel, before, i, u, k) {
        SettledStep(kernel, events, i, u, k);
      }
    } else {
      var i, u :| !Settled(kernel, events, i, u, k);
      SettledStep(kernel, events, i, u, k);
    }
  }

  lemma NoHitStep(kernel: map<Key, nat>, events: seq<Event>, u: int, k: Key)
    requires events != [] && u < |events| - 1
    ensures var n := |events| - 1;
            NoHitAfter(kernel, events, u, k) <==> NoHitAfter(kernel, events[..n], u, k) && !Hit(kernel, events, n, k)
  {
    var n := |events| - 1;
    forall i | i < n ensures Hit(kernel, events, i, k) <==> Hit(kernel, events[..n], i, k) {
      Prefix(kernel, events, i, k);
    }
    OutOfRange(kernel, events, n, k);
    hide Hit;
    if NoHitAfter(kernel, events, u, k) {
      forall j | j > u ensures !Hit(kernel, events[..n], j, k) {
        assert !Hit(kernel, events, j, k);
      }
    }
  }

  // What the life of an address says about its counter, memory and drops.
  ghost predicate Tells(s: System, k: Key, any: bool, ended: bool, read: bool, one: bool) {
    var counted, seen, dropped := Get(s.kernel, k), Get(s.lastObserved, k), Get(s.dropped, k);
    && (any <==> dropped > 0) && seen <= dropped
    && (!ended ==> one && counted == dropped && (read <==> seen == dropped))
    && (ended ==> any)
    && (ended && one ==> counted == 0 && seen == dropped && read)
    && (ended && !one ==> counted < dropped && seen < dropped)
  }

  lemma TellsStep(s: System, e: Event, k: Key, any: bool, ended: bool, read: bool, one: bool, hit: bool)
    requires Tells(s, k, any, ended, read, one)
    requires hit <==> e.Packet? && NewOutcome(e.frame, s.kernel.Keys) == Dropped(k)
    ensures var ends, read' := e == Unban(k), e == Poll || e == Visit(k);
            Tells(Step(s, e), k, any || hit, ended || (any && ends), read' || (read && !hit),
                  one && (ends ==> read) && (hit ==> !ended))
  {
    hide NewOutcome, Sum, Observed;
    if e.Poll? {
      GetObserved(s.lastObserved, s.kernel, k);
    }
  }

  lemma {:induction false} LifeTells(kernel: map<Key, nat>, events: seq<Event>, k: Key)
    ensures Tells(Run(Attach(kernel), events), k, AnyHit(kernel, events, k), Ended(kernel, events, k),
                  AllRead(kernel, events, k), OneLife(kernel, events, k))
  {
    if events == [] {
      NoEvents(kernel, k);
    } else {
      var n := |events| - 1;
      var before, e := events[..n], events[n];
      LifeTells(kernel, before, k);
      AnyHitStep(kernel, events, k);
      EndedStep(kernel, events, k);
      AllReadStep(kernel, events, k);
      OneLifeStep(kernel, events, k);
      var s := Run(Attach(kernel), before);
      var hit := Hit(kernel, events, n, k);
      assert hit <==> e.Packet? && NewOutcome(e.frame, s.kernel.Keys) == Dropped(k);
      assert Ends(events, n, k) <==> e == Unban(k);
      assert Reads(events, n, k) <==> e == Poll || e == Visit(k);
      hide Tells, AnyHit, Ended, AllRead, OneLife, Hit, Ends, Reads, Step, Attach;
      TellsStep(s, e, k, AnyHit(kernel, before, k), Ended(kernel, before, k), AllRead(kernel, before, k),
                OneLife(kernel, before, k), hit);
    }
  }

  lemma NoEvents(kernel: map<Key, nat>, k: Key)
    ensures Tells(Attach(kernel), k, AnyHit(kernel, [], k), Ended(kernel, [], k), AllRead(kernel, [], k),
                  OneLife(kernel, [], k))
  {
    assert forall i :: Hit(kernel, [], i, k) <==> i == -1 && Get(kernel, k) > 0;
    assert forall u :: !Ends([], u, k);
    hide Hit, Ends;
    assert !ReadBetween([], -1, 0, k);
    if Get(kernel, k) > 0 {
      assert Hit(kernel, [], -1, k);
    }
  }

  // MAIN RESULT. A poll's report is exact if and only if every address was
  // dropped from in one life of its entry only, whose last drop a poll had read
  // if an unban has ended it.
  lemma ExactIff(kernel: map<Key, nat>, events: seq<Event>)
    ensures var s := Run(Attach(kernel), events);
            Reported(Step(s, Poll)) == TrulyDropped(s) <==> forall k: Key :: OneLife(kernel, events, k)
  {
    var s := Run(Attach(kernel), events);
    AttachIsSound(kernel);
    Conservation(Attach(kernel), events);
    ExactIfAccounted(s);
    forall k: Key ensures Accounted(s, k) <==> OneLife(kernel, events, k) {
      LifeTells(kernel, events, k);
      hide AnyHit, Ended, AllRead, OneLife, Run;
    }
  }

  // MAIN RESULT. In particular if no unban of an address follows a drop of it.
  lemma ExactWithoutLoss(kernel: map<Key, nat>, events: seq<Event>)
    requires forall k: Key, i, u :: i < u && Hit(kernel, events, i, k) ==> !Ends(events, u, k)
    ensures var s := Run(Attach(kernel), events); Reported(Step(s, Poll)) == TrulyDropped(s)
  {
    hide Hit, Ends;
    ExactIff(kernel, events);
  }

  // Without that condition a report can fall short: ban, drop, unban, poll.
  lemma UnbanLosesDrops(frame: Frame, key: Key)
    requires NewOutcome(frame, {key}) == Dropped(key)
    ensures var s := Run(Attach(map[]), [Ban(key), Packet(frame), Unban(key)]);
      TrulyDropped(s) == 1 && Reported(Step(s, Poll)) == 0
  {
    var s1 := System(map[key := 0], map[], 0, map[]);
    var s2 := System(map[key := 1], map[], 0, map[key := 1]);
    var s3 := System(map[], map[], 0, map[key := 1]);
    RunThree(Attach(map[]), Ban(key), Packet(frame), Unban(key));
    FirstDrop(frame, key);
    assert Step(s2, Unban(key)) == s3 by { assert s2.kernel - {key} == map[]; }
    NothingReported(key);
    hide *;
  }

  lemma NothingReported(key: Key)
    ensures var s := System(map[], map[], 0, map[key := 1]);
      TrulyDropped(s) == 1 && Reported(Step(s, Poll)) == 0
  {
    EmptySum();
    SumPut(map[], key, 1);
    assert Observed(map[], map[]) == map[];
    hide Sum;
  }

  lemma FirstDrop(frame: Frame, key: Key)
    requires NewOutcome(frame, {key}) == Dropped(key)
    ensures Step(System(map[key := 0], map[], 0, map[]), Packet(frame)) ==
            System(map[key := 1], map[], 0, map[key := 1])
  {
    var kernel: map<Key, nat> := map[key := 0];
    assert kernel.Keys == {key};
    hide NewOutcome;
  }

  lemma RunThree(start: System, a: Event, b: Event, c: Event)
    ensures Run(start, [a, b, c]) == Step(Step(Step(start, a), b), c)
  {
    hide Step;
    assert [a, b, c][..2] == [a, b] && [a, b][..1] == [a] && [a][..0] == [];
    assert Run(start, [a]) == Step(start, a);
    assert Run(start, [a, b]) == Step(Run(start, [a]), b);
  }

  // Re-banning an address never resets its counter.
  lemma RebanKeepsCounter(s: System, key: Key)
    requires key in s.kernel
    ensures Step(s, Ban(key)) == s
  {}

  // MAIN RESULT. End to end: once an address is banned and while there is
  // room for it, its packets are dropped and counted, except TCP to port 22.
  lemma BannedTrafficIsDropped(s: System, macs: seq<Byte>, tags: seq<Tag>, p: IpPacket)
    requires |macs| == 12 && |tags| <= 2 && WellFormedPacket(p)
    requires forall i :: 0 <= i < |tags| ==> WellFormedTag(tags[i])
    requires KeyOf(p.source) in s.kernel || |s.kernel| < MAX_ENTRIES
    requires !(p.protocol == IPPROTO_TCP && |p.payload| >= 4 && p.payload[2] == 0 && p.payload[3] == SSH_PORT)
    ensures var banned := Step(s, Ban(KeyOf(p.source)));
      var after := Step(banned, Packet(Build(macs, tags, p)));
      after.kernel == banned.kernel[KeyOf(p.source) := Get(s.kernel, KeyOf(p.source)) + 1]
  {
    var banned := Step(s, Ban(KeyOf(p.source)));
    assert KeyOf(p.source) in banned.kernel.Keys;
    DropMeaning(macs, tags, p, banned.kernel.Keys);
  }
}
