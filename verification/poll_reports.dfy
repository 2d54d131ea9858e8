// Polls of core/xdp.go that packets, bans and unbans interrupt.
module PollReports {
  import opened Blacklists
  import opened DropAccounting
  import opened PacketFilters

  // ---- Polls that other events interrupt --------------------------------

  // What one poll's loop, made of the visits from a to b, adds up: the counters
  // as it finds them.
  ghost function Active(start: System, events: seq<Event>, a: nat, b: nat): nat
    requires a <= b <= |events|
    decreases b
  {
    if a == b then 0
    else
      Active(start, events, a, b - 1) +
      if events[b - 1].Visit? then Get(Run(start, events[..b - 1]).kernel, events[b - 1].key) else 0
  }

  // The loop visits no entry twice.
  predicate VisitsOnce(events: seq<Event>, a: nat, b: nat)
    requires a <= b <= |events|
  {
    forall i, j :: a <= i < j < b && events[i].Visit? && events[j].Visit? ==> events[i].key != events[j].key
  }

  // `seen` holds the counters the loop has added up.
  ghost predicate Seen(start: System, events: seq<Event>, a: nat, b: nat, seen: map<Key, nat>)
    requires a <= b <= |events|
  {
    && Sum(seen) == Active(start, events, a, b)
    && (forall k: Key :: Get(seen, k) <= Get(Run(start, events[..b]).lastObserved, k))
    && AllVisited(events, a, b, seen.Keys)
  }

  ghost predicate AllVisited(events: seq<Event>, a: nat, b: nat, keys: set<Key>)
    requires a <= b <= |events|
  {
    forall k: Key :: k in keys ==> exists i :: a <= i < b && events[i] == Visit(k)
  }

  lemma MemoryGrows(s: System, e: Event, k: Key)
    ensures Get(s.lastObserved, k) <= Get(Step(s, e).lastObserved, k)
    ensures e == Visit(k) ==> Get(s.kernel, k) <= Get(Step(s, e).lastObserved, k)
  {
    hide NewOutcome, Sum, Observed;
    if e.Poll? {
      GetObserved(s.lastObserved, s.kernel, k);
    }
  }

  lemma {:induction false} SeenSoFar(start: System, events: seq<Event>, a: nat, b: nat)
    requires a <= b <= |events| && VisitsOnce(events, a, b)
    ensures exists seen :: Seen(start, events, a, b, seen)
    decreases b
  {
    if a == b {
      EmptySum();
      assert Seen(start, events, a, b, map[]);
    } else {
      SeenSoFar(start, events, a, b - 1);
      var seen :| Seen(start, events, a, b - 1, seen);
      SeenMore(start, events, a, b, seen);
    }
  }

  lemma SeenMore(start: System, events: seq<Event>, a: nat, b: nat, seen: map<Key, nat>)
    requires a < b <= |events| && VisitsOnce(events, a, b) && Seen(start, events, a, b - 1, seen)
    ensures var s, e := Run(start, events[..b - 1]), events[b - 1];
            Seen(start, events, a, b, if e.Visit? then seen[e.key := Get(s.kernel, e.key)] else seen)
  {
    var s, e := Run(start, events[..b - 1]), events[b - 1];
    assert events[..b][..b - 1] == events[..b - 1];
    assert Run(start, events[..b]) == Step(s, e);
    NotSeenYet(events, a, b, seen.Keys);
    hide Step, Run, Sum, VisitsOnce, Active, Get, AllVisited;
    if e.Visit? {
      SumPut(seen, e.key, Get(s.kernel, e.key));
      assert seen[e.key := Get(s.kernel, e.key)].Keys == seen.Keys + {e.key};
    }
    StillBelow(s, e, seen);
  }

  // The last visit is of a new key, and the keys visited grow by it.
  lemma NotSeenYet(events: seq<Event>, a: nat, b: nat, keys: set<Key>)
    requires a < b <= |events| && VisitsOnce(events, a, b) && AllVisited(events, a, b - 1, keys)
    ensures AllVisited(events, a, b, keys)
    ensures events[b - 1].Visit? ==>
      events[b - 1].key !in keys && AllVisited(events, a, b, keys + {events[b - 1].key})
  {
    var e := events[b - 1];
    forall k: Key | k in keys ensures exists i :: a <= i < b && events[i] == Visit(k) {
      var i :| a <= i < b - 1 && events[i] == Visit(k);
    }
    if e.Visit? {
      assert e == Visit(e.key);
    }
  }

  lemma StillBelow(s: System, e: Event, seen: map<Key, nat>)
    requires forall k: Key :: Get(seen, k) <= Get(s.lastObserved, k)
    ensures var seen' := if e.Visit? then seen[e.key := Get(s.kernel, e.key)] else seen;
            forall k: Key :: Get(seen', k) <= Get(Step(s, e).lastObserved, k)
  {
    var seen' := if e.Visit? then seen[e.key := Get(s.kernel, e.key)] else seen;
    hide Step;
    forall k: Key ensures Get(seen', k) <= Get(Step(s, e).lastObserved, k) {
      MemoryGrows(s, e, k);
    }
  }

  // Other events between the visits of one poll do not disturb its report as
  // long as the loop visits no entry twice: the counters it added up then never
  // exceed the lifetime total, so the total is what GetStats returns ...
  lemma InterruptedReport(start: System, events: seq<Event>, a: nat, b: nat)
    requires Sound(start) && a <= b <= |events| && VisitsOnce(events, a, b)
    ensures Max(Run(start, events[..b]).lifetime, Active(start, events, a, b)) == Run(start, events[..b]).lifetime
  {
    SeenSoFar(start, events, a, b);
    var seen :| Seen(start, events, a, b, seen);
    Conservation(start, events[..b]);
    SumMono(seen, Run(start, events[..b]).lastObserved);
  }

  // ... and the totals that such polls report one after the other never decrease.
  lemma InterruptedReportsGrow(start: System, events: seq<Event>, a: nat, b: nat, c: nat, d: nat)
    requires Sound(start) && a <= b <= d <= |events| && c <= d
    requires VisitsOnce(events, a, b) && VisitsOnce(events, c, d)
    ensures Max(Run(start, events[..b]).lifetime, Active(start, events, a, b))
         <= Max(Run(start, events[..d]).lifetime, Active(start, events, c, d))
  {
    InterruptedReport(start, events, a, b);
    InterruptedReport(start, events, c, d);
    LifetimeGrows(start, events[..d], b);
    assert events[..d][..b] == events[..b];
  }

  // The keys a poll's loop visits, in order, among other events.
  function VisitedKeys(events: seq<Event>): seq<Key> {
    if events == [] then []
    else
      var e := events[|events| - 1];
      VisitedKeys(events[..|events| - 1]) + if e.Visit? then [e.key] else []
  }

  predicate NoKeyTwice(keys: seq<Key>) {
    forall i, j :: 0 <= i < j < |keys| ==> keys[i] != keys[j]
  }

  // A poll whose loop these events are, or interrupt, reports the lifetime total.
  ghost predicate Undisturbed(start: System, events: seq<Event>) {
    Max(Run(start, events).lifetime, Active(start, events, 0, |events|)) == Run(start, events).lifetime
  }

  lemma {:induction false} VisitIsKey(events: seq<Event>, i: nat)
    requires i < |events| && events[i].Visit?
    ensures events[i].key in VisitedKeys(events)
  {
    var n := |events| - 1;
    if i < n {
      VisitIsKey(events[..n], i);
    }
  }

  lemma {:induction false} NoKeyTwiceMeansOnce(events: seq<Event>)
    requires NoKeyTwice(VisitedKeys(events))
    ensures VisitsOnce(events, 0, |events|)
  {
    if events != [] {
      var n := |events| - 1;
      var before, e := events[..n], events[n];
      KeysBefore(VisitedKeys(before), if e.Visit? then [e.key] else []);
      NoKeyTwiceMeansOnce(before);
      forall i, j | 0 <= i < j <= n && events[i].Visit? && events[j].Visit?
        ensures events[i].key != events[j].key
      {
        if j == n {
          VisitIsKey(before, i);
        } else {
          assert before[i] == events[i] && before[j] == events[j];
        }
      }
    }
  }

  lemma KeysBefore(keys: seq<Key>, last: seq<Key>)
    requires NoKeyTwice(keys + last) && |last| <= 1
    ensures NoKeyTwice(keys) && forall k :: k in keys ==> k !in last
  {
    assert forall i :: 0 <= i < |keys| ==> (keys + last)[i] == keys[i];
    assert last != [] ==> (keys + last)[|keys|] == last[0];
  }

  function Visits(keys: seq<Key>): (events: seq<Event>)
    ensures |events| == |keys| && forall i :: 0 <= i < |keys| ==> events[i] == Visit(keys[i])
  {
    seq(|keys|, i requires 0 <= i < |keys| => Visit(keys[i]))
  }

  lemma {:induction false} KeysOfVisits(keys: seq<Key>)
    ensures VisitedKeys(Visits(keys)) == keys
  {
    if keys != [] {
      var n := |keys| - 1;
      KeysOfVisits(keys[..n]);
      assert Visits(keys)[..n] == Visits(keys[..n]);
      assert keys[..n] + [keys[n]] == keys;
    }
  }

  lemma {:induction false} VisitsLeaveCounters(kernel: map<Key, nat>, keys: seq<Key>, b: nat)
    requires b <= |keys|
    ensures var s := Run(Attach(kernel), Visits(keys)[..b]); (s.kernel, s.dropped) == (kernel, kernel)
  {
    if b > 0 {
      VisitsLeaveCounters(kernel, keys, b - 1);
      assert Visits(keys)[..b][..b - 1] == Visits(keys)[..b - 1];
    }
  }

  // The loop adds up a counter each time it visits it.
  lemma {:induction false} ActiveCountsTwice(key: Key, keys: seq<Key>, i: nat, j: nat, b: nat)
    requires i < j < |keys| && keys[i] == keys[j] == key && b <= |keys|
    ensures Active(Attach(map[key := 1]), Visits(keys), 0, b) >= (if i < b then 1 else 0) + (if j < b then 1 else 0)
    decreases b
  {
    if b > 0 {
      ActiveCountsTwice(key, keys, i, j, b - 1);
      VisitsLeaveCounters(map[key := 1], keys, b - 1);
      hide Active, Run, Attach;
    }
  }

  lemma RevisitDisturbs(keys: seq<Key>, i: nat, j: nat)
    requires i < j < |keys| && keys[i] == keys[j]
    ensures !Undisturbed(Attach(map[keys[i] := 1]), Visits(keys))
  {
    var n, start := |keys|, Attach(map[keys[i] := 1]);
    assert Visits(keys)[..n] == Visits(keys);
    ActiveCountsTwice(keys[i], keys, i, j, n);
    VisitsLeaveCounters(map[keys[i] := 1], keys, n);
    AttachIsSound(map[keys[i] := 1]);
    Conservation(start, Visits(keys));
    OneCounter(keys[i], 1);
    hide Active, Run, Attach, Visits, Sum;
  }

  lemma OneCounter(key: Key, n: nat)
    ensures Sum(map[key := n]) == n
  {
    EmptySum();
    SumPut(map[], key, n);
    assert map[][key := n] == map[key := n];
  }

  // MAIN RESULT. A poll reports the lifetime total, whatever packets, bans,
  // unbans and other polls come between its visits and whatever state they
  // start from, if and only if its loop visits no key twice; and a key visited
  // twice disturbs the report of some map without any other event.
  lemma UndisturbedIff(keys: seq<Key>)
    ensures NoKeyTwice(keys) <==>
      forall start: System, events: seq<Event> :: Sound(start) && VisitedKeys(events) == keys ==>
        Undisturbed(start, events)
    ensures NoKeyTwice(keys) <==> forall kernel: map<Key, nat> :: Undisturbed(Attach(kernel), Visits(keys))
  {
    KeysOfVisits(keys);
    if NoKeyTwice(keys) {
      forall start: System, events: seq<Event> | Sound(start) && VisitedKeys(events) == keys
        ensures Undisturbed(start, events)
      {
        NoKeyTwiceMeansOnce(events);
        InterruptedReport(start, events, 0, |events|);
        assert events[..|events|] == events;
      }
      forall kernel: map<Key, nat> ensures Undisturbed(Attach(kernel), Visits(keys)) {
        AttachIsSound(kernel);
      }
    } else {
      var i, j :| 0 <= i < j < |keys| && keys[i] == keys[j];
      RevisitDisturbs(keys, i, j);
      AttachIsSound(map[keys[i] := 1]);
    }
  }

  // Such a poll: an unban between its visits removes the entry the iteration
  // stands on, which starts over. It reports more than was dropped, and the next
  // poll reports less again.
  lemma UnbanRestartsIteration(a: Key, b: Key, m: nat, n: nat)
    requires a != b && m > 0
    ensures var start := Attach(map[a := m, b := n]);
      var events := [Visit(a), Visit(b), Unban(b), Visit(a)];
      var s := Run(start, events);
      (Active(start, events, 0, 4), s.lifetime, TrulyDropped(s), Reported(Step(s, Poll)))
      == (m + n + m, m + n, m + n, m + n)
  {
    var kernel: map<Key, nat> := map[a := m, b := n];
    var start, events := Attach(kernel), [Visit(a), Visit(b), Unban(b), Visit(a)];
    FirstVisits(a, b, m, n);
    var s := Run(start, events);
    AttachIsSound(kernel);
    Conservation(start, events);
    TwoCounters(a, b, m, n);
    assert TrulyDropped(s) == m + n;
    hide *;
    ExactStaysExact(s);
  }

  lemma ExactStaysExact(s: System)
    requires Sound(s) && s.lifetime == TrulyDropped(s)
    ensures Reported(Step(s, Poll)) == s.lifetime
  {
    assert [Poll][..0] == [];
    assert Run(s, [Poll]) == Step(s, Poll);
    Conservation(s, [Poll]);
    PolledCovers(s);
    StepConserves(s, Poll);
    hide Run, Sum, Observed, PolledTotal;
  }

  lemma TwoCounters(a: Key, b: Key, m: nat, n: nat)
    requires a != b
    ensures Sum(map[a := m, b := n]) == m + n
  {
    OneCounter(a, m);
    SumPut(map[a := m], b, n);
    assert map[a := m][b := n] == map[a := m, b := n];
  }

  lemma FirstVisits(a: Key, b: Key, m: nat, n: nat)
    requires a != b && m > 0
    ensures var start := Attach(map[a := m, b := n]);
      var events := [Visit(a), Visit(b), Unban(b), Visit(a)];
      var s := Run(start, events);
      (Active(start, events, 0, 4), s.lifetime, s.dropped) == (m + n + m, m + n, map[a := m, b := n])
  {
    var start := Attach(map[a := m, b := n]);
    ActiveOfFour(start, Visit(a), Visit(b), Unban(b), Visit(a));
    FourStates(a, b, m, n);
    hide Run, Active, Step, Attach;
  }

  lemma FourStates(a: Key, b: Key, m: nat, n: nat)
    requires a != b && m > 0
    ensures var s0 := Attach(map[a := m, b := n]);
      var s1 := Step(s0, Visit(a));
      var s2 := Step(s1, Visit(b));
      var s3 := Step(s2, Unban(b));
      var s4 := Step(s3, Visit(a));
      && Get(s0.kernel, a) == m && Get(s1.kernel, b) == n && Get(s3.kernel, a) == m
      && s4.lifetime == m + n && s4.dropped == map[a := m, b := n]
  {
    var kernel: map<Key, nat> := map[a := m, b := n];
    var s1 := Step(Attach(kernel), Visit(a));
    assert s1 == Attach(kernel).(lifetime := m, lastObserved := map[a := m]);
    var s2 := Step(s1, Visit(b));
    assert s2.kernel == kernel && s2.lifetime == m + n && Get(s2.lastObserved, a) == m && s2.dropped == kernel;
    assert Get(s2.kernel - {b}, a) == m;
  }

  // What one event adds to a poll's sum.
  ghost function Adds(s: System, e: Event): nat {
    if e.Visit? then Get(s.kernel, e.key) else 0
  }

  lemma ActiveOfFour(start: System, e0: Event, e1: Event, e2: Event, e3: Event)
    ensures var events := [e0, e1, e2, e3];
      var s1 := Step(start, e0);
      var s2 := Step(s1, e1);
      var s3 := Step(s2, e2);
      && Run(start, events) == Step(s3, e3)
      && Active(start, events, 0, 4) == Adds(start, e0) + Adds(s1, e1) + Adds(s2, e2) + Adds(s3, e3)
  {
    var events := [e0, e1, e2, e3];
    FourPrefixes(e0, e1, e2, e3);
    RunTwo(start, e0, e1);
    RunThree(start, e0, e1, e2);
    assert Run(start, []) == start;
    assert Active(start, events, 0, 0) == 0;
    hide Step, Active, Run;
  }

  lemma FourPrefixes(e0: Event, e1: Event, e2: Event, e3: Event)
    ensures var events := [e0, e1, e2, e3];
      && events[..0] == [] && events[..1] == [e0] && events[..2] == [e0, e1] && events[..3] == [e0, e1, e2]
      && [e0, e1, e2] + [e3] == events
  {}

  lemma RunTwo(start: System, a: Event, b: Event)
    ensures Run(start, [a]) == Step(start, a) && Run(start, [a, b]) == Step(Step(start, a), b)
  {
    hide Step;
    assert [a, b][..1] == [a] && [a][..0] == [];
  }
}
