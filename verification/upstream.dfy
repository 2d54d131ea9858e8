// The upstream pool of core/upstream.go: round-robin over live backends and
// the health checks that decide which are live.
module Upstreams {
  import opened Cyclic

  // ---- Round-robin as a function ----------------------------------------

  predicate InRange(order: seq<nat>, n: nat) {
    forall i :: 0 <= i < |order| ==> order[i] < n
  }

  // The order in which a call that starts at c looks at the backends.
  function Order(c: nat, n: nat): (s: seq<nat>)
    requires c < n
    ensures |s| == n && InRange(s, n)
  {
    var s := seq<nat>(n, (i: nat) requires 0 <= i < n => Wrap(c + i, n));
    assert forall i :: 0 <= i < n ==> s[i] == Wrap(c + i, n);
    s
  }

  lemma OrderAt(c: nat, n: nat, i: nat)
    ensures c < n && i < n ==> Order(c, n)[i] == Wrap(c + i, n)
  {}

  function FirstAlive(order: seq<nat>, alive: seq<bool>): (d: nat)
    requires InRange(order, |alive|)
    ensures d <= |order| && (d < |order| ==> alive[order[d]])
    ensures forall i :: 0 <= i < d ==> !alive[order[i]]
  {
    if order == [] || alive[order[0]] then 0 else 1 + FirstAlive(order[1..], alive)
  }

  // The backend a call returns: the first live one, or when none is live the
  // one whose turn it is.
  function Pick(c: nat, alive: seq<bool>): (b: nat)
    requires c < |alive|
    ensures b < |alive|
  {
    var order := Order(c, |alive|);
    var d := FirstAlive(order, alive);
    if d < |order| then order[d] else c
  }

  function Next(c: nat, alive: seq<bool>): (c': nat)
    requires c < |alive|
    ensures c' < |alive|
  {
    Wrap(Pick(c, alive) + 1, |alive|)
  }

  function Rotated(s: seq<nat>, k: nat): (r: seq<nat>)
    requires k <= |s|
    ensures |r| == |s|
  {
    s[k..] + s[..k]
  }

  lemma OrderRotates(c: nat, n: nat, k: nat)
    requires c < n && k <= n
    ensures Order(Wrap(c + k, n), n) == Rotated(Order(c, n), k)
  {
    hide Order;
    var a := Order(Wrap(c + k, n), n);
    var b := Rotated(Order(c, n), k);
    forall i | 0 <= i < n ensures a[i] == b[i] {
      OrderAt(Wrap(c + k, n), n, i);
      OrderAt(c, n, if i < n - k then k + i else i - (n - k));
    }
  }

  lemma OrderHasNoDuplicates(c: nat, n: nat)
    requires c < n
    ensures forall i, j :: 0 <= i < j < n ==> Order(c, n)[i] != Order(c, n)[j]
    ensures forall b: nat :: b < n ==> b in Order(c, n)
  {
    forall b: nat | b < n ensures b in Order(c, n) {
      var i := if b >= c then b - c else b + n - c;
      OrderAt(c, n, i);
      assert Order(c, n)[i] == b;
    }
    forall i, j | 0 <= i < j < n ensures Order(c, n)[i] != Order(c, n)[j] {
      OrderAt(c, n, i);
      OrderAt(c, n, j);
    }
  }

  // How many backends a call has looked past, the one it returns included.
  function Passed(c: nat, alive: seq<bool>): (k: nat)
    requires c < |alive|
    ensures 1 <= k <= |alive|
  {
    var d := FirstAlive(Order(c, |alive|), alive);
    if d < |alive| then d + 1 else 1
  }

  // A call moves the backends it has passed to the end of the order.
  lemma CallRotates(c: nat, alive: seq<bool>)
    requires c < |alive|
    ensures Order(Next(c, alive), |alive|) == Rotated(Order(c, |alive|), Passed(c, alive))
  {
    NextIsPassed(c, alive);
    hide *;
    OrderRotates(c, |alive|, Passed(c, alive));
  }

  lemma NextIsPassed(c: nat, alive: seq<bool>)
    requires c < |alive|
    ensures Next(c, alive) == Wrap(c + Passed(c, alive), |alive|)
  {
    hide FirstAlive, Order, InRange;
    var n := |alive|;
    var d := FirstAlive(Order(c, n), alive);
    if d < n {
      OrderAt(c, n, d);
    }
  }

  // ---- Bounded waiting --------------------------------------------------

  // The backends returned by successive calls, call i seeing health alives[i].
  function Returned(c: nat, alives: seq<seq<bool>>, n: nat): (r: seq<nat>)
    requires c < n && forall i :: 0 <= i < |alives| ==> |alives[i]| == n
    ensures |r| == |alives|
    decreases |alives|
  {
    if alives == [] then []
    else [Pick(c, alives[0])] + Returned(Next(c, alives[0]), alives[1..], n)
  }

  // A backend at position p of the order, alive at the next p + 1 calls, is
  // returned by one of them: every other call brings it closer.
  lemma {:induction false} ReturnedByPosition(c: nat, alives: seq<seq<bool>>, n: nat, b: nat, p: nat)
    requires c < n && b < n && forall i :: 0 <= i < |alives| ==> |alives[i]| == n
    requires p < n && Order(c, n)[p] == b && p < |alives|
    requires forall i :: 0 <= i <= p ==> alives[i][b]
    ensures exists k :: 0 <= k <= p && Returned(c, alives, n)[k] == b
    decreases p
  {
    var alive := alives[0];
    var order := Order(c, n);
    var d := FirstAlive(order, alive);
    assert d <= p;
    if d == p {
      assert Returned(c, alives, n)[0] == b;
    } else {
      CallRotates(c, alive);
      var c' := Next(c, alive);
      assert Rotated(order, d + 1)[p - d - 1] == b;
      ReturnedByPosition(c', alives[1..], n, b, p - d - 1);
      var k :| 0 <= k <= p - d - 1 && Returned(c', alives[1..], n)[k] == b;
      assert Returned(c, alives, n)[k + 1] == b;
    }
  }

  // MAIN RESULT. Under arbitrary health changes of the others, a backend that
  // stays alive is returned within any n consecutive calls.
  lemma BoundedWaiting(c: nat, alives: seq<seq<bool>>, n: nat, b: nat)
    requires c < n && b < n && |alives| == n && forall i :: 0 <= i < n ==> |alives[i]| == n
    requires forall i :: 0 <= i < n ==> alives[i][b]
    ensures b in Returned(c, alives, n)
  {
    OrderHasNoDuplicates(c, n);
    var order := Order(c, n);
    assert b in order;
    var p :| 0 <= p < |order| && order[p] == b;
    ReturnedByPosition(c, alives, n, b, p);
  }

  // ---- Fairness with a fixed alive set ----------------------------------

  // The live backends of an order, in order.
  function Live(order: seq<nat>, alive: seq<bool>): (q: seq<nat>)
    requires InRange(order, |alive|)
    ensures forall b :: b in q <==> b in order && alive[b]
  {
    if order == [] then []
    else (if alive[order[0]] then [order[0]] else []) + Live(order[1..], alive)
  }

  function Queue(c: nat, alive: seq<bool>): seq<nat>
    requires c < |alive|
  {
    Live(Order(c, |alive|), alive)
  }

  lemma {:induction false} LiveConcat(a: seq<nat>, b: seq<nat>, alive: seq<bool>)
    requires InRange(a, |alive|)
    requires InRange(b, |alive|)
    ensures InRange(a + b, |alive|)
    ensures Live(a + b, alive) == Live(a, alive) + Live(b, alive)
    decreases |a|
  {
    if a == [] {
      assert a + b == b;
    } else {
      assert (a + b)[1..] == a[1..] + b;
      LiveConcat(a[1..], b, alive);
    }
  }

  lemma {:induction false} NoneLive(a: seq<nat>, alive: seq<bool>)
    ensures (InRange(a, |alive|) && forall i :: 0 <= i < |a| ==> !alive[a[i]]) ==> Live(a, alive) == []
  {
    if a != [] {
      NoneLive(a[1..], alive);
    }
  }

  lemma {:induction false} LiveDistinct(a: seq<nat>, alive: seq<bool>)
    requires InRange(a, |alive|)
    requires forall i, j :: 0 <= i < j < |a| ==> a[i] != a[j]
    ensures forall i, j :: 0 <= i < j < |Live(a, alive)| ==> Live(a, alive)[i] != Live(a, alive)[j]
  {
    if a != [] {
      LiveDistinct(a[1..], alive);
      var rest := Live(a[1..], alive);
      assert forall j :: 0 <= j < |rest| ==> rest[j] in rest;
      assert forall x :: x in a[1..] ==> exists k :: 1 <= k < |a| && a[k] == x;
    }
  }

  // A call returns the head of the queue and puts it at the end.
  lemma CallTurnsQueue(c: nat, alive: seq<bool>)
    requires c < |alive| && Queue(c, alive) != []
    ensures Pick(c, alive) == Queue(c, alive)[0]
    ensures Queue(Next(c, alive), alive) == Queue(c, alive)[1..] + [Queue(c, alive)[0]]
  {
    hide Wrap, Order, Live, FirstAlive;
    var n := |alive|;
    var order := Order(c, n);
    var d := FirstAlive(order, alive);
    if d == n {
      NoneLive(order, alive);
    } else {
      CallRotates(c, alive);
      var head, rest := order[..d + 1], order[d + 1..];
      HeadOfQueue(order, alive, d);
      LiveConcat(head, rest, alive);
      assert head + rest == order;
      LiveConcat(rest, head, alive);
    }
  }

  lemma HeadOfQueue(order: seq<nat>, alive: seq<bool>, d: nat)
    requires InRange(order, |alive|)
    requires d < |order| && alive[order[d]] && forall i :: 0 <= i < d ==> !alive[order[i]]
    ensures Live(order[..d + 1], alive) == [order[d]]
  {
    assert order[..d + 1] == order[..d] + [order[d]];
    LiveConcat(order[..d], [order[d]], alive);
    NoneLive(order[..d], alive);
    One(order[d], alive);
  }

  lemma One(b: nat, alive: seq<bool>)
    ensures b < |alive| && alive[b] ==> Live([b], alive) == [b]
  {}

  function Repeat(alive: seq<bool>, k: nat): (s: seq<seq<bool>>)
    ensures |s| == k && forall i :: 0 <= i < k ==> s[i] == alive
  {
    seq(k, _ => alive)
  }

  lemma {:induction false} ReturnsQueue(c: nat, alive: seq<bool>, k: nat)
    requires c < |alive| && k <= |Queue(c, alive)|
    ensures Returned(c, Repeat(alive, k), |alive|) == Queue(c, alive)[..k]
    decreases k
  {
    hide Live, Order, FirstAlive, Wrap;
    if k > 0 {
      var q := Queue(c, alive);
      CallTurnsQueue(c, alive);
      hide Queue, Pick, Next;
      var c' := Next(c, alive);
      assert Repeat(alive, k)[1..] == Repeat(alive, k - 1);
      ReturnsQueue(c', alive, k - 1);
      assert Queue(c', alive)[..k - 1] == q[1..k];
      assert [q[0]] + q[1..k] == q[..k];
    }
  }

  // MAIN RESULT. While the alive set is fixed and has m members, any m
  // consecutive calls return each of them exactly once, and nobody else.
  lemma EachAliveOnce(c: nat, alive: seq<bool>)
    requires c < |alive|
    ensures var r := Returned(c, Repeat(alive, |Queue(c, alive)|), |alive|);
      && (forall b: nat :: b in r <==> b < |alive| && alive[b])
      && (forall i, j :: 0 <= i < j < |r| ==> r[i] != r[j])
  {
    var n := |alive|;
    var q := Queue(c, alive);
    ReturnsQueue(c, alive, |q|);
    assert q[..|q|] == q;
    OrderHasNoDuplicates(c, n);
    LiveDistinct(Order(c, n), alive);
  }

  // When no backend is live, n calls return each of them once, in turn.
  lemma {:induction false} FallbackTakesTurns(c: nat, n: nat, k: nat)
    requires c < n && k <= n
    ensures Returned(c, Repeat(seq(n, _ => false), k), n) == Order(c, n)[..k]
    decreases k
  {
    if k > 0 {
      var dead := seq(n, _ => false);
      CallRotates(c, dead);
      var order := Order(c, n);
      assert FirstAlive(order, dead) == n;
      OrderAt(c, n, 0);
      assert Order(Next(c, dead), n) == Rotated(order, 1);
      assert Pick(c, dead) == order[0];
      var c' := Next(c, dead);
      assert Repeat(dead, k)[1..] == Repeat(dead, k - 1);
      FallbackTakesTurns(c', n, k - 1);
      assert Order(c', n)[..k - 1] == order[1..k];
      assert [order[0]] + order[1..k] == order[..k];
    }
  }

  // ---- Health checks ----------------------------------------------------

  datatype Health = Health(isAlive: bool, failures: nat)

  const DOWN_AFTER: nat := 3

  // A check fails on an error, or on status 500, 502 or 504.
  predicate CheckPasses(error: bool, status: int) {
    !error && !(status >= 500 && status != 503 && (status == 500 || status == 502 || status == 504))
  }

  function Checked(h: Health, passed: bool): Health {
    if passed then Health(true, 0)
    else Health(h.isAlive && h.failures + 1 < DOWN_AFTER, h.failures + 1)
  }

  function AfterChecks(results: seq<bool>): Health {
    if results == [] then Health(true, 0)
    else Checked(AfterChecks(results[..|results| - 1]), results[|results| - 1])
  }

  // MAIN RESULT. A backend is down exactly when its last three checks all
  // failed; failures counts the checks failed since the last that passed.
  lemma {:induction false} DownIffLastThreeFailed(results: seq<bool>)
    ensures var h := AfterChecks(results);
      var n := |results|;
      && (!h.isAlive <==> n >= 3 && !results[n - 1] && !results[n - 2] && !results[n - 3])
      && h.failures <= n
      && (forall i :: n - h.failures <= i < n ==> !results[i])
      && (h.failures < n ==> results[n - h.failures - 1])
  {
    if results != [] {
      DownIffLastThreeFailed(results[..|results| - 1]);
    }
  }

  // What one request to a backend comes back with; the status is 0 after an error.
  datatype Probe = Probe(error: bool, status: int)

  function Results(probes: seq<Probe>): (r: seq<bool>)
    ensures |r| == |probes|
  {
    seq(|probes|, i requires 0 <= i < |probes| => CheckPasses(probes[i].error, probes[i].status))
  }

  // MAIN RESULT. In terms of what the probes brought: a backend is down exactly when each of its
  // last three probes ended in an error or in status 500, 502 or 504. Any other status, such as
  // 503 or 404, shows that it is alive.
  lemma DownIffProbesFail(probes: seq<Probe>)
    ensures var n := |probes|;
      !AfterChecks(Results(probes)).isAlive <==>
        n >= 3 && forall i :: n - 3 <= i < n ==> probes[i].error || probes[i].status in {500, 502, 504}
  {
    DownIffLastThreeFailed(Results(probes));
    hide AfterChecks;
    assert forall i :: 0 <= i < |probes| ==>
      Results(probes)[i] == !(probes[i].error || probes[i].status in {500, 502, 504});
  }

  // ---- The objects ------------------------------------------------------

  class Backend {
    const url: string
    var isAlive: bool
    var failures: nat

    function Value(): Health
      reads this
    {
      Health(isAlive, failures)
    }

    constructor (url: string)
      ensures this.url == url && Value() == AfterChecks([])
    {
      this.url, isAlive, failures := url, true, 0;
    }

    // What runHealthChecks does with one probe's outcome.
    method Record(error: bool, status: int)
      modifies this
      ensures Value() == Checked(old(Value()), CheckPasses(error, status))
    {
      var ok := !error;
      if status >= 500 && status != 503 {
        if status == 500 || status == 502 || status == 504 {
          ok := false;
        }
      }
      if ok {
        isAlive := true;
        failures := 0;
      } else {
        failures := failures + 1;
        if isAlive && failures >= DOWN_AFTER {
          isAlive := false;
        }
      }
    }
  }

  datatype Lookup = NoUpstream | Upstream(url: string)

  class Pool {
    const backends: seq<Backend>
    var current: nat

    ghost predicate Valid()
      reads this
    {
      backends != [] ==> current < |backends|
    }

    ghost function Alive(): (s: seq<bool>)
      reads backends
      ensures |s| == |backends|
    {
      seq(|backends|, i requires 0 <= i < |backends| reads backends => backends[i].isAlive)
    }

    constructor (backends: seq<Backend>)
      ensures this.backends == backends && Valid() && current == 0
    {
      this.backends, current := backends, 0;
    }

    // The search loop: how far the first live backend is, n if there is none.
    method FindAlive() returns (i: nat)
      requires Valid() && backends != []
      ensures i == FirstAlive(Order(current, |backends|), Alive())
    {
      hide FirstAlive;
      var n := |backends|;
      i := 0;
      while i < n
        invariant i <= n
        invariant forall j :: 0 <= j < i ==> !Alive()[Order(current, n)[j]]
      {
        WrapIsMod(current + i, n);
        OrderAt(current, n, i);
        var idx := (current + i) % n;
        if backends[idx].isAlive {
          break;
        }
        i := i + 1;
      }
    }

    method GetNext() returns (r: Lookup)
      requires Valid()
      modifies this
      ensures Valid()
      ensures backends == [] ==> r == NoUpstream && current == old(current)
      ensures backends != [] ==>
        && r == Upstream(backends[Pick(old(current), Alive())].url)
        && current == Next(old(current), Alive())
    {
      hide FirstAlive;
      var n := |backends|;
      if n == 0 {
        return NoUpstream;
      }
      var start := current;
      var i := FindAlive();
      if i < n {
        WrapIsMod(start + i, n);
        OrderAt(start, n, i);
        var idx := (start + i) % n;
        WrapIsMod(idx + 1, n);
        current := (idx + 1) % n;
        return Upstream(backends[idx].url);
      }
      WrapIsMod(start, n);
      assert start % n == start;
      WrapIsMod(start + 1, n);
      current := (start + 1) % n;
      return Upstream(backends[start % n].url);
    }
  }
}
