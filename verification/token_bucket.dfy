// The token bucket of perf/pool.go, over exact reals, with the clock passed in.
module TokenBuckets {
  import opened Meters

  datatype Bucket = Bucket(tokens: real, capacity: real, rate: real, lastTime: real)

  // A bucket sees calls to AllowN and changes of its rate.
  datatype Event = Call(n: real, now: real) | NewRate(rate: real)

  // ---- One call ---------------------------------------------------------

  function Accrual(b: Bucket, now: real): real {
    (now - b.lastTime) * b.rate
  }

  function Refilled(b: Bucket, now: real): real {
    var t := b.tokens + Accrual(b, now);
    if t > b.capacity then b.capacity else t
  }

  predicate Grants(b: Bucket, n: real, now: real) {
    Refilled(b, now) >= n
  }

  function Take(b: Bucket, n: real, now: real): Bucket {
    var t := Refilled(b, now);
    b.(tokens := if t >= n then t - n else t, lastTime := now)
  }

  function Fresh(rate: real, capacity: real, now: real): Bucket {
    Bucket(capacity, capacity, rate, now)
  }

  predicate InRange(b: Bucket) {
    0.0 <= b.tokens <= b.capacity
  }

  lemma AccrualBounds(b: Bucket, now: real, top: real)
    requires 0.0 <= b.rate <= top && now >= b.lastTime
    ensures 0.0 <= Accrual(b, now) <= top * (now - b.lastTime)
  {
    var d := now - b.lastTime;
    Scale(d, b.rate, top);
    assert Accrual(b, now) == d * b.rate;
  }

  lemma TakeKeeps(b: Bucket, n: real, now: real, top: real)
    requires InRange(b) && n >= 0.0 && 0.0 <= b.rate <= top && now >= b.lastTime
    ensures InRange(Take(b, n, now))
  {
    AccrualBounds(b, now, top);
  }

  // ---- Runs -------------------------------------------------------------

  function Step(b: Bucket, e: Event): Bucket {
    match e
    case Call(n, now) => Take(b, n, now)
    case NewRate(r) => b.(rate := r)
  }

  function Run(b: Bucket, events: seq<Event>): Bucket {
    if events == [] then b
    else Step(Run(b, events[..|events| - 1]), events[|events| - 1])
  }

  // Tokens handed out by one event, and over a whole run.
  function GrantOf(b: Bucket, e: Event): real {
    if e.Call? && Grants(b, e.n, e.now) then e.n else 0.0
  }

  function Granted(b: Bucket, events: seq<Event>): real {
    if events == [] then 0.0
    else
      var before := events[..|events| - 1];
      Granted(b, before) + GrantOf(Run(b, before), events[|events| - 1])
  }

  // Tokens that flowed in (before capping) at one event, and over a run.
  function InflowOf(b: Bucket, e: Event): real {
    if e.Call? then Accrual(b, e.now) else 0.0
  }

  function Inflow(b: Bucket, events: seq<Event>): real {
    if events == [] then 0.0
    else
      var before := events[..|events| - 1];
      Inflow(b, before) + InflowOf(Run(b, before), events[|events| - 1])
  }

  // The environment of a run: the clock never goes back, rates stay within
  // [0, top], nobody asks for a negative number of tokens.
  predicate Timely(b: Bucket, events: seq<Event>, top: real) {
    if events == [] then 0.0 <= b.rate <= top
    else
      var before := events[..|events| - 1];
      Timely(b, before, top) &&
      match events[|events| - 1]
      case Call(n, now) => n >= 0.0 && now >= Run(b, before).lastTime
      case NewRate(r) => 0.0 <= r <= top
  }

  lemma PrefixStep(b: Bucket, events: seq<Event>, k: nat)
    requires k < |events|
    ensures Run(b, events[..k + 1]) == Step(Run(b, events[..k]), events[k])
    ensures Granted(b, events[..k + 1]) == Granted(b, events[..k]) + GrantOf(Run(b, events[..k]), events[k])
    ensures Inflow(b, events[..k + 1]) ==
            Inflow(b, events[..k]) + InflowOf(Run(b, events[..k]), events[k])
  {
    assert events[..k + 1][..k] == events[..k];
  }

  lemma {:induction false} RunFromFirst(b: Bucket, e: Event, events: seq<Event>)
    ensures Run(b, [e] + events) == Run(Step(b, e), events)
    decreases |events|
  {
    if events == [] {
      assert [e] + events == [e] && [e][..0] == [];
    } else {
      var m := |events| - 1;
      assert ([e] + events)[..m + 1] == [e] + events[..m];
      RunFromFirst(b, e, events[..m]);
    }
  }

  lemma {:induction false} TimelyPrefix(b: Bucket, events: seq<Event>, k: nat, top: real)
    requires k <= |events| && Timely(b, events, top)
    ensures Timely(b, events[..k], top)
    decreases |events|
  {
    if k == |events| {
      assert events[..k] == events;
    } else {
      TimelyPrefix(b, events[..|events| - 1], k, top);
      assert events[..|events| - 1][..k] == events[..k];
    }
  }

  lemma {:induction false} RunKeeps(b: Bucket, events: seq<Event>, top: real)
    requires InRange(b) && Timely(b, events, top)
    ensures InRange(Run(b, events)) && Run(b, events).capacity == b.capacity
    ensures 0.0 <= Run(b, events).rate <= top
    ensures Run(b, events).lastTime >= b.lastTime
  {
    if events != [] {
      var before := events[..|events| - 1];
      RunKeeps(b, before, top);
      var s := Run(b, before);
      if events[|events| - 1].Call? {
        TakeKeeps(s, events[|events| - 1].n, events[|events| - 1].now, top);
      }
    }
  }

  // One call keeps every bucket in range, whatever its level and however
  // long it idled, exactly when neither the rate nor the request is negative.
  lemma RangeKeptIff(capacity: real, rate: real, n: real)
    requires capacity >= 0.0
    ensures (rate >= 0.0 && n >= 0.0) <==>
            (forall b: Bucket, now: real ::
               InRange(b) && b.capacity == capacity && b.rate == rate && now >= b.lastTime
               ==> InRange(Take(b, n, now)))
  {
    if rate < 0.0 {
      // an empty bucket asked for anything after idling goes below zero
      var b := Bucket(0.0, capacity, rate, 0.0);
      var idle := if n < 0.0 then (n / rate) + 1.0 else 1.0;
      if n < 0.0 {
        assert n / rate > 0.0;
        assert Accrual(b, idle) == n + rate by { assert (n / rate) * rate == n; }
      }
      assert InRange(b) && !InRange(Take(b, n, idle));
    } else if n < 0.0 {
      // a full bucket "granted" a negative request overflows
      var b := Bucket(capacity, capacity, rate, 0.0);
      assert InRange(b) && !InRange(Take(b, n, 0.0));
    } else {
      forall b: Bucket, now: real | InRange(b) && b.capacity == capacity && b.rate == rate && now >= b.lastTime
        ensures InRange(Take(b, n, now))
      {
        assert Accrual(b, now) >= 0.0;
      }
    }
  }

  // ---- Window bound -----------------------------------------------------

  // The room the window that opens at call k still leaves at call j:
  // capacity, plus what flowed in since k, minus what was granted since k.
  function Room(b: Bucket, events: seq<Event>, k: nat, j: nat): real
    requires k <= j < |events|
  {
    b.capacity + (Inflow(b, events[..j + 1]) - Inflow(b, events[..k + 1]))
    - (Granted(b, events[..j]) - Granted(b, events[..k]))
  }

  // Every window bounds the level from above.
  lemma {:induction false} LevelWithinRoom(b: Bucket, events: seq<Event>, k: nat, j: nat, top: real)
    requires InRange(b) && Timely(b, events, top)
    requires k <= j < |events| && events[k].Call? && events[j].Call?
    ensures Refilled(Run(b, events[..j]), events[j].now) <= Room(b, events, k, j)
    decreases j
  {
    PrefixStep(b, events, j);
    RunCapacity(b, events[..j]);
    if k < j {
      LevelAfterWithin(b, events, k, j, top);
    }
  }

  lemma {:induction false} RunCapacity(b: Bucket, events: seq<Event>)
    ensures Run(b, events).capacity == b.capacity
  {
    if events != [] {
      RunCapacity(b, events[..|events| - 1]);
    }
  }

  lemma {:induction false} LevelAfterWithin(b: Bucket, events: seq<Event>, k: nat, j: nat, top: real)
    requires InRange(b) && Timely(b, events, top)
    requires k < j <= |events| && events[k].Call?
    ensures Run(b, events[..j]).tokens <=
            b.capacity + (Inflow(b, events[..j]) - Inflow(b, events[..k + 1]))
            - (Granted(b, events[..j]) - Granted(b, events[..k]))
    decreases j
  {
    PrefixStep(b, events, j - 1);
    RunCapacity(b, events[..j - 1]);
    hide Run, Granted, Inflow, Accrual, Timely;
    if j - 1 > k {
      LevelAfterWithin(b, events, k, j - 1, top);
    }
  }

  // Some window is tight: the one opened when the bucket was last full.
  lemma {:induction false} TightWindow(b: Bucket, events: seq<Event>, j: nat, top: real) returns (k: nat)
    requires InRange(b) && b.tokens == b.capacity && Timely(b, events, top)
    requires j < |events| && events[j].Call?
    ensures k <= j && events[k].Call?
    ensures Refilled(Run(b, events[..j]), events[j].now) == Room(b, events, k, j)
    decreases j
  {
    PrefixStep(b, events, j);
    TimelyPrefix(b, events, j + 1, top);
    TimelyPrefix(b, events, j, top);
    RunKeeps(b, events[..j], top);
    var s := Run(b, events[..j]);
    assert events[..j + 1][..j] == events[..j];
    assert events[j].now >= s.lastTime by {
      assert Timely(b, events[..j + 1], top) && events[..j + 1][j] == events[j];
    }
    AccrualBounds(s, events[j].now, top);
    if s.tokens + Accrual(s, events[j].now) >= s.capacity {
      k := j;
    } else {
      assert s.tokens < b.capacity;
      LastCall(b, events, j);
      var i: nat :| SinceCall(b, events, i, j);
      k := TightWindow(b, events, i, top);
      PrefixStep(b, events, i);
    }
  }

  // Call i is the last before event j.
  ghost predicate SinceCall(b: Bucket, events: seq<Event>, i: nat, j: nat) {
    && i < j <= |events| && events[i].Call?
    && Run(b, events[..j]).tokens == Run(b, events[..i + 1]).tokens
    && Inflow(b, events[..j]) == Inflow(b, events[..i + 1])
    && Granted(b, events[..j]) == Granted(b, events[..i + 1])
  }

  // The level only moves at calls.
  lemma {:induction false} LastCall(b: Bucket, events: seq<Event>, j: nat)
    requires j <= |events|
    requires b.tokens == b.capacity && Run(b, events[..j]).tokens < b.capacity
    ensures exists i: nat :: SinceCall(b, events, i, j)
    decreases j
  {
    assert j > 0;
    PrefixStep(b, events, j - 1);
    if events[j - 1].Call? {
      assert SinceCall(b, events, j - 1, j);
    } else {
      LastCall(b, events, j - 1);
      var i: nat :| SinceCall(b, events, i, j - 1);
      assert SinceCall(b, events, i, j);
    }
  }

  // MAIN RESULT. The bucket is the most permissive limiter that respects all
  // its windows: a call is granted exactly when granting it overdraws no
  // window that is still open.
  lemma GrantedIffEveryWindowHasRoom(b: Bucket, events: seq<Event>, j: nat, top: real)
    requires InRange(b) && b.tokens == b.capacity && Timely(b, events, top)
    requires j < |events| && events[j].Call?
    ensures Grants(Run(b, events[..j]), events[j].n, events[j].now) <==>
            (forall k: nat :: k <= j && events[k].Call? ==> events[j].n <= Room(b, events, k, j))
  {
    forall k: nat | k <= j && events[k].Call?
      ensures Refilled(Run(b, events[..j]), events[j].now) <= Room(b, events, k, j)
    {
      LevelWithinRoom(b, events, k, j, top);
    }
    var k := TightWindow(b, events, j, top);
  }

  // A meter bounds what can have flowed in by any moment. Keeping it abstract
  // keeps products of rates and times out of the induction below.
  ghost predicate Metered(b: Bucket, events: seq<Event>, meter: real -> real) {
    forall j :: 0 <= j < |events| && events[j].Call? ==>
      Accrual(Run(b, events[..j]), events[j].now)
      <= meter(events[j].now) - meter(Run(b, events[..j]).lastTime)
  }

  lemma {:induction false} InflowWithinMeter(b: Bucket, events: seq<Event>, k: nat, j: nat, meter: real -> real)
    requires Metered(b, events, meter)
    requires k <= j <= |events|
    ensures Inflow(b, events[..j]) - Inflow(b, events[..k]) <=
            meter(Run(b, events[..j]).lastTime) - meter(Run(b, events[..k]).lastTime)
    decreases j
  {
    if k < j {
      InflowWithinMeter(b, events, k, j - 1, meter);
      PrefixStep(b, events, j - 1);
    }
  }

  lemma LineMeters(b: Bucket, now: real, top: real)
    requires 0.0 <= b.rate <= top && now >= b.lastTime
    ensures Accrual(b, now) <= Line(top)(now) - Line(top)(b.lastTime)
  {
    AccrualBounds(b, now, top);
  }

  lemma TimelyIsMetered(b: Bucket, events: seq<Event>, top: real)
    requires InRange(b) && Timely(b, events, top)
    ensures Metered(b, events, Line(top))
  {
    forall j | 0 <= j < |events| && events[j].Call?
      ensures Accrual(Run(b, events[..j]), events[j].now)
              <= Line(top)(events[j].now) - Line(top)(Run(b, events[..j]).lastTime)
    {
      var s := Run(b, events[..j]);
      assert 0.0 <= s.rate <= top && events[j].now >= s.lastTime by {
        TimelyPrefix(b, events, j + 1, top);
        assert events[..j + 1][..j] == events[..j] && events[..j + 1][j] == events[j];
        RunKeeps(b, events[..j], top);
      }
      LineMeters(s, events[j].now, top);
    }
  }

  lemma WindowWithinMeter(b: Bucket, events: seq<Event>, k: nat, j: nat, top: real, meter: real -> real)
    requires InRange(b) && Timely(b, events, top) && Metered(b, events, meter)
    requires k <= j < |events| && events[k].Call? && events[j].Call?
    ensures Granted(b, events[..j + 1]) - Granted(b, events[..k]) <=
            b.capacity + meter(events[j].now) - meter(events[k].now)
  {
    LevelAfterWithin(b, events, k, j + 1, top);
    TimelyPrefix(b, events, j + 1, top);
    RunKeeps(b, events[..j + 1], top);
    InflowWithinMeter(b, events, k + 1, j + 1, meter);
    PrefixStep(b, events, j);
    PrefixStep(b, events, k);
  }

  // MAIN RESULT. Between a call at s and a call at e the bucket hands out at
  // most capacity + top * (e - s), even when SetRate intervenes.
  lemma WindowBound(b: Bucket, events: seq<Event>, k: nat, j: nat, top: real)
    requires InRange(b) && Timely(b, events, top)
    requires k <= j < |events| && events[k].Call? && events[j].Call?
    ensures Granted(b, events[..j + 1]) - Granted(b, events[..k]) <=
            b.capacity + top * (events[j].now - events[k].now)
  {
    hide *;
    TimelyIsMetered(b, events, top);
    WindowWithinMeter(b, events, k, j, top, Line(top));
    LineDifference(top, events[k].now, events[j].now);
  }

  // Tokens granted from a known level, without the capacity term.
  lemma {:induction false} GrantedFromLevel(b: Bucket, events: seq<Event>)
    ensures Granted(b, events) <= b.tokens - Run(b, events).tokens + Inflow(b, events)
    decreases |events|
  {
    if events != [] {
      GrantedFromLevel(b, events[..|events| - 1]);
    }
  }

  // MAIN RESULT. A caller who leaves at least 1/rate between single requests
  // is never refused by a bucket that holds at least one token when full.
  lemma {:induction false} SpacedCallerNeverRefused(b: Bucket, times: seq<real>, j: nat)
    requires b.tokens == b.capacity >= 1.0 && b.rate > 0.0
    requires forall i :: 0 <= i < |times| ==> times[i] >= b.lastTime
    requires forall i {:trigger times[i]} :: 0 < i < |times| ==> times[i] - times[i - 1] >= 1.0 / b.rate
    requires j < |times|
    ensures Grants(Run(b, Singles(times[..j])), 1.0, times[j])
    ensures SpacedState(Run(b, Singles(times[..j + 1])), b, times[j])
  {
    SinglesStep(b, times, j);
    var s := Run(b, Singles(times[..j]));
    if j == 0 {
      assert s == b by { assert Singles(times[..0]) == []; }
      FirstCall(b, times[0]);
    } else {
      SpacedCallerNeverRefused(b, times, j - 1);
      assert times[..j - 1 + 1] == times[..j];
      SpacedCall(s, b, times[j - 1], times[j]);
    }
  }

  predicate SpacedState(s: Bucket, b: Bucket, now: real) {
    s.tokens >= 0.0 && s.capacity == b.capacity && s.rate == b.rate && s.lastTime == now
  }

  lemma FirstCall(b: Bucket, now: real)
    requires b.tokens == b.capacity >= 1.0 && b.rate > 0.0 && now >= b.lastTime
    ensures Grants(b, 1.0, now) && SpacedState(Take(b, 1.0, now), b, now)
  {
    AccrualBounds(b, now, b.rate);
  }

  lemma SpacedCall(s: Bucket, b: Bucket, previous: real, now: real)
    requires b.capacity >= 1.0 && b.rate > 0.0 && SpacedState(s, b, previous)
    requires now - previous >= 1.0 / b.rate
    ensures Grants(s, 1.0, now) && SpacedState(Take(s, 1.0, now), b, now)
  {
    assert Accrual(s, now) >= 1.0;
    hide Accrual;
  }

  lemma SinglesStep(b: Bucket, times: seq<real>, j: nat)
    requires j < |times|
    ensures Run(b, Singles(times[..j + 1])) == Take(Run(b, Singles(times[..j])), 1.0, times[j])
  {
    assert Singles(times[..j + 1]) == Singles(times[..j]) + [Call(1.0, times[j])];
    assert (Singles(times[..j]) + [Call(1.0, times[j])])[..j] == Singles(times[..j]);
  }

  function Singles(times: seq<real>): (calls: seq<Event>)
    ensures |calls| == |times|
  {
    seq(|times|, i requires 0 <= i < |times| => Call(1.0, times[i]))
  }

  // ---- The object -------------------------------------------------------

  class TokenBucket {
    var tokens: real
    const capacity: real
    var rate: real
    var lastTime: real

    function Value(): Bucket
      reads this
    {
      Bucket(tokens, capacity, rate, lastTime)
    }

    constructor (rate: real, capacity: real, now: real)
      ensures Value() == Fresh(rate, capacity, now)
    {
      this.tokens := capacity;
      this.capacity := capacity;
      this.rate := rate;
      this.lastTime := now;
    }

    method AllowN(n: real, now: real) returns (allowed: bool)
      modifies this
      ensures Value() == Step(old(Value()), Call(n, now))
      ensures allowed == Grants(old(Value()), n, now)
    {
      var elapsed := now - lastTime;
      tokens := tokens + elapsed * rate;
      assert tokens == old(tokens) + Accrual(old(Value()), now);
      if tokens > capacity {
        tokens := capacity;
      }
      lastTime := now;
      if tokens >= n {
        tokens := tokens - n;
        return true;
      }
      return false;
    }

    method Allow(now: real) returns (allowed: bool)
      modifies this
      ensures Value() == Step(old(Value()), Call(1.0, now))
      ensures allowed == Grants(old(Value()), 1.0, now)
    {
      allowed := AllowN(1.0, now);
    }

    method SetRate(newRate: real)
      modifies this`rate
      ensures Value() == Step(old(Value()), NewRate(newRate))
    {
      rate := newRate;
    }

    method LastSeen() returns (t: real)
      ensures t == Value().lastTime
    {
      t := lastTime;
    }
  }
}
