// The live stream of api/dashboard.go: it polls the ids ring and sends what it takes to be new.
module LogStreams {
  import opened LogStores

  const BATCH: nat := 50

  // How many of the newest events of a log one poll sends.
  function Fresh(ids: seq<nat>, lastSentID: nat, limit: nat): (k: nat)
    ensures k <= limit && k <= |ids|
  {
    if ids == [] || limit == 0 || (lastSentID > 0 && ids[|ids| - 1] <= lastSentID) then 0
    else 1 + Fresh(ids[..|ids| - 1], lastSentID, limit - 1)
  }

  // Everything counted is newer than the last event sent, and the count stops only at the
  // limit, at the end of the log or at an event that is not.
  lemma {:induction false} FreshMeaning(ids: seq<nat>, lastSentID: nat, limit: nat)
    ensures var k := Fresh(ids, lastSentID, limit);
            && (forall p :: |ids| - k <= p < |ids| ==> lastSentID == 0 || ids[p] > lastSentID)
            && (k < limit && k < |ids| ==> lastSentID > 0 && ids[|ids| - 1 - k] <= lastSentID)
  {
    if ids != [] && limit > 0 && (lastSentID == 0 || ids[|ids| - 1] > lastSentID) {
      var ids' := ids[..|ids| - 1];
      FreshMeaning(ids', lastSentID, limit - 1);
      assert forall p :: 0 <= p < |ids'| ==> ids'[p] == ids[p];
    }
  }

  // ---- Runs -------------------------------------------------------------

  datatype Act = Record(id: nat) | Clear | Poll

  // `sent` lists the places, in the history of all events, of the events sent so far;
  // `marker` is the length that history had when the last batch was sent.
  datatype World = World(ids: seq<nat>, cleared: nat, lastSentID: nat, marker: nat, sent: seq<nat>)

  const START: World := World([], 0, 0, 0, [])

  function Kept(w: World, capacity: nat): seq<nat> {
    if w.cleared <= |w.ids| then Last(w.ids[w.cleared..], capacity) else []
  }

  function Batch(w: World, capacity: nat): nat {
    Fresh(Kept(w, capacity), w.lastSentID, BATCH)
  }

  // The n places before `top`, newest first.
  function Below(top: nat, n: nat): (s: seq<nat>)
    requires n <= top
    ensures |s| == n && forall i :: 0 <= i < n ==> s[i] == top - 1 - i
  {
    seq(n, i requires 0 <= i < n => top - 1 - i)
  }

  function Step(w: World, a: Act, capacity: nat): World {
    match a
    case Record(e) => w.(ids := w.ids + [e])
    case Clear => w.(cleared := |w.ids|)
    case Poll =>
      var k := Batch(w, capacity);
      if k == 0 || k > |w.ids| then w
      else w.(lastSentID := w.ids[|w.ids| - 1], marker := |w.ids|, sent := w.sent + Below(|w.ids|, k))
  }

  function Run(acts: seq<Act>, capacity: nat): World {
    if acts == [] then START else Step(Run(acts[..|acts| - 1], capacity), acts[|acts| - 1], capacity)
  }

  // Event IDs are drawn from a counter whose first value is 1; they may enter the ring in
  // any order.
  predicate Numbered(acts: seq<Act>) {
    forall k :: 0 <= k < |acts| && acts[k].Record? ==> acts[k].id > 0
  }

  predicate AllBelow(places: seq<nat>, n: nat) {
    forall i :: 0 <= i < |places| ==> places[i] < n
  }

  predicate Distinct(places: seq<nat>) {
    forall i, j :: 0 <= i < j < |places| ==> places[i] != places[j]
  }

  predicate Sound(w: World) {
    && w.cleared <= |w.ids| && w.marker <= |w.ids|
    && (forall p :: 0 <= p < |w.ids| ==> w.ids[p] > 0)
    && (w.marker == 0 ==> w.lastSentID == 0)
    && (w.marker > 0 ==> w.lastSentID == w.ids[w.marker - 1])
    && AllBelow(w.sent, w.marker)
    && Distinct(w.sent)
  }

  // The events kept are the newest of the history.
  ghost predicate IsTail<T>(tail: seq<T>, s: seq<T>) {
    |tail| <= |s| && forall i :: 0 <= i < |tail| ==> tail[i] == s[|s| - |tail| + i]
  }

  lemma FreshInHistory(kept: seq<nat>, ids: seq<nat>, lastSentID: nat, limit: nat)
    requires IsTail(kept, ids)
    ensures var k, n := Fresh(kept, lastSentID, limit), |ids|;
            && k <= limit && k <= |kept| <= n
            && (forall p :: n - k <= p < n ==> lastSentID == 0 || ids[p] > lastSentID)
            && (k < limit && k < |kept| ==> lastSentID > 0 && ids[n - 1 - k] <= lastSentID)
  {
    FreshMeaning(kept, lastSentID, limit);
    var k, n := Fresh(kept, lastSentID, limit), |ids|;
    hide Fresh;
    forall p | n - k <= p < n
      ensures lastSentID == 0 || ids[p] > lastSentID
    {
      assert kept[p - (n - |kept|)] == ids[p];
    }
    if k < limit && k < |kept| {
      assert kept[|kept| - 1 - k] == ids[n - 1 - k];
    }
  }

  lemma BatchInHistory(w: World, capacity: nat)
    requires w.cleared <= |w.ids|
    ensures var k, n := Batch(w, capacity), |w.ids|;
            && k <= BATCH && k <= |Kept(w, capacity)| <= n
            && (forall p :: n - k <= p < n ==> w.lastSentID == 0 || w.ids[p] > w.lastSentID)
            && (k < BATCH && k < |Kept(w, capacity)| ==> w.lastSentID > 0 && w.ids[n - 1 - k] <= w.lastSentID)
  {
    FreshInHistory(Kept(w, capacity), w.ids, w.lastSentID, BATCH);
    hide Last, Fresh, IsTail;
  }

  // A batch never reaches back to the event that marks the last one.
  lemma BatchIsNew(w: World, capacity: nat)
    requires Sound(w)
    ensures Batch(w, capacity) <= |w.ids| - w.marker
  {
    BatchInHistory(w, capacity);
    hide Batch, Kept, AllBelow, Distinct;
  }

  lemma Appended(sent: seq<nat>, marker: nat, top: nat, k: nat)
    ensures AllBelow(sent, marker) && Distinct(sent) && k <= top - marker ==>
      AllBelow(sent + Below(top, k), top) && Distinct(sent + Below(top, k))
  {}

  lemma StepSound(w: World, a: Act, capacity: nat)
    requires Sound(w) && (a.Record? ==> a.id > 0)
    ensures Sound(Step(w, a, capacity))
  {
    if a.Poll? {
      BatchIsNew(w, capacity);
      hide Batch;
      Appended(w.sent, w.marker, |w.ids|, Batch(w, capacity));
    }
  }

  lemma {:induction false} RunSound(acts: seq<Act>, capacity: nat)
    requires Numbered(acts)
    ensures Sound(Run(acts, capacity))
  {
    if acts != [] {
      RunSound(acts[..|acts| - 1], capacity);
      hide Sound;
      StepSound(Run(acts[..|acts| - 1], capacity), acts[|acts| - 1], capacity);
    } else {
      assert Sound(START);
    }
  }

  // Over any appends, clears and polls, and in whatever order IDs enter the ring, no event
  // is sent twice.
  lemma SentAtMostOnce(acts: seq<Act>, capacity: nat)
    requires Numbered(acts)
    ensures var w := Run(acts, capacity);
            && AllBelow(w.sent, |w.ids|)
            && forall i, j :: 0 <= i < j < |w.sent| ==> w.sent[i] != w.sent[j]
  {
    RunSound(acts, capacity);
  }

  // ---- What a poll misses -----------------------------------------------

  // Places newer than the last batch that are still in the ring.
  predicate Pending(w: World, p: nat, capacity: nat) {
    w.marker <= p < |w.ids| && |w.ids| - |Kept(w, capacity)| <= p
  }

  function Backlog(w: World, capacity: nat): int {
    var kept, newer := |Kept(w, capacity)|, |w.ids| - w.marker;
    if kept < newer then kept else newer
  }

  // A poll catches up exactly when at most 50 events wait and none of them has an ID at or
  // below the one sent last.
  lemma PollCatchesUpIff(w: World, capacity: nat)
    requires Sound(w)
    ensures (forall p: nat :: Pending(w, p, capacity) ==> p in Step(w, Poll, capacity).sent) <==>
              && Backlog(w, capacity) <= 50
              && forall p: nat :: Pending(w, p, capacity) ==> w.ids[p] > w.lastSentID
  {
    var k, n, backlog := Batch(w, capacity), |w.ids|, Backlog(w, capacity);
    BatchInHistory(w, capacity);
    SentByPoll(w, capacity);
    BatchIsNew(w, capacity);
    assert forall p: nat :: p < n ==> w.ids[p] > 0;
    assert forall p: nat :: Pending(w, p, capacity) <==> n - backlog <= p < n;
    hide Kept, Batch, Step, Sound, Pending, Backlog;
    if k < backlog {
      assert Pending(w, n - 1 - k, capacity);
    }
  }

  lemma SentByPoll(w: World, capacity: nat)
    requires Sound(w)
    ensures forall p: nat :: w.marker <= p < |w.ids| ==>
              (p in Step(w, Poll, capacity).sent <==> |w.ids| - Batch(w, capacity) <= p)
  {
    BatchIsNew(w, capacity);
    var k, n := Batch(w, capacity), |w.ids|;
    hide Batch;
    forall p: nat | w.marker <= p < n
      ensures p in Step(w, Poll, capacity).sent <==> n - k <= p
    {
      assert p !in w.sent;
      if n - k <= p {
        assert Below(n, k)[n - 1 - p] == p;
      }
    }
  }

  // ---- What is never sent -----------------------------------------------

  // Not sent so far, and out of reach of a poll made now.
  predicate Lost(w: World, p: nat, capacity: nat) {
    p < |w.ids| && p !in w.sent && p + Batch(w, capacity) < |w.ids|
  }

  // Fewer of the newest events, and a lower limit, make no larger batch.
  lemma {:induction false} FreshShrinks(tail: seq<nat>, ids: seq<nat>, lastSentID: nat, limit: nat, limit': nat)
    requires IsTail(tail, ids) && limit <= limit'
    ensures Fresh(tail, lastSentID, limit) <= Fresh(ids, lastSentID, limit')
  {
    if tail != [] && limit > 0 {
      var t, n := |tail| - 1, |ids| - 1;
      assert tail[t] == ids[n];
      FreshShrinks(tail[..t], ids[..n], lastSentID, limit - 1, limit' - 1);
      hide IsTail;
    }
  }

  // A new event makes a batch at most one larger.
  lemma BatchAfterRecord(w: World, id: nat, capacity: nat)
    requires w.cleared <= |w.ids|
    ensures Batch(Step(w, Record(id), capacity), capacity) <= 1 + Batch(w, capacity)
  {
    var kept, kept' := Kept(w, capacity), Kept(Step(w, Record(id), capacity), capacity);
    if kept' != [] {
      hide Kept;
      FreshShrinks(kept'[..|kept'| - 1], kept, w.lastSentID, BATCH - 1, BATCH);
    }
  }

  lemma LostStep(w: World, a: Act, capacity: nat, p: nat)
    requires Sound(w) && Lost(w, p, capacity)
    ensures Lost(Step(w, a, capacity), p, capacity)
  {
    match a
    case Record(id) =>
      BatchAfterRecord(w, id, capacity);
      hide Batch, Sound;
    case Clear =>
      assert w.ids[|w.ids|..] == [];
      hide Sound;
    case Poll =>
  }

  lemma {:induction false} LostForGood(acts: seq<Act>, more: seq<Act>, capacity: nat, p: nat)
    requires Numbered(acts + more) && Lost(Run(acts, capacity), p, capacity)
    ensures Lost(Run(acts + more, capacity), p, capacity)
  {
    if more == [] {
      assert acts + more == acts;
    } else {
      var n := |more| - 1;
      var past := acts + more[..n];
      assert (acts + more)[..|acts + more| - 1] == past;
      LostForGood(acts, more[..n], capacity, p);
      RunSound(past, capacity);
      assert Run(acts + more, capacity) == Step(Run(past, capacity), more[n], capacity);
      hide Sound, Lost, Numbered, Step, Run;
      LostStep(Run(past, capacity), more[n], capacity, p);
    }
  }

  // MAIN RESULT. An event of the history has been or will be sent in some continuation of the
  // run exactly when it has been sent or a poll made now would send it: whatever a poll cannot
  // reach, cut off by the batch size, the ring or a smaller ID, is lost for good.
  lemma SentLaterIff(acts: seq<Act>, capacity: nat, p: nat)
    requires Numbered(acts) && p < |Run(acts, capacity).ids|
    ensures var w := Run(acts, capacity);
            (exists more: seq<Act> :: Numbered(acts + more) && p in Run(acts + more, capacity).sent) <==>
              p in w.sent || |w.ids| - Batch(w, capacity) <= p
  {
    var w := Run(acts, capacity);
    RunSound(acts, capacity);
    if p in w.sent {
      assert acts + [] == acts;
      assert Numbered(acts + []) && p in Run(acts + [], capacity).sent;
    } else if |w.ids| - Batch(w, capacity) <= p {
      BatchIsNew(w, capacity);
      SentByPoll(w, capacity);
      RunMore(acts, Poll, capacity);
      hide Batch, Sound, Step, Run;
      assert Numbered(acts + [Poll]) && p in Run(acts + [Poll], capacity).sent;
    } else {
      assert Lost(w, p, capacity);
      hide Sound, Batch, Run;
      forall more: seq<Act> | Numbered(acts + more) ensures p !in Run(acts + more, capacity).sent {
        LostForGood(acts, more, capacity, p);
      }
    }
  }

  // Not sent so far, and with an ID at or below the one sent last.
  predicate Behind(w: World, p: nat) {
    p < |w.ids| && p !in w.sent && w.ids[p] <= w.lastSentID
  }

  // In particular every such event is passed over for good.
  lemma LateEventIsLost(acts: seq<Act>, more: seq<Act>, capacity: nat, p: nat)
    requires Numbered(acts + more) && Behind(Run(acts, capacity), p)
    ensures p !in Run(acts + more, capacity).sent
  {
    var w := Run(acts, capacity);
    assert (acts + more)[..|acts|] == acts;
    RunSound(acts, capacity);
    BatchInHistory(w, capacity);
    assert w.ids[p] > 0;
    hide Sound, Run, Batch, Numbered;
    assert Lost(w, p, capacity);
    LostForGood(acts, more, capacity, p);
  }

  // Such an event: any that is recorded with an ID at or below the one sent last.
  lemma LateArrivalIsLost(acts: seq<Act>, id: nat, more: seq<Act>, capacity: nat)
    requires Numbered(acts + [Record(id)] + more) && id <= Run(acts, capacity).lastSentID
    ensures |Run(acts, capacity).ids| !in Run(acts + [Record(id)] + more, capacity).sent
  {
    var w := Run(acts, capacity);
    assert (acts + [Record(id)] + more)[..|acts|] == acts;
    RunSound(acts, capacity);
    RunMore(acts, Record(id), capacity);
    LateEventIsLost(acts + [Record(id)], more, capacity, |w.ids|);
  }

  lemma RunMore(acts: seq<Act>, a: Act, capacity: nat)
    ensures Run(acts + [a], capacity) == Step(Run(acts, capacity), a, capacity)
    ensures Run([], capacity) == START
  {
    assert (acts + [a])[..|acts|] == acts;
  }

  // ---- Streams that keep up ---------------------------------------------

  predicate InOrder(ids: seq<nat>) {
    forall p, q :: 0 <= p < q < |ids| ==> ids[p] < ids[q]
  }

  // At most 50 events wait for a poll, no waiting event is overwritten or cleared.
  predicate KeepsUp(w: World, a: Act, capacity: nat) {
    match a
    case Record(_) => |w.ids| + 1 - w.marker <= |Kept(Step(w, a, capacity), capacity)|
    case Clear => w.marker == |w.ids|
    case Poll => |w.ids| - w.marker <= BATCH
  }

  predicate AllKeepUp(acts: seq<Act>, capacity: nat) {
    acts != [] ==>
      && AllKeepUp(acts[..|acts| - 1], capacity)
      && KeepsUp(Run(acts[..|acts| - 1], capacity), acts[|acts| - 1], capacity)
  }

  predicate Complete(w: World, capacity: nat) {
    && (forall p: nat :: p < w.marker ==> p in w.sent)
    && |w.ids| - w.marker <= |Kept(w, capacity)|
  }

  lemma CompleteStep(w: World, a: Act, capacity: nat)
    requires Sound(w) && Complete(w, capacity) && KeepsUp(w, a, capacity) && InOrder(w.ids)
    ensures Complete(Step(w, a, capacity), capacity)
    ensures a.Poll? ==> Step(w, a, capacity).marker == |w.ids|
  {
    if a.Poll? {
      var k, n := Batch(w, capacity), |w.ids|;
      PollCatchesUpIff(w, capacity);
      SentByPoll(w, capacity);
      BatchIsNew(w, capacity);
      hide Kept, Batch;
      forall p: nat | w.marker <= p < n
        ensures p in Step(w, a, capacity).sent
      {
        assert Pending(w, p, capacity);
        if w.marker > 0 {
          assert w.ids[w.marker - 1] < w.ids[p];
        }
      }
      if w.marker < n {
        assert w.marker in Step(w, a, capacity).sent;
      }
    }
  }

  // With IDs in order and a stream that keeps up, a poll leaves every event there has been
  // sent exactly once.
  lemma {:induction false} NothingLost(acts: seq<Act>, capacity: nat)
    requires Numbered(acts) && AllKeepUp(acts, capacity) && InOrder(Run(acts, capacity).ids)
    ensures Complete(Run(acts, capacity), capacity)
    ensures acts != [] && acts[|acts| - 1].Poll? ==>
              var w := Run(acts, capacity);
              forall p: nat :: p < |w.ids| ==> p in w.sent
  {
    if acts != [] {
      var past, a := acts[..|acts| - 1], acts[|acts| - 1];
      AllOfPast(Run(past, capacity), a, capacity);
      NothingLost(past, capacity);
      RunSound(past, capacity);
      hide Sound, KeepsUp, InOrder, Numbered;
      CompleteStep(Run(past, capacity), a, capacity);
    }
  }

  lemma AllOfPast(w: World, a: Act, capacity: nat)
    requires InOrder(Step(w, a, capacity).ids)
    ensures InOrder(w.ids)
  {
    assert forall p :: 0 <= p < |w.ids| ==> Step(w, a, capacity).ids[p] == w.ids[p];
  }

  // ---- The poller -------------------------------------------------------

  function Ids(log: seq<LogEvent>): (ids: seq<nat>)
    ensures |ids| == |log| && forall i :: 0 <= i < |log| ==> ids[i] == log[i].id
  {
    seq(|log|, i requires 0 <= i < |log| => log[i].id)
  }

  predicate TakesAll(q: Query) {
    q.kind == "" && q.search == "" && q.domain == ""
  }

  lemma {:induction false} AllPlaces(q: Query, log: seq<LogEvent>, limit: nat)
    requires TakesAll(q)
    ensures Places(q, log, limit) == Below(|log|, if limit < |log| then limit else |log|)
  {
    if log != [] && limit > 0 {
      AllPlaces(q, log[..|log| - 1], limit - 1);
      assert Matches(q, log[|log| - 1]);
    }
  }

  // Newest first.
  ghost predicate Reversed(logs: seq<LogEvent>, kept: seq<LogEvent>) {
    |logs| <= |kept| && forall i :: 0 <= i < |logs| ==> logs[i] == kept[|kept| - 1 - i]
  }

  // The query without filters: the newest events of the ring, and more than one batch of
  // them unless the ring holds no more.
  lemma AllAnswered(q: Query, kept: seq<LogEvent>, logs: seq<LogEvent>)
    requires TakesAll(q)
    requires Within(Places(q, kept, MAX_RESULTS), |kept|)
    requires logs == Picked(kept, Places(q, kept, MAX_RESULTS))
    ensures Reversed(logs, kept) && (|logs| < |kept| ==> BATCH < |logs|)
  {
    AllPlaces(q, kept, MAX_RESULTS);
    hide Places, TakesAll;
  }

  // How many events the loop takes from a list that starts with the newest.
  function Newer(logs: seq<LogEvent>, lastSentID: nat, limit: nat): (k: nat)
    ensures k <= |logs| && k <= limit
  {
    if logs == [] || limit == 0 || (lastSentID > 0 && logs[0].id <= lastSentID) then 0
    else 1 + Newer(logs[1..], lastSentID, limit - 1)
  }

  lemma ReversedRest(logs: seq<LogEvent>, kept: seq<LogEvent>)
    ensures Reversed(logs, kept) && logs != [] ==>
      && Reversed(logs[1..], kept[..|kept| - 1]) && logs[0] == kept[|kept| - 1]
      && Ids(kept)[..|kept| - 1] == Ids(kept[..|kept| - 1])
  {}

  lemma {:induction false} NewerIsFresh(logs: seq<LogEvent>, kept: seq<LogEvent>, lastSentID: nat, limit: nat)
    requires Reversed(logs, kept) && (|logs| < |kept| ==> limit <= |logs|)
    ensures Newer(logs, lastSentID, limit) == Fresh(Ids(kept), lastSentID, limit)
  {
    if limit > 0 && logs != [] {
      ReversedRest(logs, kept);
      NewerIsFresh(logs[1..], kept[..|kept| - 1], lastSentID, limit - 1);
    }
  }

  ghost predicate Counted(logs: seq<LogEvent>, lastSentID: nat, i: nat) {
    && i <= |logs| && i <= BATCH
    && Newer(logs, lastSentID, BATCH) == i + Newer(logs[i..], lastSentID, BATCH - i)
  }

  lemma Count(logs: seq<LogEvent>, lastSentID: nat, i: nat)
    requires Counted(logs, lastSentID, i)
    ensures i == |logs| || i == BATCH || (lastSentID > 0 && logs[i].id <= lastSentID) ==>
              Newer(logs, lastSentID, BATCH) == i
    ensures i < |logs| && i < BATCH && !(lastSentID > 0 && logs[i].id <= lastSentID) ==>
              Counted(logs, lastSentID, i + 1)
  {
    if i < |logs| {
      assert logs[i..][1..] == logs[i + 1..] && logs[i..][0] == logs[i];
    }
  }

  lemma StartCount(logs: seq<LogEvent>, lastSentID: nat)
    ensures Counted(logs, lastSentID, 0)
  {
    assert logs[0..] == logs;
  }

  // The loop over the newest events, at most 50, down to the first one sent before.
  method NewEvents(logs: seq<LogEvent>, lastSentID: nat) returns (newEvents: seq<LogEvent>)
    ensures newEvents == logs[..Newer(logs, lastSentID, BATCH)]
  {
    hide Newer, Counted;
    StartCount(logs, lastSentID);
    newEvents := [];
    var i := 0;
    while i < |logs| && i < BATCH
      invariant i <= |logs| && i <= BATCH
      invariant newEvents == logs[..i]
      invariant Counted(logs, lastSentID, i)
    {
      Count(logs, lastSentID, i);
      var l := logs[i];
      if lastSentID > 0 && l.id <= lastSentID {
        return;
      }
      newEvents := newEvents + [l];
      i := i + 1;
    }
    Count(logs, lastSentID, i);
  }

  // The query and the loop of one tick.
  method Collect(store: LogStore, lastSentID: nat) returns (logs: seq<LogEvent>, newEvents: seq<LogEvent>)
    requires store.Valid()
    ensures Reversed(logs, store.Kept())
    ensures var k := Fresh(Ids(store.Kept()), lastSentID, BATCH); k <= |logs| && newEvents == logs[..k]
  {
    logs := store.QueryLogs("", "", "");
    AllAnswered(Normalized("", "", ""), store.Kept(), logs);
    hide *;
    newEvents := NewEvents(logs, lastSentID);
    NewerIsFresh(logs, store.Kept(), lastSentID, BATCH);
  }

  // A batch and the places in the history at which its events are.
  ghost predicate SentFrom(all: seq<LogEvent>, places: seq<nat>, batch: seq<LogEvent>) {
    && |places| == |batch|
    && forall i :: 0 <= i < |batch| ==> places[i] < |all| && batch[i] == all[places[i]]
  }

  class Stream {
    var lastSentID: nat

    constructor ()
      ensures lastSentID == 0
    {
      lastSentID := 0;
    }

    // The ring and this stream are in the state w.
    ghost predicate Follows(w: World, store: LogStore)
      reads this, store
    {
      w.ids == Ids(store.all) && w.cleared == store.cleared && w.lastSentID == lastSentID
    }

    // One tick is one Poll: it sends the events at the places the Poll adds.
    method Tick(store: LogStore, ghost w: World) returns (newEvents: seq<LogEvent>)
      requires store.Valid() && Follows(w, store) && Sound(w)
      modifies this
      ensures var w' := Step(w, Poll, store.maxCap);
              && Follows(w', store)
              && w.sent <= w'.sent
              && SentFrom(store.all, w'.sent[|w.sent|..], newEvents)
    {
      var logs: seq<LogEvent>;
      logs, newEvents := Collect(store, lastSentID);
      Polled(w, store.all, store.cleared, store.maxCap, logs, newEvents);
      hide Ids, Last, Step, SentFrom, Sound, Fresh, Reversed, Holds;
      if |newEvents| > 0 {
        lastSentID := logs[0].id;
      }
    }
  }

  // What the loop sent is what a Poll of the world sends.
  lemma Polled(
    w: World, all: seq<LogEvent>, cleared: nat, capacity: nat, logs: seq<LogEvent>, batch: seq<LogEvent>)
    requires Sound(w) && w.ids == Ids(all) && w.cleared == cleared
    requires var kept := Last(all[cleared..], capacity);
             && Reversed(logs, kept)
             && Fresh(Ids(kept), w.lastSentID, BATCH) <= |logs|
             && batch == logs[..Fresh(Ids(kept), w.lastSentID, BATCH)]
    ensures var w' := Step(w, Poll, capacity);
            && w'.ids == w.ids && w'.cleared == w.cleared
            && w'.lastSentID == (if |batch| > 0 then logs[0].id else w.lastSentID)
            && w.sent <= w'.sent
            && SentFrom(all, w'.sent[|w.sent|..], batch)
  {
    var k, n := |batch|, |all|;
    var kept := Last(all[cleared..], capacity);
    IdsOfKept(all, cleared, capacity);
    assert Batch(w, capacity) == k;
    BatchIsNew(w, capacity);
    BatchAt(all, kept, logs, k);
    hide Fresh, Kept, Batch, Last, Sound, SentFrom, IsTail, Reversed, Ids;
    assert |w.ids| == n && (k > 0 ==> w.ids[n - 1] == logs[0].id);
    StepPoll(w, capacity, n, k);
    hide Step;
  }

  lemma StepPoll(w: World, capacity: nat, n: nat, k: nat)
    requires |w.ids| == n && Batch(w, capacity) == k <= n
    ensures var w' := Step(w, Poll, capacity);
            && w'.ids == w.ids && w'.cleared == w.cleared
            && w'.lastSentID == (if k > 0 then w.ids[n - 1] else w.lastSentID)
            && w.sent <= w'.sent && w'.sent[|w.sent|..] == Below(n, k)
  {
    hide Batch;
    assert w.sent + Below(n, k) == Step(w, Poll, capacity).sent;
    assert (w.sent + Below(n, k))[|w.sent|..] == Below(n, k);
  }

  lemma BatchAt(all: seq<LogEvent>, kept: seq<LogEvent>, logs: seq<LogEvent>, k: nat)
    ensures IsTail(kept, all) && Reversed(logs, kept) && k <= |logs| ==>
      && k <= |all| && SentFrom(all, Below(|all|, k), logs[..k])
      && (k > 0 ==> logs[0] == all[|all| - 1])
  {}

  lemma IdsOfKept(all: seq<LogEvent>, cleared: nat, capacity: nat)
    ensures cleared <= |all| ==> Ids(Last(all[cleared..], capacity)) == Last(Ids(all)[cleared..], capacity)
  {}
}
