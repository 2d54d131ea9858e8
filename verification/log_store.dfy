// The security log ring of core/logstore.go.
module LogStores {
  import opened Cyclic
  import opened Text

  datatype Details = Details(
    timestamp: string, kind: string, clientIP: string, domain: string, verb: string,
    path: string, status: int, action: string, rule: string, desc: string,
    countryCode: string, countryName: string)

  datatype LogEvent = LogEvent(id: nat, details: Details)

  const MAX_RESULTS: nat := 500

  // ---- Queries ----------------------------------------------------------

  // A query after trimming and case conversion.
  datatype Query = Query(kind: string, search: string, domain: string)

  function Normalized(logType: string, search: string, domain: string): Query {
    Query(ToUpper(TrimSpace(logType)), ToLower(TrimSpace(search)), ToLower(TrimSpace(domain)))
  }

  function Combined(e: LogEvent): string {
    var d := e.details;
    d.clientIP + " " + d.domain + " " + d.path + " " + d.rule + " " + d.action + " " + d.desc
  }

  predicate Matches(q: Query, e: LogEvent) {
    && (q.kind == "" || q.kind == "ALL" || EqualFold(e.details.kind, q.kind))
    && (q.domain == "" || Contains(ToLower(e.details.domain), q.domain))
    && (q.search == "" || Contains(ToLower(Combined(e)), q.search))
  }

  predicate SameText(a: string, b: string) {
    |a| == |b| && StandsAt(a, b, 0)
  }

  function Spaced(fields: seq<string>): string {
    var n := |fields| - 1;
    if n < 0 then "" else if n == 0 then fields[0] else Spaced(fields[..n]) + " " + fields[n]
  }

  lemma EqualFoldIs(a: string, b: string)
    ensures EqualFold(a, b) <==> SameText(a, b)
  {
    assert ToLower(a) == ToLower(b) <==>
      |a| == |b| && forall i :: 0 <= i < |a| ==> ToLower(a)[i] == ToLower(b)[i];
  }

  lemma UpperIsAll(kind: string)
    ensures ToUpper(kind) == "ALL" <==> SameText(kind, "ALL")
    ensures ToUpper(kind) == "" <==> kind == ""
  {
    assert ToUpper(kind) == "ALL" <==>
      |kind| == 3 && ToUpper(kind)[0] == 'A' && ToUpper(kind)[1] == 'L' && ToUpper(kind)[2] == 'L';
  }

  lemma UpperSame(kind: string, other: string)
    ensures EqualFold(other, ToUpper(kind)) <==> SameText(kind, other)
  {
    EqualFoldIs(other, ToUpper(kind));
  }

  lemma CombinedIsSpaced(e: LogEvent)
    ensures var d := e.details;
      Combined(e) == Spaced([d.clientIP, d.domain, d.path, d.rule, d.action, d.desc])
  {
    var d := e.details;
    var three := [d.clientIP] + [d.domain] + [d.path];
    SpacedMore([d.clientIP], d.domain);
    SpacedMore([d.clientIP] + [d.domain], d.path);
    SpacedMore(three, d.rule);
    SpacedMore(three + [d.rule], d.action);
    SpacedMore(three + [d.rule] + [d.action], d.desc);
    assert Spaced([d.clientIP]) == d.clientIP;
    assert three + [d.rule] + [d.action] + [d.desc] == [d.clientIP, d.domain, d.path, d.rule, d.action, d.desc];
  }

  lemma SpacedMore(fields: seq<string>, last: string)
    ensures fields != [] ==> Spaced(fields + [last]) == Spaced(fields) + " " + last
  {
    assert (fields + [last])[..|fields|] == fields;
  }

  // What a query accepts, spaces around its three parts aside: events of its type, or of any type
  // if it is empty or ALL, whose domain holds its domain and whose address, domain, path, rule,
  // action and description, put together with spaces, hold its search text; all ignoring case.
  lemma MatchesMeaning(e: LogEvent, kind: string, search: string, domain: string, before: string, after: string)
    requires Trimmed(kind) && Trimmed(search) && Trimmed(domain)
    requires forall c :: c in before + after ==> c in SPACES
    ensures var d := e.details;
      var q := Normalized(before + kind + after, before + search + after, before + domain + after);
      Matches(q, e) <==>
        && (kind == "" || SameText(kind, "ALL") || SameText(kind, d.kind))
        && (exists i: nat :: StandsAt(domain, d.domain, i))
        && exists i: nat :: StandsAt(search, Spaced([d.clientIP, d.domain, d.path, d.rule, d.action, d.desc]), i)
  {
    var d := e.details;
    TrimPadding(before, kind, after);
    TrimPadding(before, search, after);
    TrimPadding(before, domain, after);
    UpperIsAll(kind);
    UpperSame(kind, d.kind);
    ContainsIgnoringCase(d.domain, domain);
    ContainsIgnoringCase(Combined(e), search);
    CombinedIsSpaced(e);
    EmptyStands(d.domain);
    EmptyStands(Combined(e));
    hide TrimSpace, StandsAt, SameText, EqualFold, Contains, Combined, Spaced, ToUpper;
  }

  lemma EmptyStands(value: string)
    ensures StandsAt("", value, 0)
  {}

  // Places in the log, newest first, of at most `limit` matching events.
  function Places(q: Query, log: seq<LogEvent>, limit: nat): seq<nat> {
    if log == [] || limit == 0 then []
    else
      var n := |log| - 1;
      if Matches(q, log[n]) then [n] + Places(q, log[..n], limit - 1) else Places(q, log[..n], limit)
  }

  predicate Within(places: seq<nat>, n: nat) {
    forall k :: 0 <= k < |places| ==> places[k] < n
  }

  function Picked(log: seq<LogEvent>, places: seq<nat>): (r: seq<LogEvent>)
    requires Within(places, |log|)
    ensures |r| == |places| && forall k :: 0 <= k < |r| ==> r[k] == log[places[k]]
  {
    seq(|places|, k requires 0 <= k < |places| => log[places[k]])
  }

  lemma {:induction false} PlacesWithin(q: Query, log: seq<LogEvent>, limit: nat)
    ensures Within(Places(q, log, limit), |log|)
  {
    hide Matches;
    if log != [] && limit > 0 {
      PlacesWithin(q, log[..|log| - 1], limit - 1);
      PlacesWithin(q, log[..|log| - 1], limit);
    }
  }

  lemma {:induction false} PlacesMatch(q: Query, log: seq<LogEvent>, limit: nat)
    ensures Within(Places(q, log, limit), |log|) && |Places(q, log, limit)| <= limit
    ensures forall k :: 0 <= k < |Places(q, log, limit)| ==> Matches(q, log[Places(q, log, limit)[k]])
  {
    hide Matches;
    PlacesWithin(q, log, limit);
    if log != [] && limit > 0 {
      var n := |log| - 1;
      var limit' := if Matches(q, log[n]) then limit - 1 else limit;
      PlacesMatch(q, log[..n], limit');
      assert forall k :: 0 <= k < |Places(q, log[..n], limit')| ==> Places(q, log[..n], limit')[k] < n;
    }
  }

  lemma {:induction false} PlacesFall(q: Query, log: seq<LogEvent>, limit: nat)
    ensures forall j, k :: 0 <= j < k < |Places(q, log, limit)| ==> Places(q, log, limit)[j] > Places(q, log, limit)[k]
  {
    hide Matches;
    if log != [] && limit > 0 {
      var n := |log| - 1;
      var limit' := if Matches(q, log[n]) then limit - 1 else limit;
      PlacesFall(q, log[..n], limit');
      PlacesWithin(q, log[..n], limit');
    }
  }

  // A place left out although it matches: newer ones fill the answer.
  lemma {:induction false} PlacesFull(q: Query, log: seq<LogEvent>, limit: nat, p: nat)
    requires p < |log| && Matches(q, log[p]) && p !in Places(q, log, limit)
    ensures |Places(q, log, limit)| == limit
    ensures forall k :: 0 <= k < limit ==> Places(q, log, limit)[k] > p
  {
    hide Matches;
    var n := |log| - 1;
    if limit > 0 && p < n {
      PlacesFull(q, log[..n], if Matches(q, log[n]) then limit - 1 else limit, p);
    }
  }

  // The places of a query: matching events only, newest first, at most `limit`; and a
  // matching event is left out only when `limit` newer ones are there.
  lemma PlacesMeaning(q: Query, log: seq<LogEvent>, limit: nat)
    ensures var ps := Places(q, log, limit);
            && |ps| <= limit
            && Within(ps, |log|)
            && (forall k :: 0 <= k < |ps| ==> Matches(q, log[ps[k]]))
            && (forall j, k :: 0 <= j < k < |ps| ==> ps[j] > ps[k])
            && (forall p: nat :: p < |log| && Matches(q, log[p]) && p !in ps ==>
                  |ps| == limit && forall k :: 0 <= k < |ps| ==> ps[k] > p)
  {
    PlacesMatch(q, log, limit);
    PlacesFall(q, log, limit);
    hide Matches, Places;
    forall p: nat | p < |log| && Matches(q, log[p]) && p !in Places(q, log, limit)
      ensures |Places(q, log, limit)| == limit && forall k :: 0 <= k < limit ==> Places(q, log, limit)[k] > p
    {
      PlacesFull(q, log, limit, p);
    }
  }

  // ---- The ring ---------------------------------------------------------

  function Last<T>(log: seq<T>, n: nat): seq<T> {
    if |log| <= n then log else log[|log| - n..]
  }

  function SlotAfter(head: nat, capacity: nat): nat
    requires capacity > 0
  {
    (head + 1) % capacity
  }

  // The slot of the event with i newer ones.
  function SlotBack(head: nat, i: nat, n: nat): nat
    requires i < n
  {
    (head - 1 - i + n) % n
  }

  // The ring holds `kept`, the oldest event at `head`.
  ghost predicate Holds(events: seq<LogEvent>, head: nat, kept: seq<LogEvent>) {
    && |events| == |kept|
    && (|kept| > 0 ==> head < |kept|)
    && forall k :: 0 <= k < |kept| ==> events[Wrap(head + k, |kept|)] == kept[k]
  }

  lemma Grown(log: seq<LogEvent>, e: LogEvent, n: nat)
    ensures n > 0 ==>
      && (Last(log + [e], n) == (if |Last(log, n)| < n then Last(log, n) else Last(log, n)[1..]) + [e])
      && (|log| < n <==> |Last(log, n)| < n)
  {}

  lemma Extend(events: seq<LogEvent>, kept: seq<LogEvent>, e: LogEvent)
    ensures Holds(events, 0, kept) ==> Holds(events + [e], 0, kept + [e])
  {}

  lemma Overwrite(events: seq<LogEvent>, head: nat, kept: seq<LogEvent>, e: LogEvent)
    requires Holds(events, head, kept) && |kept| > 0
    ensures Holds(events[head := e], SlotAfter(head, |kept|), kept[1..] + [e])
  {
    WrapIsMod(head + 1, |kept|);
    var n := |kept|;
    var kept' := kept[1..] + [e];
    var head' := Wrap(head + 1, n);
    forall k | 0 <= k < n
      ensures events[head := e][Wrap(head' + k, n)] == kept'[k]
    {
      if k < n - 1 {
        assert Wrap(head' + k, n) == Wrap(head + (k + 1), n) != head;
      } else {
        assert Wrap(head' + k, n) == head;
      }
    }
  }

  lemma KeptLength(events: seq<LogEvent>, head: nat, kept: seq<LogEvent>)
    ensures Holds(events, head, kept) ==> |events| == |kept|
  {}

  lemma ReadBack(events: seq<LogEvent>, head: nat, kept: seq<LogEvent>, i: nat)
    requires Holds(events, head, kept) && i < |kept|
    ensures SlotBack(head, i, |kept|) < |events|
    ensures events[SlotBack(head, i, |kept|)] == kept[|kept| - 1 - i]
  {
    WrapIsMod(head - 1 - i + |kept|, |kept|);
    assert head - 1 - i + |kept| == head + (|kept| - 1 - i);
  }

  // The three filters, in the order in which the query loop tries them.
  method Accepts(q: Query, e: LogEvent) returns (accepted: bool)
    ensures accepted <==> Matches(q, e)
  {
    hide EqualFold, Contains, ToLower, Combined;
    if q.kind != "" && q.kind != "ALL" && !EqualFold(e.details.kind, q.kind) {
      return false;
    }
    if q.domain != "" && !Contains(ToLower(e.details.domain), q.domain) {
      return false;
    }
    if q.search != "" {
      var combined := ToLower(Combined(e));
      if !Contains(combined, q.search) {
        return false;
      }
    }
    return true;
  }

  // The events of `kept` from place m on are searched, and `result` holds those found.
  ghost predicate Searched(q: Query, kept: seq<LogEvent>, m: nat, found: seq<nat>, result: seq<LogEvent>) {
    && m <= |kept|
    && Within(found, |kept|)
    && result == Picked(kept, found)
    && |result| <= MAX_RESULTS
    && Places(q, kept, MAX_RESULTS) == found + Places(q, kept[..m], MAX_RESULTS - |result|)
  }

  lemma StartSearch(q: Query, kept: seq<LogEvent>)
    ensures Searched(q, kept, |kept|, [], []) && 0 < MAX_RESULTS
  {
    assert kept[..|kept|] == kept;
    hide Places;
  }

  lemma Skip(q: Query, kept: seq<LogEvent>, m: nat, found: seq<nat>, result: seq<LogEvent>)
    requires Searched(q, kept, m, found, result) && m > 0 && !Matches(q, kept[m - 1])
    ensures Searched(q, kept, m - 1, found, result)
  {
    hide Matches;
    assert kept[..m][..m - 1] == kept[..m - 1];
  }

  lemma Take(q: Query, kept: seq<LogEvent>, m: nat, found: seq<nat>, result: seq<LogEvent>)
    requires Searched(q, kept, m, found, result) && m > 0 && Matches(q, kept[m - 1])
    requires |result| < MAX_RESULTS
    ensures Searched(q, kept, m - 1, found + [m - 1], result + [kept[m - 1]])
  {
    hide Matches;
    assert kept[..m][..m - 1] == kept[..m - 1];
    var rest := Places(q, kept[..m - 1], MAX_RESULTS - |result| - 1);
    assert Places(q, kept[..m], MAX_RESULTS - |result|) == [m - 1] + rest;
    assert found + ([m - 1] + rest) == (found + [m - 1]) + rest;
  }

  lemma Full(q: Query, kept: seq<LogEvent>, m: nat, found: seq<nat>, result: seq<LogEvent>)
    ensures Searched(q, kept, m, found, result) && |result| >= MAX_RESULTS ==>
      && Within(Places(q, kept, MAX_RESULTS), |kept|)
      && result == Picked(kept, Places(q, kept, MAX_RESULTS))
  {}

  lemma Exhausted(q: Query, kept: seq<LogEvent>, found: seq<nat>, result: seq<LogEvent>)
    ensures Searched(q, kept, 0, found, result) ==>
      && Within(Places(q, kept, MAX_RESULTS), |kept|)
      && result == Picked(kept, Places(q, kept, MAX_RESULTS))
  {}

  class LogStore {
    var events: seq<LogEvent>
    var head: nat
    const maxCap: nat
    // Every event that entered the ring, and how many had entered at the last clear.
    ghost var all: seq<LogEvent>
    ghost var cleared: nat

    ghost predicate Valid()
      reads this
    {
      && maxCap > 0
      && cleared <= |all|
      && Holds(events, head, Kept())
      && (|events| < maxCap ==> head == 0)
    }

    ghost function Kept(): seq<LogEvent>
      reads this
    {
      if cleared <= |all| then Last(all[cleared..], maxCap) else []
    }

    // The source's capacity is 2000.
    constructor (capacity: nat)
      requires capacity > 0
      ensures Valid() && all == [] && cleared == 0 && maxCap == capacity
    {
      events, head, maxCap := [], 0, capacity;
      all, cleared := [], 0;
    }

    method Append(event: LogEvent)
      requires Valid()
      modifies this
      ensures Valid() && all == old(all) + [event] && cleared == old(cleared)
    {
      ghost var kept := Kept();
      Grown(all[cleared..], event, maxCap);
      assert (all + [event])[cleared..] == all[cleared..] + [event];
      if |events| < maxCap {
        Extend(events, kept, event);
        events := events + [event];
      } else {
        Overwrite(events, head, kept, event);
        hide Holds, Last, SlotAfter;
        events := events[head := event];
        head := SlotAfter(head, maxCap);
      }
      all := all + [event];
    }

    method Clear()
      requires Valid()
      modifies this
      ensures Valid() && all == old(all) && cleared == |all|
    {
      events, head := [], 0;
      cleared := |all|;
    }

    // The newest matches, at most 500, among the last `maxCap` events since the last clear.
    method QueryLogs(logType: string, search: string, domain: string) returns (result: seq<LogEvent>)
      requires Valid()
      ensures var q := Normalized(logType, search, domain);
              && Within(Places(q, Kept(), 500), |Kept()|)
              && result == Picked(Kept(), Places(q, Kept(), 500))
    {
      var q := Normalized(logType, search, domain);
      ghost var kept := Kept();
      assert Holds(events, head, kept);
      KeptLength(events, head, kept);
      hide *;
      var n := |events|;
      result := [];
      ghost var found: seq<nat> := [];
      StartSearch(q, kept);
      for i := 0 to n
        invariant Holds(events, head, kept) && n == |events| == |kept|
        invariant |result| < MAX_RESULTS
        invariant Searched(q, kept, n - i, found, result)
      {
        ReadBack(events, head, kept, i);
        var idx := SlotBack(head, i, n);
        var e := events[idx];
        var accepted := Accepts(q, e);
        if !accepted {
          Skip(q, kept, n - i, found, result);
          continue;
        }
        Take(q, kept, n - i, found, result);
        result := result + [e];
        found := found + [n - 1 - i];
        if |result| >= MAX_RESULTS {
          Full(q, kept, n - 1 - i, found, result);
          return;
        }
      }
      Exhausted(q, kept, found, result);
    }
  }
}
