// The user-space manager of core/xdp.go: pushes bans into the kernel map and
// polls its counters.
module XdpManagers {
  import opened Blacklists
  import opened DropAccounting

  // What the manager remembers: the last counters it saw, and their total growth.
  datatype Memory = Memory(last: map<Key, nat>, lifetime: nat)

  // The growth of one counter is added to the total.
  function Visited(m: Memory, key: Key, value: nat): Memory {
    if value > Get(m.last, key) then Memory(m.last[key := value], m.lifetime + (value - Get(m.last, key))) else m
  }

  lemma PutNew(m: map<Key, nat>, key: Key, value: nat)
    requires key !in m
    ensures |m[key := value]| == |m| + 1 && Sum(m[key := value]) == Sum(m) + value
  {
    SumPut(m, key, value);
    Smaller(m[key := value], key);
    assert m[key := value] - {key} == m;
  }

  lemma ObserveOne(last0: map<Key, nat>, seen: map<Key, nat>, key: Key, value: nat)
    requires key !in seen
    ensures var last := Observed(last0, seen);
      if value > Get(last, key)
      then && Observed(last0, seen[key := value]) == last[key := value]
           && Sum(last[key := value]) == Sum(last) + (value - Get(last, key))
      else Observed(last0, seen[key := value]) == last
  {
    var last := Observed(last0, seen);
    var next := Observed(last0, seen[key := value]);
    var expected := if value > Get(last, key) then last[key := value] else last;
    SumPut(last, key, value);
    forall j: Key
      ensures (j in next <==> j in expected) && Get(next, j) == Get(expected, j)
    {
      ObservedAt(last0, seen, j);
      ObservedAt(last0, seen[key := value], j);
    }
    SameMap(next, expected);
  }

  lemma ObservedAt(last: map<Key, nat>, kernel: map<Key, nat>, k: Key)
    ensures k in Observed(last, kernel) <==> k in last || Get(kernel, k) > Get(last, k)
    ensures Get(Observed(last, kernel), k) == Max(Get(last, k), Get(kernel, k))
  {}

  lemma SameMap(a: map<Key, nat>, b: map<Key, nat>)
    ensures (forall j: Key :: (j in a <==> j in b) && Get(a, j) == Get(b, j)) ==> a == b
  {}

  datatype Parsed = NotIPv4 | IPv4(address: Address)

  datatype Result = Ok | InvalidIPv4 | UpdateFailed

  class XDPManager {
    var enabled: bool
    const bpfMap: BpfMap
    var lifetimeDrops: nat
    var lastObserved: map<Key, nat>

    constructor (bpfMap: BpfMap, enabled: bool)
      ensures this.bpfMap == bpfMap && this.enabled == enabled
      ensures lifetimeDrops == 0 && lastObserved == map[]
    {
      this.bpfMap, this.enabled, lifetimeDrops, lastObserved := bpfMap, enabled, 0, map[];
    }

    // `ip` is what net.ParseIP makes of the argument.
    method BanIP(ip: Parsed) returns (r: Result)
      modifies bpfMap
      ensures bpfMap.entries == if enabled && ip.IPv4? then Inserted(old(bpfMap.entries), KeyOf(ip.address))
                                else old(bpfMap.entries)
      ensures r == if !enabled then Ok else if ip.NotIPv4? then InvalidIPv4
                   else if KeyOf(ip.address) in bpfMap.entries then Ok else UpdateFailed
    {
      if !enabled {
        return Ok;
      }
      if ip.NotIPv4? {
        return InvalidIPv4;
      }
      var status := bpfMap.UpdateNoExist(KeyOf(ip.address));
      if status == Done || status == KeyExists {
        return Ok;
      }
      return UpdateFailed;
    }

    method UnbanIP(ip: Parsed) returns (r: Result)
      modifies bpfMap
      ensures bpfMap.entries == if enabled && ip.IPv4? then old(bpfMap.entries) - {KeyOf(ip.address)}
                                else old(bpfMap.entries)
      ensures r == Ok
    {
      if !enabled || ip.NotIPv4? {
        return Ok;
      }
      var _ := bpfMap.Delete(KeyOf(ip.address));
      return Ok;
    }

    method GetStats() returns (count: nat, total: nat)
      modifies this`lifetimeDrops, this`lastObserved
      ensures enabled ==>
        && count == |bpfMap.entries|
        && total == Max(lifetimeDrops, Sum(bpfMap.entries))
        && lastObserved == Observed(old(lastObserved), bpfMap.entries)
        && lifetimeDrops == PolledTotal(old(lifetimeDrops), old(lastObserved), bpfMap.entries)
      ensures !enabled ==>
        && count == 0 && total == lifetimeDrops
        && lastObserved == old(lastObserved) && lifetimeDrops == old(lifetimeDrops)
    {
      if !enabled {
        return 0, lifetimeDrops;
      }
      var active: nat;
      count, active := PollEntries();
      hide *;
      if lifetimeDrops > active {
        return count, lifetimeDrops;
      }
      return count, active;
    }

    // What the loop does with one entry.
    method VisitEntry(key: Key, value: nat)
      modifies this`lifetimeDrops, this`lastObserved
      ensures Memory(lastObserved, lifetimeDrops) == Visited(Memory(old(lastObserved), old(lifetimeDrops)), key, value)
    {
      var oldVal := Get(lastObserved, key);
      if value > oldVal {
        lifetimeDrops := lifetimeDrops + (value - oldVal);
        lastObserved := lastObserved[key := value];
      }
    }

    // ... and with the two sums that the loop keeps.
    method AddEntry(key: Key, value: nat, count0: nat, active0: nat, ghost start: Memory, ghost seen: map<Key, nat>)
      returns (count: nat, active: nat)
      requires Polled(start, seen, count0, active0, Memory(lastObserved, lifetimeDrops)) && key !in seen
      modifies this`lifetimeDrops, this`lastObserved
      ensures Polled(start, seen[key := value], count, active, Memory(lastObserved, lifetimeDrops))
    {
      PolledNext(start, seen, count0, active0, Memory(lastObserved, lifetimeDrops), key, value);
      hide *;
      count, active := count0 + 1, active0 + value;
      VisitEntry(key, value);
    }

    // The locked loop over the map's entries, in whatever order it visits them.
    method PollEntries() returns (count: nat, active: nat)
      modifies this`lifetimeDrops, this`lastObserved
      ensures Polled(Memory(old(lastObserved), old(lifetimeDrops)), bpfMap.entries, count, active,
                     Memory(lastObserved, lifetimeDrops))
    {
      hide *;
      count, active := 0, 0;
      var entries := bpfMap.entries;
      var todo := entries.Keys;
      ghost var seen: map<Key, nat> := map[];
      ghost var start := Memory(lastObserved, lifetimeDrops);
      PolledNone(start);
      SplitNone(entries);
      while todo != {}
        invariant Split(entries, todo, seen)
        invariant Polled(start, seen, count, active, Memory(lastObserved, lifetimeDrops))
      {
        var key :| key in todo;
        SplitNext(entries, todo, seen, key);
        count, active := AddEntry(key, entries[key], count, active, start, seen);
        seen := seen[key := entries[key]];
        todo := todo - {key};
      }
      SplitAll(entries, seen);
    }
  }

  // The loop has still to visit `todo`; it has seen the rest of the entries.
  ghost predicate Split(entries: map<Key, nat>, todo: set<Key>, seen: map<Key, nat>) {
    todo <= entries.Keys && seen == entries - todo
  }

  lemma SplitNone(entries: map<Key, nat>)
    ensures Split(entries, entries.Keys, map[])
  {}

  lemma SplitNext(entries: map<Key, nat>, todo: set<Key>, seen: map<Key, nat>, key: Key)
    ensures Split(entries, todo, seen) && key in todo ==>
      key in entries && key !in seen && Split(entries, todo - {key}, seen[key := entries[key]])
  {}

  lemma SplitAll(entries: map<Key, nat>, seen: map<Key, nat>)
    ensures Split(entries, {}, seen) ==> seen == entries
  {}

  // The loop's state once it has visited the entries in `seen`.
  ghost predicate Polled(start: Memory, seen: map<Key, nat>, count: nat, active: nat, end: Memory) {
    && count == |seen| && active == Sum(seen)
    && end.last == Observed(start.last, seen)
    && end.lifetime == start.lifetime + (Sum(end.last) - Sum(start.last))
  }

  lemma PolledNone(start: Memory)
    ensures Polled(start, map[], 0, 0, start)
  {
    EmptySum();
    assert Observed(start.last, map[]) == start.last;
  }

  lemma PolledNext(
    start: Memory, seen: map<Key, nat>, count: nat, active: nat, m: Memory, key: Key, value: nat)
    requires Polled(start, seen, count, active, m) && key !in seen
    ensures Polled(start, seen[key := value], count + 1, active + value, Visited(m, key, value))
  {
    hide Sum, Observed, Get;
    PutNew(seen, key, value);
    ObserveOne(start.last, seen, key, value);
  }
}
