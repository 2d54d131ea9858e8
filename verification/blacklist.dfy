// The BPF hash map shared by the packet filter and the user-space manager:
// IPv4 source address -> packets dropped.
module Blacklists {

  import opened Bytes

  type Key = k: int | 0 <= k < 0x1_0000_0000

  // An IPv4 address as it sits in memory, in network order.
  type Address = a: seq<Byte> | |a| == 4 witness [0, 0, 0, 0]

  // The 32-bit key read from those four bytes on a little-endian machine,
  // both by the C filter (ip->saddr) and by binary.LittleEndian.Uint32.
  function KeyOf(a: Address): Key {
    a[0] as int + 0x100 * (a[1] as int + 0x100 * (a[2] as int + 0x100 * a[3] as int))
  }

  lemma KeyOfInjective(a: Address, b: Address)
    requires KeyOf(a) == KeyOf(b)
    ensures a == b
  {
    assert a[0] == b[0] && a[1] == b[1] && a[2] == b[2] && a[3] == b[3];
  }

  const MAX_ENTRIES: nat := 1_000_000

  datatype Status = Done | KeyExists | KeyMissing | MapFull

  // bpf_map_update_elem with BPF_NOEXIST.
  function Inserted(m: map<Key, nat>, key: Key): map<Key, nat> {
    if key in m || |m| >= MAX_ENTRIES then m else m[key := 0]
  }

  class BpfMap {
    var entries: map<Key, nat>

    constructor ()
      ensures entries == map[]
    {
      entries := map[];
    }

    method UpdateNoExist(key: Key) returns (status: Status)
      modifies this
      ensures entries == Inserted(old(entries), key)
      ensures status == if key in old(entries) then KeyExists
                        else if |old(entries)| >= MAX_ENTRIES then MapFull else Done
    {
      if key in entries {
        return KeyExists;
      }
      if |entries| >= MAX_ENTRIES {
        return MapFull;
      }
      entries := entries[key := 0];
      return Done;
    }

    method Delete(key: Key) returns (status: Status)
      modifies this
      ensures entries == old(entries) - {key}
      ensures status == if key in old(entries) then Done else KeyMissing
    {
      status := if key in entries then Done else KeyMissing;
      entries := entries - {key};
    }

    // __sync_fetch_and_add on a looked-up element.
    method AddOne(key: Key)
      requires key in entries
      modifies this
      ensures entries == old(entries)[key := old(entries)[key] + 1]
    {
      entries := entries[key := entries[key] + 1];
    }
  }

  // ---- Sums over a counter map ------------------------------------------

  function Get(m: map<Key, nat>, key: Key): nat {
    if key in m then m[key] else 0
  }

  ghost function Sum(m: map<Key, nat>): nat
    decreases |m|
  {
    if m == map[] then 0
    else
      var k :| k in m;
      assert |m - {k}| < |m| by { Smaller(m, k); }
      m[k] + Sum(m - {k})
  }

  lemma Smaller(m: map<Key, nat>, k: Key)
    ensures k in m ==> |m - {k}| == |m| - 1
  {}

  lemma {:induction false} SumSplit(m: map<Key, nat>, key: Key)
    requires key in m
    ensures Sum(m) == m[key] + Sum(m - {key})
    decreases |m|
  {
    Smaller(m, key);
    var k :| k in m && Sum(m) == m[k] + Sum(m - {k});
    if k != key {
      Smaller(m, k);
      SumSplit(m - {k}, key);
      SumSplit(m - {key}, k);
      assert m - {k} - {key} == m - {key} - {k};
    }
  }

  lemma SumPut(m: map<Key, nat>, key: Key, v: nat)
    ensures Sum(m[key := v]) == Sum(m) - Get(m, key) + v
  {
    var m' := m[key := v];
    SumSplit(m', key);
    if key in m {
      SumSplit(m, key);
      assert m' - {key} == m - {key};
    } else {
      assert m' - {key} == m;
    }
  }

  lemma EmptySum()
    ensures Sum(map[]) == 0
  {}

  lemma SumDrop(m: map<Key, nat>, key: Key)
    ensures Sum(m - {key}) == Sum(m) - Get(m, key)
  {
    if key in m {
      SumSplit(m, key);
    } else {
      assert m - {key} == m;
    }
  }

  // Pointwise order carries over to sums, and is strict as soon as it is
  // strict anywhere.
  lemma {:induction false} SumMono(a: map<Key, nat>, b: map<Key, nat>)
    requires forall k: Key :: Get(a, k) <= Get(b, k)
    ensures Sum(a) <= Sum(b)
    decreases |a| + |b|
  {
    hide Get, Sum;
    if a != map[] || b != map[] {
      var k :| k in a || k in b;
      SumDrop(a, k);
      SumDrop(b, k);
      WithoutKey(a, b, k);
      assert Get(a, k) <= Get(b, k);
      SumMono(a - {k}, b - {k});
    }
    EmptySum();
  }

  lemma WithoutKey(a: map<Key, nat>, b: map<Key, nat>, key: Key)
    requires forall k: Key :: Get(a, k) <= Get(b, k)
    ensures forall k: Key :: Get(a - {key}, k) <= Get(b - {key}, k)
  {
    forall k: Key ensures Get(a - {key}, k) <= Get(b - {key}, k) {
      assert Get(a, k) <= Get(b, k);
    }
  }

  lemma SumStrict(a: map<Key, nat>, b: map<Key, nat>, key: Key)
    requires forall k: Key :: Get(a, k) <= Get(b, k)
    requires Get(a, key) < Get(b, key)
    ensures Sum(a) < Sum(b)
  {
    SumDrop(a, key);
    SumDrop(b, key);
    WithoutKey(a, b, key);
    SumMono(a - {key}, b - {key});
  }
}
