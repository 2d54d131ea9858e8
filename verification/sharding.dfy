// The FNV-1a sharding that perf/pool.go and core/sharded_map.go share.
module Sharding {

  // FNV-1a over the low byte of each character, in 32-bit arithmetic.
  function Fnv1a(s: string): bv32 {
    if s == "" then 2166136261
    else (Fnv1a(s[..|s| - 1]) ^ ((s[|s| - 1] as int % 256) as bv32)) * 16777619
  }

  const SHARDS: nat := 256

  function Shard(key: string): (i: nat)
    ensures i < SHARDS
  {
    (Fnv1a(key) as nat) % SHARDS
  }

  // Shard i holds exactly the entries of `all` that hash to it.
  ghost predicate Holds<V>(m: map<string, V>, all: map<string, V>, i: nat) {
    && (forall key :: key in m <==> key in all && Shard(key) == i)
    && (forall key :: key in m ==> m[key] == all[key])
  }

  lemma HoldsPut<V>(m: map<string, V>, all: map<string, V>, i: nat, key: string, v: V)
    requires Holds(m, all, i)
    ensures Shard(key) == i ==> Holds(m[key := v], all[key := v], i)
    ensures Shard(key) != i ==> Holds(m, all[key := v], i)
  {}

  lemma HoldsDrop<V>(m: map<string, V>, all: map<string, V>, i: nat, key: string)
    requires Holds(m, all, i)
    ensures Shard(key) == i ==> Holds(m - {key}, all - {key}, i)
    ensures Shard(key) != i ==> Holds(m, all - {key}, i)
  {}

  lemma HoldsAt<V>(m: map<string, V>, all: map<string, V>, i: nat, key: string)
    ensures Holds(m, all, i) ==>
      && (Shard(key) == i ==> (key in m <==> key in all))
      && (key in m ==> key in all && m[key] == all[key] && Shard(key) == i)
  {}
}
