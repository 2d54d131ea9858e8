// The ban state machine of core/pipeline.go over the sharded map of
// core/sharded_map.go and the kernel map of core/xdp.go.
module BanStates {
  import opened Sharding
  import opened Blacklists
  import opened XdpManagers

  // ---- The sharded map --------------------------------------------------

  // What Cleanup leaves.
  function Unexpired(m: map<string, real>, now: real): map<string, real> {
    map key | key in m && !(m[key] < now) :: m[key]
  }

  datatype Loaded = Missing | Entry(expiry: real)

  function Lookup(m: map<string, real>, key: string): Loaded {
    if key in m then Entry(m[key]) else Missing
  }

  class ShardedTimeMap {
    const shards: array<map<string, real>>
    ghost var all: map<string, real>

    ghost predicate Valid()
      reads this, shards
    {
      shards.Length == SHARDS && forall i :: 0 <= i < SHARDS ==> Holds(shards[i], all, i)
    }

    constructor ()
      ensures Valid() && fresh(shards) && all == map[]
    {
      shards := new map<string, real>[SHARDS](_ => map[]);
      all := map[];
    }

    method Load(key: string) returns (r: Loaded)
      requires Valid()
      ensures r == Lookup(all, key)
    {
      hide Shard, Holds;
      var i := Shard(key);
      HoldsAt(shards[i], all, i, key);
      r := if key in shards[i] then Entry(shards[i][key]) else Missing;
    }

    method Store(key: string, value: real)
      requires Valid()
      modifies this, shards
      ensures Valid() && all == old(all)[key := value]
    {
      hide Shard, Holds;
      var i := Shard(key);
      ghost var was, before := shards[..], all;
      shards[i] := shards[i][key := value];
      all := all[key := value];
      forall j | 0 <= j < SHARDS
        ensures Holds(shards[j], all, j)
      {
        HoldsPut(was[j], before, j, key, value);
      }
    }

    method Delete(key: string)
      requires Valid()
      modifies this, shards
      ensures Valid() && all == old(all) - {key}
    {
      hide Shard, Holds;
      var i := Shard(key);
      ghost var was, before := shards[..], all;
      shards[i] := shards[i] - {key};
      all := all - {key};
      forall j | 0 <= j < SHARDS
        ensures Holds(shards[j], all, j)
      {
        HoldsDrop(was[j], before, j, key);
      }
    }

    method LoadOrStore(key: string, value: real) returns (actual: real, loaded: bool)
      requires Valid()
      modifies this, shards
      ensures Valid()
      ensures loaded == (key in old(all))
      ensures loaded ==> actual == old(all)[key] && all == old(all)
      ensures !loaded ==> actual == value && all == old(all)[key := value]
    {
      var r := Load(key);
      if r.Entry? {
        return r.expiry, true;
      }
      Store(key, value);
      return value, false;
    }

    // The number of entries removed is returned.
    method Cleanup(now: real) returns (count: nat)
      requires Valid()
      modifies this, shards
      ensures Valid() && all == Unexpired(old(all), now)
      ensures count == |old(all)| - |all|
    {
      hide Shard, Holds;
      count := 0;
      var i := 0;
      while i < SHARDS
        invariant 0 <= i <= SHARDS && Valid()
        invariant forall key :: key in all <==> key in old(all) && !(Shard(key) < i && old(all)[key] < now)
        invariant forall key :: key in all ==> all[key] == old(all)[key]
        invariant count == |old(all)| - |all|
      {
        var n := CleanupShard(i, now);
        count := count + n;
        i := i + 1;
      }
      assert all.Keys == Unexpired(old(all), now).Keys;
    }

    method CleanupShard(i: nat, now: real) returns (count: nat)
      requires Valid() && i < SHARDS
      modifies this, shards
      ensures Valid()
      ensures forall key :: key in all <==> key in old(all) && !(Shard(key) == i && old(all)[key] < now)
      ensures forall key :: key in all ==> all[key] == old(all)[key]
      ensures count == |old(all)| - |all|
    {
      hide Shard, Holds;
      count := 0;
      var todo := shards[i].Keys;
      forall key | Shard(key) == i
        ensures key in all <==> key in todo
      {
        HoldsAt(shards[i], all, i, key);
      }
      while todo != {}
        invariant Valid()
        invariant todo <= shards[i].Keys
        invariant forall key :: key in all <==>
          key in old(all) && !(Shard(key) == i && key !in todo && old(all)[key] < now)
        invariant forall key :: key in all ==> all[key] == old(all)[key]
        invariant count == |old(all)| - |all|
      {
        var key :| key in todo;
        HoldsAt(shards[i], all, i, key);
        if shards[i][key] < now {
          ghost var was, before := shards[..], all;
          assert |before - {key}| == |before| - 1 by { assert (before - {key}).Keys == before.Keys - {key}; }
          shards[i] := shards[i] - {key};
          all := all - {key};
          forall j | 0 <= j < SHARDS
            ensures Holds(shards[j], all, j)
          {
            HoldsDrop(was[j], before, j, key);
          }
          count := count + 1;
        }
        todo := todo - {key};
      }
    }

    method Clear()
      requires Valid()
      modifies this, shards
      ensures Valid() && all == map[]
    {
      hide Shard;
      all := map[];
      var i := 0;
      while i < SHARDS
        invariant 0 <= i <= SHARDS && all == map[]
        invariant forall j :: 0 <= j < i ==> shards[j] == map[]
      {
        shards[i] := map[];
        i := i + 1;
      }
    }

    method Snapshot() returns (m: map<string, real>)
      requires Valid()
      ensures m == all
    {
      m := map[];
      var i := 0;
      while i < SHARDS
        invariant 0 <= i <= SHARDS
        invariant forall key :: key in m <==> key in all && Shard(key) < i
        invariant forall key :: key in m ==> m[key] == all[key]
      {
        hide Shard;
        m := m + shards[i];
        i := i + 1;
      }
      assert m.Keys == all.Keys;
    }
  }

  // ---- What the pipeline means ------------------------------------------

  // Fixed configuration: who may never be banned, and what net.ParseIP makes
  // of an address string.
  datatype Config = Config(trusted: string -> bool, whitelisted: string -> bool, parse: string -> Parsed, xdp: bool)

  predicate Protected(cfg: Config, ip: string) {
    cfg.trusted(ip) || cfg.whitelisted(ip)
  }

  datatype State = State(banned: map<string, real>, bannedIPs: int, kernel: map<Key, nat>)

  // Nobody is banned at first; the kernel map may hold entries of an earlier process.
  function Start(found: map<Key, nat>): State {
    State(map[], 0, found)
  }

  datatype Event =
    | Ban(ip: string, duration: real, now: real)
    | Query(ip: string, now: real)
    | Unban(ip: string)
    | UnbanAll
    | Cleanup(now: real)

  function KernelPlus(cfg: Config, kernel: map<Key, nat>, ip: string): map<Key, nat> {
    if cfg.xdp && cfg.parse(ip).IPv4? then Inserted(kernel, KeyOf(cfg.parse(ip).address)) else kernel
  }

  // The kernel keys of a set of address strings.
  function KeysOf(cfg: Config, ips: set<string>): set<Key> {
    if cfg.xdp then set ip | ip in ips && cfg.parse(ip).IPv4? :: KeyOf(cfg.parse(ip).address) else {}
  }

  function Expired(banned: map<string, real>, now: real): set<string> {
    set ip | ip in banned && now > banned[ip]
  }

  function Forgotten(cfg: Config, s: State, gone: set<string>): State {
    State(s.banned - gone, s.bannedIPs - |gone|, s.kernel - KeysOf(cfg, gone))
  }

  function Step(cfg: Config, s: State, e: Event): State {
    match e
    case Ban(ip, duration, now) =>
      if Protected(cfg, ip) then s
      else
        var more := if ip in s.banned then 0 else 1;
        State(s.banned[ip := now + duration], s.bannedIPs + more, KernelPlus(cfg, s.kernel, ip))
    case Query(ip, now) =>
      if !Protected(cfg, ip) && ip in s.banned && now > s.banned[ip] then s.(banned := s.banned - {ip}) else s
    case Unban(ip) => s.(banned := s.banned - {ip}, kernel := s.kernel - KeysOf(cfg, {ip}))
    case UnbanAll => State(map[], 0, s.kernel - KeysOf(cfg, s.banned.Keys))
    case Cleanup(now) =>
      Forgotten(cfg, s, Expired(s.banned, now))
  }

  // The answer of isBanned.
  predicate IsBanned(cfg: Config, s: State, ip: string, now: real) {
    !Protected(cfg, ip) && ip in s.banned && now <= s.banned[ip]
  }

  function Run(cfg: Config, found: map<Key, nat>, events: seq<Event>): State {
    if events == [] then Start(found)
    else Step(cfg, Run(cfg, found, events[..|events| - 1]), events[|events| - 1])
  }

  // ---- Lazy expiry refines history --------------------------------------

  // The expiry set by the latest ban of `ip` since it was last unbanned.
  function Latest(cfg: Config, events: seq<Event>, ip: string): Loaded {
    if events == [] then Missing
    else
      var e := events[|events| - 1];
      if e.Ban? && e.ip == ip && !Protected(cfg, ip) then Entry(e.now + e.duration)
      else if e.UnbanAll? || (e.Unban? && e.ip == ip) then Missing
      else Latest(cfg, events[..|events| - 1], ip)
  }

  predicate Clocked(e: Event) {
    e.Ban? || e.Query? || e.Cleanup?
  }

  // Every clock reading of the run is at most `t`, and they never go back.
  predicate Timely(events: seq<Event>, t: real) {
    if events == [] then true
    else
      var e := events[|events| - 1];
      if Clocked(e) then e.now <= t && Timely(events[..|events| - 1], e.now) else Timely(events[..|events| - 1], t)
  }

  lemma {:induction false} EntryOrExpired(cfg: Config, found: map<Key, nat>, events: seq<Event>, ip: string, t: real)
    requires Timely(events, t)
    ensures var latest := Latest(cfg, events, ip);
      var entry := Lookup(Run(cfg, found, events).banned, ip);
      entry == latest || (entry.Missing? && latest.expiry < t)
    decreases |events|
  {
    if events != [] {
      var before := events[..|events| - 1];
      var e := events[|events| - 1];
      EntryOrExpired(cfg, found, before, ip, if Clocked(e) then e.now else t);
    }
  }

  // MAIN RESULT. Whatever lazy deletions and cleanups happened in between,
  // an address is banned at t exactly when its latest ban since the last
  // unban reaches t.
  lemma LazyExpiryRefinesHistory(cfg: Config, found: map<Key, nat>, events: seq<Event>, ip: string, t: real)
    requires Timely(events, t)
    ensures IsBanned(cfg, Run(cfg, found, events), ip, t) <==>
      && !cfg.trusted(ip) && !cfg.whitelisted(ip)
      && Latest(cfg, events, ip).Entry? && Latest(cfg, events, ip).expiry >= t
  {
    EntryOrExpired(cfg, found, events, ip, t);
  }

  // ---- Copies stay coherent ---------------------------------------------

  lemma {:induction false} NoProtectedBanned(cfg: Config, found: map<Key, nat>, events: seq<Event>, ip: string)
    requires ip in Run(cfg, found, events).banned
    ensures !cfg.trusted(ip) && !cfg.whitelisted(ip)
  {
    var before := events[..|events| - 1];
    if ip in Run(cfg, found, before).banned {
      NoProtectedBanned(cfg, found, before, ip);
    }
  }

  // The entry of the address goes without the counter noticing: a late query or a single unban.
  predicate Unnoticed(cfg: Config, s: State, e: Event) {
    (e.Query? || e.Unban?) && e.ip in s.banned && e.ip !in Step(cfg, s, e).banned
  }

  function UnnoticedSince(cfg: Config, found: map<Key, nat>, events: seq<Event>): nat {
    if events == [] then 0
    else
      var before, e := events[..|events| - 1], events[|events| - 1];
      if e.UnbanAll? then 0
      else UnnoticedSince(cfg, found, before) + if Unnoticed(cfg, Run(cfg, found, before), e) then 1 else 0
  }

  // By how much the counter exceeds the number of entries.
  function Surplus(s: State): int {
    s.bannedIPs - |s.banned|
  }

  // The counter exceeds the number of entries by those that late queries and single unbans took
  // away since the last UnbanAll, so it never falls below it.
  lemma {:induction false} CounterCovers(cfg: Config, found: map<Key, nat>, events: seq<Event>)
    ensures Surplus(Run(cfg, found, events)) == UnnoticedSince(cfg, found, events)
  {
    if events != [] {
      hide Step, Unnoticed, Surplus;
      CounterCovers(cfg, found, events[..|events| - 1]);
      StepCounts(cfg, Run(cfg, found, events[..|events| - 1]), events[|events| - 1]);
    }
  }

  lemma StepCounts(cfg: Config, s: State, e: Event)
    ensures Surplus(Step(cfg, s, e)) ==
      if e.UnbanAll? then 0 else Surplus(s) + if Unnoticed(cfg, s, e) then 1 else 0
  {
    match e {
      case Ban(ip, duration, now) => BanCounts(cfg, s, ip, duration, now);
      case Query(_, _) => RemovalCounts(cfg, s, e);
      case Unban(_) => RemovalCounts(cfg, s, e);
      case UnbanAll => hide KeysOf;
      case Cleanup(now) =>
        ForgottenCounts(cfg, s, now);
        hide Forgotten, Expired, Surplus;
    }
  }

  lemma BanCounts(cfg: Config, s: State, ip: string, duration: real, now: real)
    ensures Surplus(Step(cfg, s, Ban(ip, duration, now))) == Surplus(s)
  {
    hide KernelPlus, Protected;
    SizeWith(s.banned, ip, now + duration);
  }

  lemma RemovalCounts(cfg: Config, s: State, e: Event)
    requires e.Query? || e.Unban?
    ensures Surplus(Step(cfg, s, e)) == Surplus(s) + if Unnoticed(cfg, s, e) then 1 else 0
  {
    hide KeysOf, Protected;
    SizeWithout(s.banned, e.ip);
  }

  lemma SizeWithout(m: map<string, real>, ip: string)
    ensures |m - {ip}| == (if ip in m then |m| - 1 else |m|) && ip !in m - {ip}
  {
    assert (m - {ip}).Keys == m.Keys - {ip};
    assert |m - {ip}| == |(m - {ip}).Keys| && |m| == |m.Keys|;
  }

  lemma SizeWith(m: map<string, real>, ip: string, expiry: real)
    ensures |m[ip := expiry]| == if ip in m then |m| else |m| + 1
  {
    assert m[ip := expiry].Keys == m.Keys + {ip};
    assert |m[ip := expiry]| == |m[ip := expiry].Keys| && |m| == |m.Keys|;
  }

  lemma ForgottenCounts(cfg: Config, s: State, now: real)
    ensures Surplus(Forgotten(cfg, s, Expired(s.banned, now))) == Surplus(s)
  {
    hide KeysOf, Expired;
    ExpiredCounted(s.banned, now);
  }

  lemma ExpiredCounted(m: map<string, real>, now: real)
    ensures |m - Expired(m, now)| == |m| - |Expired(m, now)|
  {
    ExpiredPresent(m, now);
    hide Expired;
  }

  lemma ExpiredPresent(m: map<string, real>, now: real)
    ensures Expired(m, now) <= m.Keys
  {}

  // ---- The object -------------------------------------------------------

  class Pipeline {
    const cfg: Config
    const banned: ShardedTimeMap
    const xdpMgr: XDPManager
    var bannedIPs: int

    ghost predicate Valid()
      reads this, banned, banned.shards, xdpMgr
    {
      banned.Valid() && xdpMgr.enabled == cfg.xdp
    }

    ghost function View(): State
      reads this, banned, xdpMgr.bpfMap
    {
      State(banned.all, bannedIPs, xdpMgr.bpfMap.entries)
    }

    constructor (cfg: Config, bpfMap: BpfMap)
      ensures Valid() && View() == Start(bpfMap.entries)
      ensures this.cfg == cfg && fresh(banned) && fresh(banned.shards) && xdpMgr.bpfMap == bpfMap
    {
      this.cfg := cfg;
      banned := new ShardedTimeMap();
      xdpMgr := new XDPManager(bpfMap, cfg.xdp);
      bannedIPs := 0;
    }

    // banIP.
    method BanIp(ip: string, duration: real, now: real)
      requires Valid()
      modifies this`bannedIPs, banned, banned.shards, xdpMgr.bpfMap
      ensures Valid() && View() == Step(cfg, old(View()), Ban(ip, duration, now))
    {
      if cfg.trusted(ip) || cfg.whitelisted(ip) {
        return;
      }
      var _, already := banned.LoadOrStore(ip, now + duration);
      if !already {
        bannedIPs := bannedIPs + 1;
      } else {
        banned.Store(ip, now + duration);
      }
      if xdpMgr.enabled {
        var _ := xdpMgr.BanIP(cfg.parse(ip));
      }
    }

    method BanIPRemote(ip: string, duration: real, now: real)
      requires Valid()
      modifies this`bannedIPs, banned, banned.shards, xdpMgr.bpfMap
      ensures Valid() && View() == Step(cfg, old(View()), Ban(ip, duration, now))
    {
      if cfg.trusted(ip) || cfg.whitelisted(ip) {
        return;
      }
      BanIp(ip, duration, now);
    }

    // A local decision; `scanned` is what a fresh scan of the trusted ranges
    // says. The result tells the caller to broadcast it.
    method BanIPLocal(ip: string, duration: real, now: real, scanned: bool) returns (broadcast: bool)
      requires Valid()
      modifies this`bannedIPs, banned, banned.shards, xdpMgr.bpfMap
      ensures Valid()
      ensures broadcast == !(ip == "" || scanned || Protected(cfg, ip))
      ensures View() == if broadcast then Step(cfg, old(View()), Ban(ip, duration, now)) else old(View())
    {
      if ip == "" || cfg.trusted(ip) || scanned || cfg.whitelisted(ip) {
        return false;
      }
      BanIp(ip, duration, now);
      return true;
    }

    // isBanned.
    method IsBannedNow(ip: string, now: real) returns (yes: bool)
      requires Valid()
      modifies banned, banned.shards
      ensures Valid() && View() == Step(cfg, old(View()), Query(ip, now))
      ensures yes == IsBanned(cfg, old(View()), ip, now)
    {
      if cfg.trusted(ip) || cfg.whitelisted(ip) {
        return false;
      }
      var v := banned.Load(ip);
      if v.Missing? {
        return false;
      }
      if now > v.expiry {
        banned.Delete(ip);
        return false;
      }
      return true;
    }

    method UnbanIP(ip: string)
      requires Valid()
      modifies banned, banned.shards, xdpMgr.bpfMap
      ensures Valid() && View() == Step(cfg, old(View()), Unban(ip))
    {
      banned.Delete(ip);
      DropKey(ip);
    }

    method DropKey(ip: string)
      requires Valid()
      modifies xdpMgr.bpfMap
      ensures Valid() && xdpMgr.bpfMap.entries == old(xdpMgr.bpfMap.entries) - KeysOf(cfg, {ip})
    {
      if xdpMgr.enabled {
        var _ := xdpMgr.UnbanIP(cfg.parse(ip));
      }
    }

    method UnbanAllIPs()
      requires Valid()
      modifies this`bannedIPs, banned, banned.shards, xdpMgr.bpfMap
      ensures Valid() && View() == Step(cfg, old(View()), UnbanAll)
    {
      var snapshot := banned.Snapshot();
      banned.Clear();
      DropKeys(snapshot.Keys);
      bannedIPs := 0;
    }

    method DropKeys(ips: set<string>)
      requires Valid()
      modifies xdpMgr.bpfMap
      ensures Valid() && xdpMgr.bpfMap.entries == old(xdpMgr.bpfMap.entries) - KeysOf(cfg, ips)
    {
      hide KeysOf;
      var todo := ips;
      KeysOfNone(cfg);
      assert ips - todo == {};
      while todo != {}
        invariant todo <= ips && Valid()
        invariant xdpMgr.bpfMap.entries == old(xdpMgr.bpfMap.entries) - KeysOf(cfg, ips - todo)
      {
        var ip :| ip in todo;
        DropKey(ip);
        KeysOfOneMore(cfg, ips - todo, ip);
        assert ips - (todo - {ip}) == (ips - todo) + {ip};
        todo := todo - {ip};
      }
      assert ips - todo == ips;
    }

    // The ban part of Cleanup, as one step.
    method Cleanup(now: real)
      requires Valid()
      modifies this`bannedIPs, banned, banned.shards, xdpMgr.bpfMap
      ensures Valid() && View() == Step(cfg, old(View()), Event.Cleanup(now))
    {
      var snapshot := banned.Snapshot();
      var gone := Expired(snapshot, now);
      var todo := gone;
      ghost var done: set<string> := {};
      ForgetNone(cfg, View());
      while todo != {}
        invariant Parts(todo, done, gone) && Valid()
        invariant View() == Forgotten(cfg, old(View()), done)
      {
        hide *;
        var key :| key in todo;
        MovePart(todo, done, gone, key);
        ForgetMore(cfg, old(View()), done, key);
        Forget(key);
        todo, done := todo - {key}, done + {key};
      }
      assert done == gone;
    }

    method Forget(key: string)
      requires Valid()
      modifies this`bannedIPs, banned, banned.shards, xdpMgr.bpfMap
      ensures Valid() && View() == Forgotten(cfg, old(View()), {key})
    {
      banned.Delete(key);
      bannedIPs := bannedIPs - 1;
      DropKey(key);
    }
  }

  predicate Parts(todo: set<string>, done: set<string>, all: set<string>) {
    todo + done == all && todo !! done
  }

  lemma MovePart(todo: set<string>, done: set<string>, all: set<string>, key: string)
    ensures Parts(todo, done, all) && key in todo ==> key !in done && Parts(todo - {key}, done + {key}, all)
  {}

  lemma ForgetNone(cfg: Config, s: State)
    ensures Forgotten(cfg, s, {}) == s
  {
    KeysOfNone(cfg);
  }

  lemma ForgetMore(cfg: Config, s: State, done: set<string>, key: string)
    ensures key !in done ==> Forgotten(cfg, s, done + {key}) == Forgotten(cfg, Forgotten(cfg, s, done), {key})
  {
    hide KeysOf;
    KeysOfOneMore(cfg, done, key);
    assert s.banned - (done + {key}) == s.banned - done - {key};
    assert s.kernel - (KeysOf(cfg, done) + KeysOf(cfg, {key})) == s.kernel - KeysOf(cfg, done) - KeysOf(cfg, {key});
  }

  lemma KeysOfNone(cfg: Config)
    ensures KeysOf(cfg, {}) == {}
  {}

  lemma KeysOfOneMore(cfg: Config, ips: set<string>, ip: string)
    ensures KeysOf(cfg, ips + {ip}) == KeysOf(cfg, ips) + KeysOf(cfg, {ip})
  {}
}
