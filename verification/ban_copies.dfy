// The kernel's copy of the ban table: which of the addresses that core/pipeline.go
// bans and unbans are in the XDP map.
module BanCopies {
  import opened BanStates
  import opened Blacklists
  import opened XdpManagers

  function KeyFor(cfg: Config, ip: string): Key
    requires cfg.parse(ip).IPv4?
  {
    KeyOf(cfg.parse(ip).address)
  }

  // ---- The strings of a run ---------------------------------------------

  // Every ban and unban of the run is of one of these strings.
  predicate InUse(events: seq<Event>, names: set<string>) {
    forall i :: 0 <= i < |events| && (events[i].Ban? || events[i].Unban?) ==> events[i].ip in names
  }

  // Two strings that net.ParseIP reads as one IPv4 address, the second of them bannable.
  predicate OneAddress(cfg: Config, a: string, b: string) {
    !Protected(cfg, b) && cfg.parse(b).IPv4? && cfg.parse(a) == cfg.parse(b)
  }

  // No two of the strings spell one IPv4 address that may be banned.
  predicate CanonicalOn(cfg: Config, names: set<string>) {
    forall a, b :: a in names && b in names && OneAddress(cfg, a, b) ==> a == b
  }

  // A ban of an address that is not in the kernel map finds room there.
  predicate Roomy(cfg: Config, found: map<Key, nat>, events: seq<Event>) {
    forall i :: 0 <= i < |events| && events[i].Ban? && cfg.parse(events[i].ip).IPv4? ==>
      var kernel := Run(cfg, found, events[..i]).kernel;
      KeyFor(cfg, events[i].ip) in kernel || |kernel| < MAX_ENTRIES
  }

  ghost predicate Covered(cfg: Config, s: State) {
    cfg.xdp ==> forall ip :: ip in s.banned && cfg.parse(ip).IPv4? ==> KeyFor(cfg, ip) in s.kernel
  }

  // ---- Who is in the kernel map -----------------------------------------

  predicate Named(e: Event, ip: string) {
    (e.Ban? || e.Unban?) && e.ip == ip
  }

  predicate UnnamedFrom(events: seq<Event>, i: nat, ip: string) {
    forall j :: i <= j < |events| ==> !Named(events[j], ip)
  }

  // Event i is a query that finds the ban of `ip` ended and deletes it.
  predicate Deletes(cfg: Config, found: map<Key, nat>, events: seq<Event>, i: nat, ip: string)
    requires i < |events|
  {
    var banned := Run(cfg, found, events[..i]).banned;
    events[i].Query? && events[i].ip == ip && ip in banned && events[i].now > banned[ip]
  }

  // Since it was last named, the address left the table through isBanned and not through
  // Cleanup or UnbanAllIPs.
  ghost predicate LazyGone(cfg: Config, found: map<Key, nat>, events: seq<Event>, ip: string) {
    exists i: nat :: i < |events| && Deletes(cfg, found, events, i, ip) && UnnamedFrom(events, i + 1, ip)
  }

  // The entry was there when the process started, and nobody has named the address since.
  predicate LeftOver(cfg: Config, found: map<Key, nat>, events: seq<Event>, ip: string)
    requires cfg.parse(ip).IPv4?
  {
    KeyFor(cfg, ip) in found && UnnamedFrom(events, 0, ip)
  }

  lemma {:induction false} BannedAreNamed(
    cfg: Config, found: map<Key, nat>, events: seq<Event>, names: set<string>)
    requires InUse(events, names)
    ensures Run(cfg, found, events).banned.Keys <= names
  {
    if events != [] {
      var before := events[..|events| - 1];
      assert forall i :: 0 <= i < |before| ==> before[i] == events[i];
      BannedAreNamed(cfg, found, before, names);
      hide KeysOf, KernelPlus, Protected;
    }
  }

  // Among canonical strings, removing some leaves the keys of the others alone.
  lemma KeyGoesWithName(cfg: Config, names: set<string>, gone: set<string>, ip: string)
    requires cfg.xdp && CanonicalOn(cfg, names) && gone <= names
    requires ip in names && !Protected(cfg, ip) && cfg.parse(ip).IPv4?
    ensures KeyFor(cfg, ip) in KeysOf(cfg, gone) <==> ip in gone
  {
    assert KeysOf(cfg, gone) == set g | g in gone && cfg.parse(g).IPv4? :: KeyFor(cfg, g);
    hide KeyFor;
    if KeyFor(cfg, ip) in KeysOf(cfg, gone) {
      var g :| g in gone && cfg.parse(g).IPv4? && KeyFor(cfg, g) == KeyFor(cfg, ip);
      SameKey(cfg, g, ip);
    }
  }

  lemma SameKey(cfg: Config, a: string, b: string)
    requires cfg.parse(a).IPv4? && cfg.parse(b).IPv4? && KeyFor(cfg, a) == KeyFor(cfg, b)
    ensures cfg.parse(a) == cfg.parse(b)
  {
    KeyOfInjective(cfg.parse(a).address, cfg.parse(b).address);
  }

  // One event's effect on one address's entry in the kernel map.
  function InKernelAfter(cfg: Config, s: State, e: Event, ip: string, present: bool): bool {
    match e
    case Ban(x, _, _) => present || (x == ip && !Protected(cfg, x))
    case Query(_, _) => present
    case Unban(x) => present && x != ip
    case UnbanAll => present && ip !in s.banned
    case Cleanup(now) => present && ip !in Expired(s.banned, now)
  }

  lemma StepKernel(cfg: Config, s: State, e: Event, names: set<string>, ip: string)
    requires cfg.xdp && CanonicalOn(cfg, names) && s.banned.Keys <= names
    requires ip in names && !Protected(cfg, ip) && cfg.parse(ip).IPv4?
    requires e.Ban? || e.Unban? ==> e.ip in names
    requires e.Ban? && e.ip == ip ==> KeyFor(cfg, ip) in s.kernel || |s.kernel| < MAX_ENTRIES
    ensures KeyFor(cfg, ip) in Step(cfg, s, e).kernel <==>
            InKernelAfter(cfg, s, e, ip, KeyFor(cfg, ip) in s.kernel)
  {
    match e {
      case Ban(x, _, _) =>
        if cfg.parse(x).IPv4? && KeyFor(cfg, x) == KeyFor(cfg, ip) {
          SameKey(cfg, x, ip);
        }
        hide KeyFor, KeyOf;
      case Query(_, _) =>
      case Unban(x) =>
        KeyGoesWithName(cfg, names, {x}, ip);
        hide KeysOf, CanonicalOn, KeyFor;
      case UnbanAll =>
        KeyGoesWithName(cfg, names, s.banned.Keys, ip);
        hide KeysOf, CanonicalOn, KeyFor;
      case Cleanup(now) =>
        KeyGoesWithName(cfg, names, Expired(s.banned, now), ip);
        hide KeysOf, CanonicalOn, KeyFor;
    }
  }

  // How the history tells who is in the kernel map.
  ghost predicate Remembered(cfg: Config, found: map<Key, nat>, events: seq<Event>, ip: string)
    requires cfg.parse(ip).IPv4?
  {
    || ip in Run(cfg, found, events).banned
    || LazyGone(cfg, found, events, ip)
    || LeftOver(cfg, found, events, ip)
  }

  lemma {:induction false} StaysUnbanned(
    cfg: Config, found: map<Key, nat>, events: seq<Event>, i: nat, ip: string)
    requires i <= |events| && ip !in Run(cfg, found, events[..i]).banned && UnnamedFrom(events, i, ip)
    ensures ip !in Run(cfg, found, events).banned
    decreases |events|
  {
    if i == |events| {
      assert events[..i] == events;
    } else {
      var before := events[..|events| - 1];
      assert before[..i] == events[..i];
      assert forall j :: i <= j < |before| ==> before[j] == events[j];
      StaysUnbanned(cfg, found, before, i, ip);
      assert !Named(events[|events| - 1], ip);
      hide KeysOf, KernelPlus, Protected;
    }
  }

  // Who is remembered as gone is not in the table.
  lemma GoneNotBanned(cfg: Config, found: map<Key, nat>, events: seq<Event>, ip: string)
    requires cfg.parse(ip).IPv4? && !Protected(cfg, ip)
    requires LazyGone(cfg, found, events, ip) || LeftOver(cfg, found, events, ip)
    ensures ip !in Run(cfg, found, events).banned
  {
    assert events[..0] == [] && ip !in Run(cfg, found, []).banned;
    hide Run, Deletes;
    if LeftOver(cfg, found, events, ip) {
      StaysUnbanned(cfg, found, events, 0, ip);
    } else {
      var i: nat :| i < |events| && Deletes(cfg, found, events, i, ip) && UnnamedFrom(events, i + 1, ip);
      DeletedThen(cfg, found, events, i, ip);
      StaysUnbanned(cfg, found, events, i + 1, ip);
    }
  }

  lemma DeletedThen(cfg: Config, found: map<Key, nat>, events: seq<Event>, i: nat, ip: string)
    requires i < |events| && Deletes(cfg, found, events, i, ip) && !Protected(cfg, ip)
    ensures ip !in Run(cfg, found, events[..i + 1]).banned
  {
    assert events[..i + 1][..i] == events[..i];
  }

  lemma DeletesBefore(cfg: Config, found: map<Key, nat>, events: seq<Event>, n: nat, i: nat, ip: string)
    requires i < n <= |events|
    ensures Deletes(cfg, found, events, i, ip) <==> Deletes(cfg, found, events[..n], i, ip)
  {
    assert events[..n][i] == events[i] && events[..n][..i] == events[..i];
  }

  lemma UnnamedStep(events: seq<Event>, i: nat, ip: string)
    requires i < |events|
    ensures var n := |events| - 1;
            UnnamedFrom(events, i, ip) <==> UnnamedFrom(events[..n], i, ip) && !Named(events[n], ip)
  {
    hide Named;
    var n := |events| - 1;
    assert forall j :: 0 <= j < n ==> events[..n][j] == events[j];
  }

  type SomeEvents = events: seq<Event> | events != [] witness [UnbanAll]

  lemma LazyStep(cfg: Config, found: map<Key, nat>, events: SomeEvents, ip: string)
    ensures var n := |events| - 1;
            LazyGone(cfg, found, events, ip) <==>
              Deletes(cfg, found, events, n, ip) ||
              (LazyGone(cfg, found, events[..n], ip) && !Named(events[n], ip))
  {
    var n := |events| - 1;
    var before := events[..n];
    assert UnnamedFrom(events, n + 1, ip);
    hide Deletes, UnnamedFrom, Named;
    if LazyGone(cfg, found, events, ip) && !Deletes(cfg, found, events, n, ip) {
      var i: nat :| i < |events| && Deletes(cfg, found, events, i, ip) && UnnamedFrom(events, i + 1, ip);
      DeletesBefore(cfg, found, events, n, i, ip);
      UnnamedStep(events, i + 1, ip);
    }
    if LazyGone(cfg, found, before, ip) && !Named(events[n], ip) {
      var i: nat :| i < n && Deletes(cfg, found, before, i, ip) && UnnamedFrom(before, i + 1, ip);
      DeletesBefore(cfg, found, events, n, i, ip);
      UnnamedStep(events, i + 1, ip);
    }
  }

  lemma LeftStep(cfg: Config, found: map<Key, nat>, events: seq<Event>, ip: string)
    requires events != [] && cfg.parse(ip).IPv4?
    ensures var n := |events| - 1;
            LeftOver(cfg, found, events, ip) <==> LeftOver(cfg, found, events[..n], ip) && !Named(events[n], ip)
  {
    var n := |events| - 1;
    assert forall i :: 0 <= i < n ==> events[..n][i] == events[i];
  }

  lemma RememberedStep(cfg: Config, found: map<Key, nat>, events: seq<Event>, ip: string)
    requires events != [] && cfg.parse(ip).IPv4? && !Protected(cfg, ip)
    ensures var n := |events| - 1;
            Remembered(cfg, found, events, ip) <==>
              InKernelAfter(cfg, Run(cfg, found, events[..n]), events[n], ip,
                            Remembered(cfg, found, events[..n], ip))
  {
    var n := |events| - 1;
    LazyStep(cfg, found, events, ip);
    LeftStep(cfg, found, events, ip);
    if LazyGone(cfg, found, events[..n], ip) || LeftOver(cfg, found, events[..n], ip) {
      GoneNotBanned(cfg, found, events[..n], ip);
    }
    hide LazyGone, LeftOver, KeysOf, KernelPlus, Protected;
  }

  lemma RunBefore(cfg: Config, found: map<Key, nat>, events: seq<Event>, names: set<string>)
    requires InUse(events, names) && Roomy(cfg, found, events) && events != []
    ensures var n := |events| - 1;
            && InUse(events[..n], names) && Roomy(cfg, found, events[..n])
            && (events[n].Ban? || events[n].Unban? ==> events[n].ip in names)
            && (events[n].Ban? && cfg.parse(events[n].ip).IPv4? ==>
                  var kernel := Run(cfg, found, events[..n]).kernel;
                  KeyFor(cfg, events[n].ip) in kernel || |kernel| < MAX_ENTRIES)
  {
    hide Run, KeyFor;
    var before := events[..|events| - 1];
    assert forall i :: 0 <= i < |before| ==> before[i] == events[i] && before[..i] == events[..i];
  }

  // MAIN RESULT. Whatever the kernel map held at start: as long as bans find room and the
  // strings of the run are canonical, a bannable IPv4 address is in the kernel map exactly
  // when it is banned, left the table through isBanned before Cleanup came, or was in the
  // map at start and has not been named since.
  lemma {:induction false} InKernelIff(
    cfg: Config, found: map<Key, nat>, events: seq<Event>, names: set<string>, ip: string)
    requires cfg.xdp && InUse(events, names) && CanonicalOn(cfg, names) && Roomy(cfg, found, events)
    requires ip in names && !Protected(cfg, ip) && cfg.parse(ip).IPv4?
    ensures KeyFor(cfg, ip) in Run(cfg, found, events).kernel <==>
            || ip in Run(cfg, found, events).banned
            || LazyGone(cfg, found, events, ip)
            || LeftOver(cfg, found, events, ip)
  {
    if events != [] {
      var n := |events| - 1;
      RunBefore(cfg, found, events, names);
      BannedAreNamed(cfg, found, events[..n], names);
      InKernelIff(cfg, found, events[..n], names, ip);
      RememberedStep(cfg, found, events, ip);
      StepKernel(cfg, Run(cfg, found, events[..n]), events[n], names, ip);
      hide LazyGone, LeftOver, KeyFor, InUse, CanonicalOn, Roomy, Step, InKernelAfter, Protected;
    } else {
      assert !LazyGone(cfg, found, events, ip);
    }
  }

  // Such an entry: a ban runs out, isBanned deletes it, and Cleanup no longer knows of it.
  lemma LazyDeletionStrandsKernelEntry(cfg: Config, ip: string)
    requires cfg.xdp && !Protected(cfg, ip) && cfg.parse(ip).IPv4?
    ensures var s := Run(cfg, map[], [Ban(ip, 1.0, 0.0), Query(ip, 2.0), Cleanup(3.0)]);
      (s.banned, KeyFor(cfg, ip) in s.kernel, s.bannedIPs) == (map[], true, 1)
  {
    var key := KeyFor(cfg, ip);
    var e1, e2, e3 := Ban(ip, 1.0, 0.0), Query(ip, 2.0), Cleanup(3.0);
    assert [e1, e2, e3][..2] == [e1, e2] && [e1, e2][..1] == [e1] && [e1][..0] == [];
    assert Run(cfg, map[], [e1]) == State(map[ip := 1.0], 1, map[key := 0]);
    assert Run(cfg, map[], [e1, e2]) == State(map[], 1, map[key := 0]) by {
      assert map[ip := 1.0] - {ip} == map[];
    }
    assert Expired(map[], 3.0) == {};
    assert KeysOf(cfg, {}) == {};
  }

  // MAIN RESULT. So every banned IPv4 address is in the kernel map.
  lemma KernelCovers(cfg: Config, found: map<Key, nat>, events: seq<Event>, names: set<string>)
    requires InUse(events, names) && CanonicalOn(cfg, names) && Roomy(cfg, found, events)
    ensures Covered(cfg, Run(cfg, found, events))
  {
    BannedAreNamed(cfg, found, events, names);
    hide InUse, CanonicalOn, Roomy, Run, LazyGone, LeftOver;
    forall ip | cfg.xdp && ip in Run(cfg, found, events).banned && cfg.parse(ip).IPv4?
      ensures KeyFor(cfg, ip) in Run(cfg, found, events).kernel
    {
      NoProtectedBanned(cfg, found, events, ip);
      InKernelIff(cfg, found, events, names, ip);
    }
  }

  // MAIN RESULT. In every reachable state nobody protected is banned, the counter covers the
  // entries, and with canonical strings and room in the map the kernel copy covers the bans.
  lemma CopiesCoherent(cfg: Config, found: map<Key, nat>, events: seq<Event>, names: set<string>)
    ensures forall ip :: ip in Run(cfg, found, events).banned ==> !Protected(cfg, ip)
    ensures Run(cfg, found, events).bannedIPs >= |Run(cfg, found, events).banned|
    ensures InUse(events, names) && CanonicalOn(cfg, names) && Roomy(cfg, found, events) ==>
              Covered(cfg, Run(cfg, found, events))
  {
    forall ip | ip in Run(cfg, found, events).banned ensures !Protected(cfg, ip) {
      NoProtectedBanned(cfg, found, events, ip);
    }
    CounterCovers(cfg, found, events);
    if InUse(events, names) && CanonicalOn(cfg, names) && Roomy(cfg, found, events) {
      KernelCovers(cfg, found, events, names);
    }
  }

  // MAIN RESULT. The kernel copy covers the bans in all runs over a set of strings exactly
  // when they are canonical: two spellings of one address share a kernel entry, and
  // unbanning one uncovers the other.
  lemma CoveredIffCanonical(cfg: Config, names: set<string>)
    requires cfg.xdp
    ensures CanonicalOn(cfg, names) <==>
      (forall found: map<Key, nat>, events: seq<Event> :: InUse(events, names) && Roomy(cfg, found, events) ==>
         Covered(cfg, Run(cfg, found, events)))
  {
    if CanonicalOn(cfg, names) {
      forall found: map<Key, nat>, events: seq<Event> | InUse(events, names) && Roomy(cfg, found, events)
        ensures Covered(cfg, Run(cfg, found, events))
      {
        KernelCovers(cfg, found, events, names);
      }
    } else {
      var a, b :| a in names && b in names && OneAddress(cfg, a, b) && a != b;
      TwoSpellings(cfg, a, b);
      assert InUse([Ban(b, 1.0, 0.0), Unban(a)], names);
    }
  }

  lemma TwoSpellings(cfg: Config, a: string, b: string)
    requires cfg.xdp && a != b && OneAddress(cfg, a, b)
    ensures var events := [Ban(b, 1.0, 0.0), Unban(a)];
      Roomy(cfg, map[], events) && !Covered(cfg, Run(cfg, map[], events))
  {
    var key := KeyFor(cfg, b);
    var e1, e2 := Ban(b, 1.0, 0.0), Unban(a);
    assert [e1, e2][..1] == [e1] && [e1, e2][..0] == [] && [e1][..0] == [];
    var s1 := State(map[b := 1.0], 1, map[key := 0]);
    assert Run(cfg, map[], [e1]) == s1;
    assert KeysOf(cfg, {a}) == {key};
    assert Run(cfg, map[], [e1, e2]) == s1.(banned := s1.banned - {a}, kernel := s1.kernel - {key});
    assert b in Run(cfg, map[], [e1, e2]).banned && key !in Run(cfg, map[], [e1, e2]).kernel;
  }
}
