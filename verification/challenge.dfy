// The signed proof cookies and the verified-IP cache of challenge/challenge.go.
module Challenges {
  import opened Text

  // ---- Decimal numbers --------------------------------------------------

  predicate IsDigit(c: char) {
    '0' <= c <= '9'
  }

  function DigitOf(n: nat): (c: char)
    requires n < 10
    ensures IsDigit(c) && ValueOf(c) == n
  {
    '0' + n as char
  }

  function ValueOf(c: char): nat
    requires IsDigit(c)
  {
    (c as int) - ('0' as int)
  }

  // %d of a number that is not negative.
  function Show(n: nat): (s: string)
    ensures s != "" && forall c :: c in s ==> IsDigit(c)
  {
    if n < 10 then [DigitOf(n)] else Show(n / 10) + [DigitOf(n % 10)]
  }

  function Digits(s: string): nat
    requires forall c :: c in s ==> IsDigit(c)
  {
    if s == "" then 0 else 10 * Digits(s[..|s| - 1]) + ValueOf(s[|s| - 1])
  }

  datatype Number = NotANumber | Number(value: int)

  const MAX_INT64: int := 0x7fff_ffff_ffff_ffff

  // strconv.ParseInt(s, 10, 64).
  function ParseInt(s: string): Number {
    var negative := s != "" && s[0] == '-';
    var digits := if s != "" && (s[0] == '-' || s[0] == '+') then s[1..] else s;
    if digits == "" || exists c :: c in digits && !IsDigit(c) then NotANumber
    else if negative then (if Digits(digits) > MAX_INT64 + 1 then NotANumber else Number(0 - Digits(digits)))
    else if Digits(digits) > MAX_INT64 then NotANumber
    else Number(Digits(digits))
  }

  lemma {:induction false} DigitsOfShow(n: nat)
    ensures Digits(Show(n)) == n
  {
    if n < 10 {
      assert Show(n)[..0] == "";
    } else {
      DigitsOfShow(n / 10);
      assert Show(n)[..|Show(n)| - 1] == Show(n / 10);
    }
  }

  // Printed numbers are read back, with either sign, as far as 64 bits reach.
  lemma ParseShown(n: nat)
    ensures ParseInt(Show(n)) == ParseInt("+" + Show(n)) == if n <= MAX_INT64 then Number(n) else NotANumber
    ensures ParseInt("-" + Show(n)) == if n <= MAX_INT64 + 1 then Number(0 - n) else NotANumber
  {
    DigitsOfShow(n);
    assert Show(n)[0] in Show(n);
    assert ("-" + Show(n))[1..] == Show(n) && ("+" + Show(n))[1..] == Show(n);
  }

  // ---- Cookies ----------------------------------------------------------

  function Unix(now: real): int {
    now.Floor
  }

  // The signature function and the configured lifetime, in seconds.
  datatype Config = Config(mac: string -> string, cookieTtl: real)

  function Ttl(cfg: Config): (ttl: real)
    ensures ttl > 0.0
  {
    if cfg.cookieTtl <= 0.0 then 3600.0 else cfg.cookieTtl
  }

  function Payload(ip: string, now: real): string
    requires now >= 0.0
  {
    ip + "_" + Show(Unix(now))
  }

  function Cookie(cfg: Config, ip: string, now: real): string
    requires now >= 0.0
  {
    Payload(ip, now) + "|" + cfg.mac(Payload(ip, now))
  }

  // The part of a cookie value that is signed.
  function SignedPart(value: string): string {
    value[..Cut(value, {'|'})]
  }

  predicate SignatureOk(cfg: Config, value: string) {
    Cut(value, {'|'}) < |value| && value[Cut(value, {'|'}) + 1..] == cfg.mac(SignedPart(value))
  }

  // Not rejected by age: unparsable timestamps are let through.
  predicate PayloadFresh(cfg: Config, payload: string, now: real) {
    var last := LastIndex(payload, '_');
    last > 0 &&
    var ts := ParseInt(payload[last + 1..]);
    ts.Number? ==> now - ts.value as real <= Ttl(cfg)
  }

  predicate CookieOk(cfg: Config, value: string, now: real) {
    SignatureOk(cfg, value) && PayloadFresh(cfg, SignedPart(value), now)
  }

  // The two cookies of a request, "" when absent.
  datatype Cookies = Cookies(proof: string, session: string)

  function Presented(c: Cookies): string {
    if c.proof != "" then c.proof else c.session
  }

  // ---- The cache --------------------------------------------------------

  type Cache = map<string, real>

  predicate CacheHit(cache: Cache, ip: string, now: real) {
    ip in cache && now < cache[ip]
  }

  predicate Accepts(cfg: Config, cache: Cache, c: Cookies, ip: string, now: real) {
    CacheHit(cache, ip, now) || (Presented(c) != "" && CookieOk(cfg, Presented(c), now))
  }

  // A verification that stores: past the cache, with a good proof cookie.
  predicate Stores(cfg: Config, cache: Cache, c: Cookies, ip: string, now: real) {
    !CacheHit(cache, ip, now) && c.proof != "" && CookieOk(cfg, c.proof, now)
  }

  datatype Event =
    | Solve(ip: string, now: real)     // SetProofCookie
    | Session(ip: string, now: real)   // SetSessionCookie
    | Captcha(now: real)               // signs a bare timestamp for the form
    | Verify(cookies: Cookies, ip: string, now: real)
    | Evict(now: real)
    | Clear

  function CacheStep(cfg: Config, cache: Cache, e: Event): Cache {
    match e
    case Solve(ip, now) => cache[ip := now + Ttl(cfg)]
    case Session(_, _) => cache
    case Captcha(_) => cache
    case Verify(c, ip, now) =>
      if CacheHit(cache, ip, now) then cache
      else if Stores(cfg, cache, c, ip, now) then cache[ip := now + Ttl(cfg)]
      else cache - {ip}
    case Evict(now) => map ip | ip in cache && !(now > cache[ip]) :: cache[ip]
    case Clear => map[]
  }

  // ---- A fresh cookie ---------------------------------------------------

  predicate ClockOk(now: real) {
    now >= 0.0 && Unix(now) <= MAX_INT64
  }

  lemma PayloadSplits(owner: string, stamp: string)
    requires '_' !in stamp
    ensures var p := owner + "_" + stamp; LastIndex(p, '_') == |owner| && p[|owner| + 1..] == stamp
  {
    var p := owner + "_" + stamp;
    assert p[|owner|] == '_';
    assert forall j :: |owner| < j < |p| ==> p[j] == stamp[j - |owner| - 1];
  }

  lemma CookieSplits(cfg: Config, payload: string, sig: string)
    requires '|' !in payload
    ensures var value := payload + "|" + sig;
      SignedPart(value) == payload && (SignatureOk(cfg, value) <==> sig == cfg.mac(payload))
  {
    var value := payload + "|" + sig;
    assert value[|payload|] == '|';
    assert forall j :: 0 <= j < |payload| ==> value[j] == payload[j];
    assert Cut(value, {'|'}) == |payload|;
    assert value[..|payload|] == payload;
    assert value[|payload| + 1..] == sig;
  }

  // MAIN RESULT. A cookie value is accepted iff it is signed, names an owner, and is not older than
  // the lifetime where its stamp is a number.
  lemma CookieOkIff(cfg: Config, owner: string, stamp: string, sig: string, now: real)
    requires '|' !in owner && '|' !in stamp && '_' !in stamp
    ensures CookieOk(cfg, owner + "_" + stamp + "|" + sig, now) <==>
      && sig == cfg.mac(owner + "_" + stamp)
      && owner != ""
      && (ParseInt(stamp).Number? ==> now <= ParseInt(stamp).value as real + Ttl(cfg))
  {
    PayloadSplits(owner, stamp);
    CookieSplits(cfg, owner + "_" + stamp, sig);
  }

  // What has not the form of a cookie is refused.
  lemma MalformedRefused(cfg: Config, value: string, now: real)
    requires '|' !in value || '_' !in value[..Cut(value, {'|'})]
    ensures !CookieOk(cfg, value, now)
  {
    var p := SignedPart(value);
    var last := LastIndex(p, '_');
    assert last > 0 ==> p[last] in p;
  }

  lemma ShownPlain(n: nat)
    ensures '|' !in Show(n) && '_' !in Show(n)
  {
    assert !IsDigit('|') && !IsDigit('_');
  }

  // MAIN RESULT. A cookie issued at s for a non-empty address (without '|')
  // verifies at exactly the times up to the lifetime after the second in
  // which it was issued.
  lemma FreshCookieVerifiesIff(cfg: Config, ip: string, s: real, now: real)
    requires ClockOk(s) && '|' !in ip
    ensures CookieOk(cfg, Cookie(cfg, ip, s), now) <==> ip != "" && now <= Unix(s) as real + Ttl(cfg)
  {
    ShownPlain(Unix(s));
    CookieOkIff(cfg, ip, Show(Unix(s)), cfg.mac(Payload(ip, s)), now);
    ParseShown(Unix(s));
  }

  // So its full lifetime is served exactly when it was issued on the second.
  lemma FullLifetimeIff(cfg: Config, ip: string, s: real)
    requires ClockOk(s) && '|' !in ip && ip != ""
    ensures (forall now :: s <= now <= s + Ttl(cfg) ==> CookieOk(cfg, Cookie(cfg, ip, s), now))
            <==> Unix(s) as real == s
  {
    forall now ensures CookieOk(cfg, Cookie(cfg, ip, s), now) <==> now <= Unix(s) as real + Ttl(cfg) {
      FreshCookieVerifiesIff(cfg, ip, s, now);
    }
    assert Unix(s) as real <= s;
    var end := s + Ttl(cfg);
    if Unix(s) as real != s {
      assert s <= end && !CookieOk(cfg, Cookie(cfg, ip, s), end);
    }
  }

  // ---- Runs -------------------------------------------------------------

  function CacheAfter(cfg: Config, events: seq<Event>): Cache {
    if events == [] then map[] else CacheStep(cfg, CacheAfter(cfg, events[..|events| - 1]), events[|events| - 1])
  }

  predicate Issues(e: Event, payload: string) {
    (e.Solve? || e.Session?) && e.now >= 0.0 && Payload(e.ip, e.now) == payload
  }

  // What has been signed: cookie payloads, and bare timestamps for the form.
  predicate Signed(events: seq<Event>, payload: string) {
    exists i :: 0 <= i < |events| &&
      (Issues(events[i], payload) ||
       (events[i].Captcha? && events[i].now >= 0.0 && Show(Unix(events[i].now)) == payload))
  }

  // Only signed payloads carry good signatures.
  predicate Unforged(cfg: Config, events: seq<Event>) {
    forall j :: 0 <= j < |events| && events[j].Verify? ==>
      var v := Presented(events[j].cookies);
      SignatureOk(cfg, v) ==> Signed(events[..j], SignedPart(v))
  }

  predicate Clocked(e: Event) {
    !e.Clear?
  }

  predicate Timely(events: seq<Event>) {
    && (forall i :: 0 <= i < |events| && Clocked(events[i]) ==> ClockOk(events[i].now))
    && (forall i, j :: 0 <= i < j < |events| && Clocked(events[i]) && Clocked(events[j]) ==>
          events[i].now <= events[j].now)
  }

  // The last event that stored the cache entry of ip.
  function LastStore(cfg: Config, events: seq<Event>, ip: string): int {
    if events == [] then -1
    else
      var m := |events| - 1;
      var e := events[m];
      if e.Solve? && e.ip == ip then m
      else if e.Verify? && e.ip == ip && Stores(cfg, CacheAfter(cfg, events[..m]), e.cookies, ip, e.now) then m
      else LastStore(cfg, events[..m], ip)
  }

  // The verification at j accepts a cookie that event i issued.
  predicate ByCookie(cfg: Config, events: seq<Event>, j: nat, i: nat)
    requires j < |events|
  {
    i < j && events[j].Verify? &&
    var v := Presented(events[j].cookies);
    v != "" && CookieOk(cfg, v, events[j].now) && Issues(events[i], SignedPart(v))
  }

  // Event j solved a challenge (then i is j itself) or verified a cookie that
  // event i issued.
  predicate Grounds(cfg: Config, events: seq<Event>, j: nat, i: nat)
    requires j < |events|
  {
    (events[j].Solve? && i == j) || ByCookie(cfg, events, j, i)
  }

  // The accepting verification j rests on the issue i, directly or through
  // the cache entry that event k stored.
  ghost predicate RestsOn(cfg: Config, events: seq<Event>, j: nat, i: nat)
    requires j < |events| && events[j].Verify?
  {
    if CacheHit(CacheAfter(cfg, events[..j]), events[j].ip, events[j].now) then
      var k := LastStore(cfg, events[..j], events[j].ip);
      0 <= k < j && Grounds(cfg, events, k, i)
    else ByCookie(cfg, events, j, i)
  }

  lemma {:induction false} EntryFromLastStore(cfg: Config, events: seq<Event>, ip: string)
    requires ip in CacheAfter(cfg, events)
    ensures var k := LastStore(cfg, events, ip);
      && 0 <= k < |events| && Clocked(events[k])
      && CacheAfter(cfg, events)[ip] == events[k].now + Ttl(cfg)
      && (events[k].Solve? ||
          (events[k].Verify? && events[k].ip == ip &&
           Stores(cfg, CacheAfter(cfg, events[..k]), events[k].cookies, ip, events[k].now)))
  {
    var m := |events| - 1;
    var before := events[..m];
    var e := events[m];
    if !(e.Solve? && e.ip == ip) &&
       !(e.Verify? && e.ip == ip && Stores(cfg, CacheAfter(cfg, before), e.cookies, ip, e.now)) {
      EntryFromLastStore(cfg, before, ip);
      var k := LastStore(cfg, before, ip);
      assert before[..k] == events[..k];
    }
  }

  // A cookie that verifies was issued, and not longer ago than the lifetime.
  lemma CookieHasIssue(cfg: Config, events: seq<Event>, j: nat) returns (i: nat)
    requires Timely(events) && Unforged(cfg, events) && j < |events| && events[j].Verify?
    requires var v := Presented(events[j].cookies); v != "" && CookieOk(cfg, v, events[j].now)
    ensures ByCookie(cfg, events, j, i) && Clocked(events[i])
    ensures events[j].now <= events[i].now + Ttl(cfg)
  {
    var p := SignedPart(Presented(events[j].cookies));
    assert Signed(events[..j], p);
    i :| 0 <= i < j && (Issues(events[..j][i], p) ||
      (events[..j][i].Captcha? && events[..j][i].now >= 0.0 && Show(Unix(events[..j][i].now)) == p));
    var e := events[i];
    if Issues(e, p) {
      ShownPlain(Unix(e.now));
      PayloadSplits(e.ip, Show(Unix(e.now)));
      ParseShown(Unix(e.now));
    } else {
      BareTimestampRejected(cfg, Unix(e.now), events[j].now);
    }
  }

  lemma BareTimestampRejected(cfg: Config, n: nat, now: real)
    ensures !PayloadFresh(cfg, Show(n), now)
  {
    var s := Show(n);
    var last := LastIndex(s, '_');
    if last > 0 {
      NoUnderscore(s, last);
    }
  }

  lemma NoUnderscore(s: string, i: nat)
    requires i < |s| && forall c :: c in s ==> IsDigit(c)
    ensures s[i] != '_'
  {
    assert s[i] in s;
  }

  predicate YoungerThanTwice(cfg: Config, issue: Event, use: Event)
    requires Clocked(issue) && Clocked(use)
  {
    use.now < issue.now + Ttl(cfg) + Ttl(cfg)
  }

  // MAIN RESULT. Over any run of solves, verifications, evictions and cache
  // clears, with the lifetime constant: an accepted request rests on an issue
  // less than two lifetimes old.
  lemma ProofLifetimeBound(cfg: Config, events: seq<Event>, j: nat)
    requires Timely(events) && Unforged(cfg, events) && j < |events| && events[j].Verify?
    requires Accepts(cfg, CacheAfter(cfg, events[..j]), events[j].cookies, events[j].ip, events[j].now)
    ensures exists i: nat :: (
      i < j && RestsOn(cfg, events, j, i) && Clocked(events[i]) && YoungerThanTwice(cfg, events[i], events[j]))
  {
    var before := events[..j];
    var ip := events[j].ip;
    if CacheHit(CacheAfter(cfg, before), ip, events[j].now) {
      EntryFromLastStore(cfg, before, ip);
      var k := LastStore(cfg, before, ip);
      assert before[..k] == events[..k] && before[k] == events[k];
      if events[k].Solve? {
        assert RestsOn(cfg, events, j, k);
      } else {
        assert Presented(events[k].cookies) == events[k].cookies.proof;
        var i := CookieHasIssue(cfg, events, k);
        assert RestsOn(cfg, events, j, i);
      }
    } else {
      var i := CookieHasIssue(cfg, events, j);
      assert RestsOn(cfg, events, j, i);
    }
  }

  // Two lifetimes cannot be improved on: a cookie verified at the very end of
  // its life keeps an address verified until just before two lifetimes.
  lemma BoundIsTight(cfg: Config, ip: string, late: real)
    requires ip != "" && '|' !in ip && Unix(Ttl(cfg)) <= MAX_INT64 && ClockOk(late)
    requires Ttl(cfg) <= late < Ttl(cfg) + Ttl(cfg)
    ensures var events := [Solve(ip, 0.0), Clear, Verify(Cookies(Cookie(cfg, ip, 0.0), ""), ip, Ttl(cfg))];
      Accepts(cfg, CacheAfter(cfg, events), Cookies("", ""), ip, late)
  {
    var c := Cookies(Cookie(cfg, ip, 0.0), "");
    var e1, e2, e3 := Solve(ip, 0.0), Clear, Verify(c, ip, Ttl(cfg));
    assert [e1, e2, e3][..2] == [e1, e2];
    FreshCookieVerifiesIff(cfg, ip, 0.0, Ttl(cfg));
    assert CacheAfter(cfg, [e1, e2]) == map[];
    assert c.proof != "";
    assert Stores(cfg, map[], c, ip, Ttl(cfg));
  }

  // ---- Requests without a cookie ----------------------------------------

  datatype Proved = Never | At(time: real)

  predicate Holds(cfg: Config, last: Proved, now: real) {
    last.At? && now < last.time + Ttl(cfg)
  }

  // When the address last proved itself since the last clear: it solved a challenge, or showed a
  // good proof cookie while no earlier proof held.
  function LastProof(cfg: Config, events: seq<Event>, ip: string): Proved {
    if events == [] then Never
    else
      var last, e := LastProof(cfg, events[..|events| - 1], ip), events[|events| - 1];
      if e.Clear? then Never
      else if e.Solve? && e.ip == ip then At(e.now)
      else if e.Verify? && e.ip == ip && e.cookies.proof != "" && CookieOk(cfg, e.cookies.proof, e.now) &&
              !Holds(cfg, last, e.now) then At(e.now)
      else last
  }

  predicate Past(events: seq<Event>, t: real) {
    Timely(events) && forall e :: e in events && Clocked(e) ==> e.now <= t
  }

  lemma {:induction false} EntryIsLastProof(cfg: Config, events: seq<Event>, ip: string, t: real)
    requires Past(events, t)
    ensures var cache, last := CacheAfter(cfg, events), LastProof(cfg, events, ip);
      && (CacheHit(cache, ip, t) <==> Holds(cfg, last, t))
      && (ip in cache ==> last == At(cache[ip] - Ttl(cfg)))
  {
    if events != [] {
      var before, e := events[..|events| - 1], events[|events| - 1];
      EntryIsLastProof(cfg, before, ip, if Clocked(e) then e.now else t);
      assert e in events;
      hide CookieOk, Ttl;
    }
  }

  // MAIN RESULT. A request is accepted iff its address proved itself less than a lifetime before,
  // whatever came in between, or it shows a good cookie: a good proof cookie, or a good session
  // cookie and no proof cookie.
  lemma AcceptedIff(cfg: Config, events: seq<Event>, c: Cookies, ip: string, t: real)
    requires Past(events, t)
    ensures Accepts(cfg, CacheAfter(cfg, events), c, ip, t) <==>
      || Holds(cfg, LastProof(cfg, events, ip), t)
      || CookieOk(cfg, c.proof, t)
      || (c.proof == "" && CookieOk(cfg, c.session, t))
  {
    EntryIsLastProof(cfg, events, ip, t);
    MalformedRefused(cfg, "", t);
    hide CookieOk;
  }

  // MAIN RESULT. A request without a cookie is accepted iff its address proved itself less than a
  // lifetime before, whatever evictions, session cookies and requests came in between.
  lemma CookielessIff(cfg: Config, events: seq<Event>, ip: string, t: real)
    requires Past(events, t)
    ensures Accepts(cfg, CacheAfter(cfg, events), Cookies("", ""), ip, t)
      <==> Holds(cfg, LastProof(cfg, events, ip), t)
  {
    EntryIsLastProof(cfg, events, ip, t);
  }

  // MAIN RESULT. So an address that since the last clear has neither solved a challenge nor shown a
  // proof cookie is refused without a cookie, however many session cookies it has shown.
  lemma SessionsProveNothing(cfg: Config, events: seq<Event>, c: nat, ip: string, t: real)
    requires Past(events, t)
    requires c <= |events| && (c == 0 || events[c - 1].Clear?)
    requires forall k :: c <= k < |events| ==>
      !(events[k].Solve? && events[k].ip == ip) &&
      !(events[k].Verify? && events[k].ip == ip && events[k].cookies.proof != "")
    ensures !Accepts(cfg, CacheAfter(cfg, events), Cookies("", ""), ip, t)
  {
    NeverProved(cfg, events, c, |events|, ip);
    assert events[..|events|] == events;
    CookielessIff(cfg, events, ip, t);
  }

  lemma {:induction false} NeverProved(cfg: Config, events: seq<Event>, c: nat, n: nat, ip: string)
    requires c <= n <= |events| && (c == 0 || events[c - 1].Clear?)
    requires forall k :: c <= k < n ==>
      !(events[k].Solve? && events[k].ip == ip) &&
      !(events[k].Verify? && events[k].ip == ip && events[k].cookies.proof != "")
    ensures LastProof(cfg, events[..n], ip) == Never
    decreases n
  {
    if n > 0 {
      assert events[..n][..n - 1] == events[..n - 1];
      if n > c {
        NeverProved(cfg, events, c, n - 1, ip);
      }
    }
  }

  // ---- The object -------------------------------------------------------

  class Manager {
    const cfg: Config
    var verifiedIPs: Cache

    constructor (cfg: Config)
      ensures this.cfg == cfg && verifiedIPs == map[]
    {
      this.cfg, verifiedIPs := cfg, map[];
    }

    // The cookie part of VerifyProof.
    method CheckCookie(value: string, now: real) returns (ok: bool)
      ensures ok == CookieOk(cfg, value, now)
    {
      var bar := Cut(value, {'|'});
      if bar == |value| {
        return false;
      }
      var payload, sig := value[..bar], value[bar + 1..];
      if sig != cfg.mac(payload) {
        return false;
      }
      var lastIdx := LastIndex(payload, '_');
      if lastIdx > 0 {
        var ts := ParseInt(payload[lastIdx + 1..]);
        if ts.Number? {
          if now - ts.value as real > Ttl(cfg) {
            return false;
          }
        }
      } else {
        return false;
      }
      return true;
    }

    method VerifyProof(cookies: Cookies, currentIP: string, now: real) returns (ok: bool)
      modifies this
      ensures verifiedIPs == CacheStep(cfg, old(verifiedIPs), Verify(cookies, currentIP, now))
      ensures ok == Accepts(cfg, old(verifiedIPs), cookies, currentIP, now)
    {
      hide CookieOk;
      if currentIP in verifiedIPs {
        if now < verifiedIPs[currentIP] {
          return true;
        }
        verifiedIPs := verifiedIPs - {currentIP};
      }
      assert verifiedIPs == old(verifiedIPs) - {currentIP};
      var value := cookies.proof;
      var isProof := true;
      if value == "" {
        value := cookies.session;
        isProof := false;
        if value == "" {
          return false;
        }
      }
      ok := CheckCookie(value, now);
      if ok && isProof {
        verifiedIPs := verifiedIPs[currentIP := now + Ttl(cfg)];
        assert verifiedIPs == old(verifiedIPs)[currentIP := now + Ttl(cfg)];
      }
    }

    method SetProofCookie(ip: string, now: real) returns (cookie: string)
      requires now >= 0.0
      modifies this
      ensures verifiedIPs == CacheStep(cfg, old(verifiedIPs), Solve(ip, now))
      ensures cookie == Cookie(cfg, ip, now)
    {
      verifiedIPs := verifiedIPs[ip := now + Ttl(cfg)];
      cookie := SetCookie(ip, now);
    }

    method SetSessionCookie(ip: string, now: real) returns (cookie: string)
      requires now >= 0.0
      ensures cookie == Cookie(cfg, ip, now)
    {
      cookie := SetCookie(ip, now);
    }

    // setCookieWithName: the value of the cookie it sets.
    method SetCookie(ip: string, now: real) returns (cookie: string)
      requires now >= 0.0
      ensures cookie == Cookie(cfg, ip, now)
    {
      var payload := ip + "_" + Show(Unix(now));
      cookie := payload + "|" + cfg.mac(payload);
    }

    method ClearCache()
      modifies this
      ensures verifiedIPs == CacheStep(cfg, old(verifiedIPs), Clear)
    {
      verifiedIPs := map[];
    }

    // One tick of the eviction worker.
    method EvictExpired(now: real)
      modifies this
      ensures verifiedIPs == CacheStep(cfg, old(verifiedIPs), Evict(now))
    {
      var todo := verifiedIPs.Keys;
      while todo != {}
        invariant todo <= verifiedIPs.Keys
        invariant forall ip :: ip in verifiedIPs <==>
          ip in old(verifiedIPs) && (ip in todo || !(now > old(verifiedIPs)[ip]))
        invariant forall ip :: ip in verifiedIPs ==> verifiedIPs[ip] == old(verifiedIPs)[ip]
      {
        var ip :| ip in todo;
        if now > verifiedIPs[ip] {
          verifiedIPs := verifiedIPs - {ip};
        }
        todo := todo - {ip};
      }
    }
  }
}
