// The TLS ClientHello parser of fingerprint/tls_parser.go.
module ClientHellos {
  import opened Bytes

  // A Go slice is modelled by its backing bytes from its first element on and
  // its length: `buf` reaches to the slice's capacity, the first n bytes are
  // its contents. Indexing checks the length, reslicing only the capacity.

  datatype Info = Info(
    tlsVersion: U16, cipherSuites: seq<U16>, extensions: seq<U16>, ellipticCurves: seq<U16>,
    ecPointFormats: seq<Byte>, signatureAlgs: seq<U16>, alpn: seq<seq<Byte>>, serverName: seq<Byte>,
    supportedVersions: seq<U16>)

  datatype Outcome = Parsed(info: Info) | Rejected | Panicked

  const HANDSHAKE: Byte := 0x16
  const CLIENT_HELLO: Byte := 0x01
  const SERVER_NAME: U16 := 0x0000
  const SUPPORTED_GROUPS: U16 := 0x000a
  const EC_POINT_FORMATS: U16 := 0x000b
  const SIGNATURE_ALGORITHMS: U16 := 0x000d
  const ALPN: U16 := 0x0010
  const SUPPORTED_VERSIONS: U16 := 0x002b

  // Bytes taken by n 16-bit numbers.
  function Twice(n: nat): nat {
    n + n
  }

  function Min(a: nat, b: nat): nat {
    if a < b then a else b
  }

  // ---- The parser as a function -----------------------------------------

  // The 16-bit numbers read from i on, each wholly before `stop`.
  function Numbers(data: seq<Byte>, i: nat, stop: nat): seq<U16>
    requires stop <= |data|
    decreases stop - i
  {
    if i + 1 < stop then [Read16(data, i)] + Numbers(data, i + 2, stop) else []
  }

  function ParseServerName(data: seq<Byte>): seq<Byte> {
    if |data| < 5 || |data| < 5 + Read16(data, 3) then [] else data[5..5 + Read16(data, 3)]
  }

  // supported_groups and signature_algorithms share a layout.
  function ParseNumberList(data: seq<Byte>): seq<U16> {
    if |data| < 2 then [] else Numbers(data, 2, Min(2 + Read16(data, 0), |data|))
  }

  function ParsePointFormats(data: seq<Byte>): seq<Byte> {
    if |data| < 1 then [] else data[1..Min(1 + data[0] as nat, |data|)]
  }

  function Protocols(data: seq<Byte>, pos: nat, stop: nat): seq<seq<Byte>>
    requires stop <= |data|
    decreases |data| - pos
  {
    if pos >= stop || pos + 1 + data[pos] as nat > |data| then []
    else [data[pos + 1..pos + 1 + data[pos] as nat]] + Protocols(data, pos + 1 + data[pos] as nat, stop)
  }

  function ParseAlpn(data: seq<Byte>): seq<seq<Byte>> {
    if |data| < 2 then [] else Protocols(data, 2, Min(2 + Read16(data, 0), |data|))
  }

  function ParseVersions(data: seq<Byte>): seq<U16> {
    if |data| < 1 then [] else Numbers(data, 1, Min(1 + data[0] as nat, |data|))
  }

  function Apply(info: Info, kind: U16, data: seq<Byte>): Info {
    var seen := info.(extensions := info.extensions + [kind]);
    if kind == SERVER_NAME then seen.(serverName := ParseServerName(data))
    else if kind == SUPPORTED_GROUPS then seen.(ellipticCurves := ParseNumberList(data))
    else if kind == EC_POINT_FORMATS then seen.(ecPointFormats := ParsePointFormats(data))
    else if kind == SIGNATURE_ALGORITHMS then seen.(signatureAlgs := ParseNumberList(data))
    else if kind == ALPN then seen.(alpn := ParseAlpn(data))
    else if kind == SUPPORTED_VERSIONS then seen.(supportedVersions := ParseVersions(data))
    else seen
  }

  function ExtensionsFrom(data: seq<Byte>, pos: nat, end: nat, info: Info): Info
    requires end <= |data|
    decreases end - pos
  {
    if pos + 4 > end then info
    else
      var next := pos + 4 + Read16(data, pos + 2);
      ExtensionsFrom(data, next, end, Apply(info, Read16(data, pos), data[pos + 4..Min(next, |data|)]))
  }

  predicate IsGrease(v: U16) {
    v / 0x100 % 0x10 == 0xa && v % 0x10 == 0xa
  }

  // The largest version that is not GREASE, 0 if there is none.
  function Highest(versions: seq<U16>): U16 {
    if versions == [] then 0
    else
      var m := Highest(versions[..|versions| - 1]);
      var v := versions[|versions| - 1];
      if v > m && !IsGrease(v) then v else m
  }

  function WithRealVersion(info: Info): Info {
    if Highest(info.supportedVersions) > 0 then info.(tlsVersion := Highest(info.supportedVersions)) else info
  }

  const NO_INFO := Info(0, [], [], [], [], [], [], [], [])

  datatype Suites = Read(suites: seq<U16>) | OutOfCapacity

  // One 16-bit read per two bytes of [p, end); an odd length reads one byte
  // past the end, which the capacity may or may not allow.
  function SuitesFrom(buf: seq<Byte>, p: nat, end: nat): Suites
    decreases end - p
  {
    if p >= end then Read([])
    else if p + 2 > |buf| then OutOfCapacity
    else
      match SuitesFrom(buf, p + 2, end)
      case OutOfCapacity => OutOfCapacity
      case Read(rest) => Read([Read16(buf, p)] + rest)
  }

  function AfterSuites(data: seq<Byte>, p: nat, info: Info): Outcome {
    if p >= |data| then Rejected
    else
      var pos := p + 1 + data[p];
      if pos + 2 > |data| then Parsed(info)
      else Parsed(WithRealVersion(ExtensionsFrom(data, pos + 2, Min(pos + 2 + Read16(data, pos), |data|), info)))
  }

  function ParseBody(buf: seq<Byte>, n: nat): Outcome
    requires n <= |buf|
  {
    if n < 34 || 34 >= n then Rejected
    else
      var pos := 35 + buf[34] as nat;
      if pos + 2 > n then Rejected
      else
        var length := Read16(buf, pos);
        if pos + 2 + length > n then Rejected
        else
          match SuitesFrom(buf, pos + 2, pos + 2 + length)
          case OutOfCapacity => Panicked
          case Read(suites) =>
            AfterSuites(buf[..n], pos + 2 + length, NO_INFO.(tlsVersion := Read16(buf, 0), cipherSuites := suites))
  }

  function BodyLength(buf: seq<Byte>): nat
    requires |buf| >= 9
  {
    buf[6] as nat * 0x1_0000 + buf[7] as nat * 0x100 + buf[8] as nat
  }

  // A record and a handshake header announcing a complete ClientHello.
  predicate HeadersOk(buf: seq<Byte>, n: nat)
    requires n <= |buf|
  {
    n >= 5 && buf[0] == HANDSHAKE &&
    var record := Read16(buf, 3);
    5 + record <= n && record >= 4 && buf[5] == CLIENT_HELLO && 4 + BodyLength(buf) <= record
  }

  function Parse(buf: seq<Byte>, n: nat): Outcome
    requires n <= |buf|
  {
    if !HeadersOk(buf, n) then Rejected else ParseBody(buf[9..], BodyLength(buf))
  }

  // ---- Bounds -----------------------------------------------------------

  lemma {:induction false} SuitesInBounds(buf: seq<Byte>, p: nat, end: nat)
    requires p <= end <= |buf|
    ensures SuitesFrom(buf, p, end).OutOfCapacity? <==> (end - p) % 2 == 1 && end == |buf|
    decreases end - p
  {
    if p + 2 <= end {
      SuitesInBounds(buf, p + 2, end);
    }
  }

  // The cipher-suite length, when the headers and the session ID let the
  // parser reach it and its bytes are all there.
  predicate SuitesReached(buf: seq<Byte>, n: nat)
    requires n <= |buf|
  {
    n > 34 &&
    var pos := 35 + buf[34] as nat;
    pos + 2 <= n && pos + 2 + Read16(buf, pos) <= n
  }

  // MAIN RESULT. The parser stays in bounds on every input except exactly
  // those whose cipher-suite length is odd and whose suites end where the
  // caller's buffer ends.
  lemma PanicsIff(buf: seq<Byte>, n: nat)
    requires n <= |buf|
    ensures Parse(buf, n).Panicked? <==>
      HeadersOk(buf, n) &&
      var body := buf[9..];
      SuitesReached(body, BodyLength(buf)) &&
      var pos := 35 + body[34] as nat;
      Read16(body, pos) % 2 == 1 && pos + 2 + Read16(body, pos) == |body|
  {
    if HeadersOk(buf, n) && SuitesReached(buf[9..], BodyLength(buf)) {
      var body := buf[9..];
      var pos := 35 + body[34] as nat;
      SuitesInBounds(body, pos + 2, pos + 2 + Read16(body, pos));
    }
  }

  // Such an input, 47 bytes long: one byte of cipher suites, and nothing after it.
  lemma OddSuitesPanic(random: seq<Byte>)
    requires |random| == 32
    ensures var buf := [HANDSHAKE, 3, 1, 0, 42, CLIENT_HELLO, 0, 0, 38, 3, 3] + random + [0, 0, 1, 0];
      Parse(buf, |buf|).Panicked?
  {
    var buf := [HANDSHAKE, 3, 1, 0, 42, CLIENT_HELLO, 0, 0, 38, 3, 3] + random + [0, 0, 1, 0];
    var body := buf[9..];
    assert |buf| == 47 && Read16(buf, 3) == 42 && BodyLength(buf) == 38;
    assert body[34] == 0 && Read16(body, 35) == 1;
    PanicsIff(buf, |buf|);
  }

  // ---- What a ClientHello is --------------------------------------------

  datatype Extension =
    | ServerName(name: seq<Byte>)
    | Groups(groups: seq<U16>)
    | PointFormats(formats: seq<Byte>)
    | SignatureAlgs(algs: seq<U16>)
    | Alpn(protocols: seq<seq<Byte>>)
    | Versions(versions: seq<U16>)
    | Other(other: U16, body: seq<Byte>)

  datatype Extensions = Absent | Present(list: seq<Extension>)

  datatype Hello = Hello(
    version: U16, random: seq<Byte>, sessionId: seq<Byte>, suites: seq<U16>, compression: seq<Byte>,
    extensions: Extensions)

  function Kind(e: Extension): U16 {
    match e
    case ServerName(_) => SERVER_NAME
    case Groups(_) => SUPPORTED_GROUPS
    case PointFormats(_) => EC_POINT_FORMATS
    case SignatureAlgs(_) => SIGNATURE_ALGORITHMS
    case Alpn(_) => ALPN
    case Versions(_) => SUPPORTED_VERSIONS
    case Other(k, _) => k
  }

  const KNOWN: set<U16> :=
    {SERVER_NAME, SUPPORTED_GROUPS, EC_POINT_FORMATS, SIGNATURE_ALGORITHMS, ALPN, SUPPORTED_VERSIONS}

  function WriteNumbers(vs: seq<U16>): (s: seq<Byte>)
    ensures |s| == Twice(|vs|)
  {
    if vs == [] then [] else Write16(vs[0]) + WriteNumbers(vs[1..])
  }

  function WriteProtocols(ps: seq<seq<Byte>>): seq<Byte>
    requires forall i :: 0 <= i < |ps| ==> |ps[i]| < 0x100
  {
    if ps == [] then [] else [|ps[0]|] + ps[0] + WriteProtocols(ps[1..])
  }

  // Each part fits the length field in front of it.
  predicate Fits(e: Extension) {
    match e
    case ServerName(name) => |name| + 5 < 0x1_0000
    case Groups(gs) => Twice(|gs|) + 2 < 0x1_0000
    case PointFormats(fs) => |fs| < 0x100
    case SignatureAlgs(algs) => Twice(|algs|) + 2 < 0x1_0000
    case Alpn(ps) => (forall i :: 0 <= i < |ps| ==> |ps[i]| < 0x100) && |WriteProtocols(ps)| + 2 < 0x1_0000
    case Versions(vs) => Twice(|vs|) < 0x100
    case Other(k, body) => k !in KNOWN && |body| < 0x1_0000
  }

  // extension_data of RFC 8446 section 4.2, RFC 6066 section 3 (one
  // host_name), RFC 8422 section 5.1.2 and RFC 7301 section 3.1.
  function Data(e: Extension): (s: seq<Byte>)
    requires Fits(e)
    ensures |s| < 0x1_0000
  {
    match e
    case ServerName(name) => Write16(|name| + 3) + [0] + Write16(|name|) + name
    case Groups(gs) => Write16(Twice(|gs|)) + WriteNumbers(gs)
    case PointFormats(fs) => [|fs|] + fs
    case SignatureAlgs(algs) => Write16(Twice(|algs|)) + WriteNumbers(algs)
    case Alpn(ps) => Write16(|WriteProtocols(ps)|) + WriteProtocols(ps)
    case Versions(vs) => [Twice(|vs|)] + WriteNumbers(vs)
    case Other(_, body) => body
  }

  function WriteExtension(e: Extension): seq<Byte>
    requires Fits(e)
  {
    Write16(Kind(e)) + Write16(|Data(e)|) + Data(e)
  }

  function WriteExtensions(es: seq<Extension>): seq<Byte>
    requires forall i :: 0 <= i < |es| ==> Fits(es[i])
  {
    if es == [] then [] else
      assert Fits(es[0]);
      WriteExtension(es[0]) + WriteExtensions(es[1..])
  }

  predicate ExtensionsFit(x: Extensions) {
    x.Present? ==> (forall i :: 0 <= i < |x.list| ==> Fits(x.list[i])) && |WriteExtensions(x.list)| < 0x1_0000
  }

  function WriteExtensionBlock(x: Extensions): seq<Byte>
    requires ExtensionsFit(x)
  {
    if x.Absent? then [] else Write16(|WriteExtensions(x.list)|) + WriteExtensions(x.list)
  }

  predicate HelloFits(h: Hello) {
    && |h.random| == 32 && |h.sessionId| < 0x100 && Twice(|h.suites|) < 0x1_0000 && |h.compression| < 0x100
    && ExtensionsFit(h.extensions)
    && |Body(h)| + 4 < 0x1_0000
  }

  // ClientHello of RFC 8446 section 4.1.2.
  function Body(h: Hello): seq<Byte>
    requires |h.random| == 32 && |h.sessionId| < 0x100 && Twice(|h.suites|) < 0x1_0000 && |h.compression| < 0x100
    requires ExtensionsFit(h.extensions)
  {
    Write16(h.version) + h.random + [|h.sessionId|] + h.sessionId
    + (Write16(Twice(|h.suites|)) + WriteNumbers(h.suites)
       + ([|h.compression|] + h.compression + WriteExtensionBlock(h.extensions)))
  }

  // The record and handshake headers in front of a body of n bytes.
  function Headers(recordVersion: U16, n: nat): (s: seq<Byte>)
    requires n + 4 < 0x1_0000
    ensures |s| == 9
  {
    [HANDSHAKE] + Write16(recordVersion) + Write16(n + 4)
    + [CLIENT_HELLO, n / 0x1_0000, n / 0x100 % 0x100, n % 0x100]
  }

  // One handshake message in one record, whatever record version it shows.
  function Encode(h: Hello, recordVersion: U16): seq<Byte>
    requires HelloFits(h)
  {
    Headers(recordVersion, |Body(h)|) + Body(h)
  }

  // ---- What should be reported ------------------------------------------

  function Report(info: Info, e: Extension): Info {
    var seen := info.(extensions := info.extensions + [Kind(e)]);
    match e
    case ServerName(name) => seen.(serverName := name)
    case Groups(gs) => seen.(ellipticCurves := gs)
    case PointFormats(fs) => seen.(ecPointFormats := fs)
    case SignatureAlgs(algs) => seen.(signatureAlgs := algs)
    case Alpn(ps) => seen.(alpn := ps)
    case Versions(vs) => seen.(supportedVersions := vs)
    case Other(_, _) => seen
  }

  function ReportAll(info: Info, es: seq<Extension>): Info
    decreases |es|
  {
    if es == [] then info else ReportAll(Report(info, es[0]), es[1..])
  }

  function Expected(h: Hello): Info {
    var start := NO_INFO.(tlsVersion := h.version, cipherSuites := h.suites);
    if h.extensions.Absent? then start else WithRealVersion(ReportAll(start, h.extensions.list))
  }

  // ---- Parsing inverts writing ------------------------------------------

  lemma {:induction false} NumbersReadBack(before: seq<Byte>, vs: seq<U16>, after: seq<Byte>)
    ensures var s := before + WriteNumbers(vs) + after;
      Numbers(s, |before|, |before| + Twice(|vs|)) == vs
    decreases |vs|
  {
    var s := before + WriteNumbers(vs) + after;
    if vs != [] {
      ReadWritten16(before, vs[0], WriteNumbers(vs[1..]) + after);
      assert s == before + Write16(vs[0]) + (WriteNumbers(vs[1..]) + after);
      assert s == (before + Write16(vs[0])) + WriteNumbers(vs[1..]) + after;
      NumbersReadBack(before + Write16(vs[0]), vs[1..], after);
    }
  }

  lemma {:induction false} SuitesReadBack(before: seq<Byte>, vs: seq<U16>, after: seq<Byte>)
    ensures var s := before + WriteNumbers(vs) + after;
      SuitesFrom(s, |before|, |before| + Twice(|vs|)) == Read(vs)
    decreases |vs|
  {
    var s := before + WriteNumbers(vs) + after;
    if vs != [] {
      ReadWritten16(before, vs[0], WriteNumbers(vs[1..]) + after);
      assert s == before + Write16(vs[0]) + (WriteNumbers(vs[1..]) + after);
      assert s == (before + Write16(vs[0])) + WriteNumbers(vs[1..]) + after;
      SuitesReadBack(before + Write16(vs[0]), vs[1..], after);
    }
  }

  lemma {:induction false} ProtocolsReadBack(before: seq<Byte>, ps: seq<seq<Byte>>, after: seq<Byte>)
    requires forall i :: 0 <= i < |ps| ==> |ps[i]| < 0x100
    ensures var s := before + WriteProtocols(ps) + after;
      Protocols(s, |before|, |before| + |WriteProtocols(ps)|) == ps
    decreases |ps|
  {
    if ps != [] {
      var head := [|ps[0]| as Byte] + ps[0];
      var rest := WriteProtocols(ps[1..]);
      ProtocolsReadBack(before + head, ps[1..], after);
      Associate3(before, head, rest);
      assert WriteProtocols(ps) == head + rest;
      hide Protocols, WriteProtocols;
      ProtocolStep(before, ps[0], rest, after);
    }
  }

  lemma ProtocolStep(before: seq<Byte>, p: seq<Byte>, rest: seq<Byte>, after: seq<Byte>)
    requires |p| < 0x100
    ensures var s := (before + ([|p| as Byte] + p)) + rest + after;
      var stop := |before| + 1 + |p| + |rest|;
      Protocols(s, |before|, stop) == [p] + Protocols(s, |before| + 1 + |p|, stop)
  {
    var s := (before + ([|p| as Byte] + p)) + rest + after;
    assert s[|before|] == |p|;
    assert s[|before| + 1..|before| + 1 + |p|] == p;
  }

  // MAIN RESULT. Inside an extension a list ends where its length field says: what follows it
  // there is not reported.
  lemma ExtensionReadsBack(info: Info, e: Extension, after: seq<Byte>)
    requires Fits(e)
    ensures Apply(info, Kind(e), Data(e) + after) == Report(info, e)
  {
    hide ParseServerName, ParseNumberList, ParsePointFormats, ParseAlpn, ParseVersions, WriteNumbers, WriteProtocols;
    match e {
      case ServerName(name) => NameReadsBack(name, after);
      case Groups(gs) => NumberListReadsBack(gs, after);
      case PointFormats(fs) => PointFormatsReadBack(fs, after);
      case SignatureAlgs(algs) => NumberListReadsBack(algs, after);
      case Alpn(ps) => ProtocolListReadsBack(ps, after);
      case Versions(vs) => VersionsReadBack(vs, after);
      case Other(_, _) =>
    }
  }

  lemma PointFormatsReadBack(fs: seq<Byte>, after: seq<Byte>)
    ensures |fs| < 0x100 ==> ParsePointFormats([|fs|] + fs + after) == fs
  {}

  lemma VersionsReadBack(vs: seq<U16>, after: seq<Byte>)
    requires Twice(|vs|) < 0x100
    ensures ParseVersions([Twice(|vs|)] + WriteNumbers(vs) + after) == vs
  {
    hide *;
    var head: seq<Byte> := [Twice(|vs|)];
    NumbersReadBack(head, vs, after);
    VersionsOfLength(head + WriteNumbers(vs) + after, Twice(|vs|));
  }

  lemma VersionsOfLength(data: seq<Byte>, k: Byte)
    ensures |data| >= 1 + k && data[0] == k ==> ParseVersions(data) == Numbers(data, 1, 1 + k)
  {}

  lemma NameReadsBack(name: seq<Byte>, after: seq<Byte>)
    ensures |name| + 5 < 0x1_0000 ==>
      ParseServerName(Write16(|name| + 3) + [0] + Write16(|name|) + name + after) == name
  {}

  lemma ProtocolListReadsBack(ps: seq<seq<Byte>>, after: seq<Byte>)
    requires (forall i :: 0 <= i < |ps| ==> |ps[i]| < 0x100) && |WriteProtocols(ps)| + 2 < 0x1_0000
    ensures ParseAlpn(Write16(|WriteProtocols(ps)|) + WriteProtocols(ps) + after) == ps
  {
    hide Protocols, WriteProtocols, Read16, Write16;
    LengthInFront(|WriteProtocols(ps)|, WriteProtocols(ps), after);
    ProtocolsReadBack(Write16(|WriteProtocols(ps)|), ps, after);
  }

  lemma NumberListReadsBack(vs: seq<U16>, after: seq<Byte>)
    requires Twice(|vs|) + 2 < 0x1_0000
    ensures ParseNumberList(Write16(Twice(|vs|)) + WriteNumbers(vs) + after) == vs
  {
    hide *;
    LengthInFront(Twice(|vs|), WriteNumbers(vs), after);
    ListOfLength(Write16(Twice(|vs|)) + WriteNumbers(vs) + after, Twice(|vs|));
    NumbersReadBack(Write16(Twice(|vs|)), vs, after);
  }

  lemma LengthInFront(k: U16, list: seq<Byte>, after: seq<Byte>)
    ensures Read16(Write16(k) + list + after, 0) == k
  {
    ReadFirst16(k, list + after);
    Associate3(Write16(k), list, after);
  }

  lemma ListOfLength(data: seq<Byte>, k: nat)
    ensures |data| >= 2 + k && Read16(data, 0) == k ==> ParseNumberList(data) == Numbers(data, 2, 2 + k)
  {}

  lemma {:induction false} ExtensionsReadBack(before: seq<Byte>, es: seq<Extension>, info: Info)
    requires forall i :: 0 <= i < |es| ==> Fits(es[i])
    ensures var data := before + WriteExtensions(es);
      ExtensionsFrom(data, |before|, |data|, info) == ReportAll(info, es)
    decreases |es|
  {
    if es != [] {
      var e := es[0];
      assert Fits(e);
      var rest := WriteExtensions(es[1..]);
      var next := before + WriteExtension(e);
      assert before + WriteExtensions(es) == next + rest by {
        Associate3(before, WriteExtension(e), rest);
      }
      ExtensionsReadBack(next, es[1..], Report(info, e));
      OneExtension(before, e, rest);
      hide Apply, Report, Data, WriteExtension, WriteExtensions, Read16, Write16, Fits;
      ExtensionReadsBack(info, e, []);
      assert Data(e) + [] == Data(e);
    }
  }

  lemma Associate3(a: seq<Byte>, b: seq<Byte>, c: seq<Byte>)
    ensures a + (b + c) == a + b + c
  {}

  lemma OneExtension(before: seq<Byte>, e: Extension, rest: seq<Byte>)
    requires Fits(e)
    ensures var s := before + WriteExtension(e) + rest;
      && |WriteExtension(e)| == 4 + |Data(e)|
      && Read16(s, |before|) == Kind(e)
      && Read16(s, |before| + 2) == |Data(e)|
      && s[|before| + 4..|before| + 4 + |Data(e)|] == Data(e)
  {
    hide Fits, Kind;
    var d := Data(e);
    hide Data;
    var s := before + WriteExtension(e) + rest;
    var k, l := Write16(Kind(e)), Write16(|d|);
    assert WriteExtension(e) == k + l + d;
    ReadWritten16(before, Kind(e), l + d + rest);
    ReadWritten16(before + k, |d|, d + rest);
    hide WriteExtension, Write16, Read16;
    assert s == before + k + (l + d + rest);
    assert s == (before + k) + l + (d + rest);
  }

  lemma TailReadsBack(before: seq<Byte>, compression: seq<Byte>, x: Extensions, info: Info)
    requires |compression| < 0x100 && ExtensionsFit(x)
    ensures AfterSuites(before + ([|compression|] + compression + WriteExtensionBlock(x)), |before|, info)
            == Parsed(if x.Absent? then info else WithRealVersion(ReportAll(info, x.list)))
  {
    hide ExtensionsFrom, ReportAll, Read16, Write16, WriteExtensions;
    var head := before + ([|compression| as Byte] + compression);
    var block := WriteExtensionBlock(x);
    var s := before + ([|compression| as Byte] + compression + block);
    assert s == head + block;
    assert s[|before|] == |compression|;
    if x.Present? {
      var w := WriteExtensions(x.list);
      assert Read16(s, |head|) == |w| by {
        ReadWritten16(head, |w|, w);
        assert s == head + Write16(|w|) + w;
      }
      assert ExtensionsFrom(s, |head| + 2, |s|, info) == ReportAll(info, x.list) by {
        ExtensionsReadBack(head + Write16(|w|), x.list, info);
        assert s == (head + Write16(|w|)) + w;
      }
    }
  }

  lemma BodyParts(head: seq<Byte>, length: seq<Byte>, w: seq<Byte>, tail: seq<Byte>, after: seq<Byte>)
    ensures var buf := head + length + w + tail + after;
      && buf == head + (length + w + tail + after)
      && buf == head + length + (w + tail + after)
      && buf == (head + length) + w + (tail + after)
      && buf[..|head + length + w + tail|] == head + length + w + tail
  {}

  // A body split around its cipher suites: `head` ends with the session ID.
  lemma BodyAroundSuites(head: seq<Byte>, suites: seq<U16>, tail: seq<Byte>, after: seq<Byte>)
    requires |head| >= 35 && |head| == 35 + head[34] as nat && Twice(|suites|) < 0x1_0000
    ensures var body := head + Write16(Twice(|suites|)) + WriteNumbers(suites) + tail;
      ParseBody(body + after, |body|)
      == AfterSuites(body, |head| + 2 + Twice(|suites|),
                     NO_INFO.(tlsVersion := Read16(head, 0), cipherSuites := suites))
  {
    hide SuitesFrom, AfterSuites, Read16, Write16, WriteNumbers;
    var w := WriteNumbers(suites);
    var front := head + Write16(Twice(|suites|));
    var body := front + w + tail;
    var buf := body + after;
    BodyParts(head, Write16(Twice(|suites|)), w, tail, after);
    assert buf[34] == head[34];
    assert Read16(buf, 0) == Read16(head, 0) by {
      Read16Prefix(head, Write16(Twice(|suites|)) + w + tail + after, 0);
    }
    assert Read16(buf, |head|) == Twice(|suites|) by {
      ReadWritten16(head, Twice(|suites|), w + tail + after);
    }
    assert SuitesFrom(buf, |front|, |front| + Twice(|suites|)) == Read(suites) by {
      SuitesReadBack(front, suites, tail + after);
    }
    assert buf[..|body|] == body;
  }

  lemma SplitBodyReadsBack(head: seq<Byte>, version: U16, suites: seq<U16>, compression: seq<Byte>,
                           x: Extensions, after: seq<Byte>)
    requires |head| >= 35 && |head| == 35 + head[34] as nat && Twice(|suites|) < 0x1_0000 && Read16(head, 0) == version
    requires |compression| < 0x100 && ExtensionsFit(x)
    ensures var body := head + Write16(Twice(|suites|)) + WriteNumbers(suites)
                        + ([|compression| as Byte] + compression + WriteExtensionBlock(x));
      var start := NO_INFO.(tlsVersion := version, cipherSuites := suites);
      ParseBody(body + after, |body|) == Parsed(if x.Absent? then start else WithRealVersion(ReportAll(start, x.list)))
  {
    hide *;
    BodyAroundSuites(head, suites, [|compression| as Byte] + compression + WriteExtensionBlock(x), after);
    TailReadsBack(head + Write16(Twice(|suites|)) + WriteNumbers(suites), compression, x,
      NO_INFO.(tlsVersion := version, cipherSuites := suites));
  }

  lemma HeadReads(version: U16, random: seq<Byte>, sessionId: seq<Byte>)
    requires |random| == 32 && |sessionId| < 0x100
    ensures var head := Write16(version) + random + [|sessionId| as Byte] + sessionId;
      |head| == 35 + |sessionId| && head[34] == |sessionId| && Read16(head, 0) == version
  {
    ReadWritten16([], version, random + [|sessionId| as Byte] + sessionId);
    assert Write16(version) + random + [|sessionId| as Byte] + sessionId
           == [] + Write16(version) + (random + [|sessionId| as Byte] + sessionId);
  }

  lemma BodyReadsBack(h: Hello, after: seq<Byte>)
    requires HelloFits(h)
    ensures ParseBody(Body(h) + after, |Body(h)|) == Parsed(Expected(h))
  {
    HeadReads(h.version, h.random, h.sessionId);
    BodySplits(h);
    hide ParseBody, Body, WriteExtensionBlock, Write16, Read16, ReportAll, WriteNumbers, ExtensionsFit;
    SplitBodyReadsBack(Write16(h.version) + h.random + [|h.sessionId| as Byte] + h.sessionId,
      h.version, h.suites, h.compression, h.extensions, after);
  }

  lemma BodySplits(h: Hello)
    requires HelloFits(h)
    ensures Body(h) == Write16(h.version) + h.random + [|h.sessionId| as Byte] + h.sessionId
      + Write16(Twice(|h.suites|)) + WriteNumbers(h.suites)
      + ([|h.compression| as Byte] + h.compression + WriteExtensionBlock(h.extensions))
  {
    hide Write16, WriteNumbers, WriteExtensionBlock;
    Associate(Write16(h.version) + h.random + [|h.sessionId| as Byte] + h.sessionId, Write16(Twice(|h.suites|)),
      WriteNumbers(h.suites), [|h.compression| as Byte] + h.compression + WriteExtensionBlock(h.extensions));
  }

  lemma Associate(a: seq<Byte>, b: seq<Byte>, c: seq<Byte>, d: seq<Byte>)
    ensures a + (b + c + d) == a + b + c + d
  {}

  // MAIN RESULT. Parsing the encoding of any ClientHello, whatever follows it
  // in the buffer, reports exactly what was encoded.
  lemma RoundTrip(h: Hello, recordVersion: U16, after: seq<Byte>, n: nat)
    requires HelloFits(h)
    requires |Encode(h, recordVersion)| <= n <= |Encode(h, recordVersion)| + |after|
    ensures Parse(Encode(h, recordVersion) + after, n) == Parsed(Expected(h))
  {
    hide ParseBody, Body, ExtensionsFit, ReportAll;
    var m := |Body(h)|;
    HeadersReadBack(recordVersion, m, Body(h) + after);
    assert Encode(h, recordVersion) + after == Headers(recordVersion, m) + (Body(h) + after);
    BodyReadsBack(h, after);
  }

  lemma HeadersReadBack(recordVersion: U16, m: nat, rest: seq<Byte>)
    requires m + 4 < 0x1_0000 && m <= |rest|
    ensures var buf := Headers(recordVersion, m) + rest;
      buf[9..] == rest && BodyLength(buf) == m && forall n :: 9 + m <= n <= |buf| ==> HeadersOk(buf, n)
  {
    var buf := Headers(recordVersion, m) + rest;
    var start := [HANDSHAKE] + Write16(recordVersion);
    var tail := [CLIENT_HELLO, m / 0x1_0000, m / 0x100 % 0x100, m % 0x100];
    assert Read16(buf, 3) == m + 4 by {
      ReadWritten16(start, m + 4, tail + rest);
      assert buf == start + Write16(m + 4) + (tail + rest);
    }
    assert buf[5] == tail[0] && buf[6] == tail[1] && buf[7] == tail[2] && buf[8] == tail[3];
    ThreeBytes(m);
  }

  lemma ThreeBytes(m: nat)
    ensures m < 0x100_0000 ==> m / 0x1_0000 * 0x1_0000 + m / 0x100 % 0x100 * 0x100 + m % 0x100 == m
  {}

  // ---- What the report says, extension by extension ---------------------

  predicate OnePerType(es: seq<Extension>) {
    forall i, j :: 0 <= i < j < |es| ==> Kind(es[i]) != Kind(es[j])
  }

  predicate Reports(info: Info, e: Extension) {
    match e
    case ServerName(name) => info.serverName == name
    case Groups(gs) => info.ellipticCurves == gs
    case PointFormats(fs) => info.ecPointFormats == fs
    case SignatureAlgs(algs) => info.signatureAlgs == algs
    case Alpn(ps) => info.alpn == ps
    case Versions(vs) => info.supportedVersions == vs
    case Other(_, _) => true
  }

  lemma {:induction false} ReportsStay(info: Info, e: Extension, es: seq<Extension>)
    requires Fits(e) && forall i :: 0 <= i < |es| ==> Fits(es[i]) && Kind(es[i]) != Kind(e)
    requires Reports(info, e)
    ensures Reports(ReportAll(info, es), e)
    decreases |es|
  {
    if es != [] {
      assert Fits(es[0]) && Kind(es[0]) != Kind(e);
      ReportsStay(Report(info, es[0]), e, es[1..]);
    }
  }

  // MAIN RESULT. With one extension per type the report lists the extension
  // types in order and gives every extension's contents.
  lemma {:induction false} EveryExtensionReported(info: Info, es: seq<Extension>)
    requires OnePerType(es) && forall i :: 0 <= i < |es| ==> Fits(es[i])
    ensures ReportAll(info, es).extensions == info.extensions + seq(|es|, i requires 0 <= i < |es| => Kind(es[i]))
    ensures forall i :: 0 <= i < |es| ==> Reports(ReportAll(info, es), es[i])
    decreases |es|
  {
    if es != [] {
      var next := Report(info, es[0]);
      EveryExtensionReported(next, es[1..]);
      assert Fits(es[0]);
      ReportsStay(next, es[0], es[1..]);
      forall i | 0 <= i < |es| ensures Reports(ReportAll(info, es), es[i]) {
        if i > 0 {
          assert es[1..][i - 1] == es[i];
        }
      }
    }
  }

  // The version reported: the largest non-GREASE offer if there is one.
  lemma {:induction false} HighestIsMaximum(versions: seq<U16>)
    ensures forall i :: 0 <= i < |versions| && !IsGrease(versions[i]) ==> versions[i] <= Highest(versions)
    ensures Highest(versions) > 0 ==> Highest(versions) in versions && !IsGrease(Highest(versions))
  {
    if versions != [] {
      HighestIsMaximum(versions[..|versions| - 1]);
    }
  }

  // ---- The version reported ---------------------------------------------

  // The values that the parser takes for GREASE: both low nibbles are 0xa.
  predicate Masked(v: U16) {
    exists i, j | 0 <= i < 0x10 && 0 <= j < 0x10 :: v == 0x0a0a + 0x1000 * i + 0x10 * j
  }

  // The sixteen GREASE versions of RFC 8701 section 2.
  predicate Listed(v: U16) {
    exists k | 0 <= k < 0x10 :: v == 0x0a0a + 0x1010 * k
  }

  // r is the largest version offered, 0 and those to skip aside, and the legacy version if none is left.
  ghost predicate Picks(versions: seq<U16>, legacy: U16, skip: U16 -> bool, r: U16) {
    if exists v :: v in versions && v > 0 && !skip(v) then
      r in versions && r > 0 && !skip(r) && forall v :: v in versions && !skip(v) ==> v <= r
    else r == legacy
  }

  lemma GreaseIsMasked(v: U16)
    ensures IsGrease(v) <==> Masked(v)
    ensures Listed(v) ==> Masked(v)
  {
    if Listed(v) {
      var k :| 0 <= k < 0x10 && v == 0x0a0a + 0x1010 * k;
      assert v == 0x0a0a + 0x1000 * k + 0x10 * k;
    }
    if Masked(v) {
      var i, j :| 0 <= i < 0x10 && 0 <= j < 0x10 && v == 0x0a0a + 0x1000 * i + 0x10 * j;
      MaskedBytes(v, i, j);
    }
    if IsGrease(v) {
      NibblesAdd(v);
      assert v == 0x0a0a + 0x1000 * (v / 0x1000) + 0x10 * (v / 0x10 % 0x10);
    }
  }

  lemma MaskedBytes(v: U16, i: int, j: int)
    requires 0 <= i < 0x10 && 0 <= j < 0x10 && v == 0x0a0a + 0x1000 * i + 0x10 * j
    ensures IsGrease(v)
  {
    assert v / 0x100 == 0x0a + 0x10 * i && v % 0x10 == 0xa;
  }

  lemma NibblesAdd(v: U16)
    ensures v == v / 0x1000 * 0x1000 + v / 0x100 % 0x10 * 0x100 + v / 0x10 % 0x10 * 0x10 + v % 0x10
  {
    assert v / 0x100 == v / 0x10 / 0x10 && v / 0x1000 == v / 0x100 / 0x10;
  }

  lemma VersionPicked(info: Info)
    ensures Picks(info.supportedVersions, info.tlsVersion, Masked, WithRealVersion(info).tlsVersion)
  {
    hide Masked;
    forall v: U16 ensures IsGrease(v) <==> Masked(v) {
      GreaseIsMasked(v);
    }
    HighestIsMaximum(info.supportedVersions);
    hide IsGrease, Highest;
  }

  lemma {:induction false} VersionsKept(info: Info, es: seq<Extension>)
    ensures var r := ReportAll(info, es);
      && r.tlsVersion == info.tlsVersion
      && ((forall e :: e in es ==> !e.Versions?) ==> r.supportedVersions == info.supportedVersions)
    decreases |es|
  {
    if es != [] {
      VersionsKept(Report(info, es[0]), es[1..]);
    }
  }

  function List(x: Extensions): seq<Extension> {
    if x.Absent? then [] else x.list
  }

  // MAIN RESULT. The version reported of any ClientHello with one extension per type is the largest
  // it offers that does not have the form 0x?a?a, and its legacy version if it offers none.
  lemma VersionReported(h: Hello, recordVersion: U16, after: seq<Byte>, n: nat)
    requires HelloFits(h) && OnePerType(List(h.extensions))
    requires |Encode(h, recordVersion)| <= n <= |Encode(h, recordVersion)| + |after|
    ensures var p := Parse(Encode(h, recordVersion) + after, n);
      && p.Parsed?
      && (forall vs :: Versions(vs) in List(h.extensions) ==> Picks(vs, h.version, Masked, p.info.tlsVersion))
      && ((forall e :: e in List(h.extensions) ==> !e.Versions?) ==> p.info.tlsVersion == h.version)
  {
    hide *;
    RoundTrip(h, recordVersion, after, n);
    FittingExtensions(h);
    var start := NO_INFO.(tlsVersion := h.version, cipherSuites := h.suites);
    var es := List(h.extensions);
    var info := ReportAll(start, es);
    VersionsReported(start, es);
    VersionsKept(start, es);
    VersionPicked(info);
    NoVersionsKept(info);
  }

  lemma FittingExtensions(h: Hello)
    requires HelloFits(h)
    ensures forall i :: 0 <= i < |List(h.extensions)| ==> Fits(List(h.extensions)[i])
    ensures NO_INFO.supportedVersions == [] && Expected(h) == WithRealVersion(
      ReportAll(NO_INFO.(tlsVersion := h.version, cipherSuites := h.suites), List(h.extensions)))
  {
    hide ReportAll, Body, Fits, WriteExtensions;
    var start := NO_INFO.(tlsVersion := h.version, cipherSuites := h.suites);
    NoVersionsKept(start);
    NothingReported(start);
  }

  lemma NothingReported(info: Info)
    ensures ReportAll(info, []) == info
  {}

  lemma NoVersionsKept(info: Info)
    ensures info.supportedVersions == [] ==> WithRealVersion(info) == info
  {}

  lemma VersionsReported(start: Info, es: seq<Extension>)
    requires OnePerType(es) && forall i :: 0 <= i < |es| ==> Fits(es[i])
    ensures forall vs :: Versions(vs) in es ==> ReportAll(start, es).supportedVersions == vs
  {
    EveryExtensionReported(start, es);
    var info := ReportAll(start, es);
    hide ReportAll, OnePerType, Fits;
    forall vs | Versions(vs) in es ensures info.supportedVersions == vs {
      var i :| 0 <= i < |es| && es[i] == Versions(vs);
      assert Reports(info, es[i]);
    }
  }

  // MAIN RESULT. So a hello that offers TLS 1.3 and otherwise only GREASE and lower versions is
  // reported with TLS 1.3, wherever the GREASE values stand.
  lemma Tls13Reported(h: Hello, recordVersion: U16, after: seq<Byte>, n: nat, versions: seq<U16>)
    requires HelloFits(h) && OnePerType(List(h.extensions)) && Versions(versions) in List(h.extensions)
    requires |Encode(h, recordVersion)| <= n <= |Encode(h, recordVersion)| + |after|
    requires 0x0304 in versions
    requires forall v :: v in versions ==> v <= 0x0304 || exists k :: 0 <= k < 0x10 && v == 0x0a0a + 0x1010 * k
    ensures var p := Parse(Encode(h, recordVersion) + after, n); p.Parsed? && p.info.tlsVersion == 0x0304
  {
    VersionReported(h, recordVersion, after, n);
    forall v | v in versions && v > 0x0304 ensures Masked(v) {
      GreaseIsMasked(v);
    }
    assert !Masked(0x0304);
  }

  // MAIN RESULT. The test for GREASE accepts 240 more values than the sixteen, so the version
  // reported is the one RFC 8701 asks for only when each of those that is offered is below a
  // version that stands, or when the largest of them is the legacy version that stands in for it.
  lemma SixteenSkippedIff(info: Info)
    ensures var versions, r := info.supportedVersions, WithRealVersion(info).tlsVersion;
      Picks(versions, info.tlsVersion, Listed, r) <==>
        (forall v :: v in versions && Masked(v) && !Listed(v) ==> exists w :: w in versions && w > v && !Masked(w))
        || (r == info.tlsVersion && r in versions && Masked(r) && !Listed(r) &&
            forall v :: v in versions && !Listed(v) ==> v <= r)
  {
    assert !Masked(0);
    hide Masked, Listed;
    forall v: U16 ensures Listed(v) ==> Masked(v) {
      GreaseIsMasked(v);
    }
    VersionPicked(info);
    hide WithRealVersion;
    var versions, r := info.supportedVersions, WithRealVersion(info).tlsVersion;
    if exists v :: v in versions && v > 0 && !Masked(v) {
      assert r in versions && r > 0 && !Masked(r) && !Listed(r);
    }
  }

  // ---- The parser as the source runs it ---------------------------------

  method ReadNumbers(data: seq<Byte>, start: nat, stop: nat) returns (numbers: seq<U16>)
    requires stop <= |data|
    ensures numbers == Numbers(data, start, stop)
  {
    numbers := [];
    var i := start;
    while i + 1 < stop
      invariant start <= i
      invariant numbers + Numbers(data, i, stop) == Numbers(data, start, stop)
      decreases stop - i
    {
      numbers := numbers + [Read16(data, i)];
      i := i + 2;
    }
  }

  method ReadPointFormats(data: seq<Byte>) returns (formats: seq<Byte>)
    ensures formats == ParsePointFormats(data)
  {
    if |data| < 1 {
      return [];
    }
    formats := [];
    var i := 1;
    while i < 1 + data[0] as nat && i < |data|
      invariant 1 <= i <= |data| && i <= 1 + data[0] as nat
      invariant formats == data[1..i]
    {
      formats := formats + [data[i]];
      i := i + 1;
    }
  }

  method ReadAlpn(data: seq<Byte>) returns (protocols: seq<seq<Byte>>)
    ensures protocols == ParseAlpn(data)
  {
    if |data| < 2 {
      return [];
    }
    var length := Read16(data, 0);
    ghost var stop := Min(2 + length, |data|);
    protocols := [];
    var pos := 2;
    while pos < 2 + length && pos < |data|
      invariant 2 <= pos
      invariant protocols + Protocols(data, pos, stop) == ParseAlpn(data)
      decreases |data| - pos
    {
      var pLen := data[pos] as nat;
      pos := pos + 1;
      if pos + pLen > |data| {
        return;
      }
      protocols := protocols + [data[pos..pos + pLen]];
      pos := pos + pLen;
    }
  }

  method ReadExtension(info: Info, kind: U16, data: seq<Byte>) returns (next: Info)
    ensures next == Apply(info, kind, data)
  {
    next := info.(extensions := info.extensions + [kind]);
    if kind == SERVER_NAME {
      next := next.(serverName := ParseServerName(data));
    } else if kind == SUPPORTED_GROUPS || kind == SIGNATURE_ALGORITHMS {
      var numbers := [];
      if |data| >= 2 {
        numbers := ReadNumbers(data, 2, Min(2 + Read16(data, 0), |data|));
      }
      next := if kind == SUPPORTED_GROUPS then next.(ellipticCurves := numbers) else next.(signatureAlgs := numbers);
    } else if kind == EC_POINT_FORMATS {
      var formats := ReadPointFormats(data);
      next := next.(ecPointFormats := formats);
    } else if kind == ALPN {
      var protocols := ReadAlpn(data);
      next := next.(alpn := protocols);
    } else if kind == SUPPORTED_VERSIONS {
      var versions := [];
      if |data| >= 1 {
        versions := ReadNumbers(data, 1, Min(1 + data[0] as nat, |data|));
      }
      next := next.(supportedVersions := versions);
    }
  }

  method ReadExtensions(data: seq<Byte>, start: nat, end: nat, info0: Info) returns (info: Info)
    requires end <= |data|
    ensures info == ExtensionsFrom(data, start, end, info0)
  {
    info := info0;
    var pos := start;
    while pos + 4 <= end
      invariant start <= pos
      invariant ExtensionsFrom(data, pos, end, info) == ExtensionsFrom(data, start, end, info0)
      decreases end - pos
    {
      var kind := Read16(data, pos);
      var length := Read16(data, pos + 2);
      pos := pos + 4;
      var extData := data[pos..];
      if |extData| > length {
        extData := extData[..length];
      }
      assert extData == data[pos..Min(pos + length, |data|)];
      info := ReadExtension(info, kind, extData);
      pos := pos + length;
    }
  }

  method ReadVersion(info: Info) returns (r: Info)
    ensures r == WithRealVersion(info)
  {
    var maxVer: U16 := 0;
    for i := 0 to |info.supportedVersions|
      invariant maxVer == Highest(info.supportedVersions[..i])
    {
      var v := info.supportedVersions[i];
      assert info.supportedVersions[..i + 1][..i] == info.supportedVersions[..i];
      if v > maxVer && !IsGrease(v) {
        maxVer := v;
      }
    }
    assert info.supportedVersions[..|info.supportedVersions|] == info.supportedVersions;
    r := if maxVer > 0 then info.(tlsVersion := maxVer) else info;
  }

  method ReadSuites(buf: seq<Byte>, pos: nat, csLen: nat) returns (r: Suites)
    ensures r == SuitesFrom(buf, pos, pos + csLen)
  {
    var suites := [];
    var i := 0;
    while i < csLen
      invariant 0 <= i
      invariant SuitesFrom(buf, pos, pos + csLen) ==
        match SuitesFrom(buf, pos + i, pos + csLen)
        case OutOfCapacity => OutOfCapacity
        case Read(rest) => Read(suites + rest)
      decreases csLen - i
    {
      if pos + i + 2 > |buf| {
        return OutOfCapacity;
      }
      suites := suites + [Read16(buf, pos + i)];
      i := i + 2;
    }
    return Read(suites);
  }

  method ReadAfterSuites(data: seq<Byte>, p: nat, info: Info) returns (r: Outcome)
    ensures r == AfterSuites(data, p, info)
  {
    if p >= |data| {
      return Rejected;
    }
    var pos := p + 1 + data[p];
    if pos + 2 > |data| {
      return Parsed(info);
    }
    var extEnd := pos + 2 + Read16(data, pos);
    pos := pos + 2;
    if extEnd > |data| {
      extEnd := |data|;
    }
    var all := ReadExtensions(data, pos, extEnd, info);
    all := ReadVersion(all);
    return Parsed(all);
  }

  method ParseClientHelloBody(buf: seq<Byte>, n: nat) returns (r: Outcome)
    requires n <= |buf|
    ensures r == ParseBody(buf, n)
  {
    hide SuitesFrom, AfterSuites;
    if n < 34 {
      return Rejected;
    }
    var version := Read16(buf, 0);
    var pos := 34;
    if pos >= n {
      return Rejected;
    }
    pos := pos + 1 + buf[pos];
    if pos + 2 > n {
      return Rejected;
    }
    var csLen := Read16(buf, pos);
    pos := pos + 2;
    if pos + csLen > n {
      return Rejected;
    }
    var suites := ReadSuites(buf, pos, csLen);
    if suites.OutOfCapacity? {
      return Panicked;
    }
    var info := NO_INFO.(tlsVersion := version, cipherSuites := suites.suites);
    r := ReadAfterSuites(buf[..n], pos + csLen, info);
  }

  method ParseClientHello(buf: seq<Byte>, n: nat) returns (r: Outcome)
    requires n <= |buf|
    ensures r == Parse(buf, n)
  {
    if n < 5 || buf[0] != HANDSHAKE {
      return Rejected;
    }
    var recordLen := Read16(buf, 3) as nat;
    if n < 5 + recordLen || recordLen < 4 || buf[5] != CLIENT_HELLO {
      return Rejected;
    }
    var hsLen := BodyLength(buf);
    if recordLen < 4 + hsLen {
      return Rejected;
    }
    r := ParseClientHelloBody(buf[9..], hsLen);
  }
}
