// The XDP programs: the current filter (xdp/mango_xdp.c) looks the source up
// first, the older one (bin/xdp/mango_xdp.c) tests for SSH first.
module PacketFilters {
  import opened Blacklists
  import opened Bytes

  type Frame = seq<Byte>

  datatype Verdict = Pass | Drop

  const ETH_HEADER: nat := 14
  const VLAN_HEADER: nat := 4
  const IP_HEADER: nat := 20
  const ETH_P_IP: nat := 0x0800
  const IPPROTO_TCP: nat := 6
  const SSH_PORT: nat := 22

  const TAGS: set<int> := {0x8100, 0x88A8, 0x9100}
  const OLD_TAGS: set<int> := {0x8100, 0x88A8}

  // Every read of the packet goes through Read8 and Bytes.Read16, whose
  // preconditions are the bounds of the frame.
  function Read8(frame: Frame, off: nat): Byte
    requires off < |frame|
  {
    frame[off]
  }

  // ---- Layout -----------------------------------------------------------

  datatype Layer2 = Truncated | Found(off: nat, proto: int)

  // Step over at most n tags, starting at `off` with ethertype `proto`.
  function SkipTags(frame: Frame, off: nat, proto: int, n: nat, tags: set<int>): (r: Layer2)
    requires off <= |frame|
    ensures r.Found? ==> off <= r.off <= |frame|
    decreases n
  {
    if n == 0 || proto !in tags then Found(off, proto)
    else if off + VLAN_HEADER > |frame| then Truncated
    else SkipTags(frame, off + VLAN_HEADER, Read16(frame, off + 2), n - 1, tags)
  }

  // Offset of a complete IPv4 header, if the program gets that far.
  function IpOffset(frame: Frame, n: nat, tags: set<int>): (r: Layer2)
    ensures r.Found? ==> r.off + IP_HEADER <= |frame|
  {
    if |frame| < ETH_HEADER then Truncated
    else
      var l2 := SkipTags(frame, ETH_HEADER, Read16(frame, 12), n, tags);
      if l2.Truncated? || l2.proto != ETH_P_IP || l2.off + IP_HEADER > |frame| then Truncated
      else l2
  }

  function HeaderWords(frame: Frame, ip: nat): nat
    requires ip + IP_HEADER <= |frame|
  {
    Read8(frame, ip) % 16
  }

  function SourceOf(frame: Frame, ip: nat): Address
    requires ip + IP_HEADER <= |frame|
  {
    frame[ip + 12..ip + 16]
  }

  // A TCP packet whose destination port, found after `ihl` words of header,
  // lies in the frame and is 22.
  predicate IsSsh(frame: Frame, ip: nat)
    requires ip + IP_HEADER <= |frame|
  {
    Read8(frame, ip + 9) == IPPROTO_TCP &&
    var tcp := ip + 4 * HeaderWords(frame, ip);
    tcp + 4 <= |frame| && Read16(frame, tcp + 2) == SSH_PORT
  }

  // ---- Verdicts ---------------------------------------------------------

  // A drop names the source whose counter it increments.
  datatype Outcome = Passed | Dropped(key: Key)

  function NewOutcome(frame: Frame, banned: set<Key>): (r: Outcome)
    ensures r.Dropped? ==> r.key in banned
  {
    var ip := IpOffset(frame, 2, TAGS);
    if ip.Truncated? || KeyOf(SourceOf(frame, ip.off)) !in banned then Passed
    else if HeaderWords(frame, ip.off) >= 5 && IsSsh(frame, ip.off) then Passed
    else Dropped(KeyOf(SourceOf(frame, ip.off)))
  }

  function OldOutcome(frame: Frame, banned: set<Key>): (r: Outcome)
    ensures r.Dropped? ==> r.key in banned
  {
    var ip := IpOffset(frame, 1, OLD_TAGS);
    if ip.Truncated? || IsSsh(frame, ip.off) || KeyOf(SourceOf(frame, ip.off)) !in banned then Passed
    else Dropped(KeyOf(SourceOf(frame, ip.off)))
  }

  // The counters after an outcome.
  function Counted(m: map<Key, nat>, outcome: Outcome): map<Key, nat> {
    if outcome.Passed? then m else m[outcome.key := Get(m, outcome.key) + 1]
  }

  // ---- The programs -----------------------------------------------------

  // xdp/mango_xdp.c. No precondition: every read below is within the frame.
  method XdpDropBanned(frame: Frame, blacklist: BpfMap) returns (verdict: Verdict)
    modifies blacklist
    ensures verdict == Drop <==> NewOutcome(frame, old(blacklist.entries).Keys).Dropped?
    ensures blacklist.entries == Counted(old(blacklist.entries), NewOutcome(frame, old(blacklist.entries).Keys))
  {
    if ETH_HEADER > |frame| {
      return Pass;
    }
    var proto := Read16(frame, 12);
    var l3 := ETH_HEADER;
    var i := 0;
    while i < 2
      invariant 0 <= i <= 2 && ETH_HEADER <= l3 <= |frame|
      invariant SkipTags(frame, ETH_HEADER, Read16(frame, 12), 2, TAGS) == SkipTags(frame, l3, proto, 2 - i, TAGS)
    {
      if proto == 0x8100 || proto == 0x88A8 || proto == 0x9100 {
        if l3 + VLAN_HEADER > |frame| {
          return Pass;
        }
        proto := Read16(frame, l3 + 2);
        l3 := l3 + VLAN_HEADER;
      }
      i := i + 1;
    }
    if proto != ETH_P_IP {
      return Pass;
    }
    if l3 + IP_HEADER > |frame| {
      return Pass;
    }
    var key := KeyOf(SourceOf(frame, l3));
    if key in blacklist.entries {
      if Read8(frame, l3 + 9) == IPPROTO_TCP {
        var ihl := Read8(frame, l3) % 16 * 4;
        if 20 <= ihl <= 60 {
          if l3 + ihl + 4 <= |frame| {
            if Read16(frame, l3 + ihl + 2) == SSH_PORT {
              return Pass;
            }
          }
        }
      }
      blacklist.AddOne(key);
      return Drop;
    }
    return Pass;
  }

  // bin/xdp/mango_xdp.c.
  method OldXdpDropBanned(frame: Frame, blacklist: BpfMap) returns (verdict: Verdict)
    modifies blacklist
    ensures verdict == Drop <==> OldOutcome(frame, old(blacklist.entries).Keys).Dropped?
    ensures blacklist.entries == Counted(old(blacklist.entries), OldOutcome(frame, old(blacklist.entries).Keys))
  {
    if ETH_HEADER > |frame| {
      return Pass;
    }
    var proto := Read16(frame, 12);
    var l3 := ETH_HEADER;
    if proto == 0x8100 || proto == 0x88A8 {
      if l3 + VLAN_HEADER > |frame| {
        return Pass;
      }
      proto := Read16(frame, l3 + 2);
      l3 := l3 + VLAN_HEADER;
    }
    assert SkipTags(frame, ETH_HEADER, Read16(frame, 12), 1, OLD_TAGS) == SkipTags(frame, l3, proto, 0, OLD_TAGS);
    if proto != ETH_P_IP {
      return Pass;
    }
    if l3 + IP_HEADER > |frame| {
      return Pass;
    }
    var key := KeyOf(SourceOf(frame, l3));
    if Read8(frame, l3 + 9) == IPPROTO_TCP {
      var tcp := l3 + Read8(frame, l3) % 16 * 4;
      if tcp + 4 <= |frame| {
        if Read16(frame, tcp + 2) == SSH_PORT {
          return Pass;
        }
      }
    }
    if key in blacklist.entries {
      blacklist.AddOne(key);
      return Drop;
    }
    return Pass;
  }

  // ---- Reordering preserves verdicts ------------------------------------

  // More tags than the older program understands: an outer 0x9100, or any
  // second tag.
  predicate ExtraTags(frame: Frame) {
    |frame| >= ETH_HEADER + VLAN_HEADER &&
    (Read16(frame, 12) == 0x9100 || (Read16(frame, 12) in OLD_TAGS && Read16(frame, 16) in TAGS))
  }

  // A header length below the legal five words.
  predicate ShortHeader(frame: Frame) {
    var ip := IpOffset(frame, 2, TAGS);
    ip.Found? && HeaderWords(frame, ip.off) < 5
  }

  // MAIN RESULT. The programs agree, on the verdict and on the counter, on all
  // frames without extra tags whose IPv4 header length is legal.
  lemma ReorderingPreservesVerdict(frame: Frame, banned: set<Key>)
    requires !ExtraTags(frame) && !ShortHeader(frame)
    ensures NewOutcome(frame, banned) == OldOutcome(frame, banned)
  {}

  // MAIN RESULT. In general they differ on exactly these frames: the source is
  // banned, and either extra tags hide from the older program a packet that is
  // not SSH, or a header of fewer than five words hides its extra tags or makes
  // bytes of the IPv4 header itself look like port 22.
  lemma VerdictsDifferIff(frame: Frame, banned: set<Key>)
    ensures var ip := IpOffset(frame, 2, TAGS);
      NewOutcome(frame, banned) != OldOutcome(frame, banned) <==>
        && ip.Found? && KeyOf(SourceOf(frame, ip.off)) in banned
        && (if HeaderWords(frame, ip.off) < 5 then ExtraTags(frame) || IsSsh(frame, ip.off)
            else ExtraTags(frame) && !IsSsh(frame, ip.off))
    ensures OldOutcome(frame, banned).Dropped? ==> NewOutcome(frame, banned) == OldOutcome(frame, banned)
  {}

  // ---- What the programs mean -------------------------------------------

  datatype Tag = Tag(tpid: int, tci: seq<Byte>)

  datatype IpPacket = IpPacket(
    version: nat, words: nat, middle: seq<Byte>, protocol: Byte, checksum: seq<Byte>,
    source: Address, destination: Address, options: seq<Byte>, payload: seq<Byte>)

  predicate WellFormedTag(t: Tag) {
    t.tpid in TAGS && |t.tci| == 2
  }

  predicate WellFormedPacket(p: IpPacket) {
    && p.version < 16 && 5 <= p.words < 16
    && |p.middle| == 8 && |p.checksum| == 2
    && |p.options| == 4 * (p.words - 5)
  }

  // Ethertypes and tags from byte 12 of the frame on.
  function TypeField(tags: seq<Tag>): (s: seq<Byte>)
    requires forall i :: 0 <= i < |tags| ==> WellFormedTag(tags[i])
    ensures |s| == 2 + 4 * |tags|
  {
    if tags == [] then Write16(ETH_P_IP)
    else
      assert WellFormedTag(tags[0]);
      Write16(tags[0].tpid) + tags[0].tci + TypeField(tags[1..])
  }

  function Header(p: IpPacket): (s: seq<Byte>)
    requires WellFormedPacket(p)
    ensures |s| == 4 * p.words
  {
    [p.version * 16 + p.words] + p.middle + [p.protocol] + p.checksum + p.source + p.destination + p.options
  }

  function Build(macs: seq<Byte>, tags: seq<Tag>, p: IpPacket): Frame
    requires |macs| == 12 && WellFormedPacket(p) && forall i :: 0 <= i < |tags| ==> WellFormedTag(tags[i])
  {
    macs + TypeField(tags) + (Header(p) + p.payload)
  }

  // Skipping reads back the tags that were written.
  lemma {:induction false} SkipsTags(before: seq<Byte>, tags: seq<Tag>, rest: seq<Byte>, n: nat)
    requires forall i :: 0 <= i < |tags| ==> WellFormedTag(tags[i])
    ensures var frame := before + TypeField(tags) + rest;
      SkipTags(frame, |before| + 2, Read16(frame, |before|), n, TAGS)
      == if |tags| <= n then Found(|before| + 2 + 4 * |tags|, ETH_P_IP)
         else Found(|before| + 2 + 4 * n, tags[n].tpid)
    decreases |tags|
  {
    var frame := before + TypeField(tags) + rest;
    if tags != [] {
      var head := Write16(tags[0].tpid) + tags[0].tci;
      assert frame == before + head + (TypeField(tags[1..]) + rest);
      assert frame == (before + head) + TypeField(tags[1..]) + rest;
      assert frame[|before|] == head[0] && frame[|before| + 1] == head[1];
      assert Read16(frame, |before|) == tags[0].tpid;
      if n > 0 {
        SkipsTags(before + head, tags[1..], rest, n - 1);
        assert SkipTags(frame, |before| + 2, tags[0].tpid, n, TAGS)
               == SkipTags(frame, |before| + 6, Read16(frame, |before| + 4), n - 1, TAGS);
      }
    } else {
      assert frame[|before|] == TypeField(tags)[0] && frame[|before| + 1] == TypeField(tags)[1];
    }
  }

  lemma HeaderFields(pre: seq<Byte>, p: IpPacket)
    requires WellFormedPacket(p)
    ensures var frame := pre + (Header(p) + p.payload);
      && |pre| + IP_HEADER <= |frame|
      && HeaderWords(frame, |pre|) == p.words
      && Read8(frame, |pre| + 9) == p.protocol
      && SourceOf(frame, |pre|) == p.source
      && |frame| == |pre| + 4 * p.words + |p.payload|
      && (|p.payload| >= 4 ==>
            Read16(frame, |pre| + 4 * p.words + 2) == p.payload[2] as int * 0x100 + p.payload[3] as int)
  {
    var h := Header(p);
    var frame := pre + (h + p.payload);
    assert forall i :: 0 <= i < |h| ==> frame[|pre| + i] == h[i];
    assert forall i :: 0 <= i < |p.payload| ==> frame[|pre| + 4 * p.words + i] == p.payload[i];
    assert h[0] == p.version * 16 + p.words;
    assert h[9] == p.protocol;
    assert h[12..16] == p.source;
    assert frame[|pre| + 12..|pre| + 16] == h[12..16];
    assert (p.version * 16 + p.words) % 16 == p.words;
  }

  // MAIN RESULT. For every IPv4 packet behind any number of VLAN tags: it is
  // dropped exactly when it has at most two tags, its source is banned and it
  // is not TCP traffic to port 22.
  lemma DropMeaning(macs: seq<Byte>, tags: seq<Tag>, p: IpPacket, banned: set<Key>)
    requires |macs| == 12 && WellFormedPacket(p) && forall i :: 0 <= i < |tags| ==> WellFormedTag(tags[i])
    ensures NewOutcome(Build(macs, tags, p), banned) ==
      if |tags| <= 2 && KeyOf(p.source) in banned &&
         !(p.protocol == IPPROTO_TCP && |p.payload| >= 4 && p.payload[2] == 0 && p.payload[3] == SSH_PORT)
      then Dropped(KeyOf(p.source)) else Passed
  {
    LocatesPacket(macs, tags, p);
    HeaderFields(macs + TypeField(tags), p);
  }

  lemma LocatesPacket(macs: seq<Byte>, tags: seq<Tag>, p: IpPacket)
    requires |macs| == 12 && WellFormedPacket(p) && forall i :: 0 <= i < |tags| ==> WellFormedTag(tags[i])
    ensures IpOffset(Build(macs, tags, p), 2, TAGS)
            == if |tags| <= 2 then Found(|macs + TypeField(tags)|, ETH_P_IP) else Truncated
  {
    SkipsTags(macs, tags, Header(p) + p.payload, 2);
    if |tags| > 2 {
      assert WellFormedTag(tags[2]);
    }
  }

  function FirstType(tags: seq<Tag>): (v: U16)
    requires forall i :: 0 <= i < |tags| ==> WellFormedTag(tags[i])
  {
    if tags == [] then ETH_P_IP else assert WellFormedTag(tags[0]); tags[0].tpid
  }

  lemma TypeFieldStart(tags: seq<Tag>)
    requires forall i :: 0 <= i < |tags| ==> WellFormedTag(tags[i])
    ensures Read16(TypeField(tags), 0) == FirstType(tags)
    ensures tags != [] ==> Read16(TypeField(tags), 4) == Read16(TypeField(tags[1..]), 0)
  {
    if tags != [] {
      assert WellFormedTag(tags[0]);
      ReadParts(Write16(tags[0].tpid), tags[0].tci, TypeField(tags[1..]));
    }
    hide Read16, Write16;
  }

  lemma ReadParts(a: seq<Byte>, b: seq<Byte>, c: seq<Byte>)
    requires |a| == |b| == 2 && |c| >= 2
    ensures Read16(a + b + c, 0) == Read16(a, 0) && Read16(a + b + c, 4) == Read16(c, 0)
  {}

  lemma TypeBytes(macs: seq<Byte>, tags: seq<Tag>, rest: seq<Byte>)
    requires |macs| == 12 && forall i :: 0 <= i < |tags| ==> WellFormedTag(tags[i])
    ensures var frame := macs + TypeField(tags) + rest;
      && Read16(frame, 12) == FirstType(tags)
      && (tags != [] ==> Read16(frame, 16) == FirstType(tags[1..]))
  {
    TypeFieldStart(tags);
    if tags != [] { TypeFieldStart(tags[1..]); }
    hide TypeField, FirstType, Read16;
  }

  // The older program on the same packets: it drops behind no tag, or behind a
  // single tag of a type it knows.
  lemma OldDropMeaning(macs: seq<Byte>, tags: seq<Tag>, p: IpPacket, banned: set<Key>)
    requires |macs| == 12 && WellFormedPacket(p) && forall i :: 0 <= i < |tags| ==> WellFormedTag(tags[i])
    ensures OldOutcome(Build(macs, tags, p), banned) ==
      if (tags == [] || (|tags| == 1 && tags[0].tpid in OLD_TAGS)) && KeyOf(p.source) in banned &&
         !(p.protocol == IPPROTO_TCP && |p.payload| >= 4 && p.payload[2] == 0 && p.payload[3] == SSH_PORT)
      then Dropped(KeyOf(p.source)) else Passed
  {
    var frame := Build(macs, tags, p);
    TypeBytes(macs, tags, Header(p) + p.payload);
    LocatesPacket(macs, tags, p);
    HeaderFields(macs + TypeField(tags), p);
    if tags != [] { assert WellFormedTag(tags[0]); }
    if |tags| > 1 { assert WellFormedTag(tags[1]); }
    assert |frame| >= ETH_HEADER + VLAN_HEADER;
    assert ExtraTags(frame) <==> |tags| >= 2 || (|tags| == 1 && tags[0].tpid !in OLD_TAGS);
    hide Build, Header, TypeField, SkipTags;
  }

  // Two tags, or one of type 0x9100, hide a banned source from the older program.
  lemma ExtraTagsDiffer(macs: seq<Byte>, tags: seq<Tag>, p: IpPacket)
    requires |macs| == 12 && WellFormedPacket(p) && forall i :: 0 <= i < |tags| ==> WellFormedTag(tags[i])
    requires |tags| == 2 || (|tags| == 1 && tags[0].tpid == 0x9100)
    requires p.protocol != IPPROTO_TCP
    ensures var key := KeyOf(p.source);
      && NewOutcome(Build(macs, tags, p), {key}) == Dropped(key)
      && OldOutcome(Build(macs, tags, p), {key}) == Passed
  {
    DropMeaning(macs, tags, p, {KeyOf(p.source)});
    OldDropMeaning(macs, tags, p, {KeyOf(p.source)});
  }

  // With a header length of 0 the older program takes the total length field
  // for the destination port.
  function HeaderlessFrame(source: Address): Frame {
    seq(12, _ => 0) + Write16(ETH_P_IP) + [0x40, 0, 0, 22, 0, 0, 0, 0, 64, 6, 0, 0] + source + [0, 0, 0, 0]
  }

  lemma ShortHeaderDiffers(source: Address)
    ensures NewOutcome(HeaderlessFrame(source), {KeyOf(source)}) == Dropped(KeyOf(source))
    ensures OldOutcome(HeaderlessFrame(source), {KeyOf(source)}) == Passed
  {
    var frame := HeaderlessFrame(source);
    assert |frame| == 34 && Read16(frame, 12) == ETH_P_IP;
    assert IpOffset(frame, 2, TAGS) == Found(14, ETH_P_IP);
    assert HeaderWords(frame, 14) == 0;
    assert SourceOf(frame, 14) == source;
    assert Read8(frame, 14 + 9) == IPPROTO_TCP && Read16(frame, 16) == SSH_PORT;
    VerdictsDifferIff(frame, {KeyOf(source)});
  }
}
