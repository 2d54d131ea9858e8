// Bytes and 16-bit big-endian numbers, shared by the packet filter and the
// ClientHello parser.
module Bytes {

  type Byte = b: int | 0 <= b < 256
  type U16 = v: int | 0 <= v < 0x1_0000

  function Read16(s: seq<Byte>, i: nat): U16
    requires i + 2 <= |s|
  {
    s[i] as int * 0x100 + s[i + 1] as int
  }

  function Write16(v: U16): (s: seq<Byte>)
    ensures |s| == 2
  {
    [v / 0x100, v % 0x100]
  }

  lemma ReadWritten16(before: seq<Byte>, v: U16, after: seq<Byte>)
    ensures Read16(before + Write16(v) + after, |before|) == v
  {
    var s := before + Write16(v) + after;
    assert s[|before|] == Write16(v)[0] && s[|before| + 1] == Write16(v)[1];
  }

  lemma ReadFirst16(v: U16, after: seq<Byte>)
    ensures Read16(Write16(v) + after, 0) == v
  {}

  lemma Read16Prefix(s: seq<Byte>, after: seq<Byte>, i: nat)
    ensures i + 2 <= |s| ==> Read16(s + after, i) == Read16(s, i)
  {}
}
