/** The fixed 20-byte IPv4 header (section 3.1 of RFC 791) and the fixed
    20-byte TCP header (section 3.1 of RFC 793), as the stack's
    `struct iphdr` and `struct tcphdr` lay them out on the wire: explicit
    encoders and decoders with documented offsets, every multi-byte field in
    network byte order. */
module Headers {
  import opened Bytes

  const IpHeaderSize: nat := 20
  const TcpHeaderSize: nat := 20
  /** `IPPROTO_TCP`. */
  const ProtoTcp: byte := 6

  /** `struct iphdr`. `fragOff` is the whole 16-bit word holding the three
      flag bits and the fragment offset, as the source's `frag_off` is. */
  datatype IPv4Header = IPv4Header(
    version: uint4,
    ihl: uint4,
    tos: byte,
    totalLength: uint16,
    id: uint16,
    fragOff: uint16,
    ttl: byte,
    protocol: byte,
    check: uint16,
    saddr: uint32,
    daddr: uint32)

  /** The control bits of byte 13 of a TCP header, least significant first:
      FIN, SYN, RST, PSH, ACK, URG, then the two bits glibc's
      `struct tcphdr` calls `res2` (ECE and CWR in later standards). */
  datatype TcpFlags = TcpFlags(
    fin: bool, syn: bool, rst: bool, psh: bool, ack: bool, urg: bool, res2: uint2)

  /** `struct tcphdr`. `reserved` is the low nibble of byte 12, which glibc's
      `struct tcphdr` calls `res1`. */
  datatype TcpHeader = TcpHeader(
    srcPort: uint16,
    dstPort: uint16,
    seqNum: uint32,
    ackSeq: uint32,
    dataOffset: uint4,
    reserved: uint4,
    flags: TcpFlags,
    window: uint16,
    check: uint16,
    urgPtr: uint16)

  /** A decode that needs more bytes than the buffer holds. */
  datatype Decoded<T> = Decoded(value: T) | Truncated(needed: nat, available: nat)

  // ---------------------------------------------------------------------
  // IPv4
  // ---------------------------------------------------------------------

  /** Byte 0 holds the version in its high nibble and the header length in
      32-bit words in its low nibble; bytes 10-11 are the header checksum. */
  function EncodeIpv4(h: IPv4Header): (s: seq<byte>)
    ensures |s| == IpHeaderSize
    ensures s[0] / 0x10 == h.version && s[0] % 0x10 == h.ihl && s[1] == h.tos
    ensures s[8] == h.ttl && s[9] == h.protocol
    ensures Get16(s, 2) == h.totalLength && Get16(s, 4) == h.id && Get16(s, 6) == h.fragOff
    ensures Get16(s, 10) == h.check && Get32(s, 12) == h.saddr && Get32(s, 16) == h.daddr
  {
    [h.version * 0x10 + h.ihl, h.tos]
      + Be16(h.totalLength) + Be16(h.id) + Be16(h.fragOff)
      + [h.ttl, h.protocol]
      + Be16(h.check)
      + Be32(h.saddr) + Be32(h.daddr)
  }

  /** The fixed-offset reads of `print_ipv4_header` over the first 20 bytes
      of `s`; no field is checked for legality. */
  function Ipv4At(s: seq<byte>): IPv4Header
    requires |s| >= IpHeaderSize
  {
    IPv4Header(
      version := s[0] / 0x10,
      ihl := s[0] % 0x10,
      tos := s[1],
      totalLength := Get16(s, 2),
      id := Get16(s, 4),
      fragOff := Get16(s, 6),
      ttl := s[8],
      protocol := s[9],
      check := Get16(s, 10),
      saddr := Get32(s, 12),
      daddr := Get32(s, 16))
  }

  function DecodeIpv4(s: seq<byte>): (r: Decoded<IPv4Header>)
    ensures r.Truncated? <==> |s| < IpHeaderSize
    ensures r.Truncated? ==> r == Truncated(IpHeaderSize, |s|)
  {
    if |s| < IpHeaderSize then Truncated(IpHeaderSize, |s|) else Decoded(Ipv4At(s))
  }

  /** Decoding an encoded header, whatever follows it, gives back every
      field. */
  lemma Ipv4RoundTrip(h: IPv4Header, rest: seq<byte>)
    ensures DecodeIpv4(EncodeIpv4(h) + rest) == Decoded(h)
  {
    var s := EncodeIpv4(h) + rest;
    var e := EncodeIpv4(h);
    assert s[..IpHeaderSize] == e;
    assert s[0] == h.version * 0x10 + h.ihl;
    Get16OfBe16(h.totalLength, e[..2], e[4..] + rest);
    Get16OfBe16(h.id, e[..4], e[6..] + rest);
    Get16OfBe16(h.fragOff, e[..6], e[8..] + rest);
    Get16OfBe16(h.check, e[..10], e[12..] + rest);
    Get32OfBe32(h.saddr, e[..12], e[16..] + rest);
    Get32OfBe32(h.daddr, e[..16], rest);
  }

  /** Every 20 bytes are the encoding of the header decoded from them: the
      decoder loses nothing. */
  lemma Ipv4ReEncode(s: seq<byte>)
    requires |s| >= IpHeaderSize
    ensures EncodeIpv4(Ipv4At(s)) == s[..IpHeaderSize]
  {
    Be16OfGet16(s, 2);
    Be16OfGet16(s, 4);
    Be16OfGet16(s, 6);
    Be16OfGet16(s, 10);
    Be32OfGet32(s, 12);
    Be32OfGet32(s, 16);
  }

  // ---------------------------------------------------------------------
  // TCP
  // ---------------------------------------------------------------------

  function Bit(b: bool): nat
  {
    if b then 1 else 0
  }

  /** Byte 13 of the TCP header, each control bit at its position. */
  function FlagsByte(f: TcpFlags): byte
  {
    Bit(f.fin) + 2 * (Bit(f.syn) + 2 * (Bit(f.rst) + 2 * (Bit(f.psh)
      + 2 * (Bit(f.ack) + 2 * (Bit(f.urg) + 2 * f.res2)))))
  }

  /** The bitfield reads `tcph->fin` ... `tcph->urg` of byte 13: bit k is
      the low bit of the byte halved k times. */
  function FlagsOf(b: byte): (f: TcpFlags)
    ensures f.syn <==> (b / 2) % 2 == 1
    ensures f.ack <==> (b / 16) % 2 == 1
  {
    var b1 := b / 2;
    var b2 := b1 / 2;
    var b3 := b2 / 2;
    var b4 := b3 / 2;
    var b5 := b4 / 2;
    assert b4 == b / 16;
    TcpFlags(
      fin := b % 2 == 1,
      syn := b1 % 2 == 1,
      rst := b2 % 2 == 1,
      psh := b3 % 2 == 1,
      ack := b4 % 2 == 1,
      urg := b5 % 2 == 1,
      res2 := b5 / 2)
  }

  lemma FlagsRoundTrip(f: TcpFlags)
    ensures FlagsOf(FlagsByte(f)) == f
  {
    var r5 := Bit(f.urg) + 2 * f.res2;
    var r4 := Bit(f.ack) + 2 * r5;
    var r3 := Bit(f.psh) + 2 * r4;
    var r2 := Bit(f.rst) + 2 * r3;
    var r1 := Bit(f.syn) + 2 * r2;
    var b := Bit(f.fin) + 2 * r1;
    assert b == FlagsByte(f);
    assert b / 2 == r1 && r1 / 2 == r2 && r2 / 2 == r3 && r3 / 2 == r4 && r4 / 2 == r5;
  }

  lemma FlagsReEncode(b: byte)
    ensures FlagsByte(FlagsOf(b)) == b
  {
    var b1 := b / 2;
    var b2 := b1 / 2;
    var b3 := b2 / 2;
    var b4 := b3 / 2;
    var b5 := b4 / 2;
    var f := FlagsOf(b);
    assert Bit(f.urg) + 2 * f.res2 == b5;
    assert Bit(f.ack) + 2 * b5 == b4;
    assert Bit(f.psh) + 2 * b4 == b3;
    assert Bit(f.rst) + 2 * b3 == b2;
    assert Bit(f.syn) + 2 * b2 == b1;
    assert Bit(f.fin) + 2 * b1 == b;
  }

  /** Byte 12 holds the data offset in 32-bit words in its high nibble;
      bytes 16-17 are the checksum. */
  function EncodeTcp(h: TcpHeader): (s: seq<byte>)
    ensures |s| == TcpHeaderSize
    ensures Get16(s, 0) == h.srcPort && Get16(s, 2) == h.dstPort
    ensures Get32(s, 4) == h.seqNum && Get32(s, 8) == h.ackSeq
    ensures s[12] / 0x10 == h.dataOffset && s[12] % 0x10 == h.reserved && s[13] == FlagsByte(h.flags)
    ensures Get16(s, 14) == h.window && Get16(s, 16) == h.check && Get16(s, 18) == h.urgPtr
  {
    Be16(h.srcPort) + Be16(h.dstPort) + Be32(h.seqNum) + Be32(h.ackSeq)
      + [h.dataOffset * 0x10 + h.reserved, FlagsByte(h.flags)]
      + Be16(h.window) + Be16(h.check) + Be16(h.urgPtr)
  }

  /** The fixed-offset reads of `print_tcp_header` over the 20 bytes at
      offset `off` of `s`. */
  function TcpAt(s: seq<byte>, off: nat): TcpHeader
    requires off + TcpHeaderSize <= |s|
  {
    TcpHeader(
      srcPort := Get16(s, off),
      dstPort := Get16(s, off + 2),
      seqNum := Get32(s, off + 4),
      ackSeq := Get32(s, off + 8),
      dataOffset := s[off + 12] / 0x10,
      reserved := s[off + 12] % 0x10,
      flags := FlagsOf(s[off + 13]),
      window := Get16(s, off + 14),
      check := Get16(s, off + 16),
      urgPtr := Get16(s, off + 18))
  }

  function DecodeTcp(s: seq<byte>, off: nat): (r: Decoded<TcpHeader>)
    ensures r.Truncated? <==> |s| < off + TcpHeaderSize
    ensures r.Truncated? ==> r == Truncated(off + TcpHeaderSize, |s|)
  {
    if |s| < off + TcpHeaderSize then Truncated(off + TcpHeaderSize, |s|)
    else Decoded(TcpAt(s, off))
  }

  /** Decoding an encoded TCP header at the offset it was placed at gives
      back every field. */
  lemma TcpRoundTrip(h: TcpHeader, pre: seq<byte>, rest: seq<byte>)
    ensures DecodeTcp(pre + EncodeTcp(h) + rest, |pre|) == Decoded(h)
  {
    var e := EncodeTcp(h);
    var s := pre + e + rest;
    TcpAtWindow(s, |pre|);
    assert s[|pre|..|pre| + TcpHeaderSize] == e;
    TcpDecodesEncoding(h);
  }

  /** A TCP header read depends only on the 20 bytes it covers. */
  lemma TcpAtWindow(s: seq<byte>, off: nat)
    requires off + TcpHeaderSize <= |s|
    ensures TcpAt(s, off) == TcpAt(s[off..off + TcpHeaderSize], 0)
  {
    var w := s[off..off + TcpHeaderSize];
    assert forall i :: 0 <= i < TcpHeaderSize ==> w[i] == s[off + i];
  }

  lemma TcpDecodesEncoding(h: TcpHeader)
    ensures TcpAt(EncodeTcp(h), 0) == h
  {
    var e := EncodeTcp(h);
    assert e[12] == h.dataOffset * 0x10 + h.reserved;
    assert e[13] == FlagsByte(h.flags);
    FlagsRoundTrip(h.flags);
    Get16OfBe16(h.srcPort, [], e[2..]);
    Get16OfBe16(h.dstPort, e[..2], e[4..]);
    Get32OfBe32(h.seqNum, e[..4], e[8..]);
    Get32OfBe32(h.ackSeq, e[..8], e[12..]);
    Get16OfBe16(h.window, e[..14], e[16..]);
    Get16OfBe16(h.check, e[..16], e[18..]);
    Get16OfBe16(h.urgPtr, e[..18], []);
  }

  /** Every 20 bytes at `off` are the encoding of the TCP header decoded
      from them. */
  lemma TcpReEncode(s: seq<byte>, off: nat)
    requires off + TcpHeaderSize <= |s|
    ensures EncodeTcp(TcpAt(s, off)) == s[off..off + TcpHeaderSize]
  {
    FlagsReEncode(s[off + 13]);
    Be16OfGet16(s, off);
    Be16OfGet16(s, off + 2);
    Be32OfGet32(s, off + 4);
    Be32OfGet32(s, off + 8);
    Be16OfGet16(s, off + 14);
    Be16OfGet16(s, off + 16);
    Be16OfGet16(s, off + 18);
  }

  // ---------------------------------------------------------------------
  // The checksum fields
  // ---------------------------------------------------------------------

  /** Setting the IPv4 checksum field rewrites bytes 10-11, and only them. */
  lemma Ipv4CheckBytes(h: IPv4Header, c: uint16)
    ensures Get16(EncodeIpv4(h), 10) == h.check
    ensures EncodeIpv4(h.(check := c)) == EncodeIpv4(h)[10 := c / 0x100][11 := c % 0x100]
  {
    Ipv4RoundTrip(h, []);
    assert EncodeIpv4(h) + [] == EncodeIpv4(h);
  }

  /** Setting the TCP checksum field rewrites bytes 16-17, and only them. */
  lemma TcpCheckBytes(h: TcpHeader, c: uint16)
    ensures Get16(EncodeTcp(h), 16) == h.check
    ensures EncodeTcp(h.(check := c)) == EncodeTcp(h)[16 := c / 0x100][17 := c % 0x100]
  {
    TcpDecodesEncoding(h);
  }
}
