/** The TCP checksum of `tcp_checksum`: the internet checksum over the
    12-byte pseudo-header, the TCP header and the payload (section 3.1 of
    RFC 793). */
module PseudoChecksum {
  import opened Bytes
  import opened Checksum
  import opened Headers

  const PseudoHeaderSize: nat := 12
  /** The largest payload an IPv4 datagram with fixed 20-byte IP and TCP
      headers can carry (65535 - 20 - 20). */
  const MaxPayload: nat := 65495

  /** `struct pseudo_header` as it lies in memory: the two addresses copied
      from the IP header (already in network order), a zero byte, the
      protocol number, and the TCP length through `htons`, which keeps only
      its low 16 bits. */
  function PseudoHeader(saddr: uint32, daddr: uint32, tcpLength: nat): (p: seq<byte>)
    ensures |p| == PseudoHeaderSize
  {
    Be32(saddr) + Be32(daddr) + [0, ProtoTcp] + Be16(tcpLength % 0x1_0000)
  }

  /** The pseudo-header read back field by field: source address at bytes
      0-3, destination address at 4-7, the zero byte, protocol 6, and the
      TCP length modulo 2^16 at bytes 10-11, all in network order. */
  lemma PseudoHeaderLayout(saddr: uint32, daddr: uint32, tcpLength: nat)
    ensures var p := PseudoHeader(saddr, daddr, tcpLength);
      && Get32(p, 0) == saddr && Get32(p, 4) == daddr
      && p[8] == 0 && p[9] == ProtoTcp
      && Get16(p, 10) == tcpLength % 0x1_0000
  {
    var p := PseudoHeader(saddr, daddr, tcpLength);
    var tail := Be32(daddr) + [0, ProtoTcp] + Be16(tcpLength % 0x1_0000);
    assert p == [] + Be32(saddr) + tail;
    Get32OfBe32(saddr, [], tail);
    assert p == Be32(saddr) + Be32(daddr) + ([0, ProtoTcp] + Be16(tcpLength % 0x1_0000));
    Get32OfBe32(daddr, Be32(saddr), [0, ProtoTcp] + Be16(tcpLength % 0x1_0000));
    assert p == (Be32(saddr) + Be32(daddr) + [0, ProtoTcp]) + Be16(tcpLength % 0x1_0000) + [];
    Get16OfBe16(tcpLength % 0x1_0000, Be32(saddr) + Be32(daddr) + [0, ProtoTcp], []);
  }

  /** The `pseudogram` buffer: pseudo-header, TCP header, payload. */
  function Pseudogram(ip: IPv4Header, tcp: TcpHeader, payload: seq<byte>): (g: seq<byte>)
    ensures |g| == PseudoHeaderSize + TcpHeaderSize + |payload|
  {
    PseudoHeader(ip.saddr, ip.daddr, TcpHeaderSize + |payload|) + EncodeTcp(tcp) + payload
  }

  /** `tcp_checksum(iph, tcph, payload, payload_len)` as written: the
      checksum of `psize / 2` words of the pseudogram, so an odd final
      payload byte is never summed. */
  function TcpChecksum(ip: IPv4Header, tcp: TcpHeader, payload: seq<byte>): (r: uint16)
    ensures |payload| <= MaxPayload ==>
      r == M - OnesSum(WordsBE(Pseudogram(ip, tcp, payload), (PseudoHeaderSize + TcpHeaderSize + |payload|) / 2))
  {
    var g := Pseudogram(ip, tcp, payload);
    CalculateChecksum(WordsBE(g, |g| / 2))
  }

  /** The checksum section 3.1 of RFC 793 asks for: an odd final octet is
      padded on the right with a zero octet and summed. */
  function TcpChecksumPadded(ip: IPv4Header, tcp: TcpHeader, payload: seq<byte>): (r: uint16)
    ensures |payload| <= MaxPayload ==>
      r == M - OnesSum(WordsBE(Pad(Pseudogram(ip, tcp, payload)), (PseudoHeaderSize + TcpHeaderSize + |payload| + 1) / 2))
  {
    var n := PseudoHeaderSize + TcpHeaderSize + |payload|;
    var g := Pad(Pseudogram(ip, tcp, payload));
    assert |g| / 2 == (n + 1) / 2 by {
      if n % 2 == 1 { assert |g| == n + 1; } else { assert |g| == n; }
    }
    CalculateChecksum(WordsBE(g, |g| / 2))
  }

  function Pad(g: seq<byte>): (p: seq<byte>)
    ensures |p| % 2 == 0 && |g| <= |p| <= |g| + 1 && p[..|g|] == g
    ensures forall i :: |g| <= i < |p| ==> p[i] == 0
  {
    if |g| % 2 == 1 then g + [0] else g
  }

  /** Only the source and destination addresses of the IP header enter the
      TCP checksum; its own checksum, id, ttl and every other field do not. */
  lemma TcpChecksumIgnoresOtherIpFields(ip1: IPv4Header, ip2: IPv4Header, tcp: TcpHeader, payload: seq<byte>)
    requires ip1.saddr == ip2.saddr && ip1.daddr == ip2.daddr
    ensures TcpChecksum(ip1, tcp, payload) == TcpChecksum(ip2, tcp, payload)
    ensures TcpChecksumPadded(ip1, tcp, payload) == TcpChecksumPadded(ip2, tcp, payload)
  {
  }

  /** Storing a checksum in the TCP header rewrites pseudogram bytes 28-29. */
  lemma PseudogramCheck(ip: IPv4Header, tcp: TcpHeader, payload: seq<byte>, c: uint16)
    ensures Get16(Pseudogram(ip, tcp, payload), 28) == tcp.check
    ensures Pseudogram(ip, tcp.(check := c), payload)
         == Pseudogram(ip, tcp, payload)[28 := c / 0x100][29 := c % 0x100]
  {
    TcpCheckBytes(tcp, c);
    var g := Pseudogram(ip, tcp, payload);
    var ph := PseudoHeader(ip.saddr, ip.daddr, TcpHeaderSize + |payload|);
    assert g[28] == EncodeTcp(tcp)[16] && g[29] == EncodeTcp(tcp)[17];
  }

  /** The TCP checksum verifies: computed with the checksum field zero,
      stored there, and recomputed over the same pseudo-header, header and
      payload, it gives 0. */
  lemma TcpChecksumVerifies(ip: IPv4Header, tcp: TcpHeader, payload: seq<byte>)
    requires tcp.check == 0 && |payload| <= MaxPayload
    ensures TcpChecksum(ip, tcp.(check := TcpChecksum(ip, tcp, payload)), payload) == 0
  {
    var c := TcpChecksum(ip, tcp, payload);
    var g := Pseudogram(ip, tcp, payload);
    var n := |g| / 2;
    PseudogramCheck(ip, tcp, payload, c);
    WordsBEUpdate(g, n, 14, c);
    ChecksumVerifies(WordsBE(g, n), 14);
  }

  /** The padded TCP checksum verifies in the same way. */
  lemma TcpChecksumPaddedVerifies(ip: IPv4Header, tcp: TcpHeader, payload: seq<byte>)
    requires tcp.check == 0 && |payload| <= MaxPayload
    ensures TcpChecksumPadded(ip, tcp.(check := TcpChecksumPadded(ip, tcp, payload)), payload) == 0
  {
    var c := TcpChecksumPadded(ip, tcp, payload);
    var g := Pseudogram(ip, tcp, payload);
    var n := |Pad(g)| / 2;
    PseudogramCheck(ip, tcp, payload, c);
    assert Pad(g[28 := c / 0x100][29 := c % 0x100]) == Pad(g)[28 := c / 0x100][29 := c % 0x100];
    WordsBEUpdate(Pad(g), n, 14, c);
    ChecksumVerifies(WordsBE(Pad(g), n), 14);
  }

  /** With an even-length payload nothing needs padding and the two
      checksums agree; in particular for the empty payload of a SYN. */
  lemma TcpChecksumPaddedAgrees(ip: IPv4Header, tcp: TcpHeader, payload: seq<byte>)
    requires |payload| % 2 == 0
    ensures TcpChecksumPadded(ip, tcp, payload) == TcpChecksum(ip, tcp, payload)
  {
  }

  /** As written, the final byte of an odd-length payload is not checksummed:
      two segments differing only there (payloads [0x01] and [0x02], say)
      get the same checksum. */
  lemma TcpChecksumIgnoresOddFinalByte(ip: IPv4Header, tcp: TcpHeader, payload: seq<byte>, a: byte, b: byte)
    requires |payload| % 2 == 0
    ensures TcpChecksum(ip, tcp, payload + [a]) == TcpChecksum(ip, tcp, payload + [b])
  {
    var ga := Pseudogram(ip, tcp, payload + [a]);
    var gb := Pseudogram(ip, tcp, payload + [b]);
    var n := |ga| / 2;
    var common := PseudoHeader(ip.saddr, ip.daddr, TcpHeaderSize + |payload| + 1) + EncodeTcp(tcp) + payload;
    assert ga == common + [a] && gb == common + [b];
    assert ga[..2 * n] == common == gb[..2 * n];
    WordsBEPrefix(ga, gb, n);
  }

  /** The padded checksum covers every payload byte: changing any one of
      them changes the checksum. */
  lemma TcpChecksumPaddedDetectsPayloadChange(ip: IPv4Header, tcp: TcpHeader, payload: seq<byte>, i: nat, b: byte)
    requires i < |payload| && b != payload[i] && |payload| <= MaxPayload
    ensures TcpChecksumPadded(ip, tcp, payload[i := b]) != TcpChecksumPadded(ip, tcp, payload)
  {
    var p := Pseudogram(ip, tcp, payload);
    var g := Pad(p);
    var j := PseudoHeaderSize + TcpHeaderSize + i;
    var h := PseudoHeader(ip.saddr, ip.daddr, TcpHeaderSize + |payload|) + EncodeTcp(tcp);
    assert p == h + payload;
    assert Pseudogram(ip, tcp, payload[i := b]) == h + payload[i := b] == p[j := b];
    assert Pad(p[j := b]) == g[j := b];
    ChecksumDetectsByteChange(g, j, b);
  }
}
