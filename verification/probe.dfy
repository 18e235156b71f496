/** The probe driver: the SYN segment `send_syn_packet` builds, the
    per-packet classification of `receive_packets`, and that loop run over a
    finite trace of receive events. */
module Probe {
  import opened Bytes
  import opened Checksum
  import opened Headers
  import opened PseudoChecksum

  const SynTtl: byte := 64
  const SynWindow: uint16 := 5840
  /** IP plus TCP header, no payload: the `tot_len` of the probe. */
  const SynLength: uint16 := 40

  /** Only SYN set. */
  const SynOnly: TcpFlags := TcpFlags(false, true, false, false, false, false, 0)

  // ---------------------------------------------------------------------
  // Outbound: the SYN probe
  // ---------------------------------------------------------------------

  /** What `sendto` is handed: the first `sendLength` bytes of the datagram
      buffer, addressed to `destAddr`:`destPort`. */
  datatype Outbound = Outbound(datagram: seq<byte>, sendLength: nat, destAddr: uint32, destPort: uint16)

  /** The IP header as filled in before its checksum is computed; `idRand`
      is the value `rand()` returned, reduced modulo 65535 as the source
      does. */
  function SynIpHeader(saddr: uint32, daddr: uint32, idRand: nat): IPv4Header
  {
    IPv4Header(
      version := 4, ihl := 5, tos := 0, totalLength := SynLength,
      id := idRand % 0xFFFF, fragOff := 0, ttl := SynTtl, protocol := ProtoTcp,
      check := 0, saddr := saddr, daddr := daddr)
  }

  /** The TCP header as filled in before its checksum is computed. */
  function SynTcpHeader(srcPort: uint16, dstPort: uint16, seqRand: uint32): TcpHeader
  {
    TcpHeader(
      srcPort := srcPort, dstPort := dstPort, seqNum := seqRand, ackSeq := 0,
      dataOffset := 5, reserved := 0, flags := SynOnly, window := SynWindow,
      check := 0, urgPtr := 0)
  }

  /** The IP header checksum: over the 10 words of the encoded header. */
  function IpChecksum(h: IPv4Header): (r: uint16)
    ensures r == M - OnesSum(WordsBE(EncodeIpv4(h), 10))
  {
    CalculateChecksum(WordsBE(EncodeIpv4(h), 10))
  }

  /** The datagram of `send_syn_packet`. The IP checksum is computed with its
      field zero and then stored; the TCP checksum likewise, over the
      pseudo-header of the finished IP header and an empty payload. The
      length handed to `sendto` is the header's own total length, and the
      destination is the header's destination address and port. */
  function EncodeSyn(saddr: uint32, daddr: uint32, srcPort: uint16, dstPort: uint16,
                     idRand: nat, seqRand: uint32): (out: Outbound)
    ensures |out.datagram| == IpHeaderSize + TcpHeaderSize == out.sendLength
    ensures out.destAddr == daddr && out.destPort == dstPort
  {
    var ip0 := SynIpHeader(saddr, daddr, idRand);
    var ip := ip0.(check := IpChecksum(ip0));
    var tcp0 := SynTcpHeader(srcPort, dstPort, seqRand);
    var tcp := tcp0.(check := TcpChecksum(ip, tcp0, []));
    Outbound(EncodeIpv4(ip) + EncodeTcp(tcp), ip.totalLength, ip.daddr, tcp.dstPort)
  }

  /** The two headers inside an encoded SYN. */
  lemma SynHeaders(saddr: uint32, daddr: uint32, srcPort: uint16, dstPort: uint16, idRand: nat, seqRand: uint32)
    ensures var ip0 := SynIpHeader(saddr, daddr, idRand);
      var ip := ip0.(check := IpChecksum(ip0));
      var tcp0 := SynTcpHeader(srcPort, dstPort, seqRand);
      var tcp := tcp0.(check := TcpChecksum(ip, tcp0, []));
      EncodeSyn(saddr, daddr, srcPort, dstPort, idRand, seqRand).datagram == EncodeIpv4(ip) + EncodeTcp(tcp)
  {
  }

  /** The wire image of the probe: the fixed bytes of both headers, and the
      `ntohs`/`ntohl` reads of the receive side recover every field that was
      written, ports and sequence number included. */
  lemma SynWireFormat(saddr: uint32, daddr: uint32, srcPort: uint16, dstPort: uint16, idRand: nat, seqRand: uint32)
    ensures var out := EncodeSyn(saddr, daddr, srcPort, dstPort, idRand, seqRand);
      var d := out.datagram;
      && d[0] == 0x45 && d[32] == 0x50 && d[33] == 0x02
      && DecodeIpv4(d).Decoded? && DecodeTcp(d, IpHeaderSize).Decoded?
      && var ip := DecodeIpv4(d).value;
      && ip.version == 4 && ip.ihl == 5 && ip.tos == 0
      && ip.totalLength == out.sendLength == 40
      && ip.id == idRand % 0xFFFF && ip.id < 0xFFFF
      && ip.fragOff == 0 && ip.ttl == 64 && ip.protocol == ProtoTcp
      && ip.saddr == saddr && ip.daddr == daddr
      && var tcp := DecodeTcp(d, IpHeaderSize).value;
      && tcp.srcPort == srcPort && tcp.dstPort == dstPort
      && tcp.seqNum == seqRand && tcp.ackSeq == 0
      && tcp.dataOffset == 5 && tcp.flags == SynOnly
      && tcp.window == 5840 && tcp.urgPtr == 0
  {
    var ip0 := SynIpHeader(saddr, daddr, idRand);
    var ip := ip0.(check := IpChecksum(ip0));
    var tcp0 := SynTcpHeader(srcPort, dstPort, seqRand);
    var tcp := tcp0.(check := TcpChecksum(ip, tcp0, []));
    SynHeaders(saddr, daddr, srcPort, dstPort, idRand, seqRand);
    var ei, et := EncodeIpv4(ip), EncodeTcp(tcp);
    var d := ei + et;
    Ipv4RoundTrip(ip, et);
    TcpRoundTrip(tcp, ei, []);
    assert ei + et + [] == d;
    assert d[0] == ei[0] && d[32] == et[12] && d[33] == et[13];
  }

  /** The IP header of the probe carries a valid checksum: the checksum of
      its 10 words as sent is 0. */
  lemma SynIpChecksumVerifies(saddr: uint32, daddr: uint32, srcPort: uint16, dstPort: uint16, idRand: nat, seqRand: uint32)
    ensures var d := EncodeSyn(saddr, daddr, srcPort, dstPort, idRand, seqRand).datagram;
      CalculateChecksum(WordsBE(d[..IpHeaderSize], 10)) == 0
  {
    var ip0 := SynIpHeader(saddr, daddr, idRand);
    var c := IpChecksum(ip0);
    var ip := ip0.(check := c);
    SynHeaders(saddr, daddr, srcPort, dstPort, idRand, seqRand);
    var d := EncodeSyn(saddr, daddr, srcPort, dstPort, idRand, seqRand).datagram;
    assert d[..IpHeaderSize] == EncodeIpv4(ip);
    var e := EncodeIpv4(ip0);
    Ipv4CheckBytes(ip0, c);
    WordsBEUpdate(e, 10, 5, c);
    ChecksumVerifies(WordsBE(e, 10), 5);
  }

  /** The TCP header of the probe carries a valid checksum: over the
      pseudo-header for its addresses and a 20-byte segment, followed by the
      TCP header as sent, the checksum is 0. */
  lemma SynTcpChecksumVerifies(saddr: uint32, daddr: uint32, srcPort: uint16, dstPort: uint16, idRand: nat, seqRand: uint32)
    ensures var d := EncodeSyn(saddr, daddr, srcPort, dstPort, idRand, seqRand).datagram;
      var g := PseudoHeader(saddr, daddr, TcpHeaderSize) + d[IpHeaderSize..];
      |g| == 32 && CalculateChecksum(WordsBE(g, 16)) == 0
  {
    var ip0 := SynIpHeader(saddr, daddr, idRand);
    var ip := ip0.(check := IpChecksum(ip0));
    var tcp0 := SynTcpHeader(srcPort, dstPort, seqRand);
    var tcp := tcp0.(check := TcpChecksum(ip, tcp0, []));
    SynHeaders(saddr, daddr, srcPort, dstPort, idRand, seqRand);
    var d := EncodeSyn(saddr, daddr, srcPort, dstPort, idRand, seqRand).datagram;
    assert d[IpHeaderSize..] == EncodeTcp(tcp);
    SegmentChecksumVerifies(ip, tcp0);
  }

  /** A header-only segment checksummed as the probe's is: the pseudo-header
      for 20 bytes, then the TCP header with its checksum stored, sums to a
      checksum of 0. */
  lemma SegmentChecksumVerifies(ip: IPv4Header, tcp0: TcpHeader)
    requires tcp0.check == 0
    ensures var tcp := tcp0.(check := TcpChecksum(ip, tcp0, []));
      CalculateChecksum(WordsBE(PseudoHeader(ip.saddr, ip.daddr, TcpHeaderSize) + EncodeTcp(tcp), 16)) == 0
  {
    var tcp := tcp0.(check := TcpChecksum(ip, tcp0, []));
    TcpChecksumVerifies(ip, tcp0, []);
    assert Pseudogram(ip, tcp, []) == PseudoHeader(ip.saddr, ip.daddr, TcpHeaderSize) + EncodeTcp(tcp);
  }

  // ---------------------------------------------------------------------
  // Inbound: classification of one received packet
  // ---------------------------------------------------------------------

  datatype Option<T> = None | Some(value: T)

  /** What the receive loop reports about one TCP packet. `Unreadable` marks
      a packet shorter than the reads the source makes of it: there the
      source reads bytes it did not receive, either unspecified stack
      contents (its receive buffer is never initialised) or bytes of an
      earlier packet, and the model does not guess them. */
  datatype Report =
    | SynAck(ip: IPv4Header, tcp: TcpHeader)
    | OtherSegment(ip: IPv4Header, tcp: TcpHeader)
    | Unreadable(size: nat)

  /** Offset of the TCP header: `iph->ihl * 4`, taken from the low nibble of
      byte 0 whatever it is. */
  function TcpOffset(buf: seq<byte>): (off: nat)
    requires |buf| > 0
    ensures off <= 60 && off % 4 == 0
    ensures |buf| >= IpHeaderSize ==> off == Ipv4At(buf).ihl * 4
  {
    (buf[0] % 0x10) * 4
  }

  predicate IsSynAck(tcp: TcpHeader)
  {
    tcp.flags.syn && tcp.flags.ack
  }

  /** One iteration of the `receive_packets` loop on the `data_size` bytes
      received: no report for a packet whose protocol byte is not TCP;
      otherwise the TCP header is read at `ihl * 4` and the packet is a
      SYN-ACK exactly when its SYN and ACK bits are both set. */
  function Classify(buf: seq<byte>): (r: Option<Report>)
    ensures r.None? <==> |buf| > 9 && buf[9] != ProtoTcp
    ensures r == Some(Unreadable(|buf|))
        <==> |buf| <= 9 || (buf[9] == ProtoTcp && |buf| < TcpOffset(buf) + TcpHeaderSize)
    ensures r.Some? && r.value.SynAck?
        <==> && |buf| > 9 && buf[9] == ProtoTcp
             && TcpOffset(buf) + TcpHeaderSize <= |buf|
             && (buf[TcpOffset(buf) + 13] / 2) % 2 == 1
             && (buf[TcpOffset(buf) + 13] / 16) % 2 == 1
    ensures r.Some? && !r.value.Unreadable? ==>
      && TcpOffset(buf) + TcpHeaderSize <= |buf|
      && DecodeIpv4(buf) == Decoded(r.value.ip)
      && DecodeTcp(buf, TcpOffset(buf)) == Decoded(r.value.tcp)
  {
    if |buf| <= 9 then Some(Unreadable(|buf|))
    else if buf[9] != ProtoTcp then None
    else match DecodeTcp(buf, TcpOffset(buf))
      case Truncated(_, _) => Some(Unreadable(|buf|))
      case Decoded(tcp) =>
        var ip := Ipv4At(buf);
        Some(if IsSynAck(tcp) then SynAck(ip, tcp) else OtherSegment(ip, tcp))
  }

  /** A well-formed packet built by the encoders is classified by its flags
      alone: a SYN-ACK when it carries SYN and ACK, another segment
      otherwise. */
  lemma ClassifyEncoded(ip: IPv4Header, tcp: TcpHeader, payload: seq<byte>)
    requires ip.ihl == 5 && ip.protocol == ProtoTcp
    ensures Classify(EncodeIpv4(ip) + EncodeTcp(tcp) + payload)
         == Some(if IsSynAck(tcp) then SynAck(ip, tcp) else OtherSegment(ip, tcp))
  {
    var buf := EncodeIpv4(ip) + EncodeTcp(tcp) + payload;
    Ipv4RoundTrip(ip, EncodeTcp(tcp) + payload);
    assert EncodeIpv4(ip) + (EncodeTcp(tcp) + payload) == buf;
    assert TcpOffset(buf) == IpHeaderSize;
    TcpRoundTrip(tcp, EncodeIpv4(ip), payload);
  }

  /** A packet of another protocol is ignored, whatever its contents. */
  lemma ClassifyOtherProtocol(ip: IPv4Header, rest: seq<byte>)
    requires ip.protocol != ProtoTcp
    ensures Classify(EncodeIpv4(ip) + rest) == None
  {
    Ipv4RoundTrip(ip, rest);
  }

  /** The probe itself, seen by the receive loop (raw sockets also deliver
      outgoing traffic on some systems), is not taken for a SYN-ACK. */
  lemma SynIsNotSynAck(saddr: uint32, daddr: uint32, srcPort: uint16, dstPort: uint16, idRand: nat, seqRand: uint32)
    ensures var d := EncodeSyn(saddr, daddr, srcPort, dstPort, idRand, seqRand).datagram;
      Classify(d).Some? && Classify(d).value.OtherSegment?
  {
    var ip0 := SynIpHeader(saddr, daddr, idRand);
    var ip := ip0.(check := IpChecksum(ip0));
    var tcp0 := SynTcpHeader(srcPort, dstPort, seqRand);
    var tcp := tcp0.(check := TcpChecksum(ip, tcp0, []));
    SynHeaders(saddr, daddr, srcPort, dstPort, idRand, seqRand);
    ClassifyEncoded(ip, tcp, []);
    assert EncodeIpv4(ip) + EncodeTcp(tcp) + [] == EncodeIpv4(ip) + EncodeTcp(tcp);
  }

  // ---------------------------------------------------------------------
  // Inbound: the receive loop over a finite trace
  // ---------------------------------------------------------------------

  /** One `recvfrom`: the bytes received, or a failure (`data_size < 0`).
      The 4096-byte bound of the receive buffer is not enforced here. */
  datatype Event = Packet(bytes: seq<byte>) | RecvError

  /** Where the loop stands when the trace ends: returned -1 after a
      receive failure, or still blocked waiting for the next packet. Either
      way, with the reports made so far. */
  datatype Outcome = Failed(reports: seq<Report>) | Listening(reports: seq<Report>)

  function Prepend(rs: seq<Report>, o: Outcome): (r: Outcome)
    ensures r.Failed? == o.Failed? && r.reports == rs + o.reports
  {
    match o
    case Failed(tail) => Failed(rs + tail)
    case Listening(tail) => Listening(rs + tail)
  }

  function ReportOf(bytes: seq<byte>): seq<Report>
  {
    match Classify(bytes)
    case None => []
    case Some(r) => [r]
  }

  predicate NoError(events: seq<Event>)
  {
    forall i :: 0 <= i < |events| ==> events[i].Packet?
  }

  /** The `while (1)` loop of `receive_packets` over a finite trace: every
      packet is classified and the loop goes on, a SYN-ACK included; only a
      receive failure ends it. */
  function Listen(events: seq<Event>): (r: Outcome)
    ensures |r.reports| <= |events|
  {
    if |events| == 0 then Listening([])
    else match events[0]
      case RecvError => Failed([])
      case Packet(b) => Prepend(ReportOf(b), Listen(events[1..]))
  }

  /** The loop ends, returning -1, exactly when the trace holds a receive
      failure. */
  lemma {:induction false} ListenFailsIffError(events: seq<Event>)
    ensures Listen(events).Failed? <==> !NoError(events)
  {
    if |events| > 0 {
      ListenFailsIffError(events[1..]);
      if events[0].Packet? && !NoError(events) {
        var i :| 0 <= i < |events| && events[i].RecvError?;
        assert events[1..][i - 1] == events[i];
      }
    }
  }

  /** Feeding the loop one trace after another: as long as the first has no
      failure, its reports come first and the second decides the rest. */
  lemma {:induction false} ListenAppend(pre: seq<Event>, post: seq<Event>)
    requires NoError(pre)
    ensures Listen(pre + post) == Prepend(Listen(pre).reports, Listen(post))
  {
    if |pre| == 0 {
      assert pre + post == post;
    } else {
      var rs := ReportOf(pre[0].bytes);
      assert (pre + post)[0] == pre[0];
      assert (pre + post)[1..] == pre[1..] + post;
      assert NoError(pre[1..]);
      ListenAppend(pre[1..], post);
      assert Listen(pre + post) == Prepend(rs, Listen(pre[1..] + post));
      assert Listen(pre) == Prepend(rs, Listen(pre[1..]));
      PrependPrepend(rs, Listen(pre[1..]).reports, Listen(post));
    }
  }

  lemma PrependPrepend(a: seq<Report>, c: seq<Report>, o: Outcome)
    ensures Prepend(a, Prepend(c, o)) == Prepend(a + c, o)
  {
    assert a + (c + o.reports) == (a + c) + o.reports;
  }

  /** A SYN-ACK does not stop the loop: the packets after it are still
      received and classified. */
  lemma ListenContinuesAfterSynAck(pre: seq<Event>, b: seq<byte>, post: seq<Event>)
    requires NoError(pre)
    requires Classify(b).Some? && Classify(b).value.SynAck?
    ensures Listen(pre + [Packet(b)] + post)
         == Prepend(Listen(pre).reports + [Classify(b).value], Listen(post))
  {
    var rest := [Packet(b)] + post;
    ListenAppend(pre, rest);
    assert pre + [Packet(b)] + post == pre + rest;
    assert rest[1..] == post;
    assert ReportOf(b) == [Classify(b).value];
    assert Listen(rest) == Prepend([Classify(b).value], Listen(post));
    PrependPrepend(Listen(pre).reports, [Classify(b).value], Listen(post));
  }

  /** Nothing after the first receive failure is looked at. */
  lemma ListenStopsAtError(pre: seq<Event>, post: seq<Event>)
    requires NoError(pre)
    ensures Listen(pre + [RecvError] + post) == Failed(Listen(pre).reports)
  {
    ListenAppend(pre, [RecvError] + post);
    assert pre + [RecvError] + post == pre + ([RecvError] + post);
  }

  /** One turn of the loop on a packet event: the packet's report joins the
      ones already made, and the rest of the trace decides the rest. */
  lemma ListenStep(events: seq<Event>, i: nat, reports: seq<Report>)
    requires i < |events| && events[i].Packet?
    requires NoError(events[..i])
    requires Listen(events) == Prepend(reports, Listen(events[i..]))
    ensures NoError(events[..i + 1])
    ensures Listen(events) == Prepend(reports + ReportOf(events[i].bytes), Listen(events[i + 1..]))
  {
    assert events[i..][0] == events[i];
    assert events[i..][1..] == events[i + 1..];
    PrependPrepend(reports, ReportOf(events[i].bytes), Listen(events[i + 1..]));
    assert events[..i + 1] == events[..i] + [events[i]];
  }

  /** Every decoded report in `rs` is of an IP protocol 6 packet. */
  predicate AllTcp(rs: seq<Report>)
  {
    forall r :: r in rs && !r.Unreadable? ==> r.ip.protocol == ProtoTcp
  }

  /** Every decoded report is of a TCP packet. */
  lemma ReportOfIsTcp(bytes: seq<byte>)
    ensures AllTcp(ReportOf(bytes))
  {
  }

  /** Every decoded report the loop produces is of a TCP packet: packets of
      other protocols are skipped without a report. */
  lemma {:induction false} ListenReportsTcp(events: seq<Event>)
    ensures AllTcp(Listen(events).reports)
  {
    if |events| > 0 && events[0].Packet? {
      ReportOfIsTcp(events[0].bytes);
      ListenReportsTcp(events[1..]);
    }
  }

  /** `receive_packets` run over a trace, as a loop. `returned` says whether
      the function returned (with `code`) before the trace ran out. */
  method ReceivePackets(events: seq<Event>) returns (returned: bool, code: int, reports: seq<Report>)
    ensures returned <==> !NoError(events)
    ensures returned ==> code == -1
    ensures reports == Listen(events).reports
    ensures AllTcp(reports)
  {
    ListenFailsIffError(events);
    reports := [];
    var i := 0;
    while i < |events|
      invariant 0 <= i <= |events|
      invariant NoError(events[..i])
      invariant Listen(events) == Prepend(reports, Listen(events[i..]))
    {
      if events[i].RecvError? {
        assert events[i..][0] == events[i];
        ListenReportsTcp(events);
        return true, -1, reports;
      }
      ListenStep(events, i, reports);
      reports := reports + ReportOf(events[i].bytes);
      i := i + 1;
    }
    assert events[..i] == events;
    ListenReportsTcp(events);
    return false, 0, reports;
  }

  /** How `main` ends once the arguments are accepted: 1 when
      `send_syn_packet` failed (creating the raw socket, setting
      `IP_HDRINCL`, or sending); after a receive failure 0, since the -1 of
      `receive_packets` is not looked at; otherwise it is still listening. */
  datatype Exit = ExitCode(code: int) | StillListening

  function RunProbe(sent: bool, events: seq<Event>): (r: Exit)
    ensures r == ExitCode(1) <==> !sent
    ensures r == ExitCode(0) <==> sent && !NoError(events)
    ensures r == StillListening <==> sent && NoError(events)
  {
    ListenFailsIffError(events);
    if !sent then ExitCode(1)
    else match Listen(events)
      case Failed(_) => ExitCode(0)
      case Listening(_) => StillListening
  }
}
