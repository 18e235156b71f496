# Simple TCP/IP stack: packet logic

This project models the bit-level core of a small raw-socket TCP/IP stack
written in C (`simple-tcpip-stack.c`). The stack builds one TCP SYN
segment by hand, sends it, and then watches inbound traffic for a SYN-ACK.
The model covers four parts:

- **Checksum engine** (`checksum.dfy`, module `Checksum`): `calculate_checksum`,
  the internet checksum of section 4.1 of RFC 1071. The model keeps the C
  code's own steps: a plain sum, two carry folds, then `~sum` truncated to
  16 bits. It proves this equals the ones' complement of the
  end-around-carry ones'-complement sum, for every word count up to 65536.
- **Header codec** (`bytes.dfy`, `headers.dfy`): the 20-byte IPv4 header
  (section 3.1 of RFC 791) and the 20-byte TCP header (section 3.1 of
  RFC 793). Each has an explicit encoder and a decoder that mirrors the
  `ntohs`/`ntohl` reads of the printing routines. Both round trips are
  proved: decode after encode, and encode after decode.
- **Pseudo-header checksum** (`tcp_checksum.dfy`, module `PseudoChecksum`):
  `tcp_checksum` over the 12-byte `struct pseudo_header`, the TCP header
  and the payload.
- **Probe driver** (`probe.dfy`, module `Probe`): the datagram
  `send_syn_packet` builds, the per-packet classification of
  `receive_packets`, that loop run over a finite trace of receive events,
  and how `main` ends.

Bytes are the subset type `byte` (0..255). The fixed-width fields are the
subset types `uint16` and `uint32`. Multi-byte values go on the wire
big-endian (`Be16`/`Be32`) and are read back with `Get16`/`Get32`.

The C code sums words in *host* order. On x86 it reads each big-endian
word byte-swapped and stores its result byte-swapped too. The model sums
big-endian words instead. `Checksum.HostOrderIndependent` and
`Checksum.LittleEndianHost` prove that both orders put the same two
checksum bytes on the wire (section 2(B) of RFC 1071).

Random values and the outcome of I/O are parameters:
- `idRand` is what `rand()` returned for the IP id. The model reduces it
  modulo 65535, as line 167 does.
- `seqRand` is the sequence number.
- A receive is an `Event`: `Packet(bytes)` or `RecvError`.
- Whether `send_syn_packet` returned a socket is a `bool` (`sent`) given
  to `RunProbe`. It stands for `socket()`, `setsockopt()` and `sendto()`
  all succeeding (lines 146-157 and 211-216); if any of them fails,
  `main` returns 1.

Three behaviours of the code that a reader may not expect are kept as
written, and one is a departure:
- The TCP checksum does not zero-pad an odd final payload byte, which
  section 3.1 of RFC 793 requires (see Findings).
- A SYN-ACK does not end the receive loop. Only a receive failure does.
- No port or address filter is applied to inbound packets.
- Departure: the C code has no "truncated buffer" error. A packet too
  short for the reads the code makes is reported as `Unreadable`
  instead, as explained under Left out.

## Model

| member | source | states |
|---|---|---|
| Bytes.Be16 | simple-tcpip-stack.c:166-168 | `htons`: two bytes, high byte first, whose big-endian value is the word |
| Bytes.Be16OfGet16 | simple-tcpip-stack.c:107-111 | `ntohs` at an offset: re-encoding the value gives back exactly the two bytes read |
| Bytes.Be32 | simple-tcpip-stack.c:181 | `htonl`: four bytes, most significant first, whose big-endian value is the word |
| Bytes.Be32OfGet32 | simple-tcpip-stack.c:122-123 | `ntohl` at an offset: re-encoding the value gives back exactly the four bytes read |
| Checksum.CalculateChecksum | simple-tcpip-stack.c:40-55 | for at most 65536 words the result is 0xFFFF minus the end-around-carry ones'-complement sum of the words; with no words it is 0xFFFF |
| Checksum.CFoldIsEndAround | simple-tcpip-stack.c:49-51 | the two carry folds, as written, fully reduce any raw sum below 2^32 |
| Checksum.OnesSumIsEndAround | simple-tcpip-stack.c:43-51 | adding words one at a time with end-around carry equals summing first and reducing at the end, so deferring the carries loses nothing |
| Checksum.ChecksumVerifies | simple-tcpip-stack.c:171-176 | if the checksum is computed with one word zero, and then stored in that word, the checksum of the result is 0 |
| Checksum.ChecksumAppendVerifies | simple-tcpip-stack.c:40-55 | appending the checksum as one more word makes the checksum 0 |
| Checksum.ChecksumDetectsWordChange | simple-tcpip-stack.c:40-55 | changing one word changes the checksum, except a swap between 0x0000 and 0xFFFF |
| Checksum.ChecksumDetectsByteChange | simple-tcpip-stack.c:40-55 | changing any one byte of an even-length buffer changes its checksum |
| Checksum.HostOrderIndependent | simple-tcpip-stack.c:40-55 | the checksum of byte-swapped words is the byte-swapped checksum |
| Checksum.LittleEndianHost | simple-tcpip-stack.c:176 | summing the buffer as little-endian words and storing the result the same way gives the checksum of its big-endian words |
| Checksum.ChecksumOfSampleHeader | simple-tcpip-stack.c:40-55 | a concrete header of ten words (raw sum 0x2479C) gets checksum 0xB861, the value in the usual worked example of the IPv4 header checksum |
| Headers.EncodeIpv4 | simple-tcpip-stack.c:162-173 | the filled IP header is 20 bytes: version and ihl share byte 0 (high and low nibble), tos is byte 1, ttl byte 8, protocol byte 9, and total length, id, fragment field, checksum and both addresses read back in network order at offsets 2, 4, 6, 10, 12 and 16 |
| Headers.DecodeIpv4 | simple-tcpip-stack.c:245 | fails with `Truncated(20, size)` exactly when fewer than 20 bytes are given |
| Headers.Ipv4RoundTrip | simple-tcpip-stack.c:104-113 | decoding an encoded IPv4 header, whatever follows it, returns every field unchanged |
| Headers.Ipv4ReEncode | simple-tcpip-stack.c:104-113 | any 20 bytes are the encoding of the header decoded from them |
| Headers.FlagsOf | simple-tcpip-stack.c:125-130 | the SYN flag is bit 1 and the ACK flag is bit 4 of TCP byte 13 |
| Headers.FlagsRoundTrip | simple-tcpip-stack.c:184-189 | reading the control bits of an encoded flags byte returns the flags written |
| Headers.FlagsReEncode | simple-tcpip-stack.c:125-130 | every flags byte is the encoding of the bits read from it |
| Headers.DecodeTcp | simple-tcpip-stack.c:250 | fails with `Truncated(offset + 20, size)` exactly when the buffer ends before `offset + 20` |
| Headers.EncodeTcp | simple-tcpip-stack.c:178-192 | the filled TCP header is 20 bytes: ports, sequence and acknowledgment numbers read back in network order at offsets 0, 2, 4 and 8; data offset and reserved bits share byte 12; byte 13 is the flags byte; window, checksum and urgent pointer read back at 14, 16 and 18 |
| Headers.TcpRoundTrip | simple-tcpip-stack.c:120-133 | decoding an encoded TCP header at the offset where it was placed returns every field unchanged |
| Headers.TcpReEncode | simple-tcpip-stack.c:120-133 | any 20 bytes at an offset are the encoding of the TCP header decoded from them |
| Headers.Ipv4CheckBytes | simple-tcpip-stack.c:171-176 | the IPv4 checksum field is bytes 10-11; setting it rewrites those bytes and no others |
| Headers.TcpCheckBytes | simple-tcpip-stack.c:191-195 | the TCP checksum field is bytes 16-17; setting it rewrites those bytes and no others |
| PseudoChecksum.PseudoHeader | simple-tcpip-stack.c:26-32 | `struct pseudo_header` occupies 12 bytes |
| PseudoChecksum.PseudoHeaderLayout | simple-tcpip-stack.c:72-76 | read back in network order, the pseudo-header holds the source address, the destination address, a zero byte, protocol 6, and the TCP length modulo 2^16 |
| PseudoChecksum.TcpChecksum | simple-tcpip-stack.c:58-94 | `tcp_checksum` as written: for every payload up to 65495 bytes, 0xFFFF minus the ones'-complement sum of the first floor((12 + 20 + payload length) / 2) big-endian words of pseudo-header, TCP header and payload |
| PseudoChecksum.TcpChecksumPadded | simple-tcpip-stack.c:90 | the corrected checksum of section 3.1 of RFC 793: for every payload up to 65495 bytes, 0xFFFF minus the ones'-complement sum of the ceil((12 + 20 + payload length) / 2) words of the zero-padded pseudogram |
| PseudoChecksum.Pseudogram | simple-tcpip-stack.c:78-87 | the checksummed buffer holds 12 + 20 + payload-length bytes |
| PseudoChecksum.Pad | simple-tcpip-stack.c:90 | padding gives an even length, keeps the original bytes, and adds at most one zero byte |
| PseudoChecksum.TcpChecksumIgnoresOtherIpFields | simple-tcpip-stack.c:72-82 | two IP headers with the same source and destination address give the same TCP checksum, whatever their check, id, ttl or other fields |
| PseudoChecksum.TcpChecksumVerifies | simple-tcpip-stack.c:58-94 | if the TCP checksum is computed with the check field zero and then stored there, recomputing it gives 0, for every payload up to 65495 bytes |
| PseudoChecksum.TcpChecksumPaddedVerifies | simple-tcpip-stack.c:191-195 | the same verification holds for the zero-padded checksum, for every payload up to 65495 bytes, odd lengths included |
| PseudoChecksum.TcpChecksumPaddedAgrees | simple-tcpip-stack.c:85-90 | for an even-length payload, the empty SYN payload included, the padded and the as-written checksums are equal |
| PseudoChecksum.TcpChecksumIgnoresOddFinalByte | simple-tcpip-stack.c:61-90 | as written, two odd-length payloads that differ only in their final byte get the same checksum |
| PseudoChecksum.TcpChecksumPaddedDetectsPayloadChange | simple-tcpip-stack.c:84-90 | with zero padding, changing any one payload byte changes the checksum |
| Probe.IpChecksum | simple-tcpip-stack.c:176 | the IP header checksum is 0xFFFF minus the ones'-complement sum of the header's 10 big-endian words |
| Probe.EncodeSyn | simple-tcpip-stack.c:162-211 | the probe is 40 bytes; `sendto` is given that many bytes, addressed to the destination address and port |
| Probe.SynWireFormat | simple-tcpip-stack.c:162-192 | byte 0 is 0x45; decoding gives total length 40 (the send length), id = `idRand` mod 65535 (below 65535), fragment field 0, ttl 64, protocol 6, and both addresses; TCP byte 12 is 0x50 and byte 13 is 0x02; decoding gives both ports, the sequence number, ack 0, data offset 5, SYN as the only flag, window 5840 and urgent pointer 0 |
| Probe.SynIpChecksumVerifies | simple-tcpip-stack.c:171-176 | the checksum of the 10 words of the sent IP header is 0 |
| Probe.SynTcpChecksumVerifies | simple-tcpip-stack.c:191-195 | the checksum of the pseudo-header (both addresses, length 20) followed by the sent TCP header is 0 |
| Probe.TcpOffset | simple-tcpip-stack.c:250 | the TCP header starts at `ihl * 4`, the decoded IP header's ihl times 4: a multiple of 4 and at most 60 |
| Probe.Classify | simple-tcpip-stack.c:239-263 | no report exactly when byte 9 (the protocol) is present and is not 6; `Unreadable` exactly when the packet is too short for the protocol read or for the TCP header at `ihl * 4`; SYN-ACK exactly when bits 1 and 4 of byte `ihl * 4 + 13` are both set; every other report carries the headers decoded from the packet |
| Probe.ClassifyEncoded | simple-tcpip-stack.c:248-263 | a TCP packet built by the encoders (ihl 5) is a SYN-ACK if its SYN and ACK flags are both set, and another segment otherwise |
| Probe.ClassifyOtherProtocol | simple-tcpip-stack.c:248 | a packet whose IP protocol is not TCP produces no report |
| Probe.SynIsNotSynAck | simple-tcpip-stack.c:257 | the stack's own SYN, if seen inbound, is classified as another segment, not as a SYN-ACK |
| Probe.Listen | simple-tcpip-stack.c:234-265 | the `while (1)` loop over a finite trace makes at most one report per receive event |
| Probe.ListenFailsIffError | simple-tcpip-stack.c:234-242 | the loop ends with -1 exactly when the trace contains a receive failure |
| Probe.ListenAppend | simple-tcpip-stack.c:234-265 | over a failure-free prefix, the loop reports that prefix's packets in order and then carries on with the rest |
| Probe.ListenContinuesAfterSynAck | simple-tcpip-stack.c:256-263 | a SYN-ACK is reported and the loop goes on to receive and classify the packets after it |
| Probe.ListenStopsAtError | simple-tcpip-stack.c:239-242 | the first receive failure ends the loop; nothing after it is received |
| Probe.ReceivePackets | simple-tcpip-stack.c:223-268 | returns (with -1) exactly when a receive fails; the reports are the loop's reports for the trace; every decoded report has IP protocol 6 |
| Probe.ListenReportsTcp | simple-tcpip-stack.c:234-265 | every decoded report the loop produces is of an IP protocol 6 packet; other protocols are skipped |
| Probe.ListenStep | simple-tcpip-stack.c:234-265 | one turn of the loop on a received packet appends that packet's report, if any, and leaves the rest of the trace to decide the outcome |
| Probe.RunProbe | simple-tcpip-stack.c:288-300 | once its four arguments are accepted, `main` exits 1 exactly when `send_syn_packet` failed (socket creation, `setsockopt` or `sendto`), exits 0 exactly when it succeeded and a receive later failed, and is otherwise still listening |

## Findings

| source | as written | input that shows it | evidently intended | confidence | as-written member | corrected member |
|---|---|---|---|---|---|---|
| simple-tcpip-stack.c:90 | `calculate_checksum(pseudogram, psize / 2)` sums only whole words, so the final byte of an odd-length payload is never checksummed | payloads `[0x01]` and `[0x02]` with the same headers give the same TCP checksum | pad the odd final byte on the right with a zero byte, as section 3.1 of RFC 793 requires, so that every payload byte is covered | high that the gap exists for odd payloads; the stack itself only sends empty payloads; not executed | PseudoChecksum.TcpChecksumIgnoresOddFinalByte | PseudoChecksum.TcpChecksumPaddedDetectsPayloadChange |

`PseudoChecksum.TcpChecksum` models the code as written, and
`PseudoChecksum.TcpChecksumPadded` is the corrected definition. The SYN
builder `Probe.EncodeSyn` calls the as-written one, as line 195 does. Its
payload is empty, and for every even-length payload the two are equal
(`PseudoChecksum.TcpChecksumPaddedAgrees`), so the probe carries the same
checksum under either definition.

## Left out

- Raw socket creation, `setsockopt(IP_HDRINCL)`, `sendto`, `recvfrom` and
  `close` are operating-system I/O that needs privilege. The success of the first
  three together is one `bool`, and a receive is an `Event`.
- `print_ipv4_header`, `print_tcp_header` and `inet_ntoa` only format
  text. Their `ntohs`/`ntohl` reads define the decoders.
  `print_tcp_header` prints `urg_ptr` without `ntohs`; that is presentation
  and is not modelled.
- `main`'s argument count check (lines 277-280, which also returns 1) is
  not modelled: `RunProbe` starts once four arguments are accepted.
  `atoi` and `inet_addr` are library parsing that cannot be seen. Addresses come in as `uint32` values whose
  big-endian bytes are the dotted quad. Ports come in as `uint16`,
  already truncated to 16 bits as `htons` would.
- `rand` and `srand` are nondeterministic, so their values are
  parameters.
- The `malloc` failure path and `exit` in `tcp_checksum` are allocation
  and process control.
- The unbounded `while (1)` is modelled only over a finite trace. The
  outcome `Listening` means the trace ran out while the loop was still
  waiting.
- The source address `recvfrom` returns is only printed, so it is not
  modelled.
- The 4096-byte `PACKET_SIZE` limit on receives is not modelled. An
  event's bytes are what `recvfrom` wrote. The reads that classify a
  packet reach at most byte 80.
- Checksum.CalculateChecksum: its contract holds only for at most 65536
  words, a bound chosen to cover every caller. Up to 65537 words the raw
  sum stays below 2^32; beyond 65537 words it can reach 2^32, and then
  the two folds are no longer a full reduction. The model computes what the C code computes
  (with a 64-bit `unsigned long`) for any count, but states nothing about
  it. Every caller sums 10 words, or 16 plus the payload words.
- Probe.Classify: when a received packet is shorter than the reads the
  code makes of it, the C code reads bytes it did not receive: unspecified
  stack contents (the buffer at line 224 is never initialised) or bytes
  of an earlier packet. The model reports `Unreadable` instead of
  guessing those bytes. This loses verdicts the C code makes from received bytes alone:
  its SYN-ACK test reads only byte `ihl*4 + 13`, so a 34-byte TCP packet
  with ihl 5 and byte 33 equal to 0x12 is a SYN-ACK to the C code (only
  its window, checksum and urgent pointer are bytes it did not receive), while the model
  reports it as `Unreadable(34)`. Such truncated SYN-ACKs are all
  reported as `Unreadable`.
- Probe.EncodeSyn: `seqRand` ranges over every 32-bit value, not only
  `0..RAND_MAX`.
