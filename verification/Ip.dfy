/** IPv4 headers in a byte buffer: src/protocols/ip.c and ip.h. */
module Ip {
  import opened Bytes
  import opened Checksum
  import opened ChecksumLaws
  import opened Net
  import opened ArpSpec
  import opened ArpHosts

  const HEADER: nat := 20
  const LEN: nat := 2
  const PROTOCOL: nat := 9
  const CHECKSUM: nat := 10
  const SRC: nat := 12
  const DST: nat := 16

  /** A buffer that holds at least a header. */
  type Packet = b: seq<byte> | |b| >= 20 witness seq(20, _ => 0)

  /** ip_header_hton, which is also ip_header_ntoh: the bytes of the length and of both addresses are
      reversed, every other byte stays. */
  function Swapped(b: Packet): (r: Packet)
    ensures |r| == |b|
  {
    b[12 := b[15]][13 := b[14]][14 := b[13]][15 := b[12]]
     [16 := b[19]][17 := b[18]][18 := b[17]][19 := b[16]]
     [2 := b[3]][3 := b[2]]
  }

  /** ip_header_update_checksum. */
  function Filled(b: Packet): (r: Packet)
    ensures |r| == |b|
  {
    var z := Store16(b, CHECKSUM, 0);
    Store16(z, CHECKSUM, ChecksumOf(z[..HEADER]))
  }

  /** The host-order fields of a converted header are the big-endian fields of the wire, and the other way round;
      every other byte stays. */
  lemma SwappedFields(b: Packet)
    ensures var h := Swapped(b);
      && Load16(h, 2) == NetLoad16(b, 2) && Load32(h, 12) == NetLoad32(b, 12) && Load32(h, 16) == NetLoad32(b, 16)
      && NetLoad16(h, 2) == Load16(b, 2) && NetLoad32(h, 12) == Load32(b, 12) && NetLoad32(h, 16) == Load32(b, 16)
      && forall i :: 0 <= i < |b| && i != 2 && i != 3 && !(12 <= i < 20) ==> h[i] == b[i]
  {
  }

  /** ip_header_check. */
  predicate HeaderOk(b: Packet) {
    ChecksumOf(b[..HEADER]) == 0
  }

  /** It is the test of RFC 1071 on the 20 header bytes as they lie on the wire. */
  lemma HeaderOkIsVerifies(b: Packet)
    ensures HeaderOk(b) <==> Verifies(b[..20])
  {
    VerifiesOnHost(b[..20]);
  }

  /** Converting twice is the identity. */
  lemma SwappedTwice(b: Packet)
    ensures Swapped(Swapped(b)) == b
  {
  }

  // ---------------------------------------------------------------- fill then verify

  /** Updating the checksum makes the header check out and changes only the checksum field. */
  lemma FilledChecksOut(b: Packet)
    ensures HeaderOk(Filled(b))
    ensures forall i :: 0 <= i < |b| && i != 10 && i != 11 ==> Filled(b)[i] == b[i]
  {
    var z := Store16(b, CHECKSUM, 0);
    var c := ChecksumOf(z[..HEADER]);
    assert z[..HEADER] == Store16(b[..HEADER], CHECKSUM, 0);
    assert Filled(b)[..HEADER] == Store16(z[..HEADER], CHECKSUM, c);
    FillThenVerify(b[..HEADER], 5);
  }

  /** The packet ip_send_packet puts on the wire. */
  function Wire(b: Packet): (r: Packet)
    ensures |r| == |b|
  {
    Filled(Swapped(b))
  }

  /** Length and addresses lie on it in network order, every other byte but the checksum stays. A receiver accepts
      it and, after its own conversion, sees the bytes that were sent except for the checksum field. */
  lemma WireRoundTrip(b: Packet)
    ensures var w := Wire(b);
      && NetLoad16(w, 2) == Load16(b, 2) && NetLoad32(w, 12) == Load32(b, 12) && NetLoad32(w, 16) == Load32(b, 16)
      && (forall i :: 0 <= i < |b| && i !in {2, 3, 10, 11} && !(12 <= i < 20) ==> w[i] == b[i])
    ensures HeaderOk(Wire(b)) && Verifies(Wire(b)[..20])
    ensures forall i :: 0 <= i < |b| && i != 10 && i != 11 ==> Swapped(Wire(b))[i] == b[i]
  {
    FilledChecksOut(Swapped(b));
    SwappedFields(b);
    HeaderOkIsVerifies(Wire(b));
    SwappedKeeps(Wire(b), Swapped(b));
    SwappedTwice(b);
  }

  lemma SwappedKeeps(a: Packet, b: Packet)
    requires |a| == |b| && forall i :: 0 <= i < |a| && i != 10 && i != 11 ==> a[i] == b[i]
    ensures forall i :: 0 <= i < |a| && i != 10 && i != 11 ==> Swapped(a)[i] == Swapped(b)[i]
  {
  }

  // ---------------------------------------------------------------- the code on buffers

  method Write16(buf: array<byte>, i: nat, x: u16)
    requires i + 2 <= buf.Length
    modifies buf
    ensures buf[..] == Store16(old(buf[..]), i, x)
  {
    buf[i], buf[i + 1] := x % 256, x / 256;
  }

  method Write32(buf: array<byte>, i: nat, x: u32)
    requires i + 4 <= buf.Length
    modifies buf
    ensures buf[..] == Store32(old(buf[..]), i, x)
  {
    Write16(buf, i, x % 0x1_0000);
    Write16(buf, i + 2, x / 0x1_0000);
  }

  method SwapHeader(buf: array<byte>)
    requires buf.Length >= HEADER
    modifies buf
    ensures buf[..] == Swapped(old(buf[..]))
    ensures Load16(buf[..], 2) == NetLoad16(old(buf[..]), 2) && NetLoad16(buf[..], 2) == Load16(old(buf[..]), 2)
    ensures Load32(buf[..], 12) == NetLoad32(old(buf[..]), 12) && NetLoad32(buf[..], 12) == Load32(old(buf[..]), 12)
    ensures Load32(buf[..], 16) == NetLoad32(old(buf[..]), 16) && NetLoad32(buf[..], 16) == Load32(old(buf[..]), 16)
    ensures forall i :: 0 <= i < buf.Length && i != 2 && i != 3 && !(12 <= i < 20) ==> buf[i] == old(buf[i])
  {
    ghost var was := buf[..];
    SwapInPlace32(buf[..], SRC);
    Write32(buf, SRC, Swap32(Load32(buf[..], SRC)));
    SwapInPlace32(buf[..], DST);
    Write32(buf, DST, Swap32(Load32(buf[..], DST)));
    SwapInPlace16(buf[..], LEN);
    Write16(buf, LEN, Swap16(Load16(buf[..], LEN)));
    SwappedFields(was);
    assert forall i :: 0 <= i < buf.Length ==> buf[i] == buf[..][i] && was[i] == old(buf[i]);
  }

  /** header->checksum = internet_checksum(header). */
  method StoreChecksum(buf: array<byte>)
    requires buf.Length >= HEADER
    modifies buf
    ensures buf[..] == Store16(old(buf[..]), CHECKSUM, ChecksumOf(old(buf[..])[..HEADER]))
  {
    var sum := Sum16(buf, 0, HEADER);
    assert buf[0..HEADER] == buf[..][..HEADER];
    Write16(buf, CHECKSUM, 65535 - sum);
  }

  method UpdateChecksum(buf: array<byte>)
    requires buf.Length >= HEADER
    modifies buf
    ensures buf[..] == Filled(old(buf[..]))
  {
    Write16(buf, CHECKSUM, 0);
    StoreChecksum(buf);
  }

  method HeaderCheck(buf: array<byte>) returns (ok: bool)
    requires buf.Length >= HEADER
    ensures ok == HeaderOk(buf[..])
  {
    var sum := Sum16(buf, 0, HEADER);
    assert buf[0..HEADER] == buf[..][..HEADER];
    ok := 65535 - sum == 0;
  }

  /** The broadcast that asks for an unresolved address. */
  function Asking(host: ArpHost, target: u32): Frame {
    Frame(BROADCAST, host.net.mac, Arp(Request(host.net.ip, host.net.mac, target)))
  }

  /** ip_send_packet on a header in host order. Without a cached MAC the process exits after the ARP
      request went out; otherwise the buffer is converted, its checksum filled, and `len` bytes sent. */
  method SendPacket(host: ArpHost, buf: array<byte>) returns (sent: bool)
    requires host.Valid() && buf.Length >= HEADER && Load16(buf[..], LEN) <= buf.Length
    modifies buf, host.net
    ensures sent == (Key(Swap32(Load32(old(buf[..]), DST))) in host.View())
    ensures !sent ==> buf[..] == old(buf[..])
    ensures !sent ==> host.net.sent == old(host.net.sent) + [Asking(host, Swap32(Load32(old(buf[..]), DST)))]
    ensures sent ==> buf[..] == Wire(old(buf[..]))
    ensures sent ==> host.net.sent == old(host.net.sent) + [Frame(
      host.View()[Key(Swap32(Load32(old(buf[..]), DST)))], host.net.mac, Ipv4(buf[..][..Load16(old(buf[..]), LEN)]))]
  {
    var netDst := Swap32(Load32(buf[..], DST));
    var realLen := Load16(buf[..], LEN);
    var dstMac := host.Resolve(netDst);
    if dstMac == null {
      return false;
    }
    SwapHeader(buf);
    UpdateChecksum(buf);
    host.net.Send(Ipv4(buf[..][..realLen]), dstMac.mac);
    return true;
  }

  /** sizeof(header) + len in a 16-bit field. */
  function TotalLength(len: u16): u16 {
    if HEADER + len < 0x1_0000 then HEADER + len else HEADER + len - 0x1_0000
  }

  /** The other header bytes: version 4 and five words, no service type, identifier 7 as the host stores it, no
      flags or offset, 64 hops. */
  ghost predicate HasConstants(f: seq<byte>) {
    |f| >= 20 && f[0] == 0x45 && f[1] == 0 && f[4] == 7 && f[5] == 0 && f[6] == 0 && f[7] == 0 && f[8] == 64
  }

  /** ip_header_alloc: a zeroed buffer with the constant fields set. The length field has 16 bits. */
  method HeaderAlloc(len: u16) returns (buf: array<byte>)
    ensures fresh(buf) && buf.Length == HEADER + len
    ensures HasConstants(buf[..])
    ensures Load16(buf[..], LEN) == TotalLength(len)
  {
    buf := new byte[HEADER + len](_ => 0);
    buf[0] := 4 * 16 + 5;
    Write16(buf, LEN, TotalLength(len));
    StoreLoad16(buf[..], LEN, TotalLength(len));
    Write16(buf, 4, 7);
    buf[8] := 64;
    StoreChecksum(buf);
  }

  /** Frame f, as RFC 791 lays it out in network order, carries this payload between these addresses, and its
      header checksum is right. */
  ghost predicate Carries(f: seq<byte>, src: u32, dst: u32, protocol: u32, payload: seq<byte>) {
    && |f| == 20 + |payload| && f[20..] == payload
    && Verifies(f[..20])
    && NetLoad16(f, 2) == |f| && f[9] == protocol && NetLoad32(f, 12) == src && NetLoad32(f, 16) == dst
  }

  /** w checks out and converts back to b up to the checksum field. */
  ghost predicate Delivers(w: Packet, b: Packet) {
    |w| == |b| && HeaderOk(w) && w[HEADER..] == b[HEADER..] &&
    forall i :: 0 <= i < |b| && i != 10 && i != 11 ==> Swapped(w)[i] == b[i]
  }

  lemma WireDelivers(b: Packet)
    ensures Delivers(Wire(b), b)
  {
    WireRoundTrip(b);
    FilledChecksOut(Swapped(b));
  }

  lemma DeliveredCarries(w: Packet, b: Packet, src: u32, dst: u32, protocol: u32, payload: seq<byte>)
    requires Delivers(w, b) && |payload| <= 65535
    requires |b| == HEADER + |payload| && b[HEADER..] == payload && Load16(b, LEN) == TotalLength(|payload|)
    requires Load32(b, SRC) == src && Load32(b, DST) == dst && b[PROTOCOL] == protocol % 256
    ensures Carries(w[..Load16(b, LEN)], src, dst, protocol, payload) <==> |payload| <= 65515 && protocol < 256
  {
    if |payload| <= 65515 {
      assert w[..Load16(b, LEN)] == w;
      SwappedFields(w);
      HeaderOkIsVerifies(w);
      var h := Swapped(w);
      assert h[PROTOCOL] == b[PROTOCOL] && Load16(h, LEN) == Load16(b, LEN);
      assert Load32(h, SRC) == Load32(b, SRC) && Load32(h, DST) == Load32(b, DST);
    }
  }

  lemma DeliveredConstants(w: Packet, b: Packet)
    requires Delivers(w, b) && HasConstants(b)
    ensures HasConstants(w)
  {
    SwappedFields(w);
  }

  /** What leaves for a datagram in host order. */
  lemma SentFrame(b: Packet, src: u32, dst: u32, protocol: u32, payload: seq<byte>)
    requires |payload| <= 65535 && HasConstants(b)
    requires |b| == HEADER + |payload| && b[HEADER..] == payload && Load16(b, LEN) == TotalLength(|payload|)
    requires Load32(b, SRC) == src && Load32(b, DST) == dst && b[PROTOCOL] == protocol % 256
    ensures var f := Wire(b)[..Load16(b, LEN)];
      && (Carries(f, src, dst, protocol, payload) <==> |payload| <= 65515 && protocol < 256)
      && |f| == (20 + |payload|) % 0x1_0000 && (|payload| <= 65515 ==> HasConstants(f))
  {
    WireDelivers(b);
    DeliveredCarries(Wire(b), b, src, dst, protocol, payload);
    DeliveredConstants(Wire(b), b);
  }

  /** The part of ip_send before the packet is handed over: a header in host order and the payload. */
  method BuildDatagram(src: u32, dst: u32, payload: seq<byte>, protocol: u32) returns (buf: array<byte>)
    requires |payload| <= 65535
    ensures fresh(buf) && buf.Length == HEADER + |payload| && buf[HEADER..] == payload
    ensures HasConstants(buf[..]) && buf[PROTOCOL] == protocol % 256
    ensures Load16(buf[..], LEN) == TotalLength(|payload|)
    ensures Load32(buf[..], SRC) == src && Load32(buf[..], DST) == dst
  {
    buf := HeaderAlloc(|payload|);
    buf[PROTOCOL] := protocol % 256;
    Write32(buf, SRC, src);
    StoreLoad32(buf[..], SRC, src);
    Write32(buf, DST, dst);
    StoreLoad32(buf[..], DST, dst);
    forall i | 0 <= i < |payload| {
      buf[HEADER + i] := payload[i];
    }
  }

  /** ip_send. Lengths above 65535 would overrun the buffer the source allocates. The frame carries the
      datagram exactly when the payload has at most 65515 bytes and the protocol fits a byte. */
  method Send(host: ArpHost, dst: u32, payload: seq<byte>, protocol: u32) returns (sent: bool, ghost frame: seq<byte>)
    requires host.Valid() && |payload| <= 65535
    modifies host.net
    ensures sent == (Key(Swap32(dst)) in host.View())
    ensures !sent ==> host.net.sent == old(host.net.sent) + [Asking(host, Swap32(dst))]
    ensures sent ==>
      host.net.sent == old(host.net.sent) + [Frame(host.View()[Key(Swap32(dst))], host.net.mac, Ipv4(frame))]
    ensures sent ==>
      (Carries(frame, Swap32(host.net.ip), dst, protocol, payload) <==> |payload| <= 65515 && protocol < 256)
    ensures sent ==> |frame| == (20 + |payload|) % 0x1_0000 && (|payload| <= 65515 ==> HasConstants(frame))
  {
    var buf := BuildDatagram(Swap32(host.net.ip), dst, payload, protocol);
    ghost var b := buf[..];
    frame := Wire(b)[..Load16(b, LEN)];
    sent := SendPacket(host, buf);
    SentFrame(b, Swap32(host.net.ip), dst, protocol, payload);
  }
}
