/** ICMP echo and the IPv4 receive path: src/protocols/icmp.c and ip_receive of src/protocols/ip.c. */
module Icmp {
  import opened Bytes
  import opened Checksum
  import opened ChecksumLaws
  import opened Net
  import opened ArpSpec
  import opened ArpHosts
  import opened Ip
  import Tcp

  const ICMP_ECHO_REPLY: byte := 0
  const ICMP_ECHO_REQUEST: byte := 8
  const TYPE: nat := 20
  const CODE: nat := 21
  const ICMP_CHECKSUM: nat := 22
  const ICMP_DATA: nat := 24

  /** The header, in host order, gives the length of a datagram inside the buffer. The payload length is an
      unsigned subtraction, so a shorter length is out of the code's reach. */
  ghost predicate InBuffer(b: seq<byte>) {
    |b| >= HEADER && HEADER <= Load16(b, LEN) <= |b|
  }

  /** icmp_check over the payload. */
  ghost predicate IcmpOk(b: seq<byte>)
    requires InBuffer(b)
  {
    ChecksumOf(b[HEADER..Load16(b, LEN)]) == 0
  }

  /** An echo request that passes the check. */
  ghost predicate Accepted(b: seq<byte>)
    requires InBuffer(b)
  {
    IcmpOk(b) && |b| > TYPE && b[TYPE] == ICMP_ECHO_REQUEST
  }

  /** The reply is written over the message: its four header bytes lie in the buffer. */
  ghost predicate Framed(b: seq<byte>) {
    InBuffer(b) && (Accepted(b) ==> |b| >= ICMP_DATA)
  }

  lemma ShortSum(m: seq<byte>)
    requires |m| < 4
    ensures Sum(Words(m)) == if |m| == 0 then 0 else if |m| == 1 then m[0] as int
                             else if |m| == 2 then Word(m[0], m[1]) else Word(m[0], m[1]) + m[2] as int
  {
    var ws := Words(m);
    if |m| == 1 || |m| == 2 { SumConstant(ws, ws[0]); }
    if |m| == 3 {
      assert ws == [Word(m[0], m[1]), Word(m[2], 0)];
      SumOfTwo(ws[0], ws[1]);
    }
  }

  lemma OneMultiple(x: nat)
    requires x < 131070
    ensures x > 0 && x % 65535 == 0 <==> x == 65535
  {
  }

  /** Fewer than four bytes check out exactly when the second is 255 and the others add up to 255. */
  lemma ShortChecksOut(m: seq<byte>)
    requires |m| < 4
    ensures ChecksumOf(m) == 0 <==> |m| >= 2 && m[1] == 255 && (m[0] as int) + (if |m| == 3 then m[2] else 0) == 255
  {
    VerifiesIff(m);
    ShortSum(m);
    OneMultiple(Sum(Words(m)));
  }

  /** An echo request shorter than an ICMP header is accepted exactly when it has three bytes, 8, 255, 247. */
  lemma ShortEcho(b: seq<byte>)
    requires InBuffer(b) && Load16(b, LEN) < ICMP_DATA && |b| > TYPE && b[TYPE] == ICMP_ECHO_REQUEST
    ensures Accepted(b) <==> Load16(b, LEN) == 23 && b[CODE] == 255 && b[22] == 247
  {
    var n := Load16(b, LEN);
    var m := b[HEADER..n];
    ShortChecksOut(m);
    assert forall i :: 0 <= i < |m| ==> m[i] == b[HEADER + i];
  }

  // ---------------------------------------------------------------- the reply as a value

  /** The message part of receive_echo_request: type, zeroed checksum, new checksum. */
  ghost function Answered(b: seq<byte>): (r: seq<byte>)
    requires InBuffer(b) && |b| >= ICMP_DATA
    ensures |r| == |b|
  {
    var z := Store16(b[TYPE := ICMP_ECHO_REPLY], ICMP_CHECKSUM, 0);
    Store16(z, ICMP_CHECKSUM, ChecksumOf(z[HEADER..Load16(b, LEN)]))
  }

  /** Then the addresses: back to the sender, from us. */
  ghost function Readdressed(b: seq<byte>, me: u32): (r: seq<byte>)
    requires |b| >= HEADER
    ensures |r| == |b|
  {
    var d := Store32(b, DST, Load32(b, SRC));
    Store32(d, SRC, Swap32(me))
  }

  /** The header of packet w, as it lies on the wire, gives the length of a datagram inside it. */
  ghost predicate Whole(w: seq<byte>) {
    |w| >= 20 && 20 <= NetLoad16(w, 2) <= |w|
  }

  /** Frame f is, on the wire, an echo reply from `me` to the sender of packet w: both checks pass, every header
      byte before the checksum is that of the request, our address is the source and the requester's the
      destination, the type is 0, and code, identifier, sequence number and data are those of the request. */
  ghost predicate IsEchoReply(f: seq<byte>, w: seq<byte>, me: u32)
    requires Whole(w)
  {
    && |f| == NetLoad16(w, 2) > 21
    && Verifies(f[..20]) && Verifies(f[20..])
    && f[..10] == w[..10] && NetLoad32(f, 12) == Swap32(me) && f[16..20] == w[12..16]
    && f[20] == 0 && f[21] == w[21]
    && forall i :: 24 <= i < |f| ==> f[i] == w[i]
  }

  /** The message holds its whole checksum field, or all of it but a byte that will be zero. */
  ghost predicate Answerable(b: seq<byte>)
    requires InBuffer(b)
  {
    Load16(b, LEN) >= ICMP_DATA || (Load16(b, LEN) == 23 && b[CODE] == 255)
  }

  /** Every accepted echo request is. */
  lemma AcceptedAnswerable(b: seq<byte>)
    requires InBuffer(b) && Accepted(b)
    ensures Answerable(b)
  {
    if Load16(b, LEN) < ICMP_DATA { ShortEcho(b); }
  }

  lemma LongAnswered(b: seq<byte>)
    requires InBuffer(b) && Load16(b, LEN) >= ICMP_DATA
    ensures ChecksumOf(Answered(b)[HEADER..Load16(b, LEN)]) == 0
  {
    var n := Load16(b, LEN);
    var t := b[TYPE := ICMP_ECHO_REPLY];
    var z := Store16(t, ICMP_CHECKSUM, 0);
    var c := ChecksumOf(z[HEADER..n]);
    assert z[HEADER..n] == Store16(t[HEADER..n], 2, 0);
    assert Answered(b)[HEADER..n] == Store16(z[HEADER..n], 2, c);
    FillThenVerify(t[HEADER..n], 1);
  }

  /** The reply to a three-byte message: the high byte of the checksum falls outside the datagram. */
  lemma ShortAnswered(b: seq<byte>)
    requires InBuffer(b) && |b| >= ICMP_DATA && Load16(b, LEN) == 23
    ensures Answered(b)[HEADER..ICMP_DATA] == [0, b[CODE], 255, 255 - b[CODE]]
  {
    var z := Store16(b[TYPE := ICMP_ECHO_REPLY], ICMP_CHECKSUM, 0);
    var m := z[HEADER..23];
    assert m == [0, b[CODE], 0];
    NoOverflow(m);
    ShortSum(m);
    assert ChecksumOf(m) == Word(255, 255 - b[CODE]);
    WordParts(255, 255 - b[CODE]);
  }

  /** The rewritten message keeps code and data, and checks out exactly when it was answerable. */
  lemma AnsweredChecksOut(b: seq<byte>)
    requires InBuffer(b) && |b| >= ICMP_DATA
    ensures var r := Answered(b);
      && (ChecksumOf(r[HEADER..Load16(b, LEN)]) == 0 <==> Answerable(b))
      && r[TYPE] == ICMP_ECHO_REPLY
      && forall i :: 0 <= i < |b| && i !in {20, 22, 23} ==> r[i] == b[i]
  {
    var n := Load16(b, LEN);
    if n >= ICMP_DATA {
      LongAnswered(b);
    } else {
      var m := Answered(b)[HEADER..n];
      assert forall i :: 0 <= i < |m| ==> m[i] == Answered(b)[HEADER + i];
      if n == 23 { ShortAnswered(b); assert m == Answered(b)[HEADER..ICMP_DATA][..3]; }
      ShortChecksOut(m);
    }
  }

  /** The accepted three-byte request is answered with 0, 255, 255, which passes the check; a zero is written
      over the byte behind the datagram. */
  lemma ShortEchoReply(b: seq<byte>)
    requires InBuffer(b) && |b| >= ICMP_DATA && Load16(b, LEN) < ICMP_DATA && Accepted(b)
    ensures Answered(b)[HEADER..ICMP_DATA] == [0, 255, 255, 0]
    ensures ChecksumOf(Answered(b)[HEADER..Load16(b, LEN)]) == 0
  {
    ShortEcho(b);
    ShortAnswered(b);
    AnsweredChecksOut(b);
  }

  lemma ReaddressedFields(b: seq<byte>, me: u32)
    requires |b| >= HEADER
    ensures var r := Readdressed(b, me);
      && Load32(r, SRC) == Swap32(me) && Load32(r, DST) == Load32(b, SRC)
      && forall i :: 0 <= i < |b| && !(12 <= i < 20) ==> r[i] == b[i]
  {
  }

  /** Cutting a wire packet at its own length keeps what a receiver sees. */
  lemma CutDelivers(w: Packet, b: Packet, n: nat)
    requires Delivers(w, b) && HEADER <= n <= |b|
    ensures Delivers(w[..n], b[..n])
  {
    assert w[..n][..HEADER] == w[..HEADER];
    forall i | 0 <= i < n && i != 10 && i != 11 ensures Swapped(w[..n])[i] == b[i] {
      assert Swapped(w[..n])[i] == Swapped(w)[i];
    }
    assert forall i :: HEADER <= i < n ==> w[i] == w[HEADER..][i - HEADER] && b[i] == b[HEADER..][i - HEADER];
  }

  /** The bytes of a frame that a receiver reads back as x. */
  lemma DeliveredBytes(f: Packet, x: Packet)
    requires Delivers(f, x)
    ensures f[2] == x[3] && f[3] == x[2] && forall i :: 0 <= i < 10 && i != 2 && i != 3 ==> f[i] == x[i]
    ensures NetLoad32(f, 12) == Load32(x, SRC)
    ensures f[16] == x[19] && f[17] == x[18] && f[18] == x[17] && f[19] == x[16]
  {
    var h := Swapped(f);
    assert forall i :: 0 <= i < 20 && i != 10 && i != 11 ==> h[i] == x[i];
  }

  lemma SameWord(lo: byte, hi: byte, lo': byte, hi': byte)
    requires Word(lo, hi) == Word(lo', hi')
    ensures lo == lo' && hi == hi'
  {
  }

  lemma SameHalves(lo: u16, hi: u16, lo': u16, hi': u16)
    requires lo + 0x1_0000 * hi == lo' + 0x1_0000 * hi'
    ensures lo == lo' && hi == hi'
  {
  }

  lemma SameLoad(x: Packet, b: Packet)
    requires Load32(x, DST) == Load32(b, SRC)
    ensures x[16] == b[12] && x[17] == b[13] && x[18] == b[14] && x[19] == b[15]
  {
    SameHalves(Load16(x, 16), Load16(x, 18), Load16(b, 12), Load16(b, 14));
    SameWord(x[16], x[17], b[12], b[13]);
    SameWord(x[18], x[19], b[14], b[15]);
  }

  /** The header clauses of an echo reply to a request whose header in host order is b. */
  lemma DeliveredHeader(f: Packet, x: Packet, b: Packet, me: u32)
    requires InBuffer(b) && |f| == |x| == Load16(b, LEN) && Delivers(f, x)
    requires forall i :: 0 <= i < CHECKSUM ==> x[i] == b[i]
    requires Load32(x, SRC) == Swap32(me) && Load32(x, DST) == Load32(b, SRC)
    ensures Verifies(f[..20]) && NetLoad32(f, 12) == Swap32(me)
    ensures f[..10] == Swapped(b)[..10] && f[16..20] == Swapped(b)[12..16]
  {
    HeaderOkIsVerifies(f);
    DeliveredBytes(f, x);
    SameLoad(x, b);
    var w := Swapped(b);
    assert w[2] == b[3] && w[3] == b[2] && w[12] == b[15] && w[13] == b[14] && w[14] == b[13] && w[15] == b[12];
  }

  lemma SamePayload(f: Packet, x: Packet, a: seq<byte>)
    requires |f| == |x| <= |a| && Delivers(f, x)
    requires forall i :: HEADER <= i < |x| ==> x[i] == a[i]
    ensures f[HEADER..] == a[HEADER..|f|]
    ensures forall i :: HEADER <= i < |f| ==> f[i] == a[i]
  {
    var m := f[HEADER..];
    assert m == a[HEADER..|f|];
    assert forall i :: HEADER <= i < |f| ==> f[i] == m[i - HEADER];
  }

  lemma DeliveredIsReply(f: Packet, x: Packet, a: seq<byte>, b: seq<byte>, me: u32)
    requires InBuffer(b) && |b| >= ICMP_DATA && Load16(b, LEN) > CODE && |a| == |b|
    requires |f| == |x| == Load16(b, LEN) && Delivers(f, x)
    requires forall i :: 0 <= i < |x| && !(12 <= i < 20) ==> x[i] == a[i]
    requires Load32(x, SRC) == Swap32(me) && Load32(x, DST) == Load32(b, SRC)
    requires forall i :: 0 <= i < |b| && i !in {20, 22, 23} ==> a[i] == b[i]
    requires a[TYPE] == ICMP_ECHO_REPLY
    ensures Whole(Swapped(b)) && (IsEchoReply(f, Swapped(b), me) <==> ChecksumOf(a[HEADER..|f|]) == 0)
  {
    DeliveredHeader(f, x, b, me);
    SwappedFields(b);
    SamePayload(f, x, a);
    VerifiesOnHost(f[20..]);
    assert f[20] == a[20] && f[21] == a[21] == b[21] == Swapped(b)[21];
  }

  lemma CutLoads(r: Packet, n: nat)
    requires HEADER <= n <= |r|
    ensures Load32(r[..n], SRC) == Load32(r, SRC) && Load32(r[..n], DST) == Load32(r, DST)
    ensures forall i :: 0 <= i < n ==> r[..n][i] == r[i]
  {
  }

  lemma ReplyFields(b: seq<byte>, me: u32)
    requires InBuffer(b) && |b| >= ICMP_DATA
    ensures var r := Readdressed(Answered(b), me);
      Load16(r, LEN) == Load16(b, LEN) && Load32(r, DST) == Load32(b, SRC) && Load32(r, SRC) == Swap32(me)
  {
  }

  /** The readdressed message a, cut at its length, as it goes out. */
  lemma CutReply(a: seq<byte>, me: u32, n: nat)
    requires HEADER <= n <= |a|
    ensures var r := Readdressed(a, me);
      && Delivers(Wire(r)[..n], r[..n])
      && (forall i :: 0 <= i < n && !(12 <= i < 20) ==> r[..n][i] == a[i])
      && Load32(r[..n], SRC) == Swap32(me) && Load32(r[..n], DST) == Load32(a, SRC)
  {
    var r := Readdressed(a, me);
    ReaddressedFields(a, me);
    WireDelivers(r);
    CutDelivers(Wire(r), r, n);
    CutLoads(r, n);
  }

  lemma LongEchoReply(b: seq<byte>, me: u32)
    requires InBuffer(b) && |b| >= ICMP_DATA && Load16(b, LEN) > CODE
    ensures Whole(Swapped(b))
    ensures IsEchoReply(Wire(Readdressed(Answered(b), me))[..Load16(b, LEN)], Swapped(b), me) <==> Answerable(b)
  {
    var n := Load16(b, LEN);
    var a := Answered(b);
    var r := Readdressed(a, me);
    AnsweredChecksOut(b);
    CutReply(a, me, n);
    assert Load32(a, SRC) == Load32(b, SRC);
    DeliveredIsReply(Wire(r)[..n], r[..n], a, b, me);
  }

  /** The frame sent for a message, in host order in b, is its echo reply exactly when the message is answerable, so
      for every accepted echo request. */
  lemma EchoReplyIsGood(b: seq<byte>, me: u32)
    requires InBuffer(b) && |b| >= ICMP_DATA
    ensures Load16(Readdressed(Answered(b), me), LEN) == Load16(b, LEN)
    ensures Whole(Swapped(b))
    ensures IsEchoReply(Wire(Readdressed(Answered(b), me))[..Load16(b, LEN)], Swapped(b), me) <==> Answerable(b)
  {
    ReplyFields(b, me);
    SwappedFields(b);
    if Load16(b, LEN) > CODE { LongEchoReply(b, me); }
  }

  // ---------------------------------------------------------------- the code on buffers

  datatype Outcome =
    | BadHeader | TcpSegment(ok: bool) | UdpDatagram | UnsupportedProtocol
    | BadIcmp | UnsupportedIcmp | Replied | Exited

  /** What becomes of an ICMP message from this sender, an address in network order. */
  ghost function IcmpOutcome(m: seq<byte>, sender: u32, view: Cache): Outcome {
    if !Verifies(m) then BadIcmp
    else if m == [] || m[0] != 8 then UnsupportedIcmp
    else if Key(sender) in view then Replied else Exited
  }

  /** What the reception of a packet with a good header reads and writes lies in the buffer: a TCP or ICMP
      payload, the four header bytes of an accepted echo request, and nothing for other protocols. */
  ghost predicate Readable(w: Packet) {
    match w[9]
    case 6 => Whole(w)
    case 1 => Whole(w) && (var m := w[20..NetLoad16(w, 2)]; Verifies(m) && m != [] && m[0] == 8 ==> |w| >= 24)
    case _ => true
  }

  /** What ip_receive does with packet w, as it lies on the wire. */
  ghost function IpOutcome(w: Packet, view: Cache): Outcome
    requires Verifies(w[..20]) ==> Readable(w)
  {
    if !Verifies(w[..20]) then BadHeader
    else
      match w[9]
      case 6 => TcpSegment(Tcp.HeaderCheck(w[20..NetLoad16(w, 2)], NetLoad32(w, 12), NetLoad32(w, 16)))
      case 16 => UdpDatagram
      case 1 => IcmpOutcome(w[20..NetLoad16(w, 2)], Swap32(NetLoad32(w, 12)), view)
      case _ => UnsupportedProtocol
  }

  /** The part of receive_echo_request that turns the message into a reply. */
  method RewriteMessage(buf: array<byte>)
    requires InBuffer(buf[..]) && buf.Length >= ICMP_DATA
    modifies buf
    ensures buf[..] == Answered(old(buf[..]))
  {
    ghost var b := buf[..];
    var len := Load16(buf[..], LEN) - HEADER;
    buf[TYPE] := ICMP_ECHO_REPLY;
    Write16(buf, ICMP_CHECKSUM, 0);
    var sum := Sum16(buf, TYPE, len);
    assert buf[TYPE..TYPE + len] == buf[..][HEADER..Load16(b, LEN)];
    Write16(buf, ICMP_CHECKSUM, 65535 - sum);
  }

  /** receive_echo_request. `sent` is false when the reply's address could not be resolved: the process exits. */
  method ReceiveEchoRequest(host: ArpHost, buf: array<byte>) returns (sent: bool, ghost frame: seq<byte>)
    requires host.Valid() && InBuffer(buf[..]) && buf.Length >= ICMP_DATA
    modifies buf, host.net
    ensures sent == (Key(Swap32(Load32(old(buf[..]), SRC))) in host.View())
    ensures !sent ==> host.net.sent == old(host.net.sent) + [Asking(host, Swap32(Load32(old(buf[..]), SRC)))]
    ensures sent ==> host.net.sent == old(host.net.sent) + [Frame(
      host.View()[Key(Swap32(Load32(old(buf[..]), SRC)))], host.net.mac, Ipv4(frame))]
    ensures Whole(Swapped(old(buf[..])))
    ensures IsEchoReply(frame, Swapped(old(buf[..])), host.net.ip) <==> Answerable(old(buf[..]))
  {
    ghost var b := buf[..];
    RewriteMessage(buf);
    Write32(buf, DST, Load32(buf[..], SRC));
    Write32(buf, SRC, Swap32(host.net.ip));
    ghost var r := buf[..];
    assert r == Readdressed(Answered(b), host.net.ip);
    ReplyFields(b, host.net.ip);
    frame := Wire(r)[..Load16(b, LEN)];
    sent := SendPacket(host, buf);
    EchoReplyIsGood(b, host.net.ip);
  }

  /** The empty message does not pass, so the type of one that does can be read. */
  lemma CheckedIsNonEmpty(b: seq<byte>)
    requires InBuffer(b) && IcmpOk(b)
    ensures |b| > TYPE && Load16(b, LEN) > TYPE
  {
    ShortChecksOut([]);
    assert b[HEADER..Load16(b, LEN)] != [];
  }

  /** icmp_receive. */
  method ReceiveIcmp(host: ArpHost, buf: array<byte>) returns (r: Outcome, ghost frame: seq<byte>)
    requires host.Valid() && Framed(buf[..])
    modifies buf, host.net
    ensures var b := old(buf[..]);
      r == IcmpOutcome(b[HEADER..Load16(b, LEN)], Swap32(Load32(b, SRC)), host.View())
    ensures r == Replied ==> host.net.sent == old(host.net.sent) + [Frame(
      host.View()[Key(Swap32(Load32(old(buf[..]), SRC)))], host.net.mac, Ipv4(frame))]
    ensures r == Replied ==> Whole(Swapped(old(buf[..]))) && IsEchoReply(frame, Swapped(old(buf[..])), host.net.ip)
    ensures r == Exited ==> host.net.sent == old(host.net.sent) + [Asking(host, Swap32(Load32(old(buf[..]), SRC)))]
    ensures r != Replied && r != Exited ==> buf[..] == old(buf[..]) && host.net.sent == old(host.net.sent)
  {
    frame := [];
    var len := Load16(buf[..], LEN) - HEADER;
    var sum := Sum16(buf, HEADER, len);
    ghost var m := buf[..][HEADER..Load16(buf[..], LEN)];
    assert buf[HEADER..HEADER + len] == m;
    VerifiesOnHost(m);
    if 65535 - sum != 0 {
      return BadIcmp, frame;
    }
    CheckedIsNonEmpty(buf[..]);
    assert m[0] == buf[TYPE];
    if buf[TYPE] == ICMP_ECHO_REQUEST {
      AcceptedAnswerable(buf[..]);
      var sent;
      sent, frame := ReceiveEchoRequest(host, buf);
      r := if sent then Replied else Exited;
    } else {
      r := UnsupportedIcmp;
    }
  }

  lemma WholeOnHost(w: Packet)
    requires Whole(w)
    ensures InBuffer(Swapped(w)) && Load16(Swapped(w), LEN) == NetLoad16(w, 2)
    ensures Swapped(w)[HEADER..NetLoad16(w, 2)] == w[20..NetLoad16(w, 2)]
  {
    SwappedFields(w);
  }

  lemma ReadableOnHost(w: Packet)
    requires w[9] == 1 && Readable(w)
    ensures Whole(w) && Framed(Swapped(w))
  {
    WholeOnHost(w);
    var m := w[20..NetLoad16(w, 2)];
    VerifiesOnHost(m);
    if Accepted(Swapped(w)) {
      CheckedIsNonEmpty(Swapped(w));
      assert m[0] == Swapped(w)[HEADER..NetLoad16(w, 2)][0] == Swapped(w)[TYPE];
    }
  }

  /** ip_receive: a frame is answered exactly when its header and message check out, it is an ICMP echo
      request, and its sender is cached; the answer is the echo reply. All fields are those of the arriving bytes
      in network order. */
  method ReceiveIp(host: ArpHost, buf: array<byte>) returns (r: Outcome, ghost frame: seq<byte>)
    requires host.Valid() && buf.Length >= HEADER
    requires Verifies(buf[..20]) ==> Readable(buf[..])
    modifies buf, host.net
    ensures r == IpOutcome(old(buf[..]), host.View())
    ensures r == Replied ==> host.net.sent == old(host.net.sent) + [Frame(
      host.View()[Key(Swap32(NetLoad32(old(buf[..]), 12)))], host.net.mac, Ipv4(frame))]
    ensures r == Replied ==> Whole(old(buf[..])) && IsEchoReply(frame, old(buf[..]), host.net.ip)
    ensures r == Exited ==>
      host.net.sent == old(host.net.sent) + [Asking(host, Swap32(NetLoad32(old(buf[..]), 12)))]
    ensures r != Replied && r != Exited ==> host.net.sent == old(host.net.sent)
  {
    frame := [];
    ghost var w := buf[..];
    assert w[..20] == buf[..20];
    HeaderOkIsVerifies(w);
    var ok := HeaderCheck(buf);
    if !ok {
      return BadHeader, frame;
    }
    SwappedFields(w);
    SwappedTwice(w);
    SwapHeader(buf);
    match buf[PROTOCOL] {
      case 6 =>
        r := TcpSegment(Tcp.HeaderCheck(buf[HEADER..Load16(buf[..], LEN)], Load32(buf[..], SRC), Load32(buf[..], DST)));
        assert buf[HEADER..Load16(buf[..], LEN)] == w[20..NetLoad16(w, 2)];
      case 16 => r := UdpDatagram;
      case 1 =>
        WholeOnHost(w);
        ReadableOnHost(w);
        r, frame := ReceiveIcmp(host, buf);
      case _ => r := UnsupportedProtocol;
    }
  }

  // ---------------------------------------------------------------- a ping and its reply

  /** A receive buffer that starts with frame f, and has room for an ICMP header behind the IPv4 header. */
  ghost predicate Arrived(buf: seq<byte>, f: seq<byte>) {
    |buf| >= ICMP_DATA && |buf| >= |f| && buf[..|f|] == f
  }

  /** The header and the payload of an arrived frame are the frame's. */
  lemma ArrivedFrame(buf: seq<byte>, f: Packet)
    requires Arrived(buf, f)
    ensures buf[..20] == f[..20] && buf[20..|f|] == f[20..] && buf[..10] == f[..10] && buf[12..16] == f[12..16]
    ensures NetLoad16(buf, 2) == NetLoad16(f, 2) && buf[9] == f[9]
    ensures NetLoad32(buf, 12) == NetLoad32(f, 12) && NetLoad32(buf, 16) == NetLoad32(f, 16)
    ensures forall i :: 0 <= i < |f| ==> buf[i] == f[i]
  {
    assert forall i :: 0 <= i < |f| ==> buf[i] == buf[..|f|][i];
  }

  /** An ICMP datagram is understood on arrival by its payload and its sender alone. */
  lemma DatagramArrives(buf: seq<byte>, f: seq<byte>, src: u32, dst: u32, payload: seq<byte>, view: Cache)
    requires Carries(f, src, dst, 1, payload) && Arrived(buf, f)
    ensures Verifies(buf[..20]) && Readable(buf) && IpOutcome(buf, view) == IcmpOutcome(payload, Swap32(src), view)
  {
    ArrivedFrame(buf, f);
  }

  /** A TCP segment gets the verdict of the code's check on exactly this segment and these addresses: the
      congruence, which is the test of RFC 793 when the last octets add up to at most 253, and which no valid
      segment passes when they add up to 256 or more. */
  lemma SegmentArrives(buf: seq<byte>, f: seq<byte>, src: u32, dst: u32, segment: seq<byte>, view: Cache)
    requires Carries(f, src, dst, 6, segment) && Arrived(buf, f)
    ensures Verifies(buf[..20]) && Readable(buf) && IpOutcome(buf, view).TcpSegment? && |segment| <= 65515
    ensures var t := Tcp.Total(segment, src, dst);
      IpOutcome(buf, view).ok <==> t % 65535 == Tcp.Wraps(t) && t != Tcp.Wraps(t) * WRAP
    ensures src % 256 + dst % 256 <= 253 ==> (IpOutcome(buf, view).ok <==> Tcp.RfcValid(segment, src, dst))
    ensures src % 256 + dst % 256 >= 256 && Tcp.RfcValid(segment, src, dst) ==> !IpOutcome(buf, view).ok
  {
    ArrivedFrame(buf, f);
    Tcp.AcceptsIff(segment, src, dst);
    Tcp.LastOctetsDecide(segment, src, dst);
  }

  /** A header that does not verify is dropped, whatever it says; UDP and unknown protocols are recognised by
      the protocol byte alone, whatever the length. */
  lemma OthersArrive(w: Packet, view: Cache)
    ensures !Verifies(w[..20]) ==> IpOutcome(w, view) == BadHeader
    ensures Verifies(w[..20]) && w[9] == 16 ==> Readable(w) && IpOutcome(w, view) == UdpDatagram
    ensures Verifies(w[..20]) && w[9] !in {1, 6, 16} ==> Readable(w) && IpOutcome(w, view) == UnsupportedProtocol
  {
  }

  /** An echo reply is checked on arrival and then ignored, whatever is cached. */
  lemma ReplyArrives(buf: seq<byte>, f: seq<byte>, w: seq<byte>, me: u32, view: Cache)
    requires Whole(w) && w[9] == 1 && IsEchoReply(f, w, me) && Arrived(buf, f)
    ensures Verifies(buf[..20]) && Readable(buf) && IpOutcome(buf, view) == UnsupportedIcmp
  {
    ArrivedFrame(buf, f);
    assert f[..10][9] == w[..10][9];
    assert f[..10][2] == w[..10][2] && f[..10][3] == w[..10][3];
    assert buf[20..|f|][0] == f[20];
  }

  /** The frame as it lies in the receiver's buffer, with arbitrary bytes behind it. */
  method Buffer(f: seq<byte>, behind: seq<byte>) returns (buf: array<byte>)
    requires |f| + |behind| >= ICMP_DATA
    ensures fresh(buf) && Arrived(buf[..], f)
  {
    var all := f + behind;
    buf := new byte[|all|](i requires 0 <= i < |all| => all[i]);
    assert buf[..] == all && all[..|f|] == f;
  }

  /** Frame f carries a verifying echo request. */
  ghost predicate Pings(f: seq<byte>, from: u32, to: u32, payload: seq<byte>) {
    Carries(f, Swap32(from), Swap32(to), 1, payload) && Verifies(payload) && payload != [] && payload[0] == 8
  }

  /** Its reply from `to`. */
  ghost predicate Pongs(reply: seq<byte>, f: seq<byte>, to: u32) {
    exists buf :: Arrived(buf, f) && Whole(buf) && buf[9] == 1 && IsEchoReply(reply, buf, to)
  }

  lemma PongKeeps(reply: seq<byte>, f: Packet, to: u32)
    requires Pongs(reply, f, to) && NetLoad16(f, 2) == |f|
    ensures |reply| == |f| > 21 && reply[20] == 0 && reply[21] == f[21]
    ensures NetLoad32(reply, 12) == Swap32(to) && reply[16..20] == f[12..16]
    ensures forall i :: 24 <= i < |f| ==> reply[i] == f[i]
  {
    var buf :| Arrived(buf, f) && Whole(buf) && buf[9] == 1 && IsEchoReply(reply, buf, to);
    ArrivedFrame(buf, f);
  }

  /** The ping is sent. */
  method SendPing(a: ArpHost, to: u32, payload: seq<byte>) returns (f: seq<byte>)
    requires a.Valid() && |payload| <= 65515 && Key(to) in a.View()
    requires Verifies(payload) && payload != [] && payload[0] == 8
    modifies a.net
    ensures Pings(f, a.net.ip, to, payload)
    ensures a.net.sent == old(a.net.sent) + [Frame(a.View()[Key(to)], a.net.mac, Ipv4(f))]
  {
    Swap32Involution(to);
    var _, frame := Send(a, Swap32(to), payload, 1);
    f := a.net.sent[|a.net.sent| - 1].payload.bytes;
  }

  /** The ping arrives and is replied to. */
  method ReceivePing(b: ArpHost, f: seq<byte>, from: u32, ghost payload: seq<byte>, behind: seq<byte>)
    returns (r: Outcome, reply: seq<byte>)
    requires b.Valid() && Pings(f, from, b.net.ip, payload) && Key(from) in b.View() && |behind| >= ICMP_DATA
    modifies b.net
    ensures r == Replied && Pongs(reply, f, b.net.ip)
    ensures b.net.sent == old(b.net.sent) + [Frame(b.View()[Key(from)], b.net.mac, Ipv4(reply))]
  {
    Swap32Involution(from);
    var buf := Buffer(f, behind);
    ghost var arrived := buf[..];
    DatagramArrives(arrived, f, Swap32(from), Swap32(b.net.ip), payload, b.View());
    ArrivedFrame(arrived, f);
    ghost var frame;
    assert buf[..20] == arrived[..20];
    r, frame := ReceiveIp(b, buf);
    reply := b.net.sent[|b.net.sent| - 1].payload.bytes;
  }

  /** The reply arrives and is ignored. */
  method ReceivePong(a: ArpHost, reply: seq<byte>, ghost f: seq<byte>, ghost to: u32, behind: seq<byte>)
    returns (r: Outcome)
    requires a.Valid() && Pongs(reply, f, to) && |behind| >= ICMP_DATA
    modifies a.net
    ensures r == UnsupportedIcmp && a.net.sent == old(a.net.sent)
  {
    ghost var request :| Arrived(request, f) && Whole(request) && request[9] == 1 && IsEchoReply(reply, request, to);
    var buf := Buffer(reply, behind);
    ReplyArrives(buf[..], reply, request, to, a.View());
    assert buf[..20] == buf[..][..20];
    ghost var frame;
    r, frame := ReceiveIp(a, buf);
  }

  /** What a host knows does not depend on the frames sent. */
  twostate lemma Undisturbed(host: ArpHost)
    requires old(host.Valid()) && unchanged(host, host.cache) && unchanged(old(host.cache.slots), old(host.repr))
    ensures host.Valid() && host.View() == old(host.View())
  {
  }

  /** The first half: the ping is sent and replied to. */
  method PingOut(a: ArpHost, b: ArpHost, payload: seq<byte>, behind: seq<byte>)
    returns (there: Outcome, request: seq<byte>, reply: seq<byte>)
    requires a.Valid() && b.Valid() && a.net != b.net && |payload| <= 65515 && |behind| >= ICMP_DATA
    requires Key(b.net.ip) in a.View() && Key(a.net.ip) in b.View()
    requires Verifies(payload) && payload != [] && payload[0] == 8
    modifies a.net, b.net
    ensures a.Valid() && there == Replied
    ensures a.net.sent == old(a.net.sent) + [Frame(a.View()[Key(b.net.ip)], a.net.mac, Ipv4(request))]
    ensures b.net.sent == old(b.net.sent) + [Frame(b.View()[Key(a.net.ip)], b.net.mac, Ipv4(reply))]
    ensures Pings(request, a.net.ip, b.net.ip, payload) && Pongs(reply, request, b.net.ip)
  {
    request := SendPing(a, b.net.ip, payload);
    Undisturbed(b);
    there, reply := ReceivePing(b, request, a.net.ip, payload, behind);
    Undisturbed(a);
    Undisturbed(b);
  }

  /** A ping between two hosts that have each other cached: what the first sends is replied to, to its own MAC,
      with the code and data of the request; what comes back is checked and ignored, and nothing more is sent. */
  method Ping(a: ArpHost, b: ArpHost, payload: seq<byte>, behind: seq<byte>)
    returns (there: Outcome, back: Outcome, request: seq<byte>, reply: seq<byte>)
    requires a.Valid() && b.Valid() && a.net != b.net && |payload| <= 65515 && |behind| >= ICMP_DATA
    requires Key(b.net.ip) in a.View() && Key(a.net.ip) in b.View()
    requires Verifies(payload) && payload != [] && payload[0] == 8
    modifies a.net, b.net
    ensures there == Replied && back == UnsupportedIcmp
    ensures a.net.sent == old(a.net.sent) + [Frame(a.View()[Key(b.net.ip)], a.net.mac, Ipv4(request))]
    ensures b.net.sent == old(b.net.sent) + [Frame(b.View()[Key(a.net.ip)], b.net.mac, Ipv4(reply))]
    ensures Pings(request, a.net.ip, b.net.ip, payload) && Pongs(reply, request, b.net.ip)
  {
    there, request, reply := PingOut(a, b, payload, behind);
    Undisturbed(a);
    back := ReceivePong(a, reply, request, b.net.ip, behind);
  }
}
