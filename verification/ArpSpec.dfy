/** Address resolution on values: "Packet Reception" and "Packet Generation" of RFC 826 as
    src/protocols/arp.c performs them. */
module ArpSpec {
  import opened Bytes
  import opened Net
  import opened Options

  const ARP_ETHERNET: u16 := 1
  const ARP_IPV4: u16 := 0x0800
  const ARP_REQUEST: u16 := 1
  const ARP_REPLY: u16 := 2

  /** to_key: protocol above the 32 address bits. */
  function ToKey(proType: u16, ip: u32): nat {
    proType * 0x1_0000_0000 + ip
  }

  lemma ToKeyInjective(p: u16, ip: u32, p': u16, ip': u32)
    requires ToKey(p, ip) == ToKey(p', ip')
    ensures p == p' && ip == ip'
  {
  }

  /** The two header tests of arp_receive, on a packet in network order. */
  predicate WellFormed(p: ArpPacket) {
    Swap16(p.hwType) == ARP_ETHERNET && p.hwSize == 6 && Swap16(p.proType) == ARP_IPV4 && p.proSize == 4
  }

  type Cache = map<nat, Mac>

  function Key(ip: u32): nat {
    ToKey(ARP_IPV4, ip)
  }

  /** The translation table after host `me` receives p. */
  function Receive(c: Cache, me: u32, p: ArpPacket): Cache {
    if WellFormed(p) && (Key(p.srcIp) in c || p.dstIp == me) then c[Key(p.srcIp) := p.srcMac] else c
  }

  /** The packet host (me, mac) answers p with. */
  function Reply(me: u32, mac: Mac, p: ArpPacket): Option<ArpPacket> {
    if WellFormed(p) && p.dstIp == me && Swap16(p.opcode) == ARP_REQUEST
    then Some(p.(opcode := Swap16(ARP_REPLY), dstIp := p.srcIp, dstMac := p.srcMac, srcIp := me, srcMac := mac))
    else None
  }

  /** What it puts on the link: that packet or nothing. */
  function Answer(me: u32, mac: Mac, p: ArpPacket): seq<ArpPacket> {
    match Reply(me, mac, p) case Some(q) => [q] case None => []
  }

  /** The packet host (me, mac) broadcasts to find out who has `target`. */
  function Request(me: u32, mac: Mac, target: u32): ArpPacket {
    ArpPacket(Swap16(ARP_ETHERNET), Swap16(ARP_IPV4), 6, 4, Swap16(ARP_REQUEST), mac, me, BROADCAST, target)
  }

  lemma PacketShapes(me: u32, mac: Mac, target: u32, p: ArpPacket)
    ensures WellFormed(Request(me, mac, target)) && Swap16(Request(me, mac, target).opcode) == ARP_REQUEST
    ensures Reply(me, mac, p).Some? ==>
      WellFormed(Reply(me, mac, p).value) && Swap16(Reply(me, mac, p).value.opcode) == ARP_REPLY
  {
    Swap16Involution(ARP_ETHERNET);
    Swap16Involution(ARP_IPV4);
    Swap16Involution(ARP_REQUEST);
    Swap16Involution(ARP_REPLY);
  }

  /** A well-formed request, field by field as the host loads it from memory: Ethernet, sizes 6 and 4, IPv4 and
      opcode 1 in network order. */
  predicate IsRequest(p: ArpPacket) {
    p.hwType == 0x0100 && p.hwSize == 6 && p.proType == 0x0008 && p.proSize == 4 && p.opcode == 0x0100
  }

  /** The numbers on the wire: which packets pass the tests, and every field of the packets a host makes. */
  lemma PacketsOnTheWire(me: u32, mac: Mac, target: u32, p: ArpPacket)
    ensures WellFormed(p) <==> p.hwType == 0x0100 && p.hwSize == 6 && p.proType == 0x0008 && p.proSize == 4
    ensures WellFormed(p) && Swap16(p.opcode) == ARP_REQUEST <==> IsRequest(p)
    ensures Request(me, mac, target) ==
      ArpPacket(0x0100, 0x0008, 6, 4, 0x0100, mac, me, [0xff, 0xff, 0xff, 0xff, 0xff, 0xff], target)
    ensures Reply(me, mac, p) ==
      if IsRequest(p) && p.dstIp == me
      then Some(ArpPacket(0x0100, 0x0008, 6, 4, 0x0200, mac, me, p.srcMac, p.srcIp)) else None
    ensures Key(target) == 0x0800_0000_0000 + target
  {
  }

  // ---------------------------------------------------------------- one host, any packets

  function ReceiveAll(me: u32, ps: seq<ArpPacket>): Cache {
    if ps == [] then map[] else Receive(ReceiveAll(me, ps[..|ps| - 1]), me, ps[|ps| - 1])
  }

  /** Packet i came from `a` and was well formed. */
  predicate Announces(ps: seq<ArpPacket>, i: nat, a: u32) {
    i < |ps| && WellFormed(ps[i]) && ps[i].srcIp == a
  }

  /** An address is cached exactly when some well-formed packet from it targeted this host. */
  lemma {:induction false} CachedIff(me: u32, ps: seq<ArpPacket>, a: u32)
    ensures Key(a) in ReceiveAll(me, ps) <==> exists i: nat :: Announces(ps, i, a) && ps[i].dstIp == me
  {
    if ps != [] {
      var n := |ps| - 1;
      var qs := ps[..n];
      CachedIff(me, qs, a);
      if Key(ps[n].srcIp) == Key(a) { ToKeyInjective(ARP_IPV4, ps[n].srcIp, ARP_IPV4, a); }
      if i: nat :| Announces(qs, i, a) && qs[i].dstIp == me { assert Announces(ps, i, a) && ps[i].dstIp == me; }
      if i: nat :| Announces(ps, i, a) && ps[i].dstIp == me {
        assert i < n ==> Announces(qs, i, a) && qs[i].dstIp == me;
      }
      assert Announces(ps, n, a) <==> WellFormed(ps[n]) && ps[n].srcIp == a;
    }
  }

  /** The cached MAC is that of the most recent well-formed packet from the address, whatever its
      target or opcode. */
  lemma {:induction false} MostRecentWins(me: u32, ps: seq<ArpPacket>, a: u32, i: nat)
    requires Key(a) in ReceiveAll(me, ps)
    requires Announces(ps, i, a) && forall j: nat :: i < j ==> !Announces(ps, j, a)
    ensures ReceiveAll(me, ps)[Key(a)] == ps[i].srcMac
  {
    var n := |ps| - 1;
    var qs := ps[..n];
    if i < n {
      assert !Announces(ps, n, a);
      if Key(ps[n].srcIp) == Key(a) { ToKeyInjective(ARP_IPV4, ps[n].srcIp, ARP_IPV4, a); }
      assert forall j: nat :: i < j && Announces(qs, j, a) ==> Announces(ps, j, a);
      MostRecentWins(me, qs, a, i);
    }
  }

  /** The MAC of the most recent well-formed packet from a. */
  function HeardLast(ps: seq<ArpPacket>, a: u32): Option<Mac> {
    if ps == [] then None
    else if Announces(ps, |ps| - 1, a) then Some(ps[|ps| - 1].srcMac)
    else HeardLast(ps[..|ps| - 1], a)
  }

  lemma {:induction false} HeardLastAt(ps: seq<ArpPacket>, a: u32) returns (i: nat)
    requires exists j: nat :: Announces(ps, j, a)
    ensures Announces(ps, i, a) && (forall j: nat :: i < j ==> !Announces(ps, j, a))
    ensures HeardLast(ps, a) == Some(ps[i].srcMac)
  {
    var n := |ps| - 1;
    if Announces(ps, n, a) {
      i := n;
    } else {
      var j: nat :| Announces(ps, j, a);
      assert Announces(ps[..n], j, a);
      i := HeardLastAt(ps[..n], a);
      assert forall k: nat :: Announces(ps, k, a) ==> Announces(ps[..n], k, a);
    }
  }

  /** So that is the MAC of every cached address. */
  lemma CachedIsHeardLast(me: u32, ps: seq<ArpPacket>, a: u32)
    requires Key(a) in ReceiveAll(me, ps)
    ensures HeardLast(ps, a) == Some(ReceiveAll(me, ps)[Key(a)])
  {
    CachedIff(me, ps, a);
    var i := HeardLastAt(ps, a);
    MostRecentWins(me, ps, a, i);
  }

  /** Nothing else is ever in the table. */
  lemma {:induction false} OnlyIpv4Keys(me: u32, ps: seq<ArpPacket>, k: nat)
    requires k in ReceiveAll(me, ps)
    ensures exists a: u32 :: k == Key(a)
  {
    var n := |ps| - 1;
    if k in ReceiveAll(me, ps[..n]) { OnlyIpv4Keys(me, ps[..n], k); } else { assert k == Key(ps[n].srcIp); }
  }
}
