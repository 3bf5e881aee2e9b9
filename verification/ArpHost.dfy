/** One host's address resolution over the hash map: src/protocols/arp.c. */
module ArpHosts {
  import opened Bytes
  import opened Net
  import opened Options
  import opened ProbeTable
  import opened HashMaps
  import opened ArpKeys
  import opened ArpSpec

  /** Six bytes of heap holding a MAC, shared by pointer. */
  class MacCell {
    var mac: Mac
    constructor (mac: Mac)
      ensures this.mac == mac
    {
      this.mac := mac;
    }
  }

  /** The header with its 16-bit fields in the other byte order. */
  function SwapFields(p: ArpPacket): ArpPacket {
    p.(opcode := Swap16(p.opcode), hwType := Swap16(p.hwType), proType := Swap16(p.proType))
  }

  /** The reception tests and the reply, read off the header in host order. */
  lemma InHostOrder(p: ArpPacket, me: u32, mac: Mac)
    ensures var q := SwapFields(p);
      && (WellFormed(p) <==> q.hwType == ARP_ETHERNET && q.hwSize == 6 && q.proType == ARP_IPV4 && q.proSize == 4)
      && Reply(me, mac, p) ==
         if WellFormed(p) && q.dstIp == me && q.opcode == ARP_REQUEST
         then Some(ArpPacket(Swap16(q.hwType), Swap16(q.proType), q.hwSize, q.proSize, Swap16(ARP_REPLY),
                             mac, me, q.srcMac, q.srcIp))
         else None
  {
  }

  /** A received or outgoing packet buffer, rewritten in place. */
  class ArpBuffer {
    var p: ArpPacket
    constructor (p: ArpPacket)
      ensures this.p == p
    {
      this.p := p;
    }

    /** arp_header_hton and arp_header_ntoh perform the same swaps. */
    method SwapHeader()
      modifies this
      ensures p == SwapFields(old(p))
    {
      p := p.(opcode := Swap16(p.opcode));
      p := p.(hwType := Swap16(p.hwType));
      p := p.(proType := Swap16(p.proType));
    }
  }

  /** Distinct words have distinct cells. */
  ghost predicate Unshared(cells: map<nat, MacCell>) {
    forall w, w' :: w in cells && w' in cells && cells[w] == cells[w'] ==> w == w'
  }

  ghost predicate Within(cells: map<nat, MacCell>, repr: set<MacCell>) {
    forall w :: w in cells ==> cells[w] in repr
  }

  class ArpHost {
    const net: NetInterface
    const cache: HashMap<KeyRef, MacCell?>
    /** The stored pointers by word. */
    ghost var cells: map<nat, MacCell>
    ghost var repr: set<MacCell>

    /** arp_init. */
    constructor (net: NetInterface)
      ensures this.net == net && fresh(cache) && fresh(cache.slots) && Valid() && View() == map[] && repr == {}
    {
      WordsLawful();
      this.net := net;
      cache := new HashMap(16, WORDS, KeyRef(false, 0), null);
      cells, repr := map[], {};
    }

    /** The hash map holds exactly the cells, under keys none of which is a stack pointer. */
    ghost predicate Valid()
      reads this, cache, cache.slots
    {
      && cache.Valid() && cache.h == WORDS && cache.noValue == null
      && Linked(cache.Map(), cells)
      && Unshared(cells) && Within(cells, repr)
    }

    /** The translation table by value. */
    ghost function View(): Cache
      requires Within(cells, repr)
      reads this, repr
    {
      map w | w in cells :: cells[w].mac
    }

    method IsIn(proType: u16, ip: u32) returns (b: bool)
      requires Valid()
      ensures b == (ToKey(proType, ip) in View())
    {
      var key := KeyRef(false, ToKey(proType, ip));
      GetByWord(cache.Map(), cells, key);
      cache.SoundHasFree();
      b := cache.ContainsKey(key);
    }

    method LookupCell(key: KeyRef) returns (cell: MacCell?)
      requires Valid()
      ensures cell == if key.word in cells then cells[key.word] else null
    {
      GetByWord(cache.Map(), cells, key);
      cache.SoundHasFree();
      cell := cache.Lookup(key);
    }

    /** hashmap_put of a cell; a stack key is allowed only when its word is present. */
    method PutCell(key: KeyRef, cell: MacCell)
      requires Valid() && (key.heap || key.word in cells)
      requires Unshared(cells[key.word := cell])
      modifies this`cells, this`repr, cache, cache.slots
      ensures Valid() && (cache.slots == old(cache.slots) || fresh(cache.slots))
      ensures cells == old(cells)[key.word := cell] && repr == old(repr) + {cell}
    {
      ghost var m := cache.Map();
      PutByWord(m, cells, key, cell);
      cells, repr := cells[key.word := cell], repr + {cell};
      cache.SoundHasFree();
      cache.Put(key, cell);
    }

    /** May be called only for a cached key. The stored cell is overwritten in place and put back
        through a stack pointer, which is therefore never stored. */
    method SetIn(proType: u16, ip: u32, mac: Mac)
      requires Valid() && ToKey(proType, ip) in View()
      modifies this`cells, this`repr, cache, cache.slots, repr
      ensures Valid() && (cache.slots == old(cache.slots) || fresh(cache.slots))
      ensures View() == old(View())[ToKey(proType, ip) := mac]
      ensures cells == old(cells) && repr == old(repr)
    {
      var key := KeyRef(false, ToKey(proType, ip));
      var dst := LookupCell(key);
      dst.mac := mac;
      assert cells[key.word := dst] == cells;
      PutCell(key, dst);
    }

    method AddTo(proType: u16, ip: u32, mac: Mac)
      requires Valid()
      modifies this`cells, this`repr, cache, cache.slots
      ensures Valid() && (cache.slots == old(cache.slots) || fresh(cache.slots))
      ensures View() == old(View())[ToKey(proType, ip) := mac]
      ensures fresh(repr - old(repr))
    {
      var key := KeyRef(true, ToKey(proType, ip));
      var dst := new MacCell(mac);
      PutCell(key, dst);
    }

    /** The merge part of arp_receive: refresh a cached sender, add a new one only if we are the target. */
    method Learn(proType: u16, ip: u32, mac: Mac, target: bool)
      requires Valid()
      modifies this`cells, this`repr, cache, cache.slots, repr
      ensures Valid() && (cache.slots == old(cache.slots) || fresh(cache.slots)) && fresh(repr - old(repr))
      ensures var k := ToKey(proType, ip);
        View() == if k in old(View()) || target then old(View())[k := mac] else old(View())
    {
      var mergeFlag := false;
      var cached := IsIn(proType, ip);
      if cached {
        SetIn(proType, ip, mac);
        mergeFlag := true;
      }
      if target {
        if !mergeFlag {
          AddTo(proType, ip, mac);
        }
      }
    }

    /** arp_reply on a buffer in host order. */
    method SendReply(buffer: ArpBuffer)
      modifies buffer, net
      ensures var p := old(buffer.p);
        buffer.p == ArpPacket(Swap16(p.hwType), Swap16(p.proType), p.hwSize, p.proSize, Swap16(ARP_REPLY),
                              net.mac, net.ip, p.srcMac, p.srcIp)
      ensures net.sent == old(net.sent) + [Frame(old(buffer.p).srcMac, net.mac, Arp(buffer.p))]
    {
      buffer.p := buffer.p.(dstIp := buffer.p.srcIp);
      buffer.p := buffer.p.(dstMac := buffer.p.srcMac);
      buffer.p := buffer.p.(srcIp := net.ip);
      buffer.p := buffer.p.(srcMac := net.mac);
      buffer.p := buffer.p.(opcode := ARP_REPLY);
      buffer.SwapHeader();
      net.Send(Arp(buffer.p), buffer.p.dstMac);
    }

    /** arp_receive: the table changes as the reception algorithm says and a request for us is
        answered from the same buffer. */
    method Receive(buffer: ArpBuffer)
      requires Valid()
      modifies this`cells, this`repr, cache, cache.slots, repr, buffer, net
      ensures Valid() && (cache.slots == old(cache.slots) || fresh(cache.slots))
      ensures fresh(repr - old(repr))
      ensures View() == ArpSpec.Receive(old(View()), net.ip, old(buffer.p))
      ensures var p := old(buffer.p);
        net.sent == if IsRequest(p) && p.dstIp == net.ip
                    then old(net.sent) + [Frame(p.srcMac, net.mac, Arp(
                      ArpPacket(0x0100, 0x0008, 6, 4, 0x0200, net.mac, net.ip, p.srcMac, p.srcIp)))]
                    else old(net.sent)
      ensures buffer.p ==
        match Reply(net.ip, net.mac, old(buffer.p)) case Some(q) => q case None => SwapFields(old(buffer.p))
    {
      InHostOrder(buffer.p, net.ip, net.mac);
      PacketsOnTheWire(net.ip, net.mac, 0, buffer.p);
      buffer.SwapHeader();
      if buffer.p.hwType == ARP_ETHERNET && buffer.p.hwSize == 6 {
        if buffer.p.proType == ARP_IPV4 && buffer.p.proSize == 4 {
          Learn(buffer.p.proType, buffer.p.srcIp, buffer.p.srcMac, buffer.p.dstIp == net.ip);
          if buffer.p.dstIp == net.ip {
            if buffer.p.opcode == ARP_REQUEST {
              SendReply(buffer);
            }
          }
        }
      }
    }

    /** arp_resolve_ipv4: the cached cell, or NULL after broadcasting a request. */
    method Resolve(ip: u32) returns (cell: MacCell?)
      requires Valid()
      modifies net
      ensures Key(ip) in View() ==> cell != null && cell.mac == View()[Key(ip)] && net.sent == old(net.sent)
      ensures Key(ip) !in View() ==> cell == null
      ensures Key(ip) !in View() ==>
        net.sent == old(net.sent) + [Frame(BROADCAST, net.mac, Arp(Request(net.ip, net.mac, ip)))]
    {
      var cached := IsIn(ARP_IPV4, ip);
      if cached {
        cell := LookupCell(KeyRef(false, ToKey(ARP_IPV4, ip)));
      } else {
        var zero: Mac := [0, 0, 0, 0, 0, 0];
        var buffer := new ArpBuffer(ArpPacket(ARP_ETHERNET, ARP_IPV4, 6, 4, ARP_REQUEST, zero, 0, zero, 0));
        buffer.SwapHeader();
        buffer.p := buffer.p.(dstIp := ip);
        buffer.p := buffer.p.(dstMac := BROADCAST);
        buffer.p := buffer.p.(srcIp := net.ip);
        buffer.p := buffer.p.(srcMac := net.mac);
        net.Send(Arp(buffer.p), BROADCAST);
        cell := null;
      }
    }
  }

  /** The entry is a heap key together with its own cell. */
  ghost predicate FreesOne(e: Slot<KeyRef, MacCell?>, cells: map<nat, MacCell>) {
    e.key.heap && e.key.word in cells && e.value == cells[e.key.word]
  }

  lemma FreedOnce(s: seq<Slot<KeyRef, MacCell?>>, cells: map<nat, MacCell>, e: seq<Slot<KeyRef, MacCell?>>)
    requires Linked(Contents(s), cells) && Unshared(cells)
    requires forall i :: 0 <= i < |e| ==> e[i].key in Contents(s) && Contents(s)[e[i].key] == e[i].value
    requires forall i, j :: 0 <= i < j < |e| ==> !WORDS.eq(e[i].key, e[j].key)
    requires forall k :: k in Contents(s) ==> s[Where(s, k)] in e
    ensures forall i :: 0 <= i < |e| ==> FreesOne(e[i], cells)
    ensures forall i, j :: 0 <= i < j < |e| ==> e[i].key != e[j].key && e[i].value != e[j].value
    ensures forall w :: w in cells ==> exists i :: 0 <= i < |e| && e[i].key.word == w
  {
    forall i | 0 <= i < |e| ensures FreesOne(e[i], cells) {
      assert e[i].key.heap;
      assert e[i].key == KeyRef(true, e[i].key.word);
    }
    forall w | w in cells ensures exists i :: 0 <= i < |e| && e[i].key.word == w {
      var i :| 0 <= i < |e| && e[i] == s[Where(s, KeyRef(true, w))];
      assert e[i].key.word == w;
    }
    forall i, j | 0 <= i < j < |e| ensures e[i].key != e[j].key && e[i].value != e[j].value {
      assert !WORDS.eq(e[i].key, e[j].key);
      assert FreesOne(e[i], cells) && FreesOne(e[j], cells);
    }
  }

  /** arp_destroy's walk: the entries whose key and cell it frees, in order. Each stored pair is freed
      exactly once, no pointer is freed twice, and none of them is a stack pointer. */
  method Destroy(host: ArpHost, beyond: Slot<KeyRef, MacCell?>) returns (freed: seq<Slot<KeyRef, MacCell?>>)
    requires host.Valid()
    ensures forall i :: 0 <= i < |freed| ==> FreesOne(freed[i], host.cells)
    ensures forall i, j :: 0 <= i < j < |freed| ==> freed[i].key != freed[j].key && freed[i].value != freed[j].value
    ensures forall w :: w in host.cells ==> exists i :: 0 <= i < |freed| && freed[i].key.word == w
  {
    freed := Drain(host.cache, beyond);
    WalkMeetsEachOnce(host.cache.slots[..], WORDS);
    FreedOnce(host.cache.slots[..], host.cells, freed);
  }

  /** A packet arrives in a buffer of its own. */
  method ReceivePacket(host: ArpHost, p: ArpPacket)
    requires host.Valid()
    modifies host`cells, host`repr, host.cache, host.cache.slots, host.repr, host.net
    ensures host.Valid() && (host.cache.slots == old(host.cache.slots) || fresh(host.cache.slots))
    ensures fresh(host.repr - old(host.repr))
    ensures host.View() == ArpSpec.Receive(old(host.View()), host.net.ip, p)
    ensures host.net.sent == if IsRequest(p) && p.dstIp == host.net.ip
                             then old(host.net.sent) + [Frame(p.srcMac, host.net.mac, Arp(
                               ArpPacket(0x0100, 0x0008, 6, 4, 0x0200, host.net.mac, host.net.ip, p.srcMac, p.srcIp)))]
                             else old(host.net.sent)
  {
    var buffer := new ArpBuffer(p);
    host.Receive(buffer);
  }

  /** A fresh host after any sequence of packets holds exactly the table of the reception algorithm. */
  method ReceivePackets(net: NetInterface, ps: seq<ArpPacket>) returns (host: ArpHost)
    modifies net
    ensures fresh(host) && host.net == net && host.Valid() && host.View() == ReceiveAll(net.ip, ps)
  {
    host := new ArpHost(net);
    for i := 0 to |ps|
      invariant fresh(host) && fresh(host.cache) && fresh(host.cache.slots) && fresh(host.repr) && host.net == net
      invariant host.Valid() && host.View() == ReceiveAll(net.ip, ps[..i])
    {
      assert ps[..i + 1][..i] == ps[..i];
      ReceivePacket(host, ps[i]);
    }
    assert ps[..|ps|] == ps;
  }
}
