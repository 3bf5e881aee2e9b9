/** Any number of hosts running the address resolution of ArpSpec over a network that may lose,
    duplicate, reorder, misdeliver and broadcast packets. */
module ArpNetwork {
  import opened Bytes
  import opened Net
  import opened Options
  import opened ArpSpec

  datatype Host = Host(ip: u32, mac: Mac, cache: Cache)
  datatype World = World(hosts: seq<Host>, flight: seq<ArpPacket>)

  /** Any packet in flight may be delivered at any time, to any set of hosts: to one, or, as a broadcast,
      to several or all of them at once. An action that names no packet does nothing. */
  datatype Action =
    | Lookup(host: nat, target: u32)
    | Deliver(to: set<nat>, i: nat)
    | Lose(i: nat)
    | Duplicate(i: nat)

  function Without<T>(s: seq<T>, i: nat): seq<T>
    requires i < |s|
  {
    s[..i] + s[i + 1..]
  }

  /** The hosts after those in `to` heard p. */
  function Hear(hosts: seq<Host>, to: set<nat>, p: ArpPacket): (r: seq<Host>)
    ensures |r| == |hosts|
  {
    seq(|hosts|, h requires 0 <= h < |hosts| =>
      if h in to then hosts[h].(cache := Receive(hosts[h].cache, hosts[h].ip, p)) else hosts[h])
  }

  /** All their answers. */
  function Answers(hosts: seq<Host>, to: set<nat>, p: ArpPacket): seq<ArpPacket> {
    if hosts == [] then []
    else
      var n := |hosts| - 1;
      Answers(hosts[..n], to, p) + if n in to then Answer(hosts[n].ip, hosts[n].mac, p) else []
  }

  function Step(w: World, a: Action): World {
    match a
    case Lookup(h, target) =>
      if h < |w.hosts| && Key(target) !in w.hosts[h].cache
      then w.(flight := w.flight + [Request(w.hosts[h].ip, w.hosts[h].mac, target)]) else w
    case Deliver(to, i) =>
      if i < |w.flight|
      then
        var p := w.flight[i];
        World(Hear(w.hosts, to, p), Without(w.flight, i) + Answers(w.hosts, to, p))
      else w
    case Lose(i) => if i < |w.flight| then w.(flight := Without(w.flight, i)) else w
    case Duplicate(i) => if i < |w.flight| then w.(flight := w.flight + [w.flight[i]]) else w
  }

  function Run(w: World, acts: seq<Action>): World {
    if acts == [] then w else Step(Run(w, acts[..|acts| - 1]), acts[|acts| - 1])
  }

  // ---------------------------------------------------------------- safety over every run

  ghost predicate DistinctIps(hosts: seq<Host>) {
    forall i, j :: 0 <= i < j < |hosts| ==> hosts[i].ip != hosts[j].ip
  }

  /** No packet in flight and nothing cached. */
  ghost predicate Initial(w: World) {
    w.flight == [] && forall h :: 0 <= h < |w.hosts| ==> w.hosts[h].cache == map[]
  }

  ghost predicate Owns(w: World, ip: u32, mac: Mac) {
    exists o :: 0 <= o < |w.hosts| && w.hosts[o].ip == ip && w.hosts[o].mac == mac
  }

  ghost predicate Known(w: World, k: nat, mac: Mac) {
    exists o :: 0 <= o < |w.hosts| && k == Key(w.hosts[o].ip) && w.hosts[o].mac == mac
  }

  ghost predicate TruthfulCache(w: World, c: Cache) {
    forall k :: k in c ==> Known(w, k, c[k])
  }

  /** Every sender pair in flight and every cached pair belongs to a host. */
  ghost predicate Truthful(w: World) {
    && (forall i :: 0 <= i < |w.flight| ==> Owns(w, w.flight[i].srcIp, w.flight[i].srcMac))
    && (forall h :: 0 <= h < |w.hosts| ==> TruthfulCache(w, w.hosts[h].cache))
  }

  /** Addresses never change. */
  ghost predicate SameHosts(w: World, w': World) {
    |w'.hosts| == |w.hosts| &&
    forall h :: 0 <= h < |w.hosts| ==> w'.hosts[h].ip == w.hosts[h].ip && w'.hosts[h].mac == w.hosts[h].mac
  }

  lemma {:induction false} AnswersOwned(w: World, n: nat, to: set<nat>, p: ArpPacket)
    requires n <= |w.hosts|
    ensures forall i :: 0 <= i < |Answers(w.hosts[..n], to, p)| ==>
      var q := Answers(w.hosts[..n], to, p)[i]; Owns(w, q.srcIp, q.srcMac)
  {
    if n > 0 {
      AnswersOwned(w, n - 1, to, p);
      assert w.hosts[..n][..n - 1] == w.hosts[..n - 1];
      assert Owns(w, w.hosts[n - 1].ip, w.hosts[n - 1].mac);
    }
  }

  lemma SameOwners(w: World, w': World)
    requires SameHosts(w, w')
    ensures forall ip, mac :: Owns(w, ip, mac) ==> Owns(w', ip, mac)
    ensures forall k, mac :: Known(w, k, mac) ==> Known(w', k, mac)
  {
  }

  lemma ReceiveTruthful(w: World, c: Cache, me: u32, p: ArpPacket)
    requires TruthfulCache(w, c) && Owns(w, p.srcIp, p.srcMac)
    ensures TruthfulCache(w, Receive(c, me, p))
  {
  }

  lemma DeliverTruthful(w: World, to: set<nat>, i: nat)
    requires Truthful(w) && i < |w.flight|
    ensures SameHosts(w, Step(w, Deliver(to, i))) && Truthful(Step(w, Deliver(to, i)))
  {
    var w' := Step(w, Deliver(to, i));
    SameOwners(w, w');
    AnswersOwned(w, |w.hosts|, to, w.flight[i]);
    assert w.hosts[..|w.hosts|] == w.hosts;
    forall h | 0 <= h < |w.hosts| ensures TruthfulCache(w', w'.hosts[h].cache) {
      ReceiveTruthful(w, w.hosts[h].cache, w.hosts[h].ip, w.flight[i]);
    }
  }

  lemma StepTruthful(w: World, a: Action)
    requires Truthful(w)
    ensures SameHosts(w, Step(w, a)) && Truthful(Step(w, a))
  {
    if a.Deliver? && a.i < |w.flight| { DeliverTruthful(w, a.to, a.i); }
  }

  /** In every reachable state every sender pair in flight and every cache entry is truthful. */
  lemma {:induction false} RunTruthful(w: World, acts: seq<Action>)
    requires Truthful(w)
    ensures SameHosts(w, Run(w, acts)) && Truthful(Run(w, acts))
  {
    if acts != [] {
      RunTruthful(w, acts[..|acts| - 1]);
      StepTruthful(Run(w, acts[..|acts| - 1]), acts[|acts| - 1]);
    }
  }

  /** With distinct addresses: whoever is cached or announced, it is with the owner's MAC. */
  lemma OwnersMac(w: World, o: nat)
    requires DistinctIps(w.hosts) && Truthful(w) && o < |w.hosts|
    ensures forall h :: 0 <= h < |w.hosts| && Key(w.hosts[o].ip) in w.hosts[h].cache ==>
      w.hosts[h].cache[Key(w.hosts[o].ip)] == w.hosts[o].mac
    ensures forall i :: 0 <= i < |w.flight| && w.flight[i].srcIp == w.hosts[o].ip ==>
      w.flight[i].srcMac == w.hosts[o].mac
  {
  }

  /** The network theorem: from an empty network of hosts with distinct IPs, after any actions. */
  lemma NetworkIsTruthful(w: World, acts: seq<Action>, o: nat)
    requires Initial(w) && DistinctIps(w.hosts) && o < |w.hosts|
    ensures var v := Run(w, acts);
      && SameHosts(w, v) && Truthful(v)
      && (forall h :: 0 <= h < |v.hosts| && Key(w.hosts[o].ip) in v.hosts[h].cache ==>
            v.hosts[h].cache[Key(w.hosts[o].ip)] == w.hosts[o].mac)
      && (forall i :: 0 <= i < |v.flight| && v.flight[i].srcIp == w.hosts[o].ip ==>
            v.flight[i].srcMac == w.hosts[o].mac)
  {
    RunTruthful(w, acts);
    OwnersMac(Run(w, acts), o);
  }

  // ---------------------------------------------------------------- progress

  /** Two for a request, one for anything else. */
  function Weight(p: ArpPacket): nat {
    if Swap16(p.opcode) == ARP_REQUEST then 2 else 1
  }

  function Measure(ps: seq<ArpPacket>): nat {
    if ps == [] then 0 else Weight(ps[0]) + Measure(ps[1..])
  }

  lemma {:induction false} MeasureConcat(a: seq<ArpPacket>, b: seq<ArpPacket>)
    ensures Measure(a + b) == Measure(a) + Measure(b)
  {
    if a == [] {
      assert a + b == b;
    } else {
      assert (a + b)[1..] == a[1..] + b;
      MeasureConcat(a[1..], b);
    }
  }

  lemma MeasureWithout(ps: seq<ArpPacket>, i: nat)
    requires i < |ps|
    ensures Measure(ps) == Weight(ps[i]) + Measure(Without(ps, i))
  {
    assert ps == ps[..i] + ps[i..];
    MeasureConcat(ps[..i], ps[i..]);
    MeasureConcat(ps[..i], ps[i + 1..]);
  }

  /** How many of those that hear a packet have this address. */
  function Hearers(hosts: seq<Host>, to: set<nat>, ip: u32): nat {
    if hosts == [] then 0
    else
      var n := |hosts| - 1;
      Hearers(hosts[..n], to, ip) + if n in to && hosts[n].ip == ip then 1 else 0
  }

  predicate Asks(p: ArpPacket) {
    WellFormed(p) && Swap16(p.opcode) == ARP_REQUEST
  }

  /** A well-formed request is answered once by each hearer that has the target's address, anything else by
      nobody. */
  lemma {:induction false} AnswerCount(hosts: seq<Host>, to: set<nat>, p: ArpPacket)
    ensures |Answers(hosts, to, p)| == if Asks(p) then Hearers(hosts, to, p.dstIp) else 0
  {
    if hosts != [] { AnswerCount(hosts[..|hosts| - 1], to, p); }
  }

  /** Every answer comes from a hearer that has the target's address, and is a reply. */
  lemma {:induction false} AnswersFromOwners(hosts: seq<Host>, to: set<nat>, p: ArpPacket)
    ensures forall q :: q in Answers(hosts, to, p) ==>
      exists h ::
        h in to && 0 <= h < |hosts| && hosts[h].ip == p.dstIp && Reply(hosts[h].ip, hosts[h].mac, p) == Some(q)
  {
    if hosts != [] {
      var n := |hosts| - 1;
      AnswersFromOwners(hosts[..n], to, p);
      forall q | q in Answers(hosts, to, p)
        ensures exists h ::
          h in to && 0 <= h < |hosts| && hosts[h].ip == p.dstIp && Reply(hosts[h].ip, hosts[h].mac, p) == Some(q)
      {
        if q in Answers(hosts[..n], to, p) {
          var h :| h in to && 0 <= h < n && hosts[..n][h].ip == p.dstIp &&
                   Reply(hosts[..n][h].ip, hosts[..n][h].mac, p) == Some(q);
          assert hosts[h] == hosts[..n][h];
        } else {
          assert n in to && Reply(hosts[n].ip, hosts[n].mac, p) == Some(q);
        }
      }
    }
  }

  /** At most one hearer has the address. */
  ghost predicate OneHearer(hosts: seq<Host>, to: set<nat>, ip: u32) {
    forall i, j :: i in to && j in to && 0 <= i < j < |hosts| ==> !(hosts[i].ip == ip && hosts[j].ip == ip)
  }

  lemma {:induction false} NoHearers(hosts: seq<Host>, to: set<nat>, ip: u32)
    ensures Hearers(hosts, to, ip) == 0 <==> forall h :: h in to && 0 <= h < |hosts| ==> hosts[h].ip != ip
  {
    if hosts != [] {
      var n := |hosts| - 1;
      NoHearers(hosts[..n], to, ip);
      assert forall h :: 0 <= h < n ==> hosts[..n][h] == hosts[h];
    }
  }

  lemma {:induction false} OneHearerIff(hosts: seq<Host>, to: set<nat>, ip: u32)
    ensures Hearers(hosts, to, ip) <= 1 <==> OneHearer(hosts, to, ip)
  {
    if hosts != [] {
      var n := |hosts| - 1;
      OneHearerIff(hosts[..n], to, ip);
      NoHearers(hosts[..n], to, ip);
      assert forall h :: 0 <= h < n ==> hosts[..n][h] == hosts[h];
    }
  }

  /** However many hosts hear it, a packet is answered at most once if and only if it is no well-formed request or
      at most one of the hearers has the target's address. */
  lemma AtMostOneAnswer(hosts: seq<Host>, to: set<nat>, p: ArpPacket)
    ensures |Answers(hosts, to, p)| <= 1 <==> (Asks(p) ==> OneHearer(hosts, to, p.dstIp))
    ensures Answers(hosts, to, p) != [] <==>
      Asks(p) && exists h :: h in to && 0 <= h < |hosts| && hosts[h].ip == p.dstIp
  {
    AnswerCount(hosts, to, p);
    OneHearerIff(hosts, to, p.dstIp);
    NoHearers(hosts, to, p.dstIp);
  }

  /** Then the one answer is that hearer's. */
  lemma TheOnlyAnswer(hosts: seq<Host>, to: set<nat>, p: ArpPacket, h: nat)
    requires OneHearer(hosts, to, p.dstIp) && h in to && h < |hosts| && hosts[h].ip == p.dstIp
    ensures Answers(hosts, to, p) == Answer(hosts[h].ip, hosts[h].mac, p)
  {
    AtMostOneAnswer(hosts, to, p);
    AnswersFromOwners(hosts, to, p);
    if Asks(p) {
      var q := Answers(hosts, to, p)[0];
      assert q in Answers(hosts, to, p) && Reply(hosts[h].ip, hosts[h].mac, p) == Some(q);
    }
  }

  /** With distinct addresses that is so for every packet and every set of hearers. */
  lemma DistinctIsEnough(hosts: seq<Host>, to: set<nat>, p: ArpPacket)
    requires DistinctIps(hosts)
    ensures OneHearer(hosts, to, p.dstIp) && |Answers(hosts, to, p)| <= 1
  {
    AtMostOneAnswer(hosts, to, p);
  }

  lemma AnswerWeighs(me: u32, mac: Mac, p: ArpPacket)
    ensures Measure(Answer(me, mac, p)) == |Answer(me, mac, p)|
  {
    PacketShapes(me, mac, 0, p);
    if Reply(me, mac, p).Some? { assert [Reply(me, mac, p).value][1..] == []; }
  }

  /** Every answer weighs one. */
  lemma {:induction false} AnswersWeigh(hosts: seq<Host>, to: set<nat>, p: ArpPacket)
    ensures Measure(Answers(hosts, to, p)) == |Answers(hosts, to, p)|
  {
    if hosts != [] {
      var n := |hosts| - 1;
      AnswersWeigh(hosts[..n], to, p);
      AnswerWeighs(hosts[n].ip, hosts[n].mac, p);
      if n in to {
        MeasureConcat(Answers(hosts[..n], to, p), Answer(hosts[n].ip, hosts[n].mac, p));
      } else {
        assert Answers(hosts, to, p) == Answers(hosts[..n], to, p);
      }
    }
  }

  /** A delivery exchanges the weight of the packet for the number of its answers. */
  lemma DeliveryMeasure(w: World, to: set<nat>, i: nat)
    requires i < |w.flight|
    ensures Measure(Step(w, Deliver(to, i)).flight) ==
      Measure(w.flight) - Weight(w.flight[i]) + |Answers(w.hosts, to, w.flight[i])|
  {
    MeasureWithout(w.flight, i);
    MeasureConcat(Without(w.flight, i), Answers(w.hosts, to, w.flight[i]));
    AnswersWeigh(w.hosts, to, w.flight[i]);
  }

  /** A delivery lowers the measure if and only if the packet is no well-formed request or at most one of those
      that hear it has the target's address. */
  lemma DeliveryLowersMeasure(w: World, to: set<nat>, i: nat)
    requires i < |w.flight|
    ensures Measure(Step(w, Deliver(to, i)).flight) < Measure(w.flight) <==>
      (Asks(w.flight[i]) ==> OneHearer(w.hosts, to, w.flight[i].dstIp))
  {
    DeliveryMeasure(w, to, i);
    AnswerCount(w.hosts, to, w.flight[i]);
    OneHearerIff(w.hosts, to, w.flight[i].dstIp);
  }

  /** A loss always does. */
  lemma LossLowersMeasure(w: World, i: nat)
    requires i < |w.flight|
    ensures Measure(Step(w, Lose(i)).flight) < Measure(w.flight)
  {
    MeasureWithout(w.flight, i);
  }

  /** A loss, or a delivery to hearers of which at most one has the target's address. */
  ghost predicate Settles(w: World, a: Action) {
    match a
    case Deliver(to, i) => i < |w.flight| && (Asks(w.flight[i]) ==> OneHearer(w.hosts, to, w.flight[i].dstIp))
    case Lose(i) => i < |w.flight|
    case _ => false
  }

  ghost predicate Settling(w: World, acts: seq<Action>) {
    forall n :: 0 <= n < |acts| ==> Settles(Run(w, acts[..n]), acts[n])
  }

  /** Left alone, a network goes quiet within as many such deliveries as the measure. */
  lemma {:induction false} GoesQuiet(w: World, acts: seq<Action>)
    requires Settling(w, acts)
    ensures |acts| + Measure(Run(w, acts).flight) <= Measure(w.flight)
  {
    if acts != [] {
      var n := |acts| - 1;
      var init := acts[..n];
      forall k | 0 <= k < n ensures init[..k] == acts[..k] {
      }
      GoesQuiet(w, init);
      assert Settles(Run(w, init), acts[n]);
      if acts[n].Deliver? {
        DeliveryLowersMeasure(Run(w, init), acts[n].to, acts[n].i);
      } else {
        LossLowersMeasure(Run(w, init), acts[n].i);
      }
    }
  }

  lemma {:induction false} RunSameHosts(w: World, acts: seq<Action>)
    ensures SameHosts(w, Run(w, acts))
  {
    if acts != [] { RunSameHosts(w, acts[..|acts| - 1]); }
  }

  /** With distinct addresses every delivery is such a one, broadcasts included. */
  lemma DistinctGoesQuiet(w: World, acts: seq<Action>)
    requires DistinctIps(w.hosts)
    requires forall n :: 0 <= n < |acts| ==>
      (acts[n].Deliver? || acts[n].Lose?) && acts[n].i < |Run(w, acts[..n]).flight|
    ensures |acts| + Measure(Run(w, acts).flight) <= Measure(w.flight)
  {
    forall n | 0 <= n < |acts| ensures Settles(Run(w, acts[..n]), acts[n]) {
      RunSameHosts(w, acts[..n]);
    }
    GoesQuiet(w, acts);
  }

  // ---------------------------------------------------------------- resolution

  lemma {:induction false} CachedForever(w: World, acts: seq<Action>, h: nat, k: nat)
    requires h < |w.hosts| && k in w.hosts[h].cache
    ensures |Run(w, acts).hosts| == |w.hosts| && k in Run(w, acts).hosts[h].cache
  {
    if acts != [] { CachedForever(w, acts[..|acts| - 1], h, k); }
  }

  /** Host h has the address of host o cached with o's MAC. */
  ghost predicate Resolves(w: World, h: nat, o: nat) {
    h < |w.hosts| && o < |w.hosts| && Key(w.hosts[o].ip) in w.hosts[h].cache &&
    w.hosts[h].cache[Key(w.hosts[o].ip)] == w.hosts[o].mac
  }

  lemma StillResolves(w: World, acts: seq<Action>, h: nat, o: nat)
    requires Truthful(w) && DistinctIps(w.hosts) && Resolves(w, h, o)
    ensures Resolves(Run(w, acts), h, o)
  {
    CachedForever(w, acts, h, Key(w.hosts[o].ip));
    RunTruthful(w, acts);
    OwnersMac(Run(w, acts), o);
  }

  /** Once a packet for host h from the owner of o is delivered to h, among others or alone, h resolves o
      for ever after. */
  lemma DeliveredSticks(w: World, to: set<nat>, h: nat, i: nat, o: nat, acts: seq<Action>)
    requires Truthful(w) && DistinctIps(w.hosts) && h < |w.hosts| && h in to && o < |w.hosts| && i < |w.flight|
    requires WellFormed(w.flight[i]) && w.flight[i].dstIp == w.hosts[h].ip && w.flight[i].srcIp == w.hosts[o].ip
    ensures Resolves(Step(w, Deliver(to, i)), h, o)
    ensures Resolves(Run(Step(w, Deliver(to, i)), acts), h, o)
  {
    var w1 := Step(w, Deliver(to, i));
    StepTruthful(w, Deliver(to, i));
    OwnersMac(w, o);
    StillResolves(w1, acts, h, o);
  }

  lemma BothResolve(w: World, a: nat, b: nat, i: nat, bs: set<nat>, ys: seq<Action>,
                    w': World, j: nat, cs: set<nat>, zs: seq<Action>)
    requires Truthful(w) && DistinctIps(w.hosts) && a < |w.hosts| && b < |w.hosts| && b in bs && a in cs
    requires i < |w.flight| && WellFormed(w.flight[i])
    requires w.flight[i].srcIp == w.hosts[a].ip && w.flight[i].dstIp == w.hosts[b].ip
    requires w' == Run(Step(w, Deliver(bs, i)), ys) && j < |w'.flight| && WellFormed(w'.flight[j])
    requires w'.flight[j].srcIp == w.hosts[b].ip && w'.flight[j].dstIp == w.hosts[a].ip
    ensures var v := Run(Step(w', Deliver(cs, j)), zs); Resolves(v, a, b) && Resolves(v, b, a)
  {
    StepTruthful(w, Deliver(bs, i));
    RunTruthful(Step(w, Deliver(bs, i)), ys);
    DeliveredSticks(w, bs, b, i, a, ys);
    StepTruthful(w', Deliver(cs, j));
    DeliveredSticks(w', cs, a, j, b, zs);
    CachedForever(w', [Deliver(cs, j)], b, Key(w.hosts[a].ip));
    OwnersMac(Step(w', Deliver(cs, j)), a);
    StillResolves(Step(w', Deliver(cs, j)), zs, b, a);
  }

  /** Where packet i is after these actions, unless one of them delivers or loses it. */
  function Track(acts: seq<Action>, i: nat): Option<nat> {
    if acts == [] then Some(i)
    else match Track(acts[..|acts| - 1], i)
      case None => None
      case Some(j) => After(acts[|acts| - 1], j)
  }

  function After(a: Action, j: nat): Option<nat> {
    if a.Deliver? || a.Lose?
    then if a.i < j then Some(j - 1) else if a.i == j then None else Some(j)
    else Some(j)
  }

  /** Action n delivers or loses the packet that was at i before the actions. */
  ghost predicate Takes(acts: seq<Action>, n: nat, i: nat) {
    n < |acts| && (acts[n].Deliver? || acts[n].Lose?) && Track(acts[..n], i) == Some(acts[n].i)
  }

  lemma StepTracks(w: World, a: Action, j: nat)
    requires j < |w.flight| && After(a, j).Some?
    ensures After(a, j).value < |Step(w, a).flight| && Step(w, a).flight[After(a, j).value] == w.flight[j]
  {
  }

  /** A packet is gone exactly when some action delivers or loses it where it was. */
  lemma {:induction false} GoneIff(acts: seq<Action>, i: nat)
    ensures Track(acts, i) == None <==> exists n: nat :: Takes(acts, n, i)
  {
    if acts != [] {
      var m := |acts| - 1;
      var init := acts[..m];
      GoneIff(init, i);
      forall n: nat | n < m ensures Takes(acts, n, i) <==> Takes(init, n, i) {
        assert init[..n] == acts[..n];
      }
      if Track(acts, i) == None && Track(init, i) == None {
        var n: nat :| Takes(init, n, i);
        assert Takes(acts, n, i);
      } else if Track(acts, i) == None {
        assert Takes(acts, m, i);
      }
      if n: nat :| Takes(acts, n, i) { assert n < m ==> Takes(init, n, i); }
    }
  }

  lemma {:induction false} RunTracks(w: World, acts: seq<Action>, i: nat)
    requires i < |w.flight| && Track(acts, i).Some?
    ensures Track(acts, i).value < |Run(w, acts).flight| && Run(w, acts).flight[Track(acts, i).value] == w.flight[i]
  {
    if acts != [] {
      var n := |acts| - 1;
      RunTracks(w, acts[..n], i);
      StepTracks(Run(w, acts[..n]), acts[n], Track(acts[..n], i).value);
    }
  }

  /** A lookup of an address that is not cached broadcasts exactly one packet: a request for that address from the
      host's own pair. A cached one changes nothing. */
  lemma LookupAsks(w: World, h: nat, target: u32)
    requires h < |w.hosts|
    ensures Step(w, Lookup(h, target)) ==
      if Key(target) in w.hosts[h].cache then w
      else World(w.hosts, w.flight + [ArpPacket(0x0100, 0x0008, 6, 4, 0x0100, w.hosts[h].mac, w.hosts[h].ip,
                                                [0xff, 0xff, 0xff, 0xff, 0xff, 0xff], target)])
  {
    PacketsOnTheWire(w.hosts[h].ip, w.hosts[h].mac, target, Request(w.hosts[h].ip, w.hosts[h].mac, target));
  }

  /** A request heard by the one host with the target's address leaves the link, and that host's reply enters it
      as the last packet. */
  lemma RequestIsAnswered(w: World, to: set<nat>, i: nat, b: nat)
    requires i < |w.flight| && b in to && b < |w.hosts|
    requires IsRequest(w.flight[i]) && w.flight[i].dstIp == w.hosts[b].ip && OneHearer(w.hosts, to, w.hosts[b].ip)
    ensures var p := w.flight[i];
      Step(w, Deliver(to, i)).flight == w.flight[..i] + w.flight[i + 1..] +
        [ArpPacket(0x0100, 0x0008, 6, 4, 0x0200, w.hosts[b].mac, w.hosts[b].ip, p.srcMac, p.srcIp)]
  {
    TheOnlyAnswer(w.hosts, to, w.flight[i], b);
    PacketsOnTheWire(w.hosts[b].ip, w.hosts[b].mac, 0, w.flight[i]);
  }

  /** A delivery of anything but a well-formed request takes it off the link and puts nothing on it. */
  lemma OthersUnanswered(w: World, to: set<nat>, i: nat)
    requires i < |w.flight| && !IsRequest(w.flight[i])
    ensures Step(w, Deliver(to, i)).flight == w.flight[..i] + w.flight[i + 1..]
  {
    AnswerCount(w.hosts, to, w.flight[i]);
    PacketsOnTheWire(0, BROADCAST, 0, w.flight[i]);
  }

  /** The hosts outside `to` hear nothing, those in it learn by the reception algorithm; a duplicate is the same
      packet once more, a loss takes exactly that packet away. */
  lemma OnlyHearersLearn(w: World, to: set<nat>, i: nat, h: nat)
    requires i < |w.flight| && h < |w.hosts|
    ensures var host := Step(w, Deliver(to, i)).hosts[h];
      host == if h in to then w.hosts[h].(cache := Receive(w.hosts[h].cache, w.hosts[h].ip, w.flight[i]))
              else w.hosts[h]
    ensures Step(w, Duplicate(i)) == World(w.hosts, w.flight + [w.flight[i]])
    ensures Step(w, Lose(i)) == World(w.hosts, w.flight[..i] + w.flight[i + 1..])
  {
  }

  /** Where the reply to the request at i will be: last. */
  lemma ReplyInFlight(w: World, bs: set<nat>, i: nat, a: nat, b: nat)
    requires DistinctIps(w.hosts) && a < |w.hosts| && b < |w.hosts| && b in bs && i < |w.flight|
    requires w.flight[i] == Request(w.hosts[a].ip, w.hosts[a].mac, w.hosts[b].ip)
    ensures var f := Step(w, Deliver(bs, i)).flight;
      && |f| == |w.flight| && WellFormed(f[|f| - 1])
      && f[|f| - 1].srcIp == w.hosts[b].ip && f[|f| - 1].dstIp == w.hosts[a].ip
  {
    PacketsOnTheWire(w.hosts[a].ip, w.hosts[a].mac, w.hosts[b].ip, w.flight[i]);
    DistinctIsEnough(w.hosts, bs, w.flight[i]);
    RequestIsAnswered(w, bs, i, b);
    var f := Step(w, Deliver(bs, i)).flight;
    PacketsOnTheWire(0, BROADCAST, 0, f[|f| - 1]);
  }

  lemma RequestCompletes(w: World, a: nat, b: nat, i: nat, bs: set<nat>, ys: seq<Action>,
                         w': World, j: nat, cs: set<nat>, zs: seq<Action>)
    requires Truthful(w) && DistinctIps(w.hosts) && a < |w.hosts| && b < |w.hosts| && b in bs && a in cs
    requires i < |w.flight| && w.flight[i] == Request(w.hosts[a].ip, w.hosts[a].mac, w.hosts[b].ip)
    requires w' == Run(Step(w, Deliver(bs, i)), ys) && Track(ys, |w.flight| - 1) == Some(j)
    ensures j < |w'.flight|
    ensures var v := Run(Step(w', Deliver(cs, j)), zs); Resolves(v, a, b) && Resolves(v, b, a)
  {
    ReplyInFlight(w, bs, i, a, b);
    RunTracks(Step(w, Deliver(bs, i)), ys, |w.flight| - 1);
    PacketShapes(w.hosts[a].ip, w.hosts[a].mac, w.hosts[b].ip, w.flight[i]);
    BothResolve(w, a, b, i, bs, ys, w', j, cs, zs);
  }

  /** A lookup completes across any interleaving. Anything may happen after the lookup, as long as its request is
      neither delivered nor lost; then the request, wherever it is, is delivered to b; anything may happen again,
      as long as b's reply is neither delivered nor lost; then that is delivered to a. Ever after each of the two
      resolves the other. All deliveries may be to others as well. */
  lemma LookupCompletes(w: World, a: nat, b: nat, xs: seq<Action>, w2: World, i: nat, bs: set<nat>, ys: seq<Action>,
                        w4: World, j: nat, cs: set<nat>, zs: seq<Action>)
    requires Truthful(w) && DistinctIps(w.hosts) && a < |w.hosts| && b < |w.hosts| && b in bs && a in cs
    requires Key(w.hosts[b].ip) !in w.hosts[a].cache
    requires w2 == Run(Step(w, Lookup(a, w.hosts[b].ip)), xs) && Track(xs, |w.flight|) == Some(i)
    requires w4 == Run(Step(w2, Deliver(bs, i)), ys) && |w2.flight| > 0 && Track(ys, |w2.flight| - 1) == Some(j)
    ensures i < |w2.flight| && j < |w4.flight|
    ensures var v := Run(Step(w4, Deliver(cs, j)), zs); Resolves(v, a, b) && Resolves(v, b, a)
  {
    var w1 := Step(w, Lookup(a, w.hosts[b].ip));
    StepTruthful(w, Lookup(a, w.hosts[b].ip));
    RunTruthful(w1, xs);
    assert w1.flight[|w.flight|] == Request(w.hosts[a].ip, w.hosts[a].mac, w.hosts[b].ip);
    RunTracks(w1, xs, |w.flight|);
    RequestCompletes(w2, a, b, i, bs, ys, w4, j, cs, zs);
  }

  /** With nothing in between: the request is the last packet, and so is the reply; delivered one after the other
      they leave the link as it was. */
  lemma LookupCompletesAtOnce(w: World, a: nat, b: nat, bs: set<nat>, cs: set<nat>)
    requires Truthful(w) && DistinctIps(w.hosts) && a < |w.hosts| && b < |w.hosts| && b in bs && a in cs
    requires Key(w.hosts[b].ip) !in w.hosts[a].cache
    ensures var n := |w.flight|;
      var v := Step(Step(Step(w, Lookup(a, w.hosts[b].ip)), Deliver(bs, n)), Deliver(cs, n));
      v.flight == w.flight && Resolves(v, a, b) && Resolves(v, b, a)
  {
    var n := |w.flight|;
    var w1 := Step(w, Lookup(a, w.hosts[b].ip));
    var w3 := Step(w1, Deliver(bs, n));
    LookupCompletes(w, a, b, [], w1, n, bs, [], w3, n, cs, []);
    LookupAsks(w, a, w.hosts[b].ip);
    DistinctIsEnough(w.hosts, bs, w1.flight[n]);
    RequestIsAnswered(w1, bs, n, b);
    assert w1.flight[..n] + w1.flight[n + 1..] == w.flight;
    OthersUnanswered(w3, cs, n);
    assert w3.flight[..n] + w3.flight[n + 1..] == w.flight;
  }

  /** The bare exchange, from any pair of caches, truthful or not. */
  lemma ExchangeResolves(a: Host, b: Host)
    ensures var request := Request(a.ip, a.mac, b.ip);
      var reply := Reply(b.ip, b.mac, request);
      && reply.Some?
      && Receive(b.cache, b.ip, request) == b.cache[Key(a.ip) := a.mac]
      && Receive(a.cache, a.ip, reply.value) == a.cache[Key(b.ip) := b.mac]
      && Reply(a.ip, a.mac, reply.value) == None
  {
    var request := Request(a.ip, a.mac, b.ip);
    PacketShapes(a.ip, a.mac, b.ip, request);
    PacketShapes(b.ip, b.mac, 0, request);
  }
}
