/** Any number of threads of one host inside arp_receive and arp_resolve_ipv4, interleaved at every
    access to the shared table. Each lookup, copy and put is one atomic step, although the code takes
    the mutex only around the membership test and the puts. Sending a reply touches nothing shared. */
module ArpThreads {
  import opened Bytes
  import opened Net
  import opened Options
  import opened ProbeTable
  import opened ArpKeys
  import opened ArpSpec

  /** Where a thread is. `cell` is the MAC pointer it holds. */
  datatype Pc =
    | Idle
    | Checking(p: ArpPacket)               // before is_in_arp_cache
    | Getting(p: ArpPacket)                // set_in_arp_cache, before hashmap_get
    | Copying(p: ArpPacket, cell: nat)     // before the memcpy into the stored cell
    | Putting(p: ArpPacket, cell: nat)     // before the put through the stack key
    | Adding(p: ArpPacket)                 // add_to_arp_cache, before the allocation
    | AddPutting(p: ArpPacket, cell: nat)  // before the put of the new key and cell
    | Fetching(ip: u32)                    // arp_resolve_ipv4, before hashmap_get
    | Holding(ip: u32, cell: nat)          // the pointer arp_resolve_ipv4 returned
    | Failed                               // the non-NULL assertion was violated

  datatype Input = Packet(p: ArpPacket) | Resolve(ip: u32)

  /** Cells are numbered in order of allocation; `owner` records, for the proof, the address each was
      allocated for, and `heard` every packet received. */
  datatype State = State(
    me: u32, cache: map<KeyRef, nat>, cells: seq<Mac>, threads: seq<Pc>, owner: seq<u32>, heard: seq<ArpPacket>)

  ghost function Find(s: State, ip: u32): Option<nat> {
    Get(WORDS, s.cache, KeyRef(false, Key(ip)))
  }

  /** Thread t takes its next step; an idle one takes the input. */
  ghost function Step(s: State, t: nat, input: Input): State {
    if t >= |s.threads| then s else
    match s.threads[t]
    case Idle =>
      (match input
       case Packet(p) =>
         s.(heard := s.heard + [p], threads := s.threads[t := if WellFormed(p) then Checking(p) else Idle])
       case Resolve(ip) => s.(threads := s.threads[t := if Find(s, ip).Some? then Fetching(ip) else Idle]))
    case Checking(p) =>
      s.(threads := s.threads[t :=
        if Find(s, p.srcIp).Some? then Getting(p) else if p.dstIp == s.me then Adding(p) else Idle])
    case Getting(p) =>
      s.(threads := s.threads[t := match Find(s, p.srcIp) case Some(c) => Copying(p, c) case None => Failed])
    case Copying(p, c) =>
      if c < |s.cells| then s.(cells := s.cells[c := p.srcMac], threads := s.threads[t := Putting(p, c)]) else s
    case Putting(p, c) =>
      s.(cache := Put(WORDS, s.cache, KeyRef(false, Key(p.srcIp)), c), threads := s.threads[t := Idle])
    case Adding(p) =>
      s.(cells := s.cells + [p.srcMac], owner := s.owner + [p.srcIp],
         threads := s.threads[t := AddPutting(p, |s.cells|)])
    case AddPutting(p, c) =>
      s.(cache := Put(WORDS, s.cache, KeyRef(true, Key(p.srcIp)), c), threads := s.threads[t := Idle])
    case Fetching(ip) =>
      s.(threads := s.threads[t := match Find(s, ip) case Some(c) => Holding(ip, c) case None => Failed])
    case Holding(ip, c) => s.(threads := s.threads[t := Idle])
    case Failed => s
  }

  ghost function Run(s: State, sched: seq<(nat, Input)>): State {
    if sched == [] then s
    else var x := sched[|sched| - 1]; Step(Run(s, sched[..|sched| - 1]), x.0, x.1)
  }

  ghost predicate Initial(s: State) {
    s.cache == map[] && s.cells == [] && s.owner == [] && s.heard == [] &&
    forall t :: 0 <= t < |s.threads| ==> s.threads[t] == Idle
  }

  // ---------------------------------------------------------------- the invariant

  /** Some packet announced this MAC for this address. */
  ghost predicate Announced(heard: seq<ArpPacket>, a: u32, mac: Mac) {
    exists i: nat :: Announces(heard, i, a) && heard[i].srcMac == mac
  }

  /** Some packet from this address targeted us. */
  ghost predicate Targeted(heard: seq<ArpPacket>, me: u32, a: u32) {
    exists i: nat :: Announces(heard, i, a) && heard[i].dstIp == me
  }

  ghost predicate Cached(s: State, ip: u32) {
    KeyRef(true, Key(ip)) in s.cache
  }

  ghost predicate Heard(s: State, p: ArpPacket) {
    WellFormed(p) && p in s.heard
  }

  /** The cell was allocated for this address. */
  ghost predicate Own(s: State, cell: nat, ip: u32) {
    cell < |s.owner| && s.owner[cell] == ip
  }

  ghost predicate ThreadOk(s: State, pc: Pc) {
    match pc
    case Idle => true
    case Checking(p) => Heard(s, p)
    case Getting(p) => Heard(s, p) && Cached(s, p.srcIp)
    case Copying(p, c) => Heard(s, p) && Cached(s, p.srcIp) && Own(s, c, p.srcIp)
    case Putting(p, c) => Heard(s, p) && Cached(s, p.srcIp) && Own(s, c, p.srcIp)
    case Adding(p) => Heard(s, p) && p.dstIp == s.me
    case AddPutting(p, c) => Heard(s, p) && p.dstIp == s.me && Own(s, c, p.srcIp)
    case Fetching(ip) => Cached(s, ip)
    case Holding(ip, c) => Own(s, c, ip)
    case Failed => false
  }

  ghost predicate EntryOk(s: State, k: KeyRef) {
    k in s.cache && s.cache[k] < |s.owner| &&
    (var a := s.owner[s.cache[k]]; k == KeyRef(true, Key(a)) && Targeted(s.heard, s.me, a))
  }

  ghost predicate EntriesOk(s: State) {
    forall k :: k in s.cache ==> EntryOk(s, k)
  }

  /** Every cell holds a MAC announced for its owner. */
  ghost predicate CellsOk(heard: seq<ArpPacket>, owner: seq<u32>, cells: seq<Mac>) {
    |owner| == |cells| && forall c :: 0 <= c < |cells| ==> Announced(heard, owner[c], cells[c])
  }

  ghost predicate Inv(s: State) {
    && CellsOk(s.heard, s.owner, s.cells)
    && EntriesOk(s)
    && (forall t :: 0 <= t < |s.threads| ==> ThreadOk(s, s.threads[t]))
  }

  /** What no step undoes. */
  ghost predicate Grows(s: State, s': State) {
    && s'.me == s.me && s.heard <= s'.heard && s.owner <= s'.owner
    && (forall k :: k in s.cache ==> k in s'.cache)
  }

  /** A lookup finds exactly the cached words, each with its own cell. */
  lemma FindIff(s: State, ip: u32)
    requires Inv(s)
    ensures Find(s, ip).Some? <==> Cached(s, ip)
    ensures Find(s, ip).Some? ==> Own(s, Find(s, ip).value, ip)
  {
  }

  lemma AnnouncedLater(heard: seq<ArpPacket>, heard': seq<ArpPacket>, a: u32, mac: Mac)
    requires Announced(heard, a, mac) && heard <= heard'
    ensures Announced(heard', a, mac)
  {
    var i: nat :| Announces(heard, i, a) && heard[i].srcMac == mac;
    assert Announces(heard', i, a);
  }

  lemma TargetedLater(heard: seq<ArpPacket>, heard': seq<ArpPacket>, me: u32, a: u32)
    requires Targeted(heard, me, a) && heard <= heard'
    ensures Targeted(heard', me, a)
  {
    var i: nat :| Announces(heard, i, a) && heard[i].dstIp == me;
    assert Announces(heard', i, a);
  }

  lemma EntriesKeep(s: State, s': State)
    requires EntriesOk(s) && Grows(s, s') && s'.cache == s.cache
    ensures EntriesOk(s')
  {
    forall k | k in s'.cache ensures EntryOk(s', k) {
      assert EntryOk(s, k);
      TargetedLater(s.heard, s'.heard, s.me, s.owner[s.cache[k]]);
    }
  }

  /** A packet heard bears witness to its own announcement. */
  lemma HeardAnnounces(s: State, p: ArpPacket)
    requires Heard(s, p)
    ensures Announced(s.heard, p.srcIp, p.srcMac)
    ensures p.dstIp == s.me ==> Targeted(s.heard, s.me, p.srcIp)
  {
    var i :| 0 <= i < |s.heard| && s.heard[i] == p;
    assert Announces(s.heard, i, p.srcIp);
  }

  lemma CellsKeep(heard: seq<ArpPacket>, heard': seq<ArpPacket>, owner: seq<u32>, cells: seq<Mac>)
    requires CellsOk(heard, owner, cells) && heard <= heard'
    ensures CellsOk(heard', owner, cells)
  {
    forall a, mac | Announced(heard, a, mac) ensures Announced(heard', a, mac) {
      AnnouncedLater(heard, heard', a, mac);
    }
  }

  ghost predicate SharedOk(s: State, s': State) {
    Grows(s, s') && CellsOk(s'.heard, s'.owner, s'.cells) && EntriesOk(s')
  }

  /** A put through either kind of pointer lands on the heap key of the address. */
  lemma PutLands(s: State, heap: bool, ip: u32, c: nat)
    requires Inv(s) && (heap || Cached(s, ip))
    ensures Put(WORDS, s.cache, KeyRef(heap, Key(ip)), c) == s.cache[KeyRef(true, Key(ip)) := c]
  {
    var k := KeyRef(true, Key(ip));
    match Stored(WORDS, s.cache, KeyRef(heap, Key(ip))) {
      case Some(k') => assert EntryOk(s, k') && k' == k;
      case None => assert WORDS.eq(KeyRef(heap, Key(ip)), k);
    }
  }

  lemma PutStep(s: State, t: nat, input: Input)
    requires Inv(s) && t < |s.threads| && (s.threads[t].Putting? || s.threads[t].AddPutting?)
    ensures SharedOk(s, Step(s, t, input))
  {
    var p, c, s' := s.threads[t].p, s.threads[t].cell, Step(s, t, input);
    assert ThreadOk(s, s.threads[t]);
    PutLands(s, s.threads[t].AddPutting?, p.srcIp, c);
    if s.threads[t].AddPutting? { HeardAnnounces(s, p); } else { assert EntryOk(s, KeyRef(true, Key(p.srcIp))); }
    forall k | k in s'.cache ensures EntryOk(s', k) {
      if k != KeyRef(true, Key(p.srcIp)) { assert EntryOk(s, k); }
    }
  }

  lemma CopyStep(s: State, t: nat, input: Input)
    requires Inv(s) && t < |s.threads| && s.threads[t].Copying?
    ensures SharedOk(s, Step(s, t, input))
  {
    assert ThreadOk(s, s.threads[t]);
    HeardAnnounces(s, s.threads[t].p);
    EntriesKeep(s, Step(s, t, input));
  }

  lemma AddStep(s: State, t: nat, input: Input)
    requires Inv(s) && t < |s.threads| && s.threads[t].Adding?
    ensures SharedOk(s, Step(s, t, input))
  {
    assert ThreadOk(s, s.threads[t]);
    HeardAnnounces(s, s.threads[t].p);
    EntriesKeep(s, Step(s, t, input));
  }

  lemma QuietStep(s: State, t: nat, input: Input)
    requires t < |s.threads| && var pc := s.threads[t]; !(pc.Putting? || pc.AddPutting? || pc.Copying? || pc.Adding?)
    ensures var s' := Step(s, t, input);
      s'.me == s.me && s'.cache == s.cache && s'.owner == s.owner && s'.cells == s.cells && s.heard <= s'.heard
  {
  }

  /** The stepping thread's part: what it changes in the shared state is in order. */
  lemma StepLocal(s: State, t: nat, input: Input)
    requires Inv(s) && t < |s.threads|
    ensures SharedOk(s, Step(s, t, input))
  {
    var pc, s' := s.threads[t], Step(s, t, input);
    if pc.Putting? || pc.AddPutting? {
      PutStep(s, t, input);
    } else if pc.Copying? {
      CopyStep(s, t, input);
    } else if pc.Adding? {
      AddStep(s, t, input);
    } else {
      QuietStep(s, t, input);
      CellsKeep(s.heard, s'.heard, s.owner, s.cells);
      EntriesKeep(s, s');
    }
  }

  /** The thread that moved is at a good place again. */
  lemma StepMoves(s: State, t: nat, input: Input)
    requires Inv(s) && t < |s.threads|
    ensures ThreadOk(Step(s, t, input), Step(s, t, input).threads[t])
  {
    var s' := Step(s, t, input);
    assert ThreadOk(s, s.threads[t]);
    match s.threads[t] {
      case Idle =>
        if input.Packet? { assert s'.heard[|s.heard|] == input.p; } else { FindIff(s, input.ip); }
      case Checking(p) => FindIff(s, p.srcIp);
      case Getting(p) => FindIff(s, p.srcIp);
      case Fetching(ip) => FindIff(s, ip);
      case _ =>
    }
  }

  lemma StepOthers(s: State, t: nat, input: Input)
    ensures var s' := Step(s, t, input);
      |s'.threads| == |s.threads| && forall u :: 0 <= u < |s.threads| && u != t ==> s'.threads[u] == s.threads[u]
  {
  }

  lemma OthersKeep(s: State, s': State, t: nat)
    requires Inv(s) && Grows(s, s') && |s'.threads| == |s.threads|
    requires forall u :: 0 <= u < |s.threads| && u != t ==> s'.threads[u] == s.threads[u]
    requires t < |s.threads| ==> ThreadOk(s', s'.threads[t])
    ensures forall u :: 0 <= u < |s'.threads| ==> ThreadOk(s', s'.threads[u])
  {
  }

  lemma StepInv(s: State, t: nat, input: Input)
    requires Inv(s)
    ensures Inv(Step(s, t, input)) && Grows(s, Step(s, t, input))
  {
    if t < |s.threads| {
      StepLocal(s, t, input);
      StepMoves(s, t, input);
      StepOthers(s, t, input);
      OthersKeep(s, Step(s, t, input), t);
    }
  }

  /** Every schedule of every number of threads keeps the invariant. */
  lemma {:induction false} RunInv(s: State, sched: seq<(nat, Input)>)
    requires Inv(s)
    ensures Inv(Run(s, sched)) && Grows(s, Run(s, sched))
  {
    if sched != [] {
      var n := |sched| - 1;
      RunInv(s, sched[..n]);
      StepInv(Run(s, sched[..n]), sched[n].0, sched[n].1);
    }
  }

  // ---------------------------------------------------------------- what every interleaving guarantees

  lemma CachedIsGood(v: State, a: u32)
    requires Inv(v) && Cached(v, a)
    ensures var c := v.cache[KeyRef(true, Key(a))];
      c < |v.cells| && Announced(v.heard, a, v.cells[c]) && Targeted(v.heard, v.me, a)
  {
    assert EntryOk(v, KeyRef(true, Key(a)));
  }

  lemma KeysAreGood(v: State)
    requires Inv(v)
    ensures forall k :: k in v.cache ==> exists a: u32 :: k == KeyRef(true, Key(a))
    ensures forall a, b :: a in v.cache && b in v.cache && (a.word == b.word || v.cache[a] == v.cache[b]) ==> a == b
  {
    forall k | k in v.cache ensures exists a: u32 :: k == KeyRef(true, Key(a)) {
      assert EntryOk(v, k);
    }
  }

  /** From the start, after any schedule and any continuation of it: the non-NULL assertion never
      fails, a cached key stays, keys are unique, on the heap and of IPv4 addresses, every cached MAC was
      announced for its address, and only addresses that targeted us are cached. */
  lemma ThreadsAreSafe(s: State, sched: seq<(nat, Input)>, more: seq<(nat, Input)>)
    requires Initial(s)
    ensures var v := Run(s, sched);
      && (forall t :: 0 <= t < |v.threads| ==> v.threads[t] != Failed)
      && Separated(WORDS, v.cache)
      && (forall k :: k in v.cache ==> (exists a: u32 :: k == KeyRef(true, Key(a))) && k in Run(v, more).cache)
      && (forall a :: Cached(v, a) ==> var c := v.cache[KeyRef(true, Key(a))];
            c < |v.cells| && Announced(v.heard, a, v.cells[c]) && Targeted(v.heard, v.me, a))
      && (forall a, b :: a in v.cache && b in v.cache && v.cache[a] == v.cache[b] ==> a == b)
  {
    var v := Run(s, sched);
    RunInv(s, sched);
    RunInv(v, more);
    KeysAreGood(v);
    forall a | Cached(v, a)
      ensures var c := v.cache[KeyRef(true, Key(a))];
        c < |v.cells| && Announced(v.heard, a, v.cells[c]) && Targeted(v.heard, v.me, a)
    {
      CachedIsGood(v, a);
    }
  }

  /** A pointer returned by arp_resolve_ipv4 always shows a MAC announced for the address asked for,
      however the table changes meanwhile. */
  lemma ResolvedPointerIsGood(s: State, sched: seq<(nat, Input)>, t: nat)
    requires Initial(s) && t < |Run(s, sched).threads| && Run(s, sched).threads[t].Holding?
    ensures var v := Run(s, sched); var h := v.threads[t];
      h.cell < |v.cells| && Announced(v.heard, h.ip, v.cells[h.cell])
  {
    RunInv(s, sched);
    assert ThreadOk(Run(s, sched), Run(s, sched).threads[t]);
  }

  // ---------------------------------------------------------------- what a lookup gets

  ghost predicate NotOf(t: nat, sched: seq<(nat, Input)>) {
    forall i :: 0 <= i < |sched| ==> sched[i].0 != t
  }

  lemma {:induction false} OthersLeave(s: State, sched: seq<(nat, Input)>, t: nat)
    requires NotOf(t, sched) && t < |s.threads|
    ensures t < |Run(s, sched).threads| && Run(s, sched).threads[t] == s.threads[t]
  {
    if sched != [] {
      var n := |sched| - 1;
      OthersLeave(s, sched[..n], t);
      StepOthers(Run(s, sched[..n]), sched[n].0, sched[n].1);
    }
  }

  /** A lookup of an address that is not cached gets nothing and changes nothing shared; of a cached one it goes on
      to the table. */
  lemma LookupStarts(s: State, t: nat, ip: u32)
    requires Inv(s) && t < |s.threads| && s.threads[t] == Idle
    ensures Step(s, t, Resolve(ip)) == if Cached(s, ip) then s.(threads := s.threads[t := Fetching(ip)]) else s
  {
    FindIff(s, ip);
    assert s.threads[t := Idle] == s.threads;
  }

  lemma LookupFetches(s: State, t: nat, ip: u32, input: Input)
    requires Inv(s) && t < |s.threads| && s.threads[t] == Fetching(ip) && Cached(s, ip)
    ensures Step(s, t, input) == s.(threads := s.threads[t := Holding(ip, s.cache[KeyRef(true, Key(ip))])])
  {
    var k := KeyRef(true, Key(ip));
    assert WORDS.eq(KeyRef(false, Key(ip)), k);
    var k' := Stored(WORDS, s.cache, KeyRef(false, Key(ip))).value;
    assert EntryOk(s, k') && k' == k;
  }

  /** Whatever the other threads do in between, a lookup of a cached address returns, in two steps, the cell stored
      for the address at the second of them, which shows a MAC announced for it, and at the third the thread is
      free again. Neither step changes anything shared. */
  lemma LookupReturns(s: State, t: nat, ip: u32, others: seq<(nat, Input)>, input: Input)
    requires Inv(s) && t < |s.threads| && s.threads[t] == Idle && Cached(s, ip) && NotOf(t, others)
    ensures Step(s, t, Resolve(ip)) == s.(threads := s.threads[t := Fetching(ip)])
    ensures var v := Run(Step(s, t, Resolve(ip)), others);
      && Cached(v, ip) && t < |v.threads|
      && var c := v.cache[KeyRef(true, Key(ip))];
         && Step(v, t, input) == v.(threads := v.threads[t := Holding(ip, c)])
         && c < |v.cells| && Announced(v.heard, ip, v.cells[c])
         && Step(Step(v, t, input), t, input) == v.(threads := v.threads[t := Idle])
  {
    var s1 := Step(s, t, Resolve(ip));
    LookupStarts(s, t, ip);
    StepInv(s, t, Resolve(ip));
    RunInv(s1, others);
    OthersLeave(s1, others, t);
    var v := Run(s1, others);
    LookupFetches(v, t, ip, input);
    CachedIsGood(v, ip);
  }

  /** The last step of a reception stores the cell it holds for the sender, and nothing else. */
  lemma ReceptionStores(s: State, t: nat, input: Input)
    requires Inv(s) && t < |s.threads| && (s.threads[t].Putting? || s.threads[t].AddPutting?)
    ensures Step(s, t, input) == s.(threads := s.threads[t := Idle],
                                    cache := s.cache[KeyRef(true, Key(s.threads[t].p.srcIp)) := s.threads[t].cell])
  {
    assert ThreadOk(s, s.threads[t]);
    PutLands(s, s.threads[t].AddPutting?, s.threads[t].p.srcIp, s.threads[t].cell);
  }
}
