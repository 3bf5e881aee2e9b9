/** The threads of ArpThreads against the reception algorithm on the same packets in order: the same addresses
    are cached in every interleaving, and with the same MAC as long as receptions from an address do not overlap. */
module ArpSerial {
  import opened Bytes
  import opened Net
  import opened Options
  import opened ArpKeys
  import opened ArpSpec
  import opened ArpThreads

  ghost predicate Receiving(pc: Pc) {
    pc.Checking? || pc.Getting? || pc.Copying? || pc.Putting? || pc.Adding? || pc.AddPutting?
  }

  ghost predicate ReceivingFrom(pc: Pc, a: u32) {
    Receiving(pc) && pc.p.srcIp == a
  }

  /** No two threads are inside a reception from a. */
  ghost predicate NoOverlap(s: State, a: u32) {
    forall t, u :: 0 <= t < u < |s.threads| ==> !(ReceivingFrom(s.threads[t], a) && ReceivingFrom(s.threads[u], a))
  }

  ghost predicate Quiet(s: State, a: u32) {
    forall t :: 0 <= t < |s.threads| ==> !ReceivingFrom(s.threads[t], a)
  }

  function EntryOf(c: Cache, a: u32): Option<Mac> {
    if Key(a) in c then Some(c[Key(a)]) else None
  }

  /** What the table shows for an address. */
  ghost function Entry(s: State, a: u32): Option<Mac>
    requires Inv(s)
  {
    if Cached(s, a) then CachedIsGood(s, a); Some(s.cells[s.cache[KeyRef(true, Key(a))]]) else None
  }

  /** What the reception algorithm has for it after the same packets. */
  ghost function Expected(s: State, a: u32): Option<Mac> {
    EntryOf(ReceiveAll(s.me, s.heard), a)
  }

  /** The sender's entry after a well-formed packet. */
  function Merge(e: Option<Mac>, me: u32, p: ArpPacket): Option<Mac> {
    if e.Some? || p.dstIp == me then Some(p.srcMac) else e
  }

  lemma HearOne(s: State, p: ArpPacket, a: u32)
    ensures var all := EntryOf(ReceiveAll(s.me, s.heard + [p]), a);
      all == if WellFormed(p) && p.srcIp == a then Merge(Expected(s, a), s.me, p) else Expected(s, a)
  {
    assert (s.heard + [p])[..|s.heard|] == s.heard;
    if Key(p.srcIp) == Key(a) { ToKeyInjective(ARP_IPV4, p.srcIp, ARP_IPV4, a); }
  }

  ghost predicate Agrees(s: State, a: u32)
    requires Inv(s)
  {
    Entry(s, a) == Expected(s, a)
  }

  /** Finishing the reception the thread is in makes the sender's entry the expected one. */
  ghost predicate WillAgree(s: State, pc: Pc)
    requires Inv(s) && Receiving(pc)
  {
    var a, e := pc.p.srcIp, Entry(s, pc.p.srcIp);
    && (if pc.Putting? then e else Merge(e, s.me, pc.p)) == Expected(s, a)
    && (pc.Copying? || pc.Putting? ==> Cached(s, a) && s.cache[KeyRef(true, Key(a))] == pc.cell)
    && (pc.Adding? || pc.AddPutting? ==> e == None && pc.p.dstIp == s.me)
    && (pc.AddPutting? ==> Own(s, pc.cell, a) && s.cells[pc.cell] == pc.p.srcMac)
  }

  ghost predicate Serial(s: State, a: u32) {
    && Inv(s) && NoOverlap(s, a)
    && (Quiet(s, a) ==> Agrees(s, a))
    && (forall t :: 0 <= t < |s.threads| && ReceivingFrom(s.threads[t], a) ==> WillAgree(s, s.threads[t]))
  }

  /** This step begins the reception of a packet from a. */
  ghost predicate Starts(s: State, t: nat, input: Input, a: u32)
    requires t < |s.threads|
  {
    s.threads[t].Idle? && input.Packet? && WellFormed(input.p) && input.p.srcIp == a
  }

  /** Nothing about address b differs: its entry, its cells and what is expected. */
  ghost predicate Untouched(s: State, s': State, b: u32)
    requires Inv(s) && Inv(s')
  {
    && s'.me == s.me && Entry(s', b) == Entry(s, b) && Expected(s', b) == Expected(s, b)
    && (Cached(s', b) <==> Cached(s, b))
    && (Cached(s, b) ==> s'.cache[KeyRef(true, Key(b))] == s.cache[KeyRef(true, Key(b))])
    && (forall c: nat :: Own(s, c, b) ==> Own(s', c, b) && s'.cells[c] == s.cells[c])
  }

  lemma OtherKey(s: State, s': State, b: u32, k: KeyRef, c: nat)
    requires Inv(s) && Inv(s') && k != KeyRef(true, Key(b))
    requires s'.me == s.me && s'.heard == s.heard && s'.cells == s.cells && s'.owner == s.owner
    requires s'.cache == s.cache[k := c]
    ensures Untouched(s, s', b)
  {
  }

  lemma PutUntouched(s: State, t: nat, input: Input, b: u32)
    requires Inv(s) && t < |s.threads| && (s.threads[t].Putting? || s.threads[t].AddPutting?)
    requires s.threads[t].p.srcIp != b && Inv(Step(s, t, input))
    ensures Untouched(s, Step(s, t, input), b)
  {
    assert ThreadOk(s, s.threads[t]);
    PutLands(s, s.threads[t].AddPutting?, s.threads[t].p.srcIp, s.threads[t].cell);
    OtherKey(s, Step(s, t, input), b, KeyRef(true, Key(s.threads[t].p.srcIp)), s.threads[t].cell);
  }

  lemma OtherCell(s: State, s': State, b: u32, c: nat, mac: Mac)
    requires Inv(s) && Inv(s') && c < |s.cells| && !Own(s, c, b)
    requires s'.me == s.me && s'.heard == s.heard && s'.cache == s.cache && s'.owner == s.owner
    requires s'.cells == s.cells[c := mac]
    ensures Untouched(s, s', b)
  {
    if Cached(s, b) { assert EntryOk(s, KeyRef(true, Key(b))); }
  }

  lemma CopyUntouched(s: State, t: nat, input: Input, b: u32)
    requires Inv(s) && t < |s.threads| && s.threads[t].Copying? && s.threads[t].p.srcIp != b
    requires Inv(Step(s, t, input))
    ensures Untouched(s, Step(s, t, input), b)
  {
    assert ThreadOk(s, s.threads[t]);
    OtherCell(s, Step(s, t, input), b, s.threads[t].cell, s.threads[t].p.srcMac);
  }

  lemma AddUntouched(s: State, t: nat, input: Input, b: u32)
    requires Inv(s) && t < |s.threads| && s.threads[t].Adding? && s.threads[t].p.srcIp != b
    requires Inv(Step(s, t, input))
    ensures Untouched(s, Step(s, t, input), b)
  {
    if Cached(s, b) { assert EntryOk(s, KeyRef(true, Key(b))); }
  }

  lemma SameTableUntouched(s: State, s': State, b: u32)
    requires Inv(s) && Inv(s') && s'.me == s.me && s'.cache == s.cache && s'.cells == s.cells && s'.owner == s.owner
    requires Expected(s', b) == Expected(s, b)
    ensures Untouched(s, s', b)
  {
  }

  /** What a step that only hears or moves on makes expected. */
  lemma QuietExpected(s: State, t: nat, input: Input, b: u32)
    requires t < |s.threads| && var pc := s.threads[t]; !(pc.Putting? || pc.AddPutting? || pc.Copying? || pc.Adding?)
    ensures Expected(Step(s, t, input), b) ==
      if Starts(s, t, input, b) then Merge(Expected(s, b), s.me, input.p) else Expected(s, b)
  {
    if s.threads[t].Idle? && input.Packet? { HearOne(s, input.p, b); }
  }

  /** A step touches no address but that of the packet being received or heard. */
  lemma StepUntouched(s: State, t: nat, input: Input, b: u32)
    requires Inv(s) && Inv(Step(s, t, input)) && t < |s.threads|
    requires !ReceivingFrom(s.threads[t], b) && !Starts(s, t, input, b)
    ensures Untouched(s, Step(s, t, input), b)
  {
    var pc := s.threads[t];
    if pc.Putting? || pc.AddPutting? {
      PutUntouched(s, t, input, b);
    } else if pc.Copying? {
      CopyUntouched(s, t, input, b);
    } else if pc.Adding? {
      AddUntouched(s, t, input, b);
    } else {
      QuietStep(s, t, input);
      QuietExpected(s, t, input, b);
      SameTableUntouched(s, Step(s, t, input), b);
    }
  }

  lemma UntouchedWillAgree(s: State, s': State, pc: Pc)
    requires Inv(s) && Inv(s') && Receiving(pc) && WillAgree(s, pc) && Untouched(s, s', pc.p.srcIp)
    ensures WillAgree(s', pc)
  {
  }

  // ---------------------------------------------------------------- the thread that moves

  /** The reception goes on towards the expected entry or ends with it. */
  ghost predicate Progresses(s: State, pc: Pc, a: u32)
    requires Inv(s)
  {
    if Receiving(pc) then pc.p.srcIp == a && WillAgree(s, pc) else Agrees(s, a)
  }

  lemma CheckProgresses(s: State, t: nat, input: Input)
    requires Inv(s) && t < |s.threads| && (s.threads[t].Checking? || s.threads[t].Getting?)
    requires WillAgree(s, s.threads[t]) && Inv(Step(s, t, input))
    ensures Progresses(Step(s, t, input), Step(s, t, input).threads[t], s.threads[t].p.srcIp)
  {
    var a := s.threads[t].p.srcIp;
    FindIff(s, a);
    assert ThreadOk(s, s.threads[t]);
    if Cached(s, a) { assert WORDS.eq(KeyRef(false, Key(a)), KeyRef(true, Key(a))); }
  }

  lemma CopyProgresses(s: State, t: nat, input: Input)
    requires Inv(s) && t < |s.threads| && (s.threads[t].Copying? || s.threads[t].Adding?)
    requires WillAgree(s, s.threads[t]) && Inv(Step(s, t, input))
    ensures Progresses(Step(s, t, input), Step(s, t, input).threads[t], s.threads[t].p.srcIp)
  {
    assert ThreadOk(s, s.threads[t]);
  }

  lemma PutProgresses(s: State, t: nat, input: Input)
    requires Inv(s) && t < |s.threads| && (s.threads[t].Putting? || s.threads[t].AddPutting?)
    requires WillAgree(s, s.threads[t]) && Inv(Step(s, t, input))
    ensures Progresses(Step(s, t, input), Step(s, t, input).threads[t], s.threads[t].p.srcIp)
  {
    assert ThreadOk(s, s.threads[t]);
    PutLands(s, s.threads[t].AddPutting?, s.threads[t].p.srcIp, s.threads[t].cell);
  }

  lemma OwnStep(s: State, t: nat, input: Input)
    requires Inv(s) && Inv(Step(s, t, input)) && t < |s.threads| && Receiving(s.threads[t])
    requires WillAgree(s, s.threads[t])
    ensures Progresses(Step(s, t, input), Step(s, t, input).threads[t], s.threads[t].p.srcIp)
  {
    match s.threads[t] {
      case Checking(_) | Getting(_) => CheckProgresses(s, t, input);
      case Copying(_, _) | Adding(_) => CopyProgresses(s, t, input);
      case _ => PutProgresses(s, t, input);
    }
  }

  lemma StartStep(s: State, t: nat, input: Input)
    requires Inv(s) && Inv(Step(s, t, input)) && t < |s.threads| && input.Packet? && Starts(s, t, input, input.p.srcIp)
    requires Agrees(s, input.p.srcIp)
    ensures Progresses(Step(s, t, input), Step(s, t, input).threads[t], input.p.srcIp)
  {
    QuietStep(s, t, input);
    QuietExpected(s, t, input, input.p.srcIp);
  }

  lemma QuietBefore(s: State, t: nat, input: Input, a: u32)
    requires t < |s.threads| && Starts(s, t, input, a) && NoOverlap(Step(s, t, input), a)
    ensures Quiet(s, a)
  {
    var s' := Step(s, t, input);
    assert ReceivingFrom(s'.threads[t], a);
    forall u | 0 <= u < |s.threads| ensures !ReceivingFrom(s.threads[u], a) {
      if u != t { assert s'.threads[u] == s.threads[u]; }
    }
  }

  /** A thread is receiving from a after its step only if it was before or hears a packet from a. */
  lemma MoverAddress(s: State, t: nat, input: Input, a: u32)
    requires t < |s.threads| && ReceivingFrom(Step(s, t, input).threads[t], a)
    ensures ReceivingFrom(s.threads[t], a) || Starts(s, t, input, a)
  {
  }

  /** The address the step is about keeps its way to the expected entry. */
  lemma MoverSerial(s: State, t: nat, input: Input, a: u32)
    requires Serial(s, a) && t < |s.threads| && Inv(Step(s, t, input)) && NoOverlap(Step(s, t, input), a)
    requires ReceivingFrom(s.threads[t], a) || Starts(s, t, input, a)
    ensures Serial(Step(s, t, input), a)
  {
    var s' := Step(s, t, input);
    if ReceivingFrom(s.threads[t], a) {
      OwnStep(s, t, input);
    } else {
      QuietBefore(s, t, input, a);
      StartStep(s, t, input);
    }
    StepOthers(s, t, input);
    assert Progresses(s', s'.threads[t], a);
    forall u | 0 <= u < |s.threads| && u != t ensures !ReceivingFrom(s'.threads[u], a) {
      assert s'.threads[u] == s.threads[u];
    }
  }

  /** Every other address is left alone. */
  lemma OtherSerial(s: State, t: nat, input: Input, a: u32)
    requires Serial(s, a) && t < |s.threads| && Inv(Step(s, t, input)) && NoOverlap(Step(s, t, input), a)
    requires !ReceivingFrom(s.threads[t], a) && !Starts(s, t, input, a)
    ensures Serial(Step(s, t, input), a)
  {
    var s' := Step(s, t, input);
    StepUntouched(s, t, input, a);
    StepOthers(s, t, input);
    forall u | 0 <= u < |s.threads|
      ensures ReceivingFrom(s'.threads[u], a) <==> ReceivingFrom(s.threads[u], a)
      ensures ReceivingFrom(s'.threads[u], a) ==> s'.threads[u] == s.threads[u]
    {
      if u == t && ReceivingFrom(s'.threads[t], a) { MoverAddress(s, t, input, a); }
    }
    forall u | 0 <= u < |s.threads| && ReceivingFrom(s'.threads[u], a) ensures WillAgree(s', s'.threads[u]) {
      UntouchedWillAgree(s, s', s.threads[u]);
    }
  }

  lemma StepSerial(s: State, t: nat, input: Input, a: u32)
    requires Serial(s, a) && NoOverlap(Step(s, t, input), a)
    ensures Serial(Step(s, t, input), a)
  {
    StepInv(s, t, input);
    if t < |s.threads| {
      if ReceivingFrom(s.threads[t], a) || Starts(s, t, input, a) {
        MoverSerial(s, t, input, a);
      } else {
        OtherSerial(s, t, input, a);
      }
    }
  }

  // ---------------------------------------------------------------- whole schedules

  /** At no point of the schedule do two receptions from a overlap. Other addresses may. */
  ghost predicate NeverOverlaps(s: State, sched: seq<(nat, Input)>, a: u32) {
    forall n :: 0 <= n <= |sched| ==> NoOverlap(Run(s, sched[..n]), a)
  }

  lemma {:induction false} RunSerial(s: State, sched: seq<(nat, Input)>, a: u32)
    requires Serial(s, a) && NeverOverlaps(s, sched, a)
    ensures Serial(Run(s, sched), a)
  {
    if sched != [] {
      var n := |sched| - 1;
      var before := sched[..n];
      forall k | 0 <= k <= n ensures NoOverlap(Run(s, before[..k]), a) {
        assert before[..k] == sched[..k];
      }
      RunSerial(s, before, a);
      assert sched[..n + 1] == sched && NoOverlap(Run(s, sched[..n + 1]), a);
      StepSerial(Run(s, before), sched[n].0, sched[n].1, a);
    }
  }

  /** However the threads interleave, if receptions from a never overlap, then whenever no thread is receiving
      from it, a has exactly the entry that the reception algorithm reaches on the packets heard, in the order in
      which they were heard. */
  lemma SerialIsReceiveAll(s: State, sched: seq<(nat, Input)>, a: u32)
    requires Initial(s) && NeverOverlaps(s, sched, a) && Quiet(Run(s, sched), a)
    ensures var v := Run(s, sched); Inv(v) && Entry(v, a) == EntryOf(ReceiveAll(s.me, v.heard), a)
  {
    RunSerial(s, sched, a);
    RunInv(s, sched);
    assert Agrees(Run(s, sched), a);
  }

  lemma {:induction false} SameThreads(s: State, sched: seq<(nat, Input)>)
    ensures |Run(s, sched).threads| == |s.threads|
  {
    if sched != [] {
      var n := |sched| - 1;
      SameThreads(s, sched[..n]);
      StepOthers(Run(s, sched[..n]), sched[n].0, sched[n].1);
    }
  }

  /** With one thread that is every schedule. */
  lemma OneThreadIsReceiveAll(s: State, sched: seq<(nat, Input)>, a: u32)
    requires Initial(s) && |s.threads| == 1 && Quiet(Run(s, sched), a)
    ensures var v := Run(s, sched); Inv(v) && Entry(v, a) == EntryOf(ReceiveAll(s.me, v.heard), a)
  {
    forall n | 0 <= n <= |sched| ensures NoOverlap(Run(s, sched[..n]), a) {
      SameThreads(s, sched[..n]);
    }
    SerialIsReceiveAll(s, sched, a);
  }

  // ---------------------------------------------------------------- presence, in every interleaving

  /** If a targeted us it is cached, or a thread that will see to it is receiving from it. */
  ghost predicate Covered(s: State, a: u32) {
    Targeted(s.heard, s.me, a) ==> Cached(s, a) || InHand(s, a)
  }

  ghost predicate InHand(s: State, a: u32) {
    exists t :: 0 <= t < |s.threads| && ReceivingFrom(s.threads[t], a) && s.threads[t].p.dstIp == s.me
  }

  /** A thread receiving a packet for us goes on until the sender is cached. */
  lemma ReceiverGoesOn(s: State, t: nat, input: Input, a: u32)
    requires Inv(s) && t < |s.threads| && ReceivingFrom(s.threads[t], a) && s.threads[t].p.dstIp == s.me
    ensures var s' := Step(s, t, input);
      && s'.me == s.me
      && (Cached(s', a) || (ReceivingFrom(s'.threads[t], a) && s'.threads[t].p.dstIp == s.me))
  {
    assert ThreadOk(s, s.threads[t]);
    FindIff(s, a);
    if s.threads[t].Putting? || s.threads[t].AddPutting? {
      PutLands(s, s.threads[t].AddPutting?, a, s.threads[t].cell);
    }
  }

  lemma InHandGoesOn(s: State, t: nat, input: Input, a: u32)
    requires Inv(s) && t < |s.threads| && InHand(s, a)
    ensures Cached(Step(s, t, input), a) || InHand(Step(s, t, input), a)
  {
    var s' := Step(s, t, input);
    var u :| 0 <= u < |s.threads| && ReceivingFrom(s.threads[u], a) && s.threads[u].p.dstIp == s.me;
    StepInv(s, t, input);
    StepOthers(s, t, input);
    if u == t { ReceiverGoesOn(s, t, input, a); } else { assert s'.threads[u] == s.threads[u]; }
  }

  /** Only hearing a packet for us from a makes a targeted. */
  lemma TargetedBefore(s: State, t: nat, input: Input, a: u32)
    requires t < |s.threads| && Targeted(Step(s, t, input).heard, s.me, a)
    ensures Targeted(s.heard, s.me, a) || (Starts(s, t, input, a) && input.p.dstIp == s.me)
  {
    var h, h' := s.heard, Step(s, t, input).heard;
    var i: nat :| Announces(h', i, a) && h'[i].dstIp == s.me;
    if i < |h| { assert Announces(h, i, a); }
  }

  lemma StepCovered(s: State, t: nat, input: Input, a: u32)
    requires Inv(s) && Covered(s, a)
    ensures Covered(Step(s, t, input), a)
  {
    var s' := Step(s, t, input);
    StepInv(s, t, input);
    if t < |s.threads| && Targeted(s'.heard, s'.me, a) {
      TargetedBefore(s, t, input, a);
      if Starts(s, t, input, a) && input.p.dstIp == s.me {
        assert ReceivingFrom(s'.threads[t], a);
      } else if InHand(s, a) {
        InHandGoesOn(s, t, input, a);
      }
    }
  }

  lemma {:induction false} RunCovered(s: State, sched: seq<(nat, Input)>, a: u32)
    requires Inv(s) && Covered(s, a)
    ensures Covered(Run(s, sched), a)
  {
    if sched != [] {
      var n := |sched| - 1;
      RunCovered(s, sched[..n], a);
      RunInv(s, sched[..n]);
      StepCovered(Run(s, sched[..n]), sched[n].0, sched[n].1, a);
    }
  }

  /** In every interleaving, overlaps included: an address no thread is receiving from is cached exactly when
      the reception algorithm caches it. */
  lemma CachedAtRest(s: State, sched: seq<(nat, Input)>, a: u32)
    requires Initial(s) && Quiet(Run(s, sched), a)
    ensures var v := Run(s, sched); Cached(v, a) <==> Key(a) in ReceiveAll(s.me, v.heard)
  {
    var v := Run(s, sched);
    RunInv(s, sched);
    RunCovered(s, sched, a);
    CachedIff(s.me, v.heard, a);
    if Cached(v, a) { CachedIsGood(v, a); }
  }

  // ---------------------------------------------------------------- an overlap

  lemma {:induction false} RunConcat(s: State, a: seq<(nat, Input)>, b: seq<(nat, Input)>)
    ensures Run(s, a + b) == Run(Run(s, a), b)
  {
    if b == [] {
      assert a + b == a;
    } else {
      var n := |b| - 1;
      assert (a + b)[..|a| + n] == a + b[..n];
      RunConcat(s, a, b[..n]);
    }
  }

  lemma {:induction false} RunFour(s: State, a: seq<(nat, Input)>, b: seq<(nat, Input)>, c: seq<(nat, Input)>,
                                   d: seq<(nat, Input)>)
    ensures Run(s, a + (b + (c + d))) == Run(Run(Run(Run(s, a), b), c), d)
  {
    RunConcat(s, a, b + (c + d));
    RunConcat(Run(s, a), b, c + d);
    RunConcat(Run(Run(s, a), b), c, d);
  }

  /** The next n steps of thread t. */
  function Turns(t: nat, input: Input, n: nat): seq<(nat, Input)> {
    seq(n, _ => (t, input))
  }

  lemma {:induction false} RunTurn(s: State, t: nat, input: Input, n: nat)
    ensures Run(s, Turns(t, input, n + 1)) == Step(Run(s, Turns(t, input, n)), t, input)
    ensures n == 0 ==> Run(s, Turns(t, input, n)) == s
  {
    assert Turns(t, input, n + 1)[..n] == Turns(t, input, n);
  }

  lemma CheckFinds(s: State, t: nat, input: Input)
    requires Inv(s) && t < |s.threads| && s.threads[t].Checking? && Cached(s, s.threads[t].p.srcIp)
    ensures Step(s, t, input) == s.(threads := s.threads[t := Getting(s.threads[t].p)])
  {
    FindIff(s, s.threads[t].p.srcIp);
  }

  lemma GetFinds(s: State, t: nat, input: Input)
    requires Inv(s) && t < |s.threads| && s.threads[t].Getting? && Cached(s, s.threads[t].p.srcIp)
    ensures Step(s, t, input) ==
      s.(threads := s.threads[t := Copying(s.threads[t].p, s.cache[KeyRef(true, Key(s.threads[t].p.srcIp))])])
  {
    FindIff(s, s.threads[t].p.srcIp);
  }

  /** A thread that hears a packet from a cached address gets to the copy in three steps. */
  lemma {:induction false} ReachesCopy(s: State, t: nat, p: ArpPacket)
    requires Inv(s) && t < |s.threads| && s.threads[t] == Idle && WellFormed(p) && Cached(s, p.srcIp)
    ensures Run(s, Turns(t, Packet(p), 3)) ==
      s.(heard := s.heard + [p], threads := s.threads[t := Copying(p, s.cache[KeyRef(true, Key(p.srcIp))])])
  {
    var s1 := s.(heard := s.heard + [p], threads := s.threads[t := Checking(p)]);
    var s2 := s1.(threads := s.threads[t := Getting(p)]);
    RunTurn(s, t, Packet(p), 0);
    RunTurn(s, t, Packet(p), 1);
    RunTurn(s, t, Packet(p), 2);
    assert Step(s, t, Packet(p)) == s1;
    StepInv(s, t, Packet(p));
    CheckFinds(s1, t, Packet(p));
    assert Step(s1, t, Packet(p)) == s2;
    StepInv(s1, t, Packet(p));
    GetFinds(s2, t, Packet(p));
  }

  /** From the copy it is two more: the cell changes, the table does not. */
  lemma {:induction false} Copies(s: State, t: nat, input: Input)
    requires Inv(s) && t < |s.threads| && s.threads[t].Copying?
    requires s.cache[KeyRef(true, Key(s.threads[t].p.srcIp))] == s.threads[t].cell
    ensures s.threads[t].cell < |s.cells|
    ensures Run(s, Turns(t, input, 2)) ==
      s.(cells := s.cells[s.threads[t].cell := s.threads[t].p.srcMac], threads := s.threads[t := Idle])
  {
    var p, c := s.threads[t].p, s.threads[t].cell;
    assert ThreadOk(s, s.threads[t]);
    var s1 := s.(cells := s.cells[c := p.srcMac], threads := s.threads[t := Putting(p, c)]);
    RunTurn(s, t, input, 0);
    RunTurn(s, t, input, 1);
    assert Step(s, t, input) == s1;
    StepInv(s, t, input);
    PutLands(s1, false, p.srcIp, c);
    assert s.cache[KeyRef(true, Key(p.srcIp)) := c] == s.cache;
  }

  /** A first packet that targets us adds its sender in four steps. */
  lemma {:induction false} Adds(s: State, t: nat, p: ArpPacket)
    requires Inv(s) && t < |s.threads| && s.threads[t] == Idle
    requires WellFormed(p) && !Cached(s, p.srcIp) && p.dstIp == s.me
    ensures Run(s, Turns(t, Packet(p), 4)) ==
      s.(heard := s.heard + [p], cells := s.cells + [p.srcMac], owner := s.owner + [p.srcIp],
         cache := s.cache[KeyRef(true, Key(p.srcIp)) := |s.cells|])
  {
    var s1 := s.(heard := s.heard + [p], threads := s.threads[t := Checking(p)]);
    var s2 := s1.(threads := s.threads[t := Adding(p)]);
    var s3 := s2.(cells := s.cells + [p.srcMac], owner := s.owner + [p.srcIp],
                  threads := s.threads[t := AddPutting(p, |s.cells|)]);
    RunTurn(s, t, Packet(p), 0);
    RunTurn(s, t, Packet(p), 1);
    RunTurn(s, t, Packet(p), 2);
    RunTurn(s, t, Packet(p), 3);
    assert Step(s, t, Packet(p)) == s1;
    StepInv(s, t, Packet(p));
    FindIff(s1, p.srcIp);
    assert Step(s1, t, Packet(p)) == s2;
    StepInv(s1, t, Packet(p));
    assert Step(s2, t, Packet(p)) == s3;
    StepInv(s2, t, Packet(p));
    PutLands(s3, true, p.srcIp, |s.cells|);
    assert s.threads[t := Idle] == s.threads;
  }

  /** Thread 1 hears and handles a packet from an address while thread 0, which heard one before, is about to
      copy. */
  function Overlapping(p: ArpPacket, q: ArpPacket): seq<(nat, Input)> {
    Turns(0, Packet(p), 3) + (Turns(1, Packet(q), 3) + (Turns(1, Packet(q), 2) + Turns(0, Packet(p), 2)))
  }

  /** All it does is to copy the older packet's MAC. */
  lemma {:induction false} RunOverlapping(s: State, p: ArpPacket, q: ArpPacket)
    requires Inv(s) && |s.threads| > 1 && s.threads[0] == s.threads[1] == Idle
    requires WellFormed(p) && WellFormed(q) && p.srcIp == q.srcIp && Cached(s, p.srcIp)
    ensures var c := s.cache[KeyRef(true, Key(p.srcIp))];
      c < |s.cells| && Run(s, Overlapping(p, q)) == s.(heard := s.heard + [p, q], cells := s.cells[c := p.srcMac])
  {
    var c := s.cache[KeyRef(true, Key(p.srcIp))];
    CachedIsGood(s, p.srcIp);
    var s1 := s.(heard := s.heard + [p], threads := s.threads[0 := Copying(p, c)]);
    var s2 := s1.(heard := s1.heard + [q], threads := s1.threads[1 := Copying(q, c)]);
    var s3 := s2.(cells := s.cells[c := q.srcMac], threads := s1.threads);
    assert s2.threads[1 := Idle] == s1.threads;
    assert s1.threads[0 := Idle] == s.threads;
    assert s.cells[c := q.srcMac][c := p.srcMac] == s.cells[c := p.srcMac];
    assert s2.heard == s.heard + [p, q];
    RunInv(s, Turns(0, Packet(p), 3));
    ReachesCopy(s, 0, p);
    RunInv(s1, Turns(1, Packet(q), 3));
    ReachesCopy(s1, 1, q);
    RunInv(s2, Turns(1, Packet(q), 2));
    Copies(s2, 1, Packet(q));
    Copies(s3, 0, Packet(p));
    RunFour(s, Turns(0, Packet(p), 3), Turns(1, Packet(q), 3), Turns(1, Packet(q), 2), Turns(0, Packet(p), 2));
  }

  /** The algorithm keeps the newer one's. */
  lemma NewerIsExpected(s: State, p: ArpPacket, q: ArpPacket)
    requires Inv(s) && WellFormed(p) && WellFormed(q) && p.srcIp == q.srcIp && Cached(s, p.srcIp)
    ensures EntryOf(ReceiveAll(s.me, s.heard + [p, q]), p.srcIp) == Some(q.srcMac)
  {
    CachedIsGood(s, p.srcIp);
    CachedIff(s.me, s.heard, p.srcIp);
    HearOne(s, p, p.srcIp);
    HearOne(s.(heard := s.heard + [p]), q, p.srcIp);
    assert s.heard + [p] + [q] == s.heard + [p, q];
  }

  /** From every state that caches the address the overlap leaves the older packet's MAC, where the algorithm
      has the newer one's. */
  lemma {:induction false} OverlapKeepsOlder(s: State, p: ArpPacket, q: ArpPacket)
    requires Inv(s) && |s.threads| > 1 && s.threads[0] == s.threads[1] == Idle
    requires WellFormed(p) && WellFormed(q) && p.srcIp == q.srcIp && Cached(s, p.srcIp)
    ensures var v := Run(s, Overlapping(p, q));
      && Inv(v) && v.threads == s.threads && v.heard == s.heard + [p, q]
      && Entry(v, p.srcIp) == Some(p.srcMac) && Expected(v, p.srcIp) == Some(q.srcMac)
  {
    RunInv(s, Overlapping(p, q));
    RunOverlapping(s, p, q);
    NewerIsExpected(s, p, q);
  }

  lemma {:induction false} AfterFirst(s: State, o: ArpPacket) returns (s': State)
    requires Initial(s) && |s.threads| > 1 && WellFormed(o) && o.dstIp == s.me
    ensures s' == Run(s, Turns(0, Packet(o), 4)) && Inv(s')
    ensures s'.threads == s.threads && s'.heard == [o] && Cached(s', o.srcIp)
  {
    s' := Run(s, Turns(0, Packet(o), 4));
    RunInv(s, Turns(0, Packet(o), 4));
    Adds(s, 0, o);
  }

  /** And such a state is reached: a packet that targets us adds its sender. */
  lemma {:induction false} OverlapIsReachable(s: State, o: ArpPacket, p: ArpPacket, q: ArpPacket)
    requires Initial(s) && |s.threads| > 1 && WellFormed(o) && WellFormed(p) && WellFormed(q)
    requires o.srcIp == p.srcIp == q.srcIp && o.dstIp == s.me
    ensures var v := Run(s, Turns(0, Packet(o), 4) + Overlapping(p, q));
      && Inv(v) && v.threads == s.threads && v.heard == [o, p, q]
      && Entry(v, p.srcIp) == Some(p.srcMac) && Expected(v, p.srcIp) == Some(q.srcMac)
  {
    var s1 := AfterFirst(s, o);
    OverlapKeepsOlder(s1, p, q);
    RunConcat(s, Turns(0, Packet(o), 4), Overlapping(p, q));
    assert [o] + [p, q] == [o, p, q];
  }
}
