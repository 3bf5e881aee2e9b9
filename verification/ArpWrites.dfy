/** Which MAC an interleaving of ArpThreads leaves for an address: the one written last into the cell put last
    for it. So exactly when that is the MAC heard last, the threads agree with the reception algorithm. */
module ArpWrites {
  import opened Bytes
  import opened Net
  import opened Options
  import opened ArpKeys
  import opened ArpSpec
  import opened ArpThreads
  import opened ArpSerial

  // ---------------------------------------------------------------- what a schedule writes

  /** The cell the next step of thread t puts for a. */
  ghost function Puts(s: State, t: nat, a: u32): Option<nat> {
    if t < |s.threads| && (s.threads[t].Putting? || s.threads[t].AddPutting?) && s.threads[t].p.srcIp == a
    then Some(s.threads[t].cell) else None
  }

  /** The MAC it writes into cell c, by copying or by allocating. */
  ghost function Writes(s: State, t: nat, c: nat): Option<Mac> {
    if t < |s.threads| &&
       ((s.threads[t].Copying? && s.threads[t].cell == c) || (s.threads[t].Adding? && |s.cells| == c))
    then Some(s.threads[t].p.srcMac) else None
  }

  function Or<T>(x: Option<T>, y: Option<T>): Option<T> {
    if x.Some? then x else y
  }

  /** The cell put last for a during the schedule. */
  ghost function PutLast(s: State, sched: seq<(nat, Input)>, a: u32): Option<nat> {
    if sched == [] then None
    else
      var n := |sched| - 1;
      Or(Puts(Run(s, sched[..n]), sched[n].0, a), PutLast(s, sched[..n], a))
  }

  /** The MAC written last into cell c during the schedule. */
  ghost function WrittenLast(s: State, sched: seq<(nat, Input)>, c: nat): Option<Mac> {
    if sched == [] then None
    else
      var n := |sched| - 1;
      Or(Writes(Run(s, sched[..n]), sched[n].0, c), WrittenLast(s, sched[..n], c))
  }

  /** The cell stored for a. */
  ghost function CellOf(s: State, a: u32): Option<nat> {
    if Cached(s, a) then Some(s.cache[KeyRef(true, Key(a))]) else None
  }

  ghost function Content(s: State, c: nat): Option<Mac> {
    if c < |s.cells| then Some(s.cells[c]) else None
  }

  lemma StepPuts(s: State, t: nat, input: Input, a: u32)
    requires Inv(s)
    ensures CellOf(Step(s, t, input), a) == Or(Puts(s, t, a), CellOf(s, a))
  {
    if t < |s.threads| {
      var pc := s.threads[t];
      assert ThreadOk(s, pc);
      if pc.Putting? || pc.AddPutting? {
        PutLands(s, pc.AddPutting?, pc.p.srcIp, pc.cell);
      }
    }
  }

  lemma StepWrites(s: State, t: nat, input: Input, c: nat)
    requires Inv(s)
    ensures Content(Step(s, t, input), c) == Or(Writes(s, t, c), Content(s, c))
  {
    if t < |s.threads| { assert ThreadOk(s, s.threads[t]); }
  }

  lemma {:induction false} RunPuts(s: State, sched: seq<(nat, Input)>, a: u32)
    requires Inv(s)
    ensures CellOf(Run(s, sched), a) == Or(PutLast(s, sched, a), CellOf(s, a))
  {
    if sched != [] {
      var n := |sched| - 1;
      RunPuts(s, sched[..n], a);
      RunInv(s, sched[..n]);
      StepPuts(Run(s, sched[..n]), sched[n].0, sched[n].1, a);
    }
  }

  lemma {:induction false} RunWrites(s: State, sched: seq<(nat, Input)>, c: nat)
    requires Inv(s)
    ensures Content(Run(s, sched), c) == Or(WrittenLast(s, sched, c), Content(s, c))
  {
    if sched != [] {
      var n := |sched| - 1;
      RunWrites(s, sched[..n], c);
      RunInv(s, sched[..n]);
      StepWrites(Run(s, sched[..n]), sched[n].0, sched[n].1, c);
    }
  }

  /** In every interleaving the entry of an address is the MAC written last into the cell put last for it. */
  lemma EntryIsLastWrite(s: State, sched: seq<(nat, Input)>, a: u32)
    requires Initial(s)
    ensures var v := Run(s, sched);
      Inv(v) && Entry(v, a) == match PutLast(s, sched, a) case Some(c) => WrittenLast(s, sched, c) case None => None
  {
    var v := Run(s, sched);
    RunInv(s, sched);
    RunPuts(s, sched, a);
    if Cached(v, a) {
      CachedIsGood(v, a);
      RunWrites(s, sched, v.cache[KeyRef(true, Key(a))]);
    }
  }

  /** The exact condition, for every schedule of any number of threads: at rest an address has the entry of the
      algorithm if and only if nothing was put for it, or the MAC written last into the cell put last is the MAC
      heard last. */
  lemma AgreesIff(s: State, sched: seq<(nat, Input)>, a: u32)
    requires Initial(s) && Quiet(Run(s, sched), a)
    ensures var v := Run(s, sched);
      && Inv(v)
      && (Agrees(v, a) <==> match PutLast(s, sched, a)
                            case Some(c) => WrittenLast(s, sched, c) == HeardLast(v.heard, a)
                            case None => true)
  {
    var v := Run(s, sched);
    EntryIsLastWrite(s, sched, a);
    CachedAtRest(s, sched, a);
    RunInv(s, sched);
    RunPuts(s, sched, a);
    if Cached(v, a) { CachedIsHeardLast(s.me, v.heard, a); }
  }

  // ---------------------------------------------------------------- once an address is cached

  /** a is cached, no thread is adding it, and every thread refreshing it holds the stored cell. */
  ghost predicate Settled(s: State, a: u32) {
    && Cached(s, a)
    && forall t :: 0 <= t < |s.threads| && ReceivingFrom(s.threads[t], a) ==>
         && !s.threads[t].Adding? && !s.threads[t].AddPutting?
         && (s.threads[t].Copying? || s.threads[t].Putting? ==> s.threads[t].cell == s.cache[KeyRef(true, Key(a))])
  }

  /** The MAC the next step of thread t copies for a. */
  ghost function CopiesFor(s: State, t: nat, a: u32): Option<Mac> {
    if t < |s.threads| && s.threads[t].Copying? && s.threads[t].p.srcIp == a then Some(s.threads[t].p.srcMac) else None
  }

  /** The MAC copied last for a during the schedule. */
  ghost function CopiedLast(s: State, sched: seq<(nat, Input)>, a: u32): Option<Mac> {
    if sched == [] then None
    else
      var n := |sched| - 1;
      Or(CopiesFor(Run(s, sched[..n]), sched[n].0, a), CopiedLast(s, sched[..n], a))
  }

  /** An address at rest is settled as soon as it is cached. */
  lemma RestIsSettled(s: State, a: u32)
    requires Cached(s, a) && Quiet(s, a)
    ensures Settled(s, a)
  {
  }

  lemma SettledKeepsCell(s: State, t: nat, input: Input, a: u32)
    requires Inv(s) && Settled(s, a)
    ensures CellOf(Step(s, t, input), a) == CellOf(s, a)
  {
    StepPuts(s, t, input, a);
    if Puts(s, t, a).Some? { assert ReceivingFrom(s.threads[t], a); }
  }

  lemma SettledMoves(s: State, t: nat, input: Input, a: u32)
    requires Inv(s) && Settled(s, a) && t < |s.threads| && ReceivingFrom(Step(s, t, input).threads[t], a)
    ensures var pc := Step(s, t, input).threads[t];
      && !pc.Adding? && !pc.AddPutting?
      && (pc.Copying? || pc.Putting? ==> pc.cell == s.cache[KeyRef(true, Key(a))])
  {
    MoverAddress(s, t, input, a);
    if ReceivingFrom(s.threads[t], a) {
      assert ThreadOk(s, s.threads[t]);
      FindIff(s, a);
      if s.threads[t].Checking? { CheckFinds(s, t, input); }
      if s.threads[t].Getting? { GetFinds(s, t, input); }
    }
  }

  lemma SettledCopies(s: State, t: nat, input: Input, a: u32)
    requires Inv(s) && Inv(Step(s, t, input)) && Settled(s, a)
    ensures Entry(Step(s, t, input), a) == Or(CopiesFor(s, t, a), Entry(s, a))
  {
    var c := s.cache[KeyRef(true, Key(a))];
    CachedIsGood(s, a);
    SettledKeepsCell(s, t, input, a);
    StepWrites(s, t, input, c);
    if t < |s.threads| && s.threads[t].Copying? {
      assert ThreadOk(s, s.threads[t]) && EntryOk(s, KeyRef(true, Key(a)));
    }
  }

  lemma StepSettled(s: State, t: nat, input: Input, a: u32)
    requires Inv(s) && Settled(s, a)
    ensures var s' := Step(s, t, input);
      Inv(s') && Settled(s', a) && Entry(s', a) == Or(CopiesFor(s, t, a), Entry(s, a))
  {
    StepInv(s, t, input);
    SettledCopies(s, t, input, a);
    SettledKeepsCell(s, t, input, a);
    if t < |s.threads| {
      var s' := Step(s, t, input);
      StepOthers(s, t, input);
      if ReceivingFrom(s'.threads[t], a) { SettledMoves(s, t, input, a); }
    }
  }

  /** From a settled state, after every schedule: a is settled and its entry is the MAC copied last, or the old
      one if none was copied. */
  lemma {:induction false} RunSettled(s: State, sched: seq<(nat, Input)>, a: u32)
    requires Inv(s) && Settled(s, a)
    ensures var v := Run(s, sched);
      Inv(v) && Settled(v, a) && Entry(v, a) == Or(CopiedLast(s, sched, a), Entry(s, a))
  {
    if sched != [] {
      var n := |sched| - 1;
      var v := Run(s, sched[..n]);
      RunSettled(s, sched[..n], a);
      StepSettled(v, sched[n].0, sched[n].1, a);
    }
  }

  /** So overlapping refreshes agree with the algorithm if and only if the MAC copied last is the MAC heard last. */
  lemma RefreshesAgreeIff(s: State, sched: seq<(nat, Input)>, a: u32)
    requires Inv(s) && Settled(s, a)
    ensures var v := Run(s, sched);
      && Inv(v) && Expected(v, a) == HeardLast(v.heard, a)
      && (Agrees(v, a) <==> Or(CopiedLast(s, sched, a), Entry(s, a)) == HeardLast(v.heard, a))
  {
    var v := Run(s, sched);
    RunSettled(s, sched, a);
    CachedIsGood(v, a);
    CachedIff(v.me, v.heard, a);
    CachedIsHeardLast(v.me, v.heard, a);
  }

  // ---------------------------------------------------------------- from rest to rest

  /** The MAC the next step of thread t hears from a. */
  ghost function Hears(s: State, t: nat, input: Input, a: u32): Option<Mac> {
    if t < |s.threads| && Starts(s, t, input, a) then Some(input.p.srcMac) else None
  }

  lemma StepHears(s: State, t: nat, input: Input, a: u32)
    ensures HeardLast(Step(s, t, input).heard, a) == Or(Hears(s, t, input, a), HeardLast(s.heard, a))
  {
    if t < |s.threads| && s.threads[t].Idle? && input.Packet? {
      assert (s.heard + [input.p])[..|s.heard|] == s.heard;
    }
  }

  /** The MAC heard last from a during the schedule. */
  ghost function HeardDuring(s: State, sched: seq<(nat, Input)>, a: u32): Option<Mac> {
    if sched == [] then None
    else
      var n := |sched| - 1;
      Or(Hears(Run(s, sched[..n]), sched[n].0, sched[n].1, a), HeardDuring(s, sched[..n], a))
  }

  lemma {:induction false} RunHears(s: State, sched: seq<(nat, Input)>, a: u32)
    ensures HeardLast(Run(s, sched).heard, a) == Or(HeardDuring(s, sched, a), HeardLast(s.heard, a))
  {
    if sched != [] {
      var n := |sched| - 1;
      RunHears(s, sched[..n], a);
      StepHears(Run(s, sched[..n]), sched[n].0, sched[n].1, a);
    }
  }

  /** Some thread has heard from a and not copied yet. */
  ghost predicate Uncopied(s: State, a: u32) {
    exists t :: 0 <= t < |s.threads| && ReceivingFrom(s.threads[t], a) && !s.threads[t].Putting?
  }

  lemma UncopiedMoves(s: State, t: nat, input: Input, a: u32)
    requires Inv(s) && Settled(s, a) && CopiesFor(s, t, a) == None
    requires t < |s.threads| && ReceivingFrom(s.threads[t], a) && !s.threads[t].Putting?
    ensures var pc := Step(s, t, input).threads[t]; ReceivingFrom(pc, a) && !pc.Putting?
  {
    assert s.threads[t].Checking? || s.threads[t].Getting?;
    if s.threads[t].Checking? { CheckFinds(s, t, input); } else { GetFinds(s, t, input); }
  }

  lemma StepUncopied(s: State, t: nat, input: Input, a: u32)
    requires Inv(s) && Settled(s, a) && CopiesFor(s, t, a) == None && (Uncopied(s, a) || Hears(s, t, input, a).Some?)
    ensures Uncopied(Step(s, t, input), a)
  {
    var s' := Step(s, t, input);
    if t < |s.threads| {
      StepOthers(s, t, input);
      if Starts(s, t, input, a) {
        assert ReceivingFrom(s'.threads[t], a);
      } else {
        var u :| 0 <= u < |s.threads| && ReceivingFrom(s.threads[u], a) && !s.threads[u].Putting?;
        if u == t { UncopiedMoves(s, t, input, a); } else { assert s'.threads[u] == s.threads[u]; }
      }
    }
  }

  lemma StepStaysQuiet(s: State, t: nat, input: Input, a: u32)
    requires Quiet(s, a) && Hears(s, t, input, a) == None
    ensures Quiet(Step(s, t, input), a)
  {
    var s' := Step(s, t, input);
    StepOthers(s, t, input);
    if t < |s.threads| {
      if ReceivingFrom(s'.threads[t], a) { MoverAddress(s, t, input, a); }
    }
  }

  /** What is heard is copied: nothing heard leaves a at rest and nothing copied, something heard is copied or
      still to be copied. */
  lemma {:induction false} HeardIsCopied(s: State, sched: seq<(nat, Input)>, a: u32)
    requires Inv(s) && Settled(s, a) && Quiet(s, a)
    ensures HeardDuring(s, sched, a).None? ==> Quiet(Run(s, sched), a) && CopiedLast(s, sched, a).None?
    ensures HeardDuring(s, sched, a).Some? && CopiedLast(s, sched, a).None? ==> Uncopied(Run(s, sched), a)
  {
    if sched != [] {
      var n := |sched| - 1;
      var v, t, input := Run(s, sched[..n]), sched[n].0, sched[n].1;
      HeardIsCopied(s, sched[..n], a);
      RunSettled(s, sched[..n], a);
      if HeardDuring(s, sched, a).None? {
        StepStaysQuiet(v, t, input, a);
      } else if CopiedLast(s, sched, a).None? {
        StepUncopied(v, t, input, a);
      }
    }
  }

  /** Between two moments of rest, however the refreshes in between overlap: an entry that agreed agrees again if
      and only if the MAC copied last is the MAC heard last. */
  lemma RestToRestIff(s: State, sched: seq<(nat, Input)>, a: u32)
    requires Inv(s) && Cached(s, a) && Quiet(s, a) && Agrees(s, a) && Quiet(Run(s, sched), a)
    ensures var v := Run(s, sched);
      Inv(v) && (Agrees(v, a) <==> CopiedLast(s, sched, a) == HeardDuring(s, sched, a))
  {
    RestIsSettled(s, a);
    RefreshesAgreeIff(s, sched, a);
    RefreshesAgreeIff(s, [], a);
    RunHears(s, sched, a);
    HeardIsCopied(s, sched, a);
  }
}
