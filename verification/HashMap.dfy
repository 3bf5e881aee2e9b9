/** The open-addressing hash map: src/collections/hashmap.c. */
module HashMaps {
  import opened Options
  import opened Bits
  import opened ProbeTable

  /** Zero for i <= 1, else the power of two with r < i <= 2r. */
  method HighestBit(i: int) returns (r: nat)
    ensures i <= 1 ==> r == 0
    ensures i > 1 ==> IsPow2(r) && r < i <= 2 * r
  {
    var ret := 1;
    ghost var k := 0;
    while ret < i
      invariant ret == Pow2(k)
      invariant k > 0 ==> Pow2(k - 1) < i
    {
      ret, k := 2 * ret, k + 1;
    }
    r := ret / 2;
    if k > 0 { assert r == Pow2(k - 1); }
  }

  /** The size is at least p percent of the capacity. */
  predicate Loaded(p: nat, size: int, capacity: nat) {
    p * capacity <= 100 * size
  }

  /** A put that does not expand leaves at most three quarters of the slots used. */
  lemma LoadBound(size: nat, capacity: nat)
    requires capacity >= 16 && IsPow2(capacity)
    requires !Loaded(71, size, capacity)
    ensures 4 * (size + 1) <= 3 * capacity
  {
  }

  /** `(index + 1) & (capacity - 1)` is the cyclic successor. */
  lemma MaskSteps(i: nat, n: nat)
    requires i < n && IsPow2(n)
    ensures And(i + 1, n - 1) == Next(i, n)
  {
    MaskWraps(i + 1, n);
    if i + 1 < n {
      DivModUnique(i + 1, n, 0, i + 1);
    } else {
      DivModUnique(n, n, 1, 0);
    }
  }

  /** s' is s after storing where the probe for k stops. */
  ghost predicate StoredAt<K, V>(s: seq<Slot<K, V>>, h: Hashing<K>, k: K, v: V, s': seq<Slot<K, V>>) {
    exists r: nat :: IsIndexOf(s, h, k, r) && s' == s[r := Filled(s, r, k, v)]
  }

  class HashMap<K(!new), V> {
    var slots: array<Slot<K, V>>
    var capacity: nat
    var size: int
    const h: Hashing<K>
    const noKey: K
    const noValue: V

    /** Holds in every reachable state. */
    ghost predicate Shaped()
      reads this, slots
    {
      Lawful(h) && slots.Length == capacity >= 16 && IsPow2(capacity)
    }

    /** Some slot is free, so every probe stops. */
    ghost predicate Open()
      reads this, slots
    {
      Shaped() && HasFree(slots[..])
    }

    /** Holds in every state reachable by puts, expansions, clears and removals that found a key. */
    ghost predicate Sound()
      reads this, slots
    {
      Shaped() && size == Count(slots[..]) && 4 * size <= 3 * capacity
    }

    /** Holds in every state reachable without an inexact removal. */
    ghost predicate Valid()
      reads this, slots
    {
      Sound() && Probing(slots[..], h)
    }

    /** The finite map this table stands for. */
    ghost function Map(): map<K, V>
      reads this, slots
    {
      Contents(slots[..])
    }

    /** calloc: no slot used. Capacity is the least power of two that is at least 16 and initialSize. */
    constructor (initialSize: int, h: Hashing<K>, noKey: K, noValue: V)
      requires Lawful(h)
      ensures Valid() && fresh(slots)
      ensures Map() == map[] && size == 0
      ensures capacity >= initialSize && (capacity == 16 || capacity < 2 * initialSize)
      ensures this.h == h && this.noKey == noKey && this.noValue == noValue
    {
      var bit := HighestBit(initialSize);
      var target := 2 * bit;
      if target < 16 {
        target := 16;
      }
      slots := new Slot<K, V>[target](_ => Slot(false, noKey, noValue));
      capacity, size := target, 0;
      this.h, this.noKey, this.noValue := h, noKey, noValue;
      new;
      if capacity == 16 { assert Pow2(4) == 16; } else { Pow2Doubles(bit); }
      CountNone(slots[..]);
    }

    /** The probe loop. It starts at the hash modulo the capacity and goes up cyclically to the first slot that is
        free or holds an equal key. It needs one free slot and then stops within one pass of the table. */
    method IndexOf(key: K) returns (index: nat, ghost steps: nat)
      requires slots.Length == capacity > 0 && IsPow2(capacity) && HasFree(slots[..])
      ensures IsIndexOf(slots[..], h, key, index)
      ensures steps < capacity
      ensures forall d: nat :: d < capacity && StopsAfter(slots[..], h, key, d) ==>
        index == Visited(h, key, capacity, d)
    {
      ghost var s := slots[..];
      ghost var free :| 0 <= free < |s| && !s[free].used;
      index := And(h.hash(key), capacity - 1);
      MaskWraps(h.hash(key), capacity);
      steps := 0;
      while slots[index].used && !h.eq(key, slots[index].key)
        invariant Passed(s, h, key, index)
        invariant steps + Distance(index, free, capacity) < capacity
        decreases Distance(index, free, capacity)
      {
        ProbeStep(s, h, key, index, free);
        MaskSteps(index, capacity);
        index := And(index + 1, capacity - 1);
        steps := steps + 1;
      }
      forall d: nat | d < capacity && StopsAfter(s, h, key, d) ensures index == Visited(h, key, capacity, d) {
        ProbeOrder(s, h, key, d);
        IndexUnique(s, h, key, index, Visited(h, key, capacity, d));
      }
    }

    lemma SoundHasFree()
      requires Sound()
      ensures Open()
    {
      CountLeavesFree(slots[..]);
    }

    method ContainsKey(key: K) returns (found: bool)
      requires Open()
      ensures Valid() ==> found == Get(h, Map(), key).Some?
      ensures exists i :: IsIndexOf(slots[..], h, key, i) && found == Found(slots[..], i).Some?
    {
      var index, _ := IndexOf(key);
      found := slots[index].used;
      if Valid() { LookupIsGet(slots[..], h, key, index); }
    }

    method GetOrDefault(key: K, def: V) returns (value: V)
      requires Open()
      ensures Valid() ==> value == match Get(h, Map(), key) case Some(v) => v case None => def
      ensures exists i :: (IsIndexOf(slots[..], h, key, i) &&
        value == match Found(slots[..], i) case Some(v) => v case None => def)
    {
      var index, _ := IndexOf(key);
      if Valid() { LookupIsGet(slots[..], h, key, index); }
      if slots[index].used {
        return slots[index].value;
      }
      return def;
    }

    /** NULL stands for an absent key. */
    method Lookup(key: K) returns (value: V)
      requires Open()
      ensures Valid() ==> value == match Get(h, Map(), key) case Some(v) => v case None => noValue
    {
      value := GetOrDefault(key, noValue);
    }

    /** Frees the probed slot r and counts down. The size stays right if and only if the slot was used;
        the entry at r is then gone from the stored ones. From a valid table that is the key's entry, and
        the table stays valid if and only if no surviving key's probe path crosses the freed slot. */
    method Remove(key: K) returns (ghost r: nat)
      requires Open()
      modifies this`size, slots
      ensures IsIndexOf(old(slots[..]), h, key, r) && slots[..] == Freed(old(slots[..]), r) && size == old(size) - 1
      ensures Open() && (old(Sound()) ==> (Sound() <==> old(slots[..])[r].used))
      ensures old(Distinct(slots[..], h)) && old(slots[..])[r].used ==>
        Distinct(slots[..], h) && Map() == old(Map()) - {old(slots[..])[r].key}
      ensures old(Probing(slots[..], h)) ==>
        Stored(h, old(Map()), key) == if old(slots[..])[r].used then Some(old(slots[..])[r].key) else None
      ensures old(Probing(slots[..], h)) && old(slots[..])[r].used ==>
        (Probing(slots[..], h) <==> !Crossed(old(slots[..]), h, r))
    {
      var index, _ := IndexOf(key);
      ghost var s := slots[..];
      slots[index] := slots[index].(used := false);
      r := index;
      size := size - 1;
      Removed(s, h, key, index, slots[..]);
    }

    /** Right whatever the removals before did. */
    method Clear()
      requires Shaped()
      modifies this`size, slots
      ensures Valid() && Map() == map[] && size == 0
    {
      var i := 0;
      while i < capacity
        invariant 0 <= i <= capacity == slots.Length
        invariant forall j :: 0 <= j < i ==> !slots[j].used
        modifies slots
      {
        slots[i] := slots[i].(used := false);
        i := i + 1;
      }
      size := 0;
      CountNone(slots[..]);
      assert Map() == map[];
    }

    /** The percentage of used slots, rounded towards zero. */
    method LoadFactor() returns (f: int)
      requires capacity > 0
      ensures forall p: nat :: p > 0 ==> (p <= f <==> p * capacity <= 100 * size)
    {
      f := if size >= 0 then size * 100 / capacity else -(-size * 100 / capacity);
      forall p: nat | p > 0 ensures p <= f <==> p * capacity <= 100 * size {
        if size >= 0 {
          if p <= f { MulMonotonic(p, f, capacity); } else { MulMonotonic(f + 1, p, capacity); }
        }
      }
    }

    /** The part of a put after the load check: one slot changes. */
    method Store(key: K, data: V) returns (ghost r: nat)
      requires Open()
      modifies this`size, slots
      ensures Shaped() && IsIndexOf(old(slots[..]), h, key, r)
      ensures slots[..] == old(slots[..])[r := Filled(old(slots[..]), r, key, data)]
      ensures size == old(size) + if old(slots[..])[r].used then 0 else 1
      ensures size - Count(slots[..]) == old(size - Count(slots[..]))
      ensures old(Sound()) && 4 * (old(size) + 1) <= 3 * capacity ==> Sound()
      ensures old(Probing(slots[..], h)) ==>
        Probing(slots[..], h) && Map() == ProbeTable.Put(h, old(Map()), key, data) && |Map()| == Count(slots[..])
    {
      var index, _ := IndexOf(key);
      ghost var s := slots[..];
      slots[index] := slots[index].(value := data);
      if !slots[index].used {
        slots[index] := slots[index].(key := key, used := true);
        size := size + 1;
      }
      r := index;
      Inserted(s, h, key, data, index, slots[..]);
    }

    /** Put and Expand are mutually recursive. Put expands only above 70 percent; inside an expansion
        the load never exceeds 50 percent, so the puts of a rehash never expand. Without a free slot and below
        that load the probe would never stop. */
    method Put(key: K, data: V)
      requires Shaped() && (Loaded(71, size, capacity) || HasFree(slots[..]))
      modifies this`slots, this`size, this`capacity, slots
      ensures Shaped() && (slots == old(slots) || fresh(slots))
      ensures old(Sound()) ==> Sound()
      ensures capacity == if 71 * old(capacity) <= 100 * old(size) then 2 * old(capacity) else old(capacity)
      ensures old(Probing(slots[..], h)) ==> Probing(slots[..], h) && Map() == ProbeTable.Put(h, old(Map()), key, data)
      ensures old(Valid()) ==> size == |Map()| && old(size) <= size <= old(size) + 1
      ensures !old(Loaded(71, size, capacity)) ==>
        slots == old(slots) && StoredAt(old(slots[..]), h, key, data, slots[..]) &&
        size - Count(slots[..]) == old(size - Count(slots[..]))
      ensures old(Loaded(71, size, capacity)) ==>
        Valid() && Map() == ProbeTable.Put(h, PutAll(h, old(slots[..])), key, data)
      decreases if Loaded(71, size, capacity) then 2 else 0
    {
      var load := LoadFactor();
      assert load > 70 <==> Loaded(71, size, capacity);
      if load > 70 {
        Expand();
        SoundHasFree();
      } else if Sound() {
        LoadBound(size, capacity);
      }
      ghost var s := slots[..];
      ghost var r := Store(key, data);
      assert StoredAt(s, h, key, data, slots[..]);
    }

    /** Doubles the capacity and re-inserts every used slot. From any table the result is valid and its
        size right; from one without duplicates the map, the stored keys and their number are unchanged. */
    method Expand()
      requires Shaped()
      modifies this`slots, this`size, this`capacity
      ensures Valid() && fresh(slots) && capacity == 2 * old(capacity)
      ensures Map() == PutAll(h, old(slots[..])) && size <= Count(old(slots[..]))
      ensures old(Distinct(slots[..], h)) ==> Map() == old(Map()) && size == Count(old(slots[..]))
      decreases 1
    {
      var oldCapacity, olds := capacity, slots;
      ghost var was := slots[..];
      slots := new Slot<K, V>[capacity * 2](_ => Slot(false, noKey, noValue));
      size := 0;
      capacity := 2 * capacity;
      CountNone(slots[..]);
      Pow2Doubles(oldCapacity);
      var i := 0;
      while i < oldCapacity
        invariant 0 <= i <= oldCapacity && olds[..] == was
        invariant Valid() && fresh(slots) && capacity == 2 * oldCapacity
        invariant size <= Count(was[..i]) <= i
        invariant Map() == PutAll(h, was[..i])
      {
        assert !Loaded(51, size, capacity);
        SoundHasFree();
        PutAllStep(h, was, i);
        if olds[i].used {
          Put(olds[i].key, olds[i].value);
        }
        i := i + 1;
      }
      assert was[..i] == was;
      if Distinct(was, h) { Rehashed(h, was, slots[..]); }
    }
  }

  // ---------------------------------------------------------------- whole runs

  /** A removal is guarded by a membership test. */
  datatype Op<K, V> = DoPut(key: K, value: V) | DoRemove(key: K) | DoExpand | DoClear

  /** What the same operation does to a plain finite map. */
  ghost function Applied<K(!new), V>(h: Hashing<K>, m: map<K, V>, op: Op<K, V>): map<K, V> {
    match op
    case DoPut(k, v) => Put(h, m, k, v)
    case DoRemove(k) => (match Stored(h, m, k) case Some(k') => m - {k'} case None => m)
    case DoExpand => m
    case DoClear => map[]
  }

  ghost function RunSpec<K(!new), V>(h: Hashing<K>, ops: seq<Op<K, V>>): map<K, V> {
    if ops == [] then map[] else Applied(h, RunSpec(h, ops[..|ops| - 1]), ops[|ops| - 1])
  }

  lemma RunSpecStep<K(!new), V>(h: Hashing<K>, ops: seq<Op<K, V>>, i: nat)
    requires i < |ops|
    ensures RunSpec(h, ops[..i + 1]) == Applied(h, RunSpec(h, ops[..i]), ops[i])
  {
    assert ops[..i + 1][..i] == ops[..i];
  }

  /** The laws of these operations: a put is seen by exactly the equal keys, a removal hides exactly those, an
      expansion is not seen, and after a clear there is nothing. */
  lemma GetAfterOperation<K(!new), V>(h: Hashing<K>, m: map<K, V>, op: Op<K, V>, q: K)
    requires Lawful(h) && Separated(h, m)
    ensures Separated(h, Applied(h, m, op))
    ensures Get(h, Applied(h, m, op), q) ==
      match op
      case DoPut(k, v) => if h.eq(q, k) then Some(v) else Get(h, m, q)
      case DoRemove(k) => if h.eq(q, k) then None else Get(h, m, q)
      case DoExpand => Get(h, m, q)
      case DoClear => None
  {
    match op {
      case DoPut(k, v) => GetAfterPut(h, m, k, v, q);
      case _ =>
    }
  }

  /** What one operation may do to a table. */
  ghost predicate TableStep<K(!new), V>(h: Hashing<K>, s: seq<Slot<K, V>>, op: Op<K, V>, s': seq<Slot<K, V>>) {
    match op
    case DoPut(k, v) => Probing(s, h) ==> Probing(s', h) && Contents(s') == Put(h, Contents(s), k, v)
    case DoRemove(k) => exists r: nat :: IsIndexOf(s, h, k, r) && s' == if s[r].used then Freed(s, r) else s
    case DoExpand => Probing(s', h) && Contents(s') == PutAll(h, s)
    case DoClear => Probing(s', h) && Contents(s') == map[]
  }

  /** No surviving key's probe path crosses the slot a removal frees. */
  ghost predicate Harmless<K, V>(h: Hashing<K>, s: seq<Slot<K, V>>, op: Op<K, V>) {
    op.DoRemove? ==> forall r: nat :: IsIndexOf(s, h, op.key, r) && s[r].used ==> !Crossed(s, h, r)
  }

  predicate Rebuilds<K, V>(op: Op<K, V>) {
    op.DoExpand? || op.DoClear?
  }

  lemma RemovalStep<K(!new), V>(h: Hashing<K>, s: seq<Slot<K, V>>, op: Op<K, V>, s': seq<Slot<K, V>>)
    requires Lawful(h) && op.DoRemove? && TableStep(h, s, op, s') && Probing(s, h)
    ensures Distinct(s', h) && Contents(s') == Applied(h, Contents(s), op) && (Probing(s', h) <==> Harmless(h, s, op))
  {
    var r: nat :| IsIndexOf(s, h, op.key, r) && s' == if s[r].used then Freed(s, r) else s;
    forall r': nat | IsIndexOf(s, h, op.key, r') ensures r' == r {
      IndexUnique(s, h, op.key, r, r');
    }
    LookupIsGet(s, h, op.key, r);
    if s[r].used { Removed(s, h, op.key, r, s'); }
  }

  /** On a valid table every operation does what it does to the finite map, and leaves a valid table if and only
      if it is harmless. An expansion or a clear does so even on a table without duplicates that only a harmful
      removal made invalid. */
  lemma StepRefines<K(!new), V>(h: Hashing<K>, s: seq<Slot<K, V>>, op: Op<K, V>, s': seq<Slot<K, V>>)
    requires Lawful(h) && TableStep(h, s, op, s')
    requires Probing(s, h) || (Distinct(s, h) && Rebuilds(op))
    ensures Distinct(s', h) && Contents(s') == Applied(h, Contents(s), op)
    ensures Probing(s', h) <==> Harmless(h, s, op)
  {
    match op {
      case DoPut(_, _) =>
      case DoRemove(_) => RemovalStep(h, s, op, s');
      case DoExpand => PutAllIsContents(h, s);
      case DoClear =>
    }
  }

  /** One operation. */
  method Apply<K(!new), V>(m: HashMap<K, V>, op: Op<K, V>)
    requires m.Sound()
    modifies m`slots, m`size, m`capacity, m.slots
    ensures m.Sound() && (m.slots == old(m.slots) || fresh(m.slots))
    ensures TableStep(m.h, old(m.slots[..]), op, m.slots[..])
  {
    m.SoundHasFree();
    match op {
      case DoPut(k, v) => m.Put(k, v);
      case DoRemove(k) =>
        var found := m.ContainsKey(k);
        if found {
          ghost var r := m.Remove(k);
        }
      case DoExpand => m.Expand();
      case DoClear => m.Clear();
    }
  }

  ghost predicate StepAt<K(!new), V>(h: Hashing<K>, ops: seq<Op<K, V>>, tables: seq<seq<Slot<K, V>>>, i: nat) {
    i < |ops| && i + 1 < |tables| && TableStep(h, tables[i], ops[i], tables[i + 1])
  }

  /** The tables a run goes through. */
  ghost predicate History<K(!new), V>(h: Hashing<K>, ops: seq<Op<K, V>>, tables: seq<seq<Slot<K, V>>>) {
    && |tables| == |ops| + 1 && Probing(tables[0], h) && Contents(tables[0]) == map[]
    && forall i: nat :: i < |ops| ==> StepAt(h, ops, tables, i)
  }

  ghost predicate RepairedAt<K, V>(h: Hashing<K>, ops: seq<Op<K, V>>, tables: seq<seq<Slot<K, V>>>, i: nat)
    requires i < |ops| && i < |tables|
  {
    Harmless(h, tables[i], ops[i]) || (i + 1 < |ops| && Rebuilds(ops[i + 1]))
  }

  /** Every removal is harmless or followed at once by an expansion or a clear. */
  ghost predicate Repaired<K, V>(h: Hashing<K>, ops: seq<Op<K, V>>, tables: seq<seq<Slot<K, V>>>)
    requires |tables| == |ops| + 1
  {
    forall i: nat :: i < |ops| ==> RepairedAt(h, ops, tables, i)
  }

  lemma {:induction false} HistoryRefines<K(!new), V>(h: Hashing<K>, ops: seq<Op<K, V>>, tables: seq<seq<Slot<K, V>>>,
                                                      i: nat)
    requires Lawful(h) && History(h, ops, tables) && Repaired(h, ops, tables) && i <= |ops|
    ensures Distinct(tables[i], h) && Contents(tables[i]) == RunSpec(h, ops[..i])
    ensures Probing(tables[i], h) || (i < |ops| && Rebuilds(ops[i]))
  {
    if i > 0 {
      var s, op, s' := tables[i - 1], ops[i - 1], tables[i];
      HistoryRefines(h, ops, tables, i - 1);
      assert StepAt(h, ops, tables, i - 1) && RepairedAt(h, ops, tables, i - 1);
      StepRefines(h, s, op, s');
      RunSpecStep(h, ops, i - 1);
    }
  }

  /** For every hash, every consistent equality and every run the size is the number of used slots, at most
      three quarters of them. If every removal is harmless or repaired at once, the table moreover stands for the
      map the specification builds, its size is that map's cardinality and no two slots hold equal keys. */
  method Run<K(!new), V>(initialSize: int, h: Hashing<K>, noKey: K, noValue: V, ops: seq<Op<K, V>>)
    returns (m: HashMap<K, V>, ghost tables: seq<seq<Slot<K, V>>>)
    requires Lawful(h)
    ensures fresh(m) && m.h == h && m.Sound()
    ensures History(h, ops, tables) && tables[|ops|] == m.slots[..]
    ensures Repaired(h, ops, tables) ==>
      m.Valid() && m.Map() == RunSpec(h, ops) && m.size == |RunSpec(h, ops)| && Separated(h, RunSpec(h, ops))
  {
    m := new HashMap(initialSize, h, noKey, noValue);
    tables := [m.slots[..]];
    for i := 0 to |ops|
      invariant fresh(m) && fresh(m.slots) && m.h == h && m.Sound()
      invariant |tables| == i + 1 && tables[i] == m.slots[..]
      invariant Probing(tables[0], h) && Contents(tables[0]) == map[]
      invariant forall j: nat :: j < i ==> StepAt(h, ops, tables, j)
    {
      ghost var before := tables;
      Apply(m, ops[i]);
      tables := tables + [m.slots[..]];
      forall j: nat | j < i + 1 ensures StepAt(h, ops, tables, j) {
        assert j < i ==> StepAt(h, ops, before, j);
      }
    }
    if Repaired(h, ops, tables) {
      HistoryRefines(h, ops, tables, |ops|);
      assert ops[..|ops|] == ops;
      CountIsCardinality(m.slots[..], h);
      ContentsSeparated(m.slots[..], h);
    }
  }

  // ---------------------------------------------------------------- iterator

  lemma Moves<T>(done: seq<T>, before: seq<T>, rest: seq<T>)
    requires before != [] && rest == before[1..]
    ensures done + before == (done + [before[0]]) + rest
  {
  }

  lemma Rest<T>(done: seq<T>, rest: seq<T>)
    ensures (done + rest)[|done|..] == rest
  {
  }

  lemma TakeOff<T>(before: seq<T>, got: seq<T>, between: seq<T>, more: seq<T>, rest: seq<T>)
    requires before == got + between && between == more + rest
    ensures before == (got + more) + rest
    ensures |between| == |before| - |got|
  {
  }

  class HashMapIterator<K(!new), V> {
    var index: nat
    var consumed: bool
    var table: HashMap?<K, V>

    constructor ()
      ensures table == null && Valid() && Pending() == []
    {
      index, consumed, table := 0, false, null;
    }

    ghost predicate Valid()
      reads this, table
    {
      table != null ==> table.capacity == table.slots.Length >= if consumed then index + 1 else index
    }

    /** The slot indices still to be returned. */
    ghost function Pending(): (u: seq<nat>)
      reads this, table, if table == null then {} else {table.slots}
    {
      if table == null then [] else UsedFrom(table.slots[..], if consumed then index + 1 else index)
    }

    method Reset()
      requires Valid()
      modifies this`index, this`consumed
      ensures Valid()
      ensures Pending() == if table == null then [] else UsedFrom(table.slots[..], 0)
    {
      index, consumed := 0, false;
    }

    method SetMap(m: HashMap<K, V>)
      requires m.capacity == m.slots.Length
      modifies this
      ensures Valid() && table == m && Pending() == UsedFrom(m.slots[..], 0)
    {
      table := m;
      index, consumed := 0, false;
    }

    /** The loop of the scan: on to the next used slot or the end. It reads slot `capacity`, one past the end,
        whose content is arbitrary: `beyond`. Nothing promised here depends on it. */
    method Advance(beyond: Slot<K, V>)
      requires table != null && table.capacity == table.slots.Length >= index
      modifies this`index
      ensures old(index) <= index <= table.capacity
      ensures forall i :: old(index) <= i < index ==> !table.slots[i].used
      ensures index < table.capacity ==> table.slots[index].used
    {
      var el := if index < table.capacity then table.slots[index] else beyond;
      while !el.used && index < table.capacity
        invariant old(index) <= index <= table.capacity
        invariant el == if index < table.capacity then table.slots[index] else beyond
        invariant forall i :: old(index) <= i < index ==> !table.slots[i].used
        decreases table.capacity - index
      {
        index := index + 1;
        el := if index < table.capacity then table.slots[index] else beyond;
      }
    }

    /** The scan shared by has_next and next. */
    method Scan(beyond: Slot<K, V>) returns (found: bool)
      requires Valid()
      modifies this`index, this`consumed
      ensures Valid() && Pending() == old(Pending())
      ensures found == (Pending() != [])
      ensures found ==> table != null && !consumed && index < table.capacity && Pending()[0] == index
    {
      if table == null || index >= table.capacity {
        return false;
      }
      if consumed {
        index := index + 1;
        consumed := false;
      }
      ghost var start, s := index, table.slots[..];
      Advance(beyond);
      UsedFromSkip(s, start, index);
      UsedFromHere(s, index);
      found := index < table.capacity;
    }

    method HasNext(beyond: Slot<K, V>) returns (r: bool)
      requires Valid()
      modifies this`index, this`consumed
      ensures Valid() && Pending() == old(Pending())
      ensures r == (Pending() != [])
    {
      r := Scan(beyond);
    }

    /** Returns the first pending entry and consumes it; at the end it changes nothing pending. */
    method Next(beyond: Slot<K, V>) returns (r: bool, entry: Option<Slot<K, V>>)
      requires Valid()
      modifies this`index, this`consumed
      ensures Valid() && r == (old(Pending()) != [])
      ensures r ==> table != null && table == old(table) && entry == Some(table.slots[old(Pending())[0]])
      ensures r ==> Pending() == old(Pending())[1..]
      ensures !r ==> entry == None && Pending() == []
    {
      r := Scan(beyond);
      entry := None;
      if r {
        entry := Some(table.slots[index]);
        Moves([], UsedFrom(table.slots[..], index), UsedFrom(table.slots[..], index + 1));
        consumed := true;
      }
    }

    /** One round of skipping: has_next and, if there is one, next. */
    method StepOver(beyond: Slot<K, V>, ghost done: seq<nat>) returns (more: bool, ghost done': seq<nat>)
      requires Valid()
      modifies this`index, this`consumed
      ensures Valid() && more == (old(Pending()) != [])
      ensures done' + Pending() == done + old(Pending())
      ensures if more then |done'| == |done| + 1 else done' == done
    {
      done' := done;
      more := HasNext(beyond);
      if more {
        ghost var before := Pending();
        var _, _ := Next(beyond);
        Moves(done, before, Pending());
        done' := done + [before[0]];
      }
    }

    /** Succeeds exactly when n entries were pending, and then has consumed n of them. */
    method Skip(beyond: Slot<K, V>, n: int) returns (r: bool)
      requires Valid()
      modifies this`index, this`consumed
      ensures Valid()
      ensures r <==> 0 <= n <= |old(Pending())|
      ensures Pending() == if n <= 0 then old(Pending()) else if r then old(Pending())[n..] else []
    {
      ghost var all, done := Pending(), [];
      var left := n;
      while left > 0
        invariant Valid() && all == done + Pending()
        invariant if n > 0 then left == n - |done| >= 0 else left == n && done == []
        modifies this`index, this`consumed
      {
        var more;
        more, done := StepOver(beyond, done);
        if !more {
          break;
        }
        left := left - 1;
      }
      r := left == 0;
      Rest(done, Pending());
    }
  }

  /** The loop `while (has_next) next`: every used slot exactly once, in index order, whatever lies
      beyond the table. */
  method Drain<K(!new), V>(m: HashMap<K, V>, beyond: Slot<K, V>) returns (entries: seq<Slot<K, V>>)
    requires m.capacity == m.slots.Length
    ensures entries == At(m.slots[..], UsedFrom(m.slots[..], 0))
  {
    var it := new HashMapIterator<K, V>();
    it.SetMap(m);
    ghost var s := m.slots[..];
    entries := [];
    while true
      invariant it.Valid() && it.table == m && fresh(it) && m.slots[..] == s
      invariant entries + At(s, it.Pending()) == At(s, UsedFrom(s, 0))
      decreases |it.Pending()|
    {
      var more := it.HasNext(beyond);
      if !more {
        break;
      }
      AtStep(s, it.Pending(), entries);
      var _, entry := it.Next(beyond);
      entries := entries + [entry.value];
    }
  }

  /** A call on an iterator, with whatever memory lies beyond the table at that moment. */
  datatype Call<K, V> = CallHasNext(beyond: Slot<K, V>) | CallNext(beyond: Slot<K, V>)

  function NextCalls<K, V>(calls: seq<Call<K, V>>): nat {
    if calls == [] then 0 else (if calls[0].CallNext? then 1 else 0) + NextCalls(calls[1..])
  }

  /** One call: what it returns is taken off the front of what is pending. */
  method Perform<K(!new), V>(it: HashMapIterator<K, V>, call: Call<K, V>) returns (got: seq<Slot<K, V>>)
    requires it.Valid() && it.table != null
    modifies it`index, it`consumed
    ensures it.Valid() && it.table != null
    ensures At(it.table.slots[..], old(it.Pending())) == got + At(it.table.slots[..], it.Pending())
    ensures |got| == if call.CallNext? && old(it.Pending()) != [] then 1 else 0
  {
    got := [];
    match call {
      case CallHasNext(beyond) =>
        var _ := it.HasNext(beyond);
      case CallNext(beyond) =>
        var r, entry := it.Next(beyond);
        if r {
          got := [entry.value];
        }
    }
  }

  function Min(a: nat, b: nat): nat {
    if a <= b then a else b
  }

  lemma Prefix<T>(a: seq<T>, b: seq<T>)
    ensures (a + b)[..|a|] == a
  {
  }

  lemma CountCalls<K, V>(calls: seq<Call<K, V>>, pending: nat, got: nat, more: nat)
    requires calls != [] && got == (if calls[0].CallNext? && pending > 0 then 1 else 0)
    requires more == Min(NextCalls(calls[1..]), pending - got)
    ensures got + more == Min(NextCalls(calls), pending)
  {
  }

  /** The calls one after the other; s are the slots of the map. */
  method PerformAll<K(!new), V>(it: HashMapIterator<K, V>, calls: seq<Call<K, V>>, ghost s: seq<Slot<K, V>>)
    returns (returned: seq<Slot<K, V>>)
    requires it.Valid() && it.table != null && it.table.slots[..] == s
    modifies it`index, it`consumed
    ensures it.Valid() && it.table != null
    ensures At(s, old(it.Pending())) == returned + At(s, it.Pending())
    ensures |returned| == Min(NextCalls(calls), |old(it.Pending())|)
    decreases |calls|
  {
    returned := [];
    if calls != [] {
      ghost var before := At(s, it.Pending());
      var got := Perform(it, calls[0]);
      ghost var between := At(s, it.Pending());
      var more := PerformAll(it, calls[1..], s);
      TakeOff(before, got, between, more, At(s, it.Pending()));
      CountCalls(calls, |before|, |got|, |more|);
      returned := got + more;
    }
  }

  /** Any mix of has_next and next on an unmodified map returns its used slots in index order, one for
      each call of next until they run out; the calls of has_next make no difference. */
  method AnyMix<K(!new), V>(m: HashMap<K, V>, calls: seq<Call<K, V>>) returns (returned: seq<Slot<K, V>>)
    requires m.capacity == m.slots.Length
    ensures var all := At(m.slots[..], UsedFrom(m.slots[..], 0));
      returned == all[..Min(NextCalls(calls), |all|)]
  {
    var it := new HashMapIterator<K, V>();
    it.SetMap(m);
    ghost var s := m.slots[..];
    returned := PerformAll(it, calls, s);
    Prefix(returned, At(s, it.Pending()));
  }
}
