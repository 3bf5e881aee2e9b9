/** A linear-probing table as a value: what a probe finds, what an insertion and a removal do,
    and the finite map the table stands for. */
module ProbeTable {
  import opened Options
  import opened Bits

  datatype Slot<K, V> = Slot(used: bool, key: K, value: V)

  /** The caller-supplied hash and equality. */
  datatype Hashing<!K> = Hashing(hash: K -> nat, eq: (K, K) -> bool)

  /** Equality is an equivalence and equal keys hash alike. */
  ghost predicate Lawful<K(!new)>(h: Hashing<K>) {
    && (forall a :: h.eq(a, a))
    && (forall a, b :: h.eq(a, b) ==> h.eq(b, a) && h.hash(a) == h.hash(b))
    && (forall a, b, c :: h.eq(a, b) && h.eq(b, c) ==> h.eq(a, c))
  }

  // ---------------------------------------------------------------- the specification: a finite map

  /** The stored key equal to `k`, if there is one. */
  ghost function Stored<K(!new), V>(h: Hashing<K>, m: map<K, V>, k: K): (r: Option<K>)
    ensures r.Some? ==> r.value in m && h.eq(k, r.value)
    ensures r.None? ==> forall k' :: k' in m ==> !h.eq(k, k')
  {
    if k' :| k' in m && h.eq(k, k') then Some(k') else None
  }

  ghost function Get<K(!new), V>(h: Hashing<K>, m: map<K, V>, k: K): Option<V> {
    match Stored(h, m, k) case Some(k') => Some(m[k']) case None => None
  }

  /** Overwrite under the stored key object when an equal one is there, else add `k` itself. */
  ghost function Put<K(!new), V>(h: Hashing<K>, m: map<K, V>, k: K, v: V): map<K, V> {
    match Stored(h, m, k) case Some(k') => m[k' := v] case None => m[k := v]
  }

  /** One entry per key up to equality. */
  ghost predicate Separated<K(!new), V>(h: Hashing<K>, m: map<K, V>) {
    forall a, b :: a in m && b in m && h.eq(a, b) ==> a == b
  }

  lemma GetIs<K(!new), V>(h: Hashing<K>, m: map<K, V>, k: K, k': K)
    requires Lawful(h) && Separated(h, m) && k' in m && h.eq(k, k')
    ensures Stored(h, m, k) == Some(k')
    ensures Get(h, m, k) == Some(m[k'])
  {
  }

  /** The finite map obeys the laws of a map: a put is seen by exactly the equal keys. */
  lemma GetAfterPut<K(!new), V>(h: Hashing<K>, m: map<K, V>, k: K, v: V, q: K)
    requires Lawful(h) && Separated(h, m)
    ensures Separated(h, Put(h, m, k, v))
    ensures Get(h, Put(h, m, k, v), q) == if h.eq(q, k) then Some(v) else Get(h, m, q)
  {
  }

  // ---------------------------------------------------------------- probing

  function Home<K>(h: Hashing<K>, k: K, n: nat): (i: nat)
    requires n > 0
    ensures i < n
  {
    h.hash(k) % n
  }

  /** j lies on the cyclic path that starts at a and stops before b. */
  predicate Between(a: nat, j: nat, b: nat) {
    if a <= b then a <= j < b else a <= j || j < b
  }

  /** Every slot on the way from the home of `k` to r is used by another key. */
  ghost predicate Passed<K, V>(s: seq<Slot<K, V>>, h: Hashing<K>, k: K, r: nat) {
    && r < |s|
    && (forall j :: 0 <= j < |s| && Between(Home(h, k, |s|), j, r) ==> s[j].used && !h.eq(k, s[j].key))
  }

  /** r is where a probe for `k` stops. */
  ghost predicate IsIndexOf<K, V>(s: seq<Slot<K, V>>, h: Hashing<K>, k: K, r: nat) {
    Passed(s, h, k, r) && (s[r].used ==> h.eq(k, s[r].key))
  }

  function Next(i: nat, n: nat): nat {
    if i + 1 == n then 0 else i + 1
  }

  /** Slots a probe at r still has before it meets the free slot f. */
  function Distance(r: nat, f: nat, n: nat): (d: int)
    requires r < n && f < n
    ensures 0 <= d < n
  {
    if r <= f then f - r else f + n - r
  }

  lemma ProbeStep<K, V>(s: seq<Slot<K, V>>, h: Hashing<K>, k: K, r: nat, f: nat)
    requires Passed(s, h, k, r) && s[r].used && !h.eq(k, s[r].key)
    requires f < |s| && !s[f].used
    ensures Passed(s, h, k, Next(r, |s|))
    ensures Distance(Next(r, |s|), f, |s|) < Distance(r, f, |s|)
  {
  }

  ghost predicate HasFree<K, V>(s: seq<Slot<K, V>>) {
    exists i :: 0 <= i < |s| && !s[i].used
  }

  /** The answer of a lookup whose probe stopped at r. */
  function Found<K, V>(s: seq<Slot<K, V>>, r: nat): Option<V>
    requires r < |s|
  {
    if s[r].used then Some(s[r].value) else None
  }

  /** Cyclic probe-chain invariant: no gap between a used slot and its key's home. */
  ghost predicate Chained<K, V>(s: seq<Slot<K, V>>, h: Hashing<K>) {
    forall i, j {:trigger Between(Home(h, s[i].key, |s|), j, i)} ::
      0 <= i < |s| && 0 <= j < |s| && s[i].used && Between(Home(h, s[i].key, |s|), j, i) ==> s[j].used
  }

  ghost predicate Distinct<K, V>(s: seq<Slot<K, V>>, h: Hashing<K>) {
    forall i, j {:trigger h.eq(s[i].key, s[j].key)} ::
      0 <= i < |s| && 0 <= j < |s| && s[i].used && s[j].used && h.eq(s[i].key, s[j].key) ==> i == j
  }

  ghost predicate Probing<K, V>(s: seq<Slot<K, V>>, h: Hashing<K>) {
    Chained(s, h) && Distinct(s, h)
  }

  /** A probe has at most one place to stop. */
  lemma IndexUnique<K, V>(s: seq<Slot<K, V>>, h: Hashing<K>, k: K, r: nat, r': nat)
    requires IsIndexOf(s, h, k, r) && IsIndexOf(s, h, k, r')
    ensures r == r'
  {
  }

  /** With a free slot a probe stops within one pass. */
  lemma IndexExists<K, V>(s: seq<Slot<K, V>>, h: Hashing<K>, k: K) returns (r: nat)
    requires HasFree(s)
    ensures IsIndexOf(s, h, k, r)
  {
    var f :| 0 <= f < |s| && !s[f].used;
    r := Home(h, k, |s|);
    while s[r].used && !h.eq(k, s[r].key)
      invariant Passed(s, h, k, r)
      decreases Distance(r, f, |s|)
    {
      ProbeStep(s, h, k, r, f);
      r := Next(r, |s|);
    }
  }

  /** The slot a probe for k visits after d steps. */
  function Visited<K>(h: Hashing<K>, k: K, n: nat, d: nat): (i: nat)
    requires n > 0
    ensures i < n
  {
    (h.hash(k) + d) % n
  }

  /** Of the slots at hash, hash + 1, ... modulo the length, number d is the first that is free or holds an equal
      key. */
  ghost predicate StopsAfter<K, V>(s: seq<Slot<K, V>>, h: Hashing<K>, k: K, d: nat)
    requires d < |s|
  {
    && (forall e: nat :: e < d ==> s[Visited(h, k, |s|, e)].used && !h.eq(k, s[Visited(h, k, |s|, e)].key))
    && (s[Visited(h, k, |s|, d)].used ==> h.eq(k, s[Visited(h, k, |s|, d)].key))
  }

  lemma VisitedFromHome<K>(h: Hashing<K>, k: K, n: nat, d: nat)
    requires d < n
    ensures var a := Home(h, k, n); Visited(h, k, n, d) == if a + d < n then a + d else a + d - n
  {
    var q, a := h.hash(k) / n, Home(h, k, n);
    if a + d < n {
      DivModUnique(h.hash(k) + d, n, q, a + d);
    } else {
      DivModUnique(h.hash(k) + d, n, q + 1, a + d - n);
    }
  }

  /** That is where the probe stops. */
  lemma ProbeOrder<K, V>(s: seq<Slot<K, V>>, h: Hashing<K>, k: K, d: nat)
    requires d < |s| && StopsAfter(s, h, k, d)
    ensures IsIndexOf(s, h, k, Visited(h, k, |s|, d))
  {
    var n, a, r := |s|, Home(h, k, |s|), Visited(h, k, |s|, d);
    VisitedFromHome(h, k, n, d);
    forall j | 0 <= j < n && Between(a, j, r) ensures s[j].used && !h.eq(k, s[j].key) {
      var e: nat := if a <= j then j - a else j + n - a;
      VisitedFromHome(h, k, n, e);
      assert e < d && Visited(h, k, n, e) == j;
    }
  }

  // ---------------------------------------------------------------- the map a table stands for

  ghost function Keys<K, V>(s: seq<Slot<K, V>>): set<K> {
    set i | 0 <= i < |s| && s[i].used :: s[i].key
  }

  ghost function Where<K, V>(s: seq<Slot<K, V>>, k: K): (i: nat)
    requires k in Keys(s)
    ensures i < |s| && s[i].used && s[i].key == k
  {
    var i :| 0 <= i < |s| && s[i].used && s[i].key == k; i
  }

  ghost function Contents<K, V>(s: seq<Slot<K, V>>): map<K, V> {
    map k | k in Keys(s) :: s[Where(s, k)].value
  }

  lemma ContentsAt<K(!new), V>(s: seq<Slot<K, V>>, h: Hashing<K>, i: nat)
    requires Lawful(h) && Distinct(s, h) && i < |s| && s[i].used
    ensures s[i].key in Contents(s) && Contents(s)[s[i].key] == s[i].value
    ensures Where(s, s[i].key) == i
  {
    assert h.eq(s[Where(s, s[i].key)].key, s[i].key);
  }

  lemma ContentsSeparated<K(!new), V>(s: seq<Slot<K, V>>, h: Hashing<K>)
    requires Distinct(s, h)
    ensures Separated(h, Contents(s))
  {
  }

  /** On a probing table a used slot with an equal key is exactly what the probe reaches. */
  lemma ProbeReaches<K(!new), V>(s: seq<Slot<K, V>>, h: Hashing<K>, k: K, r: nat, j: nat)
    requires Lawful(h) && Probing(s, h) && IsIndexOf(s, h, k, r)
    requires j < |s| && s[j].used && h.eq(k, s[j].key)
    ensures r == j
  {
    var a := Home(h, k, |s|);
    assert a == Home(h, s[j].key, |s|);
    assert !Between(a, j, r);
    assert r != j ==> Between(a, r, j);
    assert s[r].used ==> h.eq(s[r].key, k) && h.eq(s[r].key, s[j].key);
  }

  /** Lookups on a probing table answer as the finite map does. */
  lemma LookupIsGet<K(!new), V>(s: seq<Slot<K, V>>, h: Hashing<K>, k: K, r: nat)
    requires Lawful(h) && Probing(s, h) && IsIndexOf(s, h, k, r)
    ensures Found(s, r) == Get(h, Contents(s), k)
    ensures Stored(h, Contents(s), k) == if s[r].used then Some(s[r].key) else None
  {
    ContentsSeparated(s, h);
    if s[r].used {
      ContentsAt(s, h, r);
      GetIs(h, Contents(s), k, s[r].key);
    } else if Stored(h, Contents(s), k).Some? {
      ProbeReaches(s, h, k, r, Where(s, Stored(h, Contents(s), k).value));
    }
  }

  // ---------------------------------------------------------------- insertion

  /** The slot an insertion leaves where its probe stopped: the value changes, a stored key stays. */
  function Filled<K, V>(s: seq<Slot<K, V>>, r: nat, k: K, v: V): Slot<K, V>
    requires r < |s|
  {
    Slot(true, if s[r].used then s[r].key else k, v)
  }

  lemma FilledProbing<K(!new), V>(s: seq<Slot<K, V>>, h: Hashing<K>, k: K, v: V, r: nat)
    requires Lawful(h) && Probing(s, h) && IsIndexOf(s, h, k, r)
    ensures Probing(s[r := Filled(s, r, k, v)], h)
  {
    var s' := s[r := Filled(s, r, k, v)];
    forall i, j | 0 <= i < |s| && 0 <= j < |s| && s'[i].used && s'[j].used && h.eq(s'[i].key, s'[j].key)
      ensures i == j
    {
      assert h.eq(s'[j].key, s'[i].key);
      if !s[r].used && i == r && j != r { ProbeReaches(s, h, k, r, j); }
      if !s[r].used && j == r && i != r { ProbeReaches(s, h, k, r, i); }
    }
    forall i, j | 0 <= i < |s| && 0 <= j < |s| && s'[i].used && Between(Home(h, s'[i].key, |s|), j, i)
      ensures s'[j].used
    {
      assert i != r ==> s'[i] == s[i];
    }
  }

  /** An insertion at the probed slot is a put on the finite map. */
  lemma FilledIsPut<K(!new), V>(s: seq<Slot<K, V>>, h: Hashing<K>, k: K, v: V, r: nat)
    requires Lawful(h) && Probing(s, h) && IsIndexOf(s, h, k, r)
    ensures Contents(s[r := Filled(s, r, k, v)]) == Put(h, Contents(s), k, v)
  {
    var s' := s[r := Filled(s, r, k, v)];
    var m' := Put(h, Contents(s), k, v);
    FilledProbing(s, h, k, v, r);
    LookupIsGet(s, h, k, r);
    assert m' == Contents(s)[s'[r].key := v];
    forall q ensures q in Contents(s') <==> q in m' {
      if q in Contents(s') { var i := Where(s', q); assert i != r ==> s[i] == s'[i]; }
      if q in Contents(s) { var i := Where(s, q); assert i != r ==> s[i] == s'[i]; assert s'[i].key in Keys(s'); }
      assert s'[r].key in Keys(s');
    }
    forall q | q in m' ensures Contents(s')[q] == m'[q] {
      var i := Where(s', q);
      ContentsAt(s', h, i);
      if i != r {
        ContentsAt(s, h, i);
        assert !h.eq(s'[i].key, s'[r].key);
      }
    }
  }

  // ---------------------------------------------------------------- counting used slots

  function Count<K, V>(s: seq<Slot<K, V>>): (c: nat)
    ensures c <= |s|
  {
    if s == [] then 0 else Count(s[..|s| - 1]) + if s[|s| - 1].used then 1 else 0
  }

  lemma {:induction false} CountUpdate<K, V>(s: seq<Slot<K, V>>, r: nat, x: Slot<K, V>)
    requires r < |s|
    ensures Count(s[r := x]) == Count(s) + (if x.used then 1 else 0) - (if s[r].used then 1 else 0)
  {
    var n := |s| - 1;
    if r == n {
      assert s[r := x][..n] == s[..n];
    } else {
      assert s[r := x][..n] == s[..n][r := x];
      CountUpdate(s[..n], r, x);
    }
  }

  /** Fewer used slots than slots leaves a free one. */
  lemma {:induction false} CountLeavesFree<K, V>(s: seq<Slot<K, V>>)
    requires Count(s) < |s|
    ensures HasFree(s)
  {
    var n := |s| - 1;
    if s[n].used {
      CountLeavesFree(s[..n]);
      var i :| 0 <= i < |s[..n]| && !s[..n][i].used;
      assert !s[i].used;
    }
  }

  lemma {:induction false} CountNone<K, V>(s: seq<Slot<K, V>>)
    requires forall i :: 0 <= i < |s| ==> !s[i].used
    ensures Count(s) == 0
  {
    if s != [] { CountNone(s[..|s| - 1]); }
  }

  lemma KeysOfPrefix<K, V>(s: seq<Slot<K, V>>)
    requires s != []
    ensures var n := |s| - 1; Keys(s) == Keys(s[..n]) + if s[n].used then {s[n].key} else {}
  {
  }

  /** The last slot adds a new key to the map of the slots before it. */
  lemma ContentsOfPrefix<K(!new), V>(s: seq<Slot<K, V>>, h: Hashing<K>)
    requires Lawful(h) && Distinct(s, h) && s != []
    ensures var n := |s| - 1;
      && Distinct(s[..n], h)
      && Contents(s) == (if s[n].used then Contents(s[..n])[s[n].key := s[n].value] else Contents(s[..n]))
      && (s[n].used ==> Stored(h, Contents(s[..n]), s[n].key) == None)
  {
    var n := |s| - 1;
    var p := s[..n];
    KeysOfPrefix(s);
    assert Distinct(p, h);
    forall k | k in Keys(p) ensures Contents(s)[k] == Contents(p)[k] && (s[n].used ==> !h.eq(s[n].key, k)) {
      assert s[Where(p, k)] == p[Where(p, k)];
      ContentsAt(s, h, Where(p, k));
    }
    if s[n].used { ContentsAt(s, h, n); }
    assert Contents(p).Keys == Keys(p) && Contents(s).Keys == Keys(s);
  }

  /** The number of used slots is the cardinality of the map. */
  lemma {:induction false} CountIsCardinality<K(!new), V>(s: seq<Slot<K, V>>, h: Hashing<K>)
    requires Lawful(h) && Distinct(s, h)
    ensures |Contents(s)| == Count(s)
  {
    if s == [] {
      assert Contents(s) == map[];
    } else {
      var n := |s| - 1;
      ContentsOfPrefix(s, h);
      CountIsCardinality(s[..n], h);
      if s[n].used {
        assert h.eq(s[n].key, s[n].key);
        assert s[n].key !in Contents(s[..n]);
        assert Contents(s).Keys == Contents(s[..n]).Keys + {s[n].key};
      }
    }
  }

  /** All an insertion at the probed slot does. */
  lemma Inserted<K(!new), V>(s: seq<Slot<K, V>>, h: Hashing<K>, k: K, v: V, r: nat, s': seq<Slot<K, V>>)
    requires Lawful(h) && IsIndexOf(s, h, k, r) && s' == s[r := Filled(s, r, k, v)]
    ensures Count(s') == Count(s) + if s[r].used then 0 else 1
    ensures Probing(s, h) ==> Probing(s', h) && Contents(s') == Put(h, Contents(s), k, v) && |Contents(s')| == Count(s')
  {
    CountUpdate(s, r, Filled(s, r, k, v));
    if Probing(s, h) {
      FilledProbing(s, h, k, v, r);
      FilledIsPut(s, h, k, v, r);
      CountIsCardinality(s', h);
    }
  }

  // ---------------------------------------------------------------- removal

  /** What removal does to the slot its probe stopped at: only the flag is cleared. */
  function Freed<K, V>(s: seq<Slot<K, V>>, r: nat): seq<Slot<K, V>>
    requires r < |s|
  {
    s[r := s[r].(used := false)]
  }

  /** Some other key's probe path runs across slot r. */
  ghost predicate Crossed<K, V>(s: seq<Slot<K, V>>, h: Hashing<K>, r: nat)
    requires r < |s|
  {
    exists j :: 0 <= j < |s| && j != r && s[j].used && Between(Home(h, s[j].key, |s|), r, j)
  }

  /** After freeing slot r every lookup answers as the old map without that key. */
  ghost predicate RemovesExactly<K(!new), V>(s: seq<Slot<K, V>>, h: Hashing<K>, r: nat)
    requires r < |s|
  {
    forall q, i :: IsIndexOf(Freed(s, r), h, q, i) ==>
      Found(Freed(s, r), i) == Get(h, Contents(s) - {s[r].key}, q)
  }

  /** A key whose path crosses the freed slot is still stored but can no longer be found. */
  lemma CrossingIsLost<K(!new), V>(s: seq<Slot<K, V>>, h: Hashing<K>, r: nat, j: nat)
    requires Lawful(h) && Probing(s, h) && r < |s| && s[r].used
    requires j < |s| && j != r && s[j].used && Between(Home(h, s[j].key, |s|), r, j)
    ensures s[j].key in Contents(s) - {s[r].key}
    ensures IsIndexOf(Freed(s, r), h, s[j].key, r) && Found(Freed(s, r), r) == None
    ensures Get(h, Contents(s) - {s[r].key}, s[j].key) == Some(s[j].value)
  {
    var s' := Freed(s, r);
    var a := Home(h, s[j].key, |s|);
    ContentsAt(s, h, j);
    ContentsSeparated(s, h);
    assert !h.eq(s[j].key, s[r].key);
    GetIs(h, Contents(s) - {s[r].key}, s[j].key, s[j].key);
    forall i | 0 <= i < |s| && Between(a, i, r) ensures s'[i].used && !h.eq(s[j].key, s'[i].key) {
      assert Between(a, i, j) && i != r;
    }
  }

  lemma FreedContents<K(!new), V>(s: seq<Slot<K, V>>, h: Hashing<K>, r: nat)
    requires Lawful(h) && Distinct(s, h) && r < |s| && s[r].used
    ensures Distinct(Freed(s, r), h)
    ensures Contents(Freed(s, r)) == Contents(s) - {s[r].key}
  {
    var s' := Freed(s, r);
    forall q ensures q in Contents(s') <==> q in Contents(s) && q != s[r].key {
      if q in Contents(s') {
        var i := Where(s', q);
        assert s[i] == s'[i] && s[i].key in Keys(s);
        assert !h.eq(s[i].key, s[r].key);
      }
      if q in Contents(s) && q != s[r].key {
        var i := Where(s, q);
        assert s'[i] == s[i] && s'[i].key in Keys(s');
      }
    }
    forall q | q in Contents(s') ensures Contents(s')[q] == Contents(s)[q] {
      ContentsAt(s, h, Where(s', q));
    }
  }

  /** Removal is exact if and only if no surviving key's probe path crosses the freed slot; the
      probe-chain invariant survives under the same condition. */
  lemma RemoveExactIff<K(!new), V>(s: seq<Slot<K, V>>, h: Hashing<K>, r: nat)
    requires Lawful(h) && Probing(s, h) && r < |s| && s[r].used
    ensures RemovesExactly(s, h, r) <==> !Crossed(s, h, r)
    ensures Probing(Freed(s, r), h) <==> !Crossed(s, h, r)
  {
    var s' := Freed(s, r);
    FreedContents(s, h, r);
    if Crossed(s, h, r) {
      var j :| 0 <= j < |s| && j != r && s[j].used && Between(Home(h, s[j].key, |s|), r, j);
      CrossingIsLost(s, h, r, j);
      assert s'[j] == s[j] && !s'[r].used;
    } else {
      assert Chained(s', h);
      forall q, i | IsIndexOf(s', h, q, i) ensures Found(s', i) == Get(h, Contents(s) - {s[r].key}, q) {
        LookupIsGet(s', h, q, i);
      }
    }
  }

  /** All a removal does, whether the probed slot was used or not. */
  lemma Removed<K(!new), V>(s: seq<Slot<K, V>>, h: Hashing<K>, k: K, r: nat, s': seq<Slot<K, V>>)
    requires Lawful(h) && IsIndexOf(s, h, k, r) && s' == Freed(s, r)
    ensures Count(s') == Count(s) - if s[r].used then 1 else 0
    ensures Distinct(s, h) && s[r].used ==> Distinct(s', h) && Contents(s') == Contents(s) - {s[r].key}
    ensures Probing(s, h) ==> Stored(h, Contents(s), k) == if s[r].used then Some(s[r].key) else None
    ensures Probing(s, h) && s[r].used ==> (Probing(s', h) <==> !Crossed(s, h, r))
  {
    CountUpdate(s, r, s'[r]);
    if Distinct(s, h) && s[r].used { FreedContents(s, h, r); }
    if Probing(s, h) { LookupIsGet(s, h, k, r); }
    if Probing(s, h) && s[r].used { RemoveExactIff(s, h, r); }
  }

  /** An empty slot after the freed one is enough. */
  lemma EmptyNextSuffices<K, V>(s: seq<Slot<K, V>>, h: Hashing<K>, r: nat)
    requires Chained(s, h) && r < |s|
    requires !s[Next(r, |s|)].used
    ensures !Crossed(s, h, r)
  {
    var n := Next(r, |s|);
    forall j | 0 <= j < |s| && j != r && s[j].used ensures !Between(Home(h, s[j].key, |s|), r, j) {
      var a := Home(h, s[j].key, |s|);
      assert !Between(a, n, j);
    }
  }

  /** A concrete loss: keys 1 and 2 share a home, 1 sits there and 2 next to it. Removing 1 hides 2. */
  lemma RemoveCanLoseAKey()
    ensures var h := Hashing((k: int) => 0, (a: int, b: int) => a == b);
      var s := seq(16, i => Slot(i < 2, i + 1, i));
      && Lawful(h) && Probing(s, h) && IsIndexOf(s, h, 1, 0) && Crossed(s, h, 0)
      && IsIndexOf(Freed(s, 0), h, 2, 0) && Found(Freed(s, 0), 0) == None
      && Get(h, Contents(s) - {1}, 2) == Some(1)
  {
    var h := Hashing((k: int) => 0, (a: int, b: int) => a == b);
    var s := seq(16, i => Slot(i < 2, i + 1, i));
    assert s[1].used && Between(Home(h, s[1].key, 16), 0, 1);
    CrossingIsLost(s, h, 0, 1);
  }

  // ---------------------------------------------------------------- re-inserting a whole table

  /** The map obtained by putting every used slot in index order into an empty map. */
  ghost function PutAll<K(!new), V>(h: Hashing<K>, s: seq<Slot<K, V>>): map<K, V> {
    if s == [] then map[]
    else
      var m, x := PutAll(h, s[..|s| - 1]), s[|s| - 1];
      if x.used then Put(h, m, x.key, x.value) else m
  }

  /** Re-inserting a table without duplicates gives its own contents. */
  lemma {:induction false} PutAllIsContents<K(!new), V>(h: Hashing<K>, s: seq<Slot<K, V>>)
    requires Lawful(h) && Distinct(s, h)
    ensures PutAll(h, s) == Contents(s)
  {
    if s == [] {
      assert Contents(s) == map[];
    } else {
      ContentsOfPrefix(s, h);
      PutAllIsContents(h, s[..|s| - 1]);
    }
  }

  lemma PutAllStep<K(!new), V>(h: Hashing<K>, s: seq<Slot<K, V>>, i: nat)
    requires i < |s|
    ensures PutAll(h, s[..i + 1]) ==
      if s[i].used then Put(h, PutAll(h, s[..i]), s[i].key, s[i].value) else PutAll(h, s[..i])
    ensures Count(s[..i + 1]) == Count(s[..i]) + if s[i].used then 1 else 0
  {
    assert s[..i + 1][..i] == s[..i];
  }

  /** A table rebuilt from one without duplicates stands for the same map and is as full. */
  lemma Rehashed<K(!new), V>(h: Hashing<K>, s: seq<Slot<K, V>>, s': seq<Slot<K, V>>)
    requires Lawful(h) && Distinct(s, h) && Distinct(s', h) && Contents(s') == PutAll(h, s)
    ensures Contents(s') == Contents(s) && Count(s') == Count(s)
  {
    PutAllIsContents(h, s);
    CountIsCardinality(s, h);
    CountIsCardinality(s', h);
  }

  // ---------------------------------------------------------------- iteration order

  /** The indices of the used slots from p on, in increasing order. */
  function UsedFrom<K, V>(s: seq<Slot<K, V>>, p: nat): (u: seq<nat>)
    ensures forall i :: 0 <= i < |u| ==> p <= u[i] < |s| && s[u[i]].used
    decreases |s| - p
  {
    if p >= |s| then [] else (if s[p].used then [p] else []) + UsedFrom(s, p + 1)
  }

  lemma {:induction false} UsedFromHas<K, V>(s: seq<Slot<K, V>>, p: nat, a: nat)
    requires p <= a < |s| && s[a].used
    ensures a in UsedFrom(s, p)
    decreases a - p
  {
    if p < a { UsedFromHas(s, p + 1, a); }
  }

  lemma {:induction false} UsedFromOrdered<K, V>(s: seq<Slot<K, V>>, p: nat, i: nat, j: nat)
    requires i < j < |UsedFrom(s, p)|
    ensures UsedFrom(s, p)[i] < UsedFrom(s, p)[j]
    decreases |s| - p
  {
    var rest := UsedFrom(s, p + 1);
    if !s[p].used {
      assert UsedFrom(s, p) == rest;
      UsedFromOrdered(s, p + 1, i, j);
    } else {
      assert UsedFrom(s, p) == [p] + rest;
      if i > 0 { UsedFromOrdered(s, p + 1, i - 1, j - 1); }
    }
  }

  /** Every used slot is listed, exactly once and in index order. */
  lemma UsedFromComplete<K, V>(s: seq<Slot<K, V>>, p: nat)
    ensures var u := UsedFrom(s, p);
      && (forall a :: p <= a < |s| && s[a].used ==> a in u)
      && (forall i, j :: 0 <= i < j < |u| ==> u[i] < u[j])
  {
    forall a | p <= a < |s| && s[a].used ensures a in UsedFrom(s, p) {
      UsedFromHas(s, p, a);
    }
    forall i, j | 0 <= i < j < |UsedFrom(s, p)| ensures UsedFrom(s, p)[i] < UsedFrom(s, p)[j] {
      UsedFromOrdered(s, p, i, j);
    }
  }

  lemma {:induction false} UsedFromCount<K, V>(s: seq<Slot<K, V>>, p: nat)
    requires p <= |s|
    ensures |UsedFrom(s, p)| + Count(s[..p]) == Count(s)
    decreases |s| - p
  {
    if p == |s| {
      assert s[..p] == s;
    } else {
      assert s[..p + 1][..p] == s[..p];
      UsedFromCount(s, p + 1);
    }
  }

  /** Nothing used before q: starting at p or at q makes no difference. */
  lemma {:induction false} UsedFromSkip<K, V>(s: seq<Slot<K, V>>, p: nat, q: nat)
    requires p <= q <= |s|
    requires forall i :: p <= i < q ==> !s[i].used
    ensures UsedFrom(s, p) == UsedFrom(s, q)
    decreases q - p
  {
    if p < q { UsedFromSkip(s, p + 1, q); }
  }

  lemma UsedFromHere<K, V>(s: seq<Slot<K, V>>, p: nat)
    ensures p >= |s| ==> UsedFrom(s, p) == []
    ensures p < |s| && s[p].used ==> UsedFrom(s, p) != [] && UsedFrom(s, p)[0] == p
  {
  }

  /** The slots at the given indices. */
  function At<K, V>(s: seq<Slot<K, V>>, u: seq<nat>): (r: seq<Slot<K, V>>)
    requires forall i :: 0 <= i < |u| ==> u[i] < |s|
    ensures |r| == |u|
  {
    if u == [] then [] else [s[u[0]]] + At(s, u[1..])
  }

  lemma {:induction false} AtIndex<K, V>(s: seq<Slot<K, V>>, u: seq<nat>, i: nat)
    requires (forall i :: 0 <= i < |u| ==> u[i] < |s|) && i < |u|
    ensures At(s, u)[i] == s[u[i]]
  {
    if i > 0 { AtIndex(s, u[1..], i - 1); }
  }

  lemma AtStep<K, V>(s: seq<Slot<K, V>>, u: seq<nat>, done: seq<Slot<K, V>>)
    requires u != [] && forall i :: 0 <= i < |u| ==> u[i] < |s|
    ensures done + At(s, u) == (done + [s[u[0]]]) + At(s, u[1..])
  {
  }

  /** Walking the used slots meets every entry of the map exactly once. */
  lemma WalkMeetsEachOnce<K(!new), V>(s: seq<Slot<K, V>>, h: Hashing<K>)
    requires Lawful(h) && Distinct(s, h)
    ensures var e := At(s, UsedFrom(s, 0));
      && |e| == |Contents(s)|
      && (forall i :: 0 <= i < |e| ==> e[i].key in Contents(s) && Contents(s)[e[i].key] == e[i].value)
      && (forall i, j :: 0 <= i < j < |e| ==> !h.eq(e[i].key, e[j].key))
      && (forall k :: k in Contents(s) ==> s[Where(s, k)] in e)
  {
    var u := UsedFrom(s, 0);
    var e := At(s, u);
    UsedFromCount(s, 0);
    CountIsCardinality(s, h);
    forall i | 0 <= i < |e| ensures e[i].key in Contents(s) && Contents(s)[e[i].key] == e[i].value {
      AtIndex(s, u, i);
      ContentsAt(s, h, u[i]);
    }
    forall i, j | 0 <= i < j < |e| ensures !h.eq(e[i].key, e[j].key) {
      UsedFromComplete(s, 0);
      AtIndex(s, u, i);
      AtIndex(s, u, j);
    }
    forall k | k in Contents(s) ensures s[Where(s, k)] in e {
      WalkFinds(s, Where(s, k));
    }
  }

  lemma WalkFinds<K, V>(s: seq<Slot<K, V>>, a: nat)
    requires a < |s| && s[a].used
    ensures s[a] in At(s, UsedFrom(s, 0))
  {
    var u := UsedFrom(s, 0);
    UsedFromComplete(s, 0);
    var i :| 0 <= i < |u| && u[i] == a;
    AtIndex(s, u, i);
  }
}
