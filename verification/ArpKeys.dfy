/** Keys of the translation table as the hash map sees them: pointers to 64-bit words. */
module ArpKeys {
  import opened Options
  import opened ProbeTable

  /** A pointer to a word, on the heap or on the caller's stack. */
  datatype KeyRef = KeyRef(heap: bool, word: nat)

  /** hash and equals of src/protocols/arp.c: both look only at the word. */
  const WORDS: Hashing<KeyRef> := Hashing((k: KeyRef) => k.word, (a: KeyRef, b: KeyRef) => a.word == b.word)

  lemma WordsLawful()
    ensures Lawful(WORDS)
  {
  }

  /** m read by word is `cells`, and no stored key points into a stack frame. */
  ghost predicate Linked<V>(m: map<KeyRef, V>, cells: map<nat, V>) {
    && (forall k {:trigger k.heap} :: k in m ==> k.heap)
    && (forall w {:trigger KeyRef(true, w)} ::
          (KeyRef(true, w) in m <==> w in cells) && (w in cells ==> m[KeyRef(true, w)] == cells[w]))
  }

  /** A lookup through any pointer sees the word's entry; there is one entry per word. */
  lemma GetByWord<V>(m: map<KeyRef, V>, cells: map<nat, V>, k: KeyRef)
    requires Linked(m, cells)
    ensures Separated(WORDS, m)
    ensures Get(WORDS, m, k) == if k.word in cells then Some(cells[k.word]) else None
  {
    forall a, b | a in m && b in m && WORDS.eq(a, b) ensures a == b {
      assert a.heap && b.heap;
    }
    assert KeyRef(true, k.word) in m <==> k.word in cells;
    assert WORDS.eq(k, KeyRef(true, k.word));
    if Stored(WORDS, m, k).Some? {
      assert Stored(WORDS, m, k).value.heap;
      assert Stored(WORDS, m, k).value == KeyRef(true, k.word);
    }
  }

  /** A put updates the word's entry, and keeps every key on the heap exactly when the pointer is a
      heap pointer or its word is already present. */
  lemma PutByWord<V>(m: map<KeyRef, V>, cells: map<nat, V>, k: KeyRef, v: V)
    requires Linked(m, cells)
    ensures Linked(Put(WORDS, m, k, v), cells[k.word := v]) <==> k.heap || k.word in cells
  {
    var m' := Put(WORDS, m, k, v);
    var own := KeyRef(true, k.word);
    assert own in m <==> k.word in cells;
    assert WORDS.eq(k, own);
    if Stored(WORDS, m, k).Some? {
      assert Stored(WORDS, m, k).value.heap;
      assert Stored(WORDS, m, k).value == own;
    }
    if k.heap || k.word in cells {
      assert m' == m[own := v];
      forall w ensures (KeyRef(true, w) in m' <==> w in cells[k.word := v]) &&
                       (w in cells[k.word := v] ==> m'[KeyRef(true, w)] == cells[k.word := v][w])
      {
      }
    } else {
      assert k in m' && !k.heap;
    }
  }
}
