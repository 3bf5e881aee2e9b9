/** Laws of the Internet checksum that its users rely on. */
module ChecksumLaws {
  import opened Bytes
  import opened Checksum

  /** A block checks out exactly when its word sum is a positive multiple of 65535. */
  lemma VerifiesIff(b: seq<byte>)
    requires |b| <= 131074
    ensures ChecksumOf(b) == 0 <==> Sum(Words(b)) > 0 && Sum(Words(b)) % 65535 == 0
  {
    NoOverflow(b);
    CanonUnique(Sum(Words(b)), 65535);
  }

  // ---------------------------------------------------------------- changing one aligned word

  lemma {:induction false} SumUpdate(ws: seq<u16>, k: nat, w: u16)
    requires k < |ws|
    ensures Sum(ws[k := w]) == Sum(ws) - ws[k] + w
  {
    var n := |ws| - 1;
    if k == n {
      assert ws[k := w][..n] == ws[..n];
    } else {
      assert ws[k := w][..n] == ws[..n][k := w];
      SumUpdate(ws[..n], k, w);
    }
  }

  lemma StoreIsWordUpdate(b: seq<byte>, k: nat, x: u16)
    requires 2 * k + 2 <= |b|
    ensures Words(Store16(b, 2 * k, x)) == Words(b)[k := x]
    ensures Words(b)[k] == Load16(b, 2 * k)
  {
  }

  lemma SumAfterStore(b: seq<byte>, k: nat, x: u16)
    requires 2 * k + 2 <= |b|
    ensures Sum(Words(Store16(b, 2 * k, x))) == Sum(Words(b)) - Load16(b, 2 * k) + x
  {
    StoreIsWordUpdate(b, k, x);
    SumUpdate(Words(b), k, x);
  }

  lemma FillZeroField(z: seq<byte>, k: nat)
    requires 2 * k + 2 <= |z| <= 131074 && Load16(z, 2 * k) == 0
    ensures ChecksumOf(Store16(z, 2 * k, ChecksumOf(z))) == 0
  {
    NoOverflow(z);
    SumAfterStore(z, k, ChecksumOf(z));
    ComplementCompletes(Sum(Words(z)));
    VerifiesIff(Store16(z, 2 * k, ChecksumOf(z)));
  }

  /** Zero an aligned field, compute, store: the block then always checks out. */
  lemma FillThenVerify(b: seq<byte>, k: nat)
    requires 2 * k + 2 <= |b| <= 131074
    ensures var z := Store16(b, 2 * k, 0); ChecksumOf(Store16(z, 2 * k, ChecksumOf(z))) == 0
  {
    FillZeroField(Store16(b, 2 * k, 0), k);
  }

  lemma ComplementCompletes(s: nat)
    ensures var t := s + (65535 - Canon(s)); t > 0 && t % 65535 == 0
  {
  }

  /** Some byte outside the k-th word is non-zero. */
  ghost predicate OthersNonZero(b: seq<byte>, k: nat) {
    exists i :: 0 <= i < |b| && i != 2 * k && i != 2 * k + 1 && b[i] != 0
  }

  lemma OthersNonZeroIff(b: seq<byte>, k: nat)
    requires 2 * k + 2 <= |b|
    ensures OthersNonZero(b, k) <==> Sum(Words(Store16(b, 2 * k, 0))) > 0
  {
    var z := Store16(b, 2 * k, 0);
    SumZero(Words(z));
    WordsZero(z);
    assert forall i :: 0 <= i < |b| && i != 2 * k && i != 2 * k + 1 ==> z[i] == b[i];
  }

  /** From a block that checks out, changing one aligned word goes unnoticed exactly when the word
      moves between 0x0000 and 0xffff, and, on the way to 0x0000, something else is non-zero. */
  lemma SingleWordChange(b: seq<byte>, k: nat, x: u16)
    requires 2 * k + 2 <= |b| <= 131074 && ChecksumOf(b) == 0
    requires x != Load16(b, 2 * k)
    ensures ChecksumOf(Store16(b, 2 * k, x)) == 0 <==>
      (Load16(b, 2 * k) == 0 && x == 0xffff) || (Load16(b, 2 * k) == 0xffff && x == 0 && OthersNonZero(b, k))
  {
    VerifiesIff(b);
    VerifiesIff(Store16(b, 2 * k, x));
    SumAfterStore(b, k, x);
    SumAfterStore(b, k, 0);
    OthersNonZeroIff(b, k);
    ResidueMoves(Sum(Words(b)), Load16(b, 2 * k), x);
  }

  lemma ResidueMoves(s: nat, w: u16, x: u16)
    requires s % 65535 == 0 && x != w
    ensures (s - w + x) % 65535 == 0 <==> (w == 0 && x == 65535) || (w == 65535 && x == 0)
  {
  }

  // ---------------------------------------------------------------- section 2(A): order of words

  lemma SumAround(p: seq<u16>, w: u16, q: seq<u16>)
    ensures Sum(p + ([w] + q)) == w + Sum(p + q)
  {
    SumConcat(p, [w] + q);
    SumConcat([w], q);
    SumConcat(p, q);
    SumConstant([w], w);
  }

  lemma TakeOut<T>(b: seq<T>, i: nat)
    requires i < |b|
    ensures b == b[..i] + ([b[i]] + b[i + 1..])
    ensures multiset(b[..i] + b[i + 1..]) == multiset(b) - multiset{b[i]}
  {
    assert b == b[..i] + ([b[i]] + b[i + 1..]);
  }

  /** Where a's last element stands in b, and that the rest are permutations of each other. */
  lemma MatchLast<T>(a: seq<T>, b: seq<T>) returns (i: nat)
    requires multiset(a) == multiset(b) && a != []
    ensures i < |b| && b[i] == a[|a| - 1]
    ensures multiset(a[..|a| - 1]) == multiset(b[..i] + b[i + 1..])
  {
    var n := |a| - 1;
    assert a[n] in multiset(b);
    i :| 0 <= i < |b| && b[i] == a[n];
    assert a[..n] + a[n + 1..] == a[..n];
    TakeOut(a, n);
    TakeOut(b, i);
  }

  lemma {:induction false} SumOfPermutation(a: seq<u16>, b: seq<u16>)
    requires multiset(a) == multiset(b)
    ensures Sum(a) == Sum(b)
    decreases |a|
  {
    if a == [] {
      assert |multiset(b)| == |b|;
    } else {
      var i := MatchLast(a, b);
      assert b == b[..i] + ([b[i]] + b[i + 1..]);
      SumAround(b[..i], b[i], b[i + 1..]);
      SumOfPermutation(a[..|a| - 1], b[..i] + b[i + 1..]);
    }
  }

  /** Reordering the aligned words of a block changes nothing. */
  lemma ReorderingKeepsChecksum(b: seq<byte>, b': seq<byte>)
    requires multiset(Words(b)) == multiset(Words(b'))
    ensures ChecksumOf(b) == ChecksumOf(b')
  {
    SumOfPermutation(Words(b), Words(b'));
    AccumulateWraps(Words(b));
    AccumulateWraps(Words(b'));
  }

  // ---------------------------------------------------------------- section 2(B): byte order

  lemma SwappedWord(lo: byte, hi: byte)
    ensures 256 * Word(lo, hi) == Word(hi, lo) + 65535 * (hi as int)
  {
  }

  function HighByte(b: seq<byte>, k: nat): byte {
    if 2 * k + 1 < |b| then b[2 * k + 1] else 0
  }

  lemma SwappedWordAt(b: seq<byte>, k: nat)
    requires k < |Words(b)|
    ensures 256 * (Words(b)[k] as int) == NetWords(b)[k] + 65535 * (HighByte(b, k) as int)
  {
    SwappedWord(b[2 * k], HighByte(b, k));
  }

  /** Word by word, 256 times the little-endian value is the big-endian value modulo 65535. */
  lemma {:induction false} NetSumPrefix(b: seq<byte>, k: nat) returns (q: nat)
    requires k <= |Words(b)|
    ensures 256 * Sum(Words(b)[..k]) == Sum(NetWords(b)[..k]) + 65535 * q
  {
    if k == 0 {
      q := 0;
    } else {
      var q' := NetSumPrefix(b, k - 1);
      SumStep(Words(b), k - 1);
      SumStep(NetWords(b), k - 1);
      SwappedWordAt(b, k - 1);
      q := q' + HighByte(b, k - 1);
    }
  }

  lemma SwapIsTimes256(x: nat, y: nat, q: nat)
    requires 256 * x == y + 65535 * q && (x == 0 <==> y == 0)
    ensures Canon(y) == Swap16(Canon(x))
  {
    var v: int := Canon(x);
    var t := CanonQuotient(x);
    assert 256 * v == Swap16(v) + 65535 * (v / 256);
    CongruentIfMultiple(y, Swap16(v), v / 256 + 256 * t - q);
    CanonUnique(y, Swap16(v));
  }

  lemma {:induction false} CanonQuotient(x: nat) returns (t: nat)
    ensures x == Canon(x) + 65535 * t
  {
    t := 0;
    if x > 65535 {
      var t' := CanonQuotient(x - 65535);
      t := t' + 1;
    }
  }

  lemma CongruentIfMultiple(a: nat, b: nat, m: int)
    requires a == b + 65535 * m
    ensures a % 65535 == b % 65535
  {
  }

  lemma SumsZeroTogether(b: seq<byte>)
    ensures Sum(Words(b)) == 0 <==> Sum(NetWords(b)) == 0
  {
    SumZero(Words(b));
    SumZero(NetWords(b));
    assert forall k :: 0 <= k < |Words(b)| ==> (Words(b)[k] == 0 <==> NetWords(b)[k] == 0);
  }

  /** The sum over little-endian words is the byte swap of the sum over network-order words. */
  lemma ByteOrderIndependence(b: seq<byte>)
    requires |b| <= 131074
    ensures Canon(Sum(NetWords(b))) == Swap16(Sum16Of(b))
  {
    NoOverflow(b);
    var n := |Words(b)|;
    var q := NetSumPrefix(b, n);
    assert Words(b)[..n] == Words(b) && NetWords(b)[..n] == NetWords(b);
    SumsZeroTogether(b);
    SwapIsTimes256(Sum(Words(b)), Sum(NetWords(b)), q);
  }

  /** The test of RFC 1071: the one's complement sum of the block in network order is all ones. */
  ghost predicate Verifies(b: seq<byte>) {
    Canon(Sum(NetWords(b))) == 65535
  }

  lemma AllOnesSwaps(v: u16)
    ensures Swap16(v) == 65535 <==> v == 65535
  {
  }

  /** The code's test on the host is that test. */
  lemma VerifiesOnHost(b: seq<byte>)
    requires |b| <= 131074
    ensures Verifies(b) <==> ChecksumOf(b) == 0
  {
    ByteOrderIndependence(b);
    AllOnesSwaps(Sum16Of(b));
  }

  lemma SwapOfComplement(v: u16)
    ensures var c, net := 65535 - v, 65535 - Swap16(v); Bytes16(c) == [net / 256, net % 256]
  {
    var hi, lo := v / 256, v % 256;
    assert 65535 - v == 256 * (255 - hi) + (255 - lo);
    assert 65535 - Swap16(v) == 256 * (255 - lo) + (255 - hi);
  }

  /** So the checksum stored by the little-endian host is, byte for byte, the network-order one. */
  lemma StoredBytesAgree(b: seq<byte>)
    requires |b| <= 131074
    ensures var net := 65535 - Canon(Sum(NetWords(b)));
      Bytes16(ChecksumOf(b)) == [net / 256, net % 256]
  {
    ByteOrderIndependence(b);
    SwapOfComplement(Sum16Of(b));
  }

  /** The example of section 3 of RFC 1071: these bytes sum to ddf2, and 22 0d is stored. */
  lemma RfcExample(b: seq<byte>)
    requires b == [0x00, 0x01, 0xf2, 0x03, 0xf4, 0xf5, 0xf6, 0xf7]
    ensures Canon(Sum(NetWords(b))) == 0xddf2 && Bytes16(ChecksumOf(b)) == [0x22, 0x0d]
  {
    var ws := NetWords(b);
    assert ws == [0x0001, 0xf203, 0xf4f5, 0xf6f7];
    SumStep(ws, 0);
    SumStep(ws, 1);
    SumStep(ws, 2);
    SumStep(ws, 3);
    assert ws[..0] == [] && ws[..4] == ws;
    CanonShift(0xddf2, 2);
    StoredBytesAgree(b);
  }
}
