/** The Internet checksum of RFC 1071 as src/utils/protocols.c computes it. */
module Checksum {
  import opened Bytes

  const WRAP: nat := 0x1_0000_0000

  // ---------------------------------------------------------------- words of a block

  function WordAt(b: seq<byte>, k: nat): u16
    requires 2 * k < |b|
  {
    Word(b[2 * k], if 2 * k + 1 < |b| then b[2 * k + 1] else 0)
  }

  /** The block as the host loads it: little-endian words, a trailing byte standing alone. */
  function Words(b: seq<byte>): (ws: seq<u16>)
    ensures |ws| == (|b| + 1) / 2
  {
    seq((|b| + 1) / 2, k requires 0 <= k < (|b| + 1) / 2 => WordAt(b, k))
  }

  /** The block in network order: big-endian words, a trailing byte padded with a zero byte. */
  function NetWords(b: seq<byte>): (ws: seq<u16>)
    ensures |ws| == (|b| + 1) / 2
  {
    seq((|b| + 1) / 2, k requires 0 <= k < (|b| + 1) / 2 =>
      Word(if 2 * k + 1 < |b| then b[2 * k + 1] else 0, b[2 * k]))
  }

  function Sum(ws: seq<u16>): nat {
    if ws == [] then 0 else Sum(ws[..|ws| - 1]) + ws[|ws| - 1]
  }

  /** The 32-bit accumulator after adding the words in order. */
  function Accumulate(ws: seq<u16>): u32 {
    if ws == [] then 0 else Add32(Accumulate(ws[..|ws| - 1]), ws[|ws| - 1])
  }

  lemma {:induction false} AccumulateWraps(ws: seq<u16>)
    ensures Accumulate(ws) == Sum(ws) % WRAP
  {
    if ws != [] { AccumulateWraps(ws[..|ws| - 1]); }
  }

  /** While the sum fits the accumulator holds it. */
  lemma {:induction false} AccumulateExact(ws: seq<u16>)
    requires Sum(ws) < WRAP
    ensures Accumulate(ws) == Sum(ws)
  {
    if ws != [] { AccumulateExact(ws[..|ws| - 1]); }
  }

  // ---------------------------------------------------------------- one's complement residues

  /** The residue of x modulo 65535, taken in 1..65535 for a positive x. */
  function Canon(x: nat): (v: u16)
    ensures v == 0 <==> x == 0
    ensures x <= 65535 ==> v == x
  {
    if x <= 65535 then x else Canon(x - 65535)
  }

  /** It is the one value in 0..65535 congruent to x that is zero only for zero. */
  lemma {:induction false} CanonUnique(x: nat, v: u16)
    ensures v == Canon(x) <==> v % 65535 == x % 65535 && (v == 0 <==> x == 0)
  {
    if x > 65535 {
      assert (x - 65535) % 65535 == x % 65535;
      CanonUnique(x - 65535, v);
    }
  }

  lemma {:induction false} CanonShift(x: nat, q: nat)
    requires x > 0
    ensures Canon(x + 65535 * q) == Canon(x)
    decreases q
  {
    if q > 0 { CanonShift(x, q - 1); }
  }

  function FoldOnce(x: nat): nat {
    x % 0x1_0000 + x / 0x1_0000
  }

  lemma FoldKeepsCanon(x: nat)
    ensures Canon(FoldOnce(x)) == Canon(x)
  {
    assert x == FoldOnce(x) + 65535 * (x / 0x1_0000);
    if x > 0 { CanonShift(FoldOnce(x), x / 0x1_0000); }
  }

  /** What sum16 returns, for every block length: the accumulator wraps at 32 bits. */
  function Sum16Of(b: seq<byte>): u16 {
    Canon(Accumulate(Words(b)))
  }

  /** internet_checksum: the 16-bit complement. */
  function ChecksumOf(b: seq<byte>): u16 {
    65535 - Sum16Of(b)
  }

  /** The second loop of sum16: add the high half to the low half until it fits. Two rounds are enough. */
  method Fold(x: u32) returns (r: u16, ghost rounds: nat)
    ensures r == Canon(x)
    ensures rounds <= 2
  {
    var sum := x;
    rounds := 0;
    while sum / 0x1_0000 != 0
      invariant Canon(sum) == Canon(x)
      invariant rounds <= 2
      invariant rounds == 1 ==> sum <= 131070
      invariant rounds == 2 ==> sum <= 65535
      decreases sum
    {
      FoldKeepsCanon(sum);
      sum, rounds := sum % 0x1_0000 + sum / 0x1_0000, rounds + 1;
    }
    r := sum;
  }

  lemma AccumulateWord(b: seq<byte>, k: nat)
    requires 2 * k < |b|
    ensures k < |Words(b)|
    ensures Accumulate(Words(b)[..k + 1]) == Add32(Accumulate(Words(b)[..k]), WordAt(b, k))
  {
    assert Words(b)[..k + 1][..k] == Words(b)[..k];
  }

  lemma AllWords(b: seq<byte>, k: nat)
    requires |b| == 2 * k || |b| + 1 == 2 * k
    ensures k == |Words(b)| && Words(b)[..k] == Words(b)
  {
  }

  /** sum16 over `count` bytes of the buffer from `addr` on. */
  method Sum16(buf: array<byte>, addr: nat, count: nat) returns (r: u16)
    requires addr + count <= buf.Length
    ensures r == Sum16Of(buf[addr..addr + count])
  {
    ghost var b := buf[addr..addr + count];
    var sum: u32 := 0;
    var ptr, left := addr, count;
    ghost var k := 0;
    while left > 1
      invariant 0 <= left && left == count - 2 * k && ptr == addr + 2 * k
      invariant k <= |Words(b)| && sum == Accumulate(Words(b)[..k])
    {
      AccumulateWord(b, k);
      sum := Add32(sum, Word(buf[ptr], buf[ptr + 1]));
      ptr, left, k := ptr + 2, left - 2, k + 1;
    }
    if left > 0 {
      AccumulateWord(b, k);
      sum := Add32(sum, buf[ptr]);
      k := k + 1;
    }
    AllWords(b, k);
    ghost var rounds;
    r, rounds := Fold(sum);
  }

  // ---------------------------------------------------------------- the exact overflow bound

  lemma {:induction false} SumBound(ws: seq<u16>)
    ensures Sum(ws) <= 65535 * |ws|
  {
    if ws != [] { SumBound(ws[..|ws| - 1]); }
  }

  /** Up to 131074 bytes the accumulator never wraps, so the result is the residue of the word sum. */
  lemma NoOverflow(b: seq<byte>)
    requires |b| <= 131074
    ensures Sum(Words(b)) < WRAP
    ensures Sum16Of(b) == Canon(Sum(Words(b)))
  {
    assert |Words(b)| <= 65537;
    SumBound(Words(b));
    AccumulateExact(Words(b));
  }

  lemma {:induction false} SumZero(ws: seq<u16>)
    ensures Sum(ws) == 0 <==> forall k :: 0 <= k < |ws| ==> ws[k] == 0
  {
    if ws != [] { SumZero(ws[..|ws| - 1]); }
  }

  lemma WordsZero(b: seq<byte>)
    ensures (forall k :: 0 <= k < |Words(b)| ==> Words(b)[k] == 0) <==> forall i :: 0 <= i < |b| ==> b[i] == 0
  {
    if forall k :: 0 <= k < |Words(b)| ==> Words(b)[k] == 0 {
      forall i | 0 <= i < |b| ensures b[i] == 0 {
        var k := i / 2;
        assert Words(b)[k] == 0 && (i == 2 * k || i == 2 * k + 1);
      }
    }
  }

  /** Only the all-zero block sums to zero. */
  lemma ZeroOnlyForZeros(b: seq<byte>)
    requires |b| <= 131074
    ensures Sum16Of(b) == 0 <==> forall i :: 0 <= i < |b| ==> b[i] == 0
  {
    NoOverflow(b);
    SumZero(Words(b));
    WordsZero(b);
  }

  lemma {:induction false} SumConcat(a: seq<u16>, b: seq<u16>)
    ensures Sum(a + b) == Sum(a) + Sum(b)
  {
    if b == [] {
      assert a + b == a;
    } else {
      var n := |b| - 1;
      assert (a + b)[..|a| + n] == a + b[..n];
      SumConcat(a, b[..n]);
    }
  }

  lemma {:induction false} SumConstant(ws: seq<u16>, c: u16)
    requires forall k :: 0 <= k < |ws| ==> ws[k] == c
    ensures Sum(ws) == c * |ws|
  {
    if ws != [] { SumConstant(ws[..|ws| - 1], c); }
  }

  lemma SumStep(ws: seq<u16>, k: nat)
    requires k < |ws|
    ensures Sum(ws[..k + 1]) == Sum(ws[..k]) + ws[k]
  {
    assert ws[..k + 1][..k] == ws[..k];
  }

  lemma SumOfTwo(a: u16, b: u16)
    ensures Sum([a, b]) == a + b
  {
    var s: seq<u16> := [a, b];
    assert s[..1][..0] == [];
    assert Sum(s[..1]) == a;
  }

  lemma WordsOnesThenZeros(b: seq<byte>, k: nat)
    requires |b| > 131074 && k < |Words(b)|
    requires forall i :: 0 <= i < |b| ==> b[i] == if i < 131075 then 255 else 0
    ensures Words(b)[k] == if k < 65537 then 65535 else if k == 65537 then 255 else 0
  {
    assert Words(b)[k] == WordAt(b, k);
  }

  lemma SumOnesThenZeros(b: seq<byte>)
    requires |b| > 131074
    requires forall i :: 0 <= i < |b| ==> b[i] == if i < 131075 then 255 else 0
    ensures Sum(Words(b)) == 65535 * 65537 + 255
  {
    var ws := Words(b);
    var full, mid, rest := ws[..65537], [ws[65537]], ws[65538..];
    assert ws == full + (mid + rest);
    forall k | 0 <= k < |ws| ensures ws[k] == if k < 65537 then 65535 else if k == 65537 then 255 else 0 {
      WordsOnesThenZeros(b, k);
    }
    SumConcat(full, mid + rest);
    SumConcat(mid, rest);
    SumConstant(full, 65535);
    SumConstant(mid, 255);
    SumConstant(rest, 0);
  }

  /** 131074 is exact: every longer length has a block whose accumulator wraps to a wrong result. */
  lemma OverflowBeyondBound(n: nat)
    requires n > 131074
    ensures exists b: seq<byte> :: |b| == n && Sum16Of(b) == 254 && Canon(Sum(Words(b))) == 255
  {
    var b: seq<byte> := seq(n, i => if i < 131075 then 255 else 0);
    SumOnesThenZeros(b);
    AccumulateWraps(Words(b));
    assert Accumulate(Words(b)) == 254;
    CanonShift(255, 65537);
    assert |b| == n;
  }
}
