/** Bytes, fixed-width integers and their layout on a little-endian host. */
module Bytes {
  type byte = x: int | 0 <= x < 256
  type u16 = x: int | 0 <= x < 0x1_0000
  type u32 = x: int | 0 <= x < 0x1_0000_0000

  /** Unsigned 32-bit addition. */
  function Add32(a: u32, b: u32): u32 {
    if a + b < 0x1_0000_0000 then a + b else a + b - 0x1_0000_0000
  }

  /** htons and ntohs. */
  function Swap16(x: u16): u16 {
    (x % 256) * 256 + x / 256
  }

  /** htonl and ntohl. */
  function Swap32(x: u32): u32 {
    Swap16(x % 0x1_0000) * 0x1_0000 + Swap16(x / 0x1_0000)
  }

  lemma Swap16Involution(x: u16)
    ensures Swap16(Swap16(x)) == x
  {
    assert x == (x / 256) * 256 + x % 256;
    var y := (x % 256) * 256 + x / 256;
    assert y / 256 == x % 256 && y % 256 == x / 256;
  }

  /** The value of two adjacent bytes, low byte first. */
  function Word(lo: byte, hi: byte): u16 {
    (lo as int) + 256 * (hi as int)
  }

  lemma WordParts(lo: byte, hi: byte)
    ensures Word(lo, hi) % 256 == lo && Word(lo, hi) / 256 == hi
    ensures Swap16(Word(lo, hi)) == Word(hi, lo)
  {
  }

  lemma HalfParts(lo: u16, hi: u16)
    ensures (lo + 0x1_0000 * (hi as int)) % 0x1_0000 == lo && (lo + 0x1_0000 * (hi as int)) / 0x1_0000 == hi
  {
  }

  lemma SwapHalves(lo: u16, hi: u16)
    ensures var y := Swap32(lo + 0x1_0000 * (hi as int));
      y % 0x1_0000 == Swap16(hi) && y / 0x1_0000 == Swap16(lo)
  {
    HalfParts(lo, hi);
    HalfParts(Swap16(hi), Swap16(lo));
  }

  lemma Swap32Involution(x: u32)
    ensures Swap32(Swap32(x)) == x
  {
    var lo, hi := x % 0x1_0000, x / 0x1_0000;
    assert x == lo + 0x1_0000 * (hi as int);
    SwapHalves(lo, hi);
    Swap16Involution(lo);
    Swap16Involution(hi);
  }

  function Load16(b: seq<byte>, i: nat): u16
    requires i + 2 <= |b|
  {
    Word(b[i], b[i + 1])
  }

  function Load32(b: seq<byte>, i: nat): u32
    requires i + 4 <= |b|
  {
    Load16(b, i) + 0x1_0000 * Load16(b, i + 2)
  }

  /** The value of two or four bytes in network order. */
  function NetLoad16(b: seq<byte>, i: nat): u16
    requires i + 2 <= |b|
  {
    256 * (b[i] as int) + b[i + 1]
  }

  function NetLoad32(b: seq<byte>, i: nat): u32
    requires i + 4 <= |b|
  {
    0x100_0000 * (b[i] as int) + 0x1_0000 * (b[i + 1] as int) + 256 * (b[i + 2] as int) + b[i + 3]
  }

  /** The bytes a 16-bit store writes. */
  function Bytes16(x: u16): seq<byte> {
    [x % 256, x / 256]
  }

  /** The buffer after a 16-bit store at i. */
  function Store16(b: seq<byte>, i: nat, x: u16): (r: seq<byte>)
    requires i + 2 <= |b|
    ensures |r| == |b|
  {
    b[i := x % 256][i + 1 := x / 256]
  }

  function Store32(b: seq<byte>, i: nat, x: u32): (r: seq<byte>)
    requires i + 4 <= |b|
    ensures |r| == |b|
  {
    Store16(Store16(b, i, x % 0x1_0000), i + 2, x / 0x1_0000)
  }

  lemma StoreLoad16(b: seq<byte>, i: nat, x: u16)
    requires i + 2 <= |b|
    ensures Load16(Store16(b, i, x), i) == x
  {
  }

  lemma StoreLoad32(b: seq<byte>, i: nat, x: u32)
    requires i + 4 <= |b|
    ensures Load32(Store32(b, i, x), i) == x
  {
  }

  /** Storing the swap of a loaded field reverses its bytes. */
  lemma SwapInPlace16(b: seq<byte>, i: nat)
    requires i + 2 <= |b|
    ensures Store16(b, i, Swap16(Load16(b, i))) == b[i := b[i + 1]][i + 1 := b[i]]
  {
    WordParts(b[i], b[i + 1]);
    WordParts(b[i + 1], b[i]);
  }

  lemma SwapInPlace32(b: seq<byte>, i: nat)
    requires i + 4 <= |b|
    ensures Store32(b, i, Swap32(Load32(b, i))) == b[i := b[i + 3]][i + 1 := b[i + 2]][i + 2 := b[i + 1]][i + 3 := b[i]]
  {
    var y := Swap32(Load32(b, i));
    assert y % 0x1_0000 == Word(b[i + 3], b[i + 2]) && y / 0x1_0000 == Word(b[i + 1], b[i]) by {
      SwapHalves(Load16(b, i), Load16(b, i + 2));
      WordParts(b[i], b[i + 1]);
      WordParts(b[i + 2], b[i + 3]);
    }
    WordParts(b[i + 3], b[i + 2]);
    WordParts(b[i + 1], b[i]);
  }
}
