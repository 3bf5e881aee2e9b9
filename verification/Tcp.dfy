/** The TCP checksum test of src/protocols/tcp.c against section 3.1 of RFC 793. */
module Tcp {
  import opened Bytes
  import opened Checksum
  import opened ChecksumLaws

  const PROTOCOL_TCP: byte := 6

  function Bytes32(x: u32): seq<byte> {
    Bytes16(x % 0x1_0000) + Bytes16(x / 0x1_0000)
  }

  /** tcp_header_check: the terms are added in 32 bits and the four bytes of the sum are checked.
      Addresses are in host order, as ip_header_ntoh left them. */
  predicate HeaderCheck(segment: seq<byte>, src: u32, dst: u32)
    requires |segment| <= 65515
  {
    var sum := Add32(Add32(Sum16Of(segment) + Swap16(|segment|) + Swap16(PROTOCOL_TCP), Swap32(src)), Swap32(dst));
    ChecksumOf(Bytes32(sum)) == 0
  }

  /** The same addition without a width. */
  function Total(segment: seq<byte>, src: u32, dst: u32): nat
    requires |segment| <= 65515
  {
    Sum16Of(segment) + Swap16(|segment|) + Swap16(PROTOCOL_TCP) + Swap32(src) + Swap32(dst)
  }

  /** How often the 32-bit addition wrapped. */
  function Wraps(total: nat): nat {
    if total < WRAP then 0 else if total < 2 * WRAP then 1 else 2
  }

  // ---------------------------------------------------------------- the reference of RFC 793

  function Net16(x: u16): seq<byte> {
    [x / 256, x % 256]
  }

  function Net32(x: u32): seq<byte> {
    Net16(x / 0x1_0000) + Net16(x % 0x1_0000)
  }

  function PseudoHeader(src: u32, dst: u32, length: u16): seq<byte> {
    Net32(src) + Net32(dst) + [0, PROTOCOL_TCP] + Net16(length)
  }

  /** The one's complement sum over pseudo-header and segment, in network order, is all ones. */
  ghost predicate RfcValid(segment: seq<byte>, src: u32, dst: u32)
    requires |segment| <= 65515
  {
    Verifies(PseudoHeader(src, dst, |segment|) + segment)
  }

  // ---------------------------------------------------------------- what the code accepts

  lemma FourByteCheck(x: u32)
    ensures ChecksumOf(Bytes32(x)) == 0 <==> x > 0 && x % 65535 == 0
  {
    var lo: u16, hi: u16 := x % 0x1_0000, x / 0x1_0000;
    assert Words(Bytes32(x)) == [lo, hi];
    SumOfTwo(lo, hi);
    VerifiesIff(Bytes32(x));
    CongruentIfMultiple(x, lo + hi, hi);
  }

  lemma WrapResidue(total: nat)
    requires total < 3 * WRAP
    ensures var w := Wraps(total); w * WRAP <= total < (w + 1) * WRAP
    ensures var w := Wraps(total); (total - w * WRAP) % 65535 == 0 <==> total % 65535 == w
  {
  }

  /** Accepted exactly when the unbounded sum is congruent modulo 65535 to the number of wraps, and
      the 32-bit sum is not zero. */
  lemma AcceptsIff(segment: seq<byte>, src: u32, dst: u32)
    requires |segment| <= 65515
    ensures var t := Total(segment, src, dst);
      HeaderCheck(segment, src, dst) <==> t % 65535 == Wraps(t) && t != Wraps(t) * WRAP
  {
    var t := Total(segment, src, dst);
    var sum := Add32(Add32(Sum16Of(segment) + Swap16(|segment|) + Swap16(PROTOCOL_TCP), Swap32(src)), Swap32(dst));
    assert sum == t - Wraps(t) * WRAP;
    FourByteCheck(sum);
    WrapResidue(t);
  }

  // ---------------------------------------------------------------- what the RFC accepts

  lemma WordsConcat(a: seq<byte>, b: seq<byte>)
    requires |a| % 2 == 0
    ensures Words(a + b) == Words(a) + Words(b)
  {
  }

  lemma AddressSum(x: u32)
    ensures Sum(Words(Net32(x))) + 65535 * Swap16(x % 0x1_0000) == Swap32(x)
  {
    assert Words(Net32(x)) == [Swap16(x / 0x1_0000), Swap16(x % 0x1_0000)];
    SumOfTwo(Swap16(x / 0x1_0000), Swap16(x % 0x1_0000));
  }

  lemma PseudoSum(src: u32, dst: u32, length: u16)
    ensures Sum(Words(PseudoHeader(src, dst, length))) + 65535 * (Swap16(src % 0x1_0000) + Swap16(dst % 0x1_0000))
         == Swap32(src) + Swap32(dst) + Swap16(PROTOCOL_TCP) + Swap16(length)
  {
    var rest := [0, PROTOCOL_TCP] + Net16(length);
    assert PseudoHeader(src, dst, length) == Net32(src) + (Net32(dst) + rest);
    WordsConcat(Net32(src), Net32(dst) + rest);
    WordsConcat(Net32(dst), rest);
    SumConcat(Words(Net32(src)), Words(Net32(dst)) + Words(rest));
    SumConcat(Words(Net32(dst)), Words(rest));
    AddressSum(src);
    AddressSum(dst);
    assert Words(rest) == [Swap16(PROTOCOL_TCP), Swap16(length)];
    SumOfTwo(Swap16(PROTOCOL_TCP), Swap16(length));
  }

  /** The sum over pseudo-header and segment differs from the code's sum by a multiple of 65535. */
  lemma RfcSum(segment: seq<byte>, src: u32, dst: u32) returns (m: int)
    requires |segment| <= 65515
    ensures Sum(Words(PseudoHeader(src, dst, |segment|) + segment)) == Total(segment, src, dst) + 65535 * m
  {
    var ph := PseudoHeader(src, dst, |segment|);
    WordsConcat(ph, segment);
    SumConcat(Words(ph), Words(segment));
    PseudoSum(src, dst, |segment|);
    NoOverflow(segment);
    var t := CanonQuotient(Sum(Words(segment)));
    m := t - (Swap16(src % 0x1_0000) + Swap16(dst % 0x1_0000));
  }

  lemma PseudoPositive(src: u32, dst: u32, segment: seq<byte>)
    requires |segment| <= 65515
    ensures Sum(Words(PseudoHeader(src, dst, |segment|) + segment)) > 0
  {
    var b := PseudoHeader(src, dst, |segment|) + segment;
    SumZero(Words(b));
    assert b[9] == PROTOCOL_TCP && Words(b)[4] == Word(b[8], b[9]);
  }

  /** All ones in network order is all ones on the host. */
  lemma RfcValidOnHost(segment: seq<byte>, src: u32, dst: u32)
    requires |segment| <= 65515
    ensures RfcValid(segment, src, dst) <==> Sum(Words(PseudoHeader(src, dst, |segment|) + segment)) % 65535 == 0
  {
    VerifiesOnHost(PseudoHeader(src, dst, |segment|) + segment);
    VerifiesIff(PseudoHeader(src, dst, |segment|) + segment);
    PseudoPositive(src, dst, segment);
  }

  /** The RFC's test on bytes in network order is a congruence of the same sum. */
  lemma RfcValidIff(segment: seq<byte>, src: u32, dst: u32)
    requires |segment| <= 65515
    ensures RfcValid(segment, src, dst) <==> Total(segment, src, dst) % 65535 == 0
  {
    var m := RfcSum(segment, src, dst);
    CongruentIfMultiple(Sum(Words(PseudoHeader(src, dst, |segment|) + segment)), Total(segment, src, dst), m);
    RfcValidOnHost(segment, src, dst);
  }

  // ---------------------------------------------------------------- where the two differ

  /** The code agrees with the RFC exactly when the addition does not wrap, or the segment is neither valid
      nor congruent to the wraps other than by wrapping to zero. With a wrap no segment passes both tests. */
  lemma AgreesIff(segment: seq<byte>, src: u32, dst: u32)
    requires |segment| <= 65515
    ensures var t := Total(segment, src, dst); var w := Wraps(t);
      && ((HeaderCheck(segment, src, dst) <==> RfcValid(segment, src, dst)) <==>
            w == 0 || (t % 65535 != 0 && (t % 65535 != w || t == w * WRAP)))
      && (w > 0 ==> !(HeaderCheck(segment, src, dst) && RfcValid(segment, src, dst)))
  {
    AcceptsIff(segment, src, dst);
    RfcValidIff(segment, src, dst);
  }

  lemma LowByte(x: u32)
    ensures x % 0x1_0000 % 256 == x % 256
  {
    assert x == 256 * (256 * (x / 0x1_0000) + x % 0x1_0000 / 256) + x % 0x1_0000 % 256;
  }

  lemma Swap16Leads(x: u16)
    ensures 256 * (x % 256) <= Swap16(x) <= 256 * (x % 256) + 255
  {
  }

  lemma LastOctet(x: u32)
    ensures 0x100_0000 * (x % 256) <= Swap32(x) < 0x100_0000 * (x % 256 + 1)
  {
    LowByte(x);
    Swap16Leads(x % 0x1_0000);
  }

  /** The last octets of the two addresses decide: adding up to at most 253 the check is the RFC's, adding up
      to 256 or more it rejects every valid segment, whatever the segment is. */
  lemma LastOctetsDecide(segment: seq<byte>, src: u32, dst: u32)
    requires |segment| <= 65515
    ensures src % 256 + dst % 256 <= 253 ==> (HeaderCheck(segment, src, dst) <==> RfcValid(segment, src, dst))
    ensures src % 256 + dst % 256 >= 256 ==> !(HeaderCheck(segment, src, dst) && RfcValid(segment, src, dst))
  {
    LastOctet(src);
    LastOctet(dst);
    AgreesIff(segment, src, dst);
  }

  /** The congruence alone is not enough: an addition that wraps once to exactly zero is congruent to
      its one wrap, and the segment is rejected. */
  lemma WrapToZeroIsRejected(segment: seq<byte>, src: u32, dst: u32)
    requires |segment| <= 65515 && Total(segment, src, dst) == WRAP
    ensures WRAP % 65535 == Wraps(WRAP) && !HeaderCheck(segment, src, dst)
  {
    AcceptsIff(segment, src, dst);
  }

  // ---------------------------------------------------------------- segments that show it

  const HOST_A: u32 := 0xc0a8_01c8 // 192.168.1.200
  const HOST_B: u32 := 0xc0a8_0164 // 192.168.1.100
  const HOST_C: u32 := 0xc0a8_fd37 // 192.168.253.55

  lemma SwapOf(x: u32, lo: u16, hi: u16)
    requires x == lo + 0x1_0000 * (hi as int)
    ensures Swap32(x) == Swap16(hi) + 0x1_0000 * Swap16(lo)
  {
    HalfParts(lo, hi);
  }

  lemma HalvesSwapped()
    ensures Swap16(0xc0a8) == 0xa8c0 && Swap16(0x01c8) == 0xc801 && Swap16(0x0164) == 0x6401 && Swap16(0xfd37) == 0x37fd
  {
  }

  /** The addresses as the code adds them, in network order. */
  lemma HostsSwapped()
    ensures Swap32(HOST_A) == 0xc801_a8c0 && Swap32(HOST_B) == 0x6401_a8c0 && Swap32(HOST_C) == 0x37fd_a8c0
  {
    HalvesSwapped();
    SwapOf(HOST_A, 0x01c8, 0xc0a8);
    SwapOf(HOST_B, 0x0164, 0xc0a8);
    SwapOf(HOST_C, 0xfd37, 0xc0a8);
  }

  /** A SYN from port 1234 to port 80 with sequence number 1 and window 8192, and this checksum field. */
  function Syn(sum: u16): seq<byte> {
    [0x04, 0xd2, 0x00, 0x50, 0, 0, 0, 1, 0, 0, 0, 0, 0x50, 0x02, 0x20, 0x00] + Bytes16(sum) + [0, 0]
  }

  lemma SynSum(sum: u16)
    requires 0 < sum <= 55946
    ensures |Syn(sum)| == 20 && Sum16Of(Syn(sum)) == 9589 + sum
  {
    var ws := Words(Syn(sum));
    assert ws[8] == sum;
    assert ws == [53764, 20480, 0, 256, 0, 0, 592, 32, sum, 0];
    SumStep(ws, 0);
    SumStep(ws, 1);
    SumStep(ws, 2);
    SumStep(ws, 3);
    SumStep(ws, 4);
    SumStep(ws, 5);
    SumStep(ws, 6);
    SumStep(ws, 7);
    SumStep(ws, 8);
    SumStep(ws, 9);
    assert ws[..0] == [] && ws[..10] == ws;
    NoOverflow(Syn(sum));
    CanonShift(9589 + sum, 1);
  }

  lemma SynTotal(sum: u16, src: u32, dst: u32)
    requires 0 < sum <= 55946
    ensures |Syn(sum)| == 20 && Total(Syn(sum), src, dst) == 16245 + sum + Swap32(src) + Swap32(dst)
  {
    SynSum(sum);
  }

  /** What both tests say of a SYN whose total is t. */
  lemma SynVerdict(sum: u16, src: u32, dst: u32, t: nat)
    requires 0 < sum <= 55946 && t == 16245 + sum + Swap32(src) + Swap32(dst)
    ensures |Syn(sum)| == 20
    ensures HeaderCheck(Syn(sum), src, dst) <==> t % 65535 == Wraps(t) && t != Wraps(t) * WRAP
    ensures RfcValid(Syn(sum), src, dst) <==> t % 65535 == 0
  {
    SynTotal(sum, src, dst);
    AcceptsIff(Syn(sum), src, dst);
    RfcValidIff(Syn(sum), src, dst);
  }

  lemma TotalParts(t: nat, r: nat)
    requires t == 5033415675 + r && r < 2
    ensures t % 65535 == r && Wraps(t) == 1
  {
    assert t == 65535 * 76805 + r;
  }

  lemma WrongBothWays(src: u32, dst: u32)
    requires Swap32(src) == 0xc801_a8c0 && Swap32(dst) == 0x6401_a8c0
    ensures |Syn(17158)| == 20 && RfcValid(Syn(17158), src, dst) && !HeaderCheck(Syn(17158), src, dst)
    ensures |Syn(17159)| == 20 && !RfcValid(Syn(17159), src, dst) && HeaderCheck(Syn(17159), src, dst)
  {
    var v, i := 17158, 17159;
    SynVerdict(v, src, dst, 5033415675);
    SynVerdict(i, src, dst, 5033415676);
    TotalParts(5033415675, 0);
    TotalParts(5033415676, 1);
  }

  /** From HOST_A to HOST_B this valid SYN is rejected, and the one whose checksum field is one higher, which
      the RFC rejects, is accepted. */
  lemma WrapIsWrongBothWays()
    ensures |Syn(17158)| == 20 && RfcValid(Syn(17158), HOST_A, HOST_B) && !HeaderCheck(Syn(17158), HOST_A, HOST_B)
    ensures |Syn(17159)| == 20 && !RfcValid(Syn(17159), HOST_A, HOST_B) && HeaderCheck(Syn(17159), HOST_A, HOST_B)
  {
    HostsSwapped();
    WrongBothWays(HOST_A, HOST_B);
  }

  /** From HOST_A to HOST_C this one wraps to exactly zero. */
  lemma WrapToZeroHappens()
    ensures |Syn(28427)| == 20 && Total(Syn(28427), HOST_A, HOST_C) == WRAP
  {
    HostsSwapped();
    var sum := 28427;
    SynTotal(sum, HOST_A, HOST_C);
  }
}
