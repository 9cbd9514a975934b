/** The Internet checksum of src/net.c (in_cksum) against section 1 of RFC 1071. */
module Checksum {
  import opened Common

  type Byte = b: int | 0 <= b < 256

  /** A 16-bit word in memory order, as the host reads it. */
  function Word(big: bool, b0: Byte, b1: Byte): (w: int)
    ensures 0 <= w < 0x1_0000
  {
    if big then 256 * b0 + b1 else b0 + 256 * b1
  }

  /** An odd last byte: htons(b << 8). */
  function OddWord(big: bool, b: Byte): int { if big then 256 * b else b }

  /** The plain sum of the words of a packet. */
  function Sum(big: bool, p: seq<Byte>): nat
  {
    if |p| == 0 then 0
    else if |p| == 1 then OddWord(big, p[0])
    else Word(big, p[0], p[1]) + Sum(big, p[2..])
  }

  /** (sum >> 16) + (sum & 0xffff), then sum += sum >> 16, cut to 16 bits. */
  function Fold(sum: nat): int
  {
    var s := sum / 0x1_0000 + sum % 0x1_0000;
    (s + s / 0x1_0000) % 0x1_0000
  }

  function InCksum(big: bool, p: seq<Byte>): int { 0xffff - Fold(Sum(big, p)) }

  const MAX_PACKET := 65536

  lemma {:induction false} SumBound(big: bool, p: seq<Byte>)
    ensures 2 * Sum(big, p) <= (|p| + 1) * 0xffff
    ensures |p| % 2 == 0 ==> 2 * Sum(big, p) <= |p| * 0xffff
  {
    if |p| > 1 { SumBound(big, p[2..]); }
  }

  /** The loop of in_cksum; in a packet of up to 65536 bytes the 32-bit sum never overflows. */
  method ComputeCksum(big: bool, p: seq<Byte>) returns (answer: int)
    requires |p| <= MAX_PACKET
    ensures answer == InCksum(big, p) && 0 <= answer <= 0xffff
  {
    var nleft, sum, w := |p|, 0, 0;
    assert p[0..] == p;
    SumFits(big, p);
    while nleft > 1
      invariant 0 <= w <= |p| && nleft == |p| - w && 0 <= sum
      invariant sum + Sum(big, p[w..]) == Sum(big, p)
    {
      assert p[w..][2..] == p[w + 2..];
      assert sum + Word(big, p[w], p[w + 1]) <= INT_MAX;  // no overflow of the int
      sum := sum + Word(big, p[w], p[w + 1]);
      w, nleft := w + 2, nleft - 2;
    }
    if nleft == 1 {
      assert sum + OddWord(big, p[w]) <= INT_MAX;
      sum := sum + OddWord(big, p[w]);
    }
    answer := FoldTwice(sum);
  }

  /** The two folds and the complement. */
  method FoldTwice(total: nat) returns (answer: int)
    ensures answer == 0xffff - Fold(total) && 0 <= answer <= 0xffff
  {
    var sum := total / 0x1_0000 + total % 0x1_0000;
    sum := sum + sum / 0x1_0000;
    answer := 0xffff - sum % 0x1_0000;
  }

  // ----- one's complement arithmetic -----

  /** One's complement addition of 16-bit numbers: a carry goes round to the low end. */
  function OnesAdd(a: int, b: int): int { if a + b < 0x1_0000 then a + b else a + b - 0xffff }

  /** The one's complement sum of the words, as section 1 of RFC 1071 defines it. */
  function OnesSum(big: bool, p: seq<Byte>): int
  {
    if |p| == 0 then 0
    else if |p| == 1 then OddWord(big, p[0])
    else OnesAdd(Word(big, p[0], p[1]), OnesSum(big, p[2..]))
  }

  /** The representative of a sum: 0 for 0 only, otherwise the residue modulo 65535 in 1..65535. */
  predicate Represents(x: int, sum: nat)
  {
    0 <= x <= 0xffff && (x - sum) % 0xffff == 0 && (x == 0 <==> sum == 0)
  }

  lemma UniqueRepresentative(x: int, y: int, sum: nat)
    requires Represents(x, sum) && Represents(y, sum)
    ensures x == y
  {
  }

  /** For 31-bit sums two folds suffice. */
  lemma FoldRepresents(sum: nat)
    requires sum <= INT_MAX
    ensures Represents(Fold(sum), sum)
  {
    var hi, lo := sum / 0x1_0000, sum % 0x1_0000;
    var s := hi + lo;
    assert sum == 0x1_0000 * hi + lo && hi < 0x8000;
    assert s - sum == -0xffff * hi;
    if s < 0x1_0000 {
      assert Fold(sum) == s;
    } else {
      assert s / 0x1_0000 == 1;
      assert Fold(sum) == s - 0xffff;
      assert Fold(sum) - sum == -0xffff * (hi + 1);
    }
  }

  lemma OnesAddRepresents(a: int, b: int, sum: nat)
    requires 0 <= a <= 0xffff && Represents(b, sum)
    ensures Represents(OnesAdd(a, b), a + sum)
  {
  }

  lemma {:induction false} OnesSumRepresents(big: bool, p: seq<Byte>)
    ensures Represents(OnesSum(big, p), Sum(big, p))
  {
    if |p| > 1 {
      OnesSumRepresents(big, p[2..]);
      OnesAddRepresents(Word(big, p[0], p[1]), OnesSum(big, p[2..]), Sum(big, p[2..]));
    }
  }

  lemma SumFits(big: bool, p: seq<Byte>)
    requires |p| <= MAX_PACKET
    ensures Sum(big, p) <= INT_MAX
  {
    SumBound(big, p);
  }

  lemma {:induction false} SumOfOnes(big: bool, n: nat)
    ensures Sum(big, seq(2 * n, _ => 255)) == n * 0xffff
  {
    if n > 0 {
      SumOfOnes(big, n - 1);
      assert seq(2 * n, _ => 255)[2..] == seq(2 * (n - 1), _ => 255);
    }
  }

  /** The limit is exact: one word more, and the int can overflow. */
  lemma LongerPacketOverflows(big: bool)
    ensures Sum(big, seq(MAX_PACKET + 2, _ => 255)) > INT_MAX
  {
    SumOfOnes(big, MAX_PACKET / 2 + 1);
  }

  /** The fast loop computes the complement of the one's complement sum of RFC 1071. */
  lemma CksumIsRfc1071(big: bool, p: seq<Byte>)
    requires |p| <= MAX_PACKET
    ensures InCksum(big, p) == 0xffff - OnesSum(big, p)
  {
    SumFits(big, p);
    FoldRepresents(Sum(big, p));
    OnesSumRepresents(big, p);
    UniqueRepresentative(Fold(Sum(big, p)), OnesSum(big, p), Sum(big, p));
  }

  // ----- a packet that carries its own checksum -----

  /** Store a 16-bit value at an offset, in host order. */
  function Store(big: bool, p: seq<Byte>, at: nat, v: int): seq<Byte>
    requires at + 1 < |p| && 0 <= v <= 0xffff
  {
    var lo: Byte, hi: Byte := v % 256, v / 256;
    if big then p[at := hi][at + 1 := lo] else p[at := lo][at + 1 := hi]
  }

  lemma {:induction false} SumStore(big: bool, p: seq<Byte>, at: nat, v: int)
    requires at % 2 == 0 && at + 1 < |p| && p[at] == 0 && p[at + 1] == 0 && 0 <= v <= 0xffff
    ensures Sum(big, Store(big, p, at, v)) == Sum(big, p) + v
  {
    var q := Store(big, p, at, v);
    if at == 0 {
      assert q[2..] == p[2..];
    } else {
      SumStore(big, p[2..], at - 2, v);
      assert q[2..] == Store(big, p[2..], at - 2, v);
    }
  }

  /** Adding the complement of its representative makes a sum that 0xffff represents. */
  lemma ComplementFills(x: int, sum: nat, filled: nat, y: int)
    requires Represents(x, sum) && filled == sum + 0xffff - x && Represents(y, filled)
    ensures y == 0xffff
  {
    assert filled > 0;
    SameMultiples(y - filled, x - sum);
    assert (y - filled) - (x - sum) == y - 0xffff;
  }

  lemma SameMultiples(a: int, b: int)
    requires a % 0xffff == 0 && b % 0xffff == 0
    ensures (a - b) % 0xffff == 0
  {
  }

  lemma CksumFold(big: bool, p: seq<Byte>)
    requires |p| <= MAX_PACKET
    ensures var x := Fold(Sum(big, p)); Represents(x, Sum(big, p)) && InCksum(big, p) == 0xffff - x
  {
    SumFits(big, p);
    FoldRepresents(Sum(big, p));
  }

  /** Storing the checksum in a zeroed aligned field makes a recomputation give 0. */
  lemma ChecksumVerifies(big: bool, p: seq<Byte>, at: nat)
    requires |p| <= MAX_PACKET && at % 2 == 0 && at + 1 < |p| && p[at] == 0 && p[at + 1] == 0
    ensures 0 <= InCksum(big, p) <= 0xffff
    ensures InCksum(big, Store(big, p, at, InCksum(big, p))) == 0
  {
    CksumFold(big, p);
    var v := InCksum(big, p);
    var q := Store(big, p, at, v);
    SumStore(big, p, at, v);
    CksumFold(big, q);
    ComplementFills(Fold(Sum(big, p)), Sum(big, p), Sum(big, q), Fold(Sum(big, q)));
  }

  /** An odd tail counts as if it were padded with a zero byte. */
  lemma {:induction false} OddTailPadded(big: bool, p: seq<Byte>)
    requires |p| % 2 == 1
    ensures Sum(big, p) == Sum(big, p + [0]) && InCksum(big, p) == InCksum(big, p + [0])
  {
    if |p| == 1 {
      assert (p + [0])[2..] == [];
    } else {
      OddTailPadded(big, p[2..]);
      assert (p + [0])[2..] == p[2..] + [0];
    }
  }

  // ----- byte order independence -----

  function SwapWord(w: int): int { (w % 256) * 256 + w / 256 }

  /** Exchange the bytes of every word. */
  function SwapBytes(p: seq<Byte>): (q: seq<Byte>)
    ensures |q| == |p|
  {
    if |p| < 2 then p else [p[1], p[0]] + SwapBytes(p[2..])
  }

  lemma SwapRepresents(x: int, sum: nat)
    requires Represents(x, sum)
    ensures Represents(SwapWord(x), 256 * sum)
  {
    var hi, lo := x / 256, x % 256;
    assert x == 256 * hi + lo;
    assert SwapWord(x) - 256 * x == -0xffff * hi;
  }

  lemma {:induction false} SumSwap(big: bool, p: seq<Byte>)
    requires |p| % 2 == 0
    ensures (Sum(big, SwapBytes(p)) - 256 * Sum(big, p)) % 0xffff == 0
    ensures Sum(big, SwapBytes(p)) == 0 <==> Sum(big, p) == 0
  {
    if |p| > 0 {
      var q := SwapBytes(p);
      SumSwap(big, p[2..]);
      assert q[2..] == SwapBytes(p[2..]);
      SwapOne(big, p[0], p[1]);
      AddMultiples(Word(big, p[1], p[0]), Word(big, p[0], p[1]), Sum(big, q[2..]), Sum(big, p[2..]));
    }
  }

  lemma SwapOne(big: bool, a: Byte, b: Byte)
    ensures (Word(big, b, a) - 256 * Word(big, a, b)) % 0xffff == 0
  {
    var k: int := if big then -(a as int) else -(b as int);
    assert Word(big, b, a) - 256 * Word(big, a, b) == 0xffff * k;
  }

  lemma AddMultiples(a: int, b: int, c: int, d: int)
    requires (a - 256 * b) % 0xffff == 0 && (c - 256 * d) % 0xffff == 0
    ensures (a + c - 256 * (b + d)) % 0xffff == 0
  {
    assert a + c - 256 * (b + d) == (a - 256 * b) + (c - 256 * d);
  }

  /** The packet as a whole number of words. */
  function Padded(p: seq<Byte>): (q: seq<Byte>)
    ensures |q| % 2 == 0 && p <= q && |q| <= |p| + 1
  {
    if |p| % 2 == 0 then p else p + [0]
  }

  /** Swapping the bytes of every word swaps the bytes of the checksum (section 2(B) of RFC 1071); a last byte on its
      own counts as a word with a zero byte. */
  lemma ByteOrderIndependent(big: bool, p: seq<Byte>)
    requires |p| <= MAX_PACKET
    ensures InCksum(big, SwapBytes(Padded(p))) == SwapWord(InCksum(big, p))
  {
    if |p| % 2 == 1 { OddTailPadded(big, p); }
    SwapEven(big, Padded(p));
  }

  lemma SwapEven(big: bool, p: seq<Byte>)
    requires |p| <= MAX_PACKET && |p| % 2 == 0
    ensures InCksum(big, SwapBytes(p)) == SwapWord(InCksum(big, p))
  {
    SumFits(big, p);
    SumFits(big, SwapBytes(p));
    SumSwap(big, p);
    SwapFolded(Sum(big, p), Sum(big, SwapBytes(p)), InCksum(big, p), InCksum(big, SwapBytes(p)));
  }

  lemma SwapFolded(sum: nat, swapped: nat, v: int, w: int)
    requires sum <= INT_MAX && swapped <= INT_MAX && v == 0xffff - Fold(sum) && w == 0xffff - Fold(swapped)
    requires (swapped - 256 * sum) % 0xffff == 0 && (sum == 0 <==> swapped == 0)
    ensures w == SwapWord(v)
  {
    FoldRepresents(sum);
    FoldRepresents(swapped);
    SwapUnique(Fold(sum), Fold(swapped), sum, swapped);
  }

  lemma SwapUnique(x: int, y: int, sum: nat, swapped: nat)
    requires Represents(x, sum) && Represents(y, swapped)
    requires (swapped - 256 * sum) % 0xffff == 0 && (sum == 0 <==> swapped == 0)
    ensures 0xffff - y == SwapWord(0xffff - x)
  {
    SwapRepresents(x, sum);
    SameResidue(SwapWord(x), 256 * sum, swapped);
    UniqueRepresentative(SwapWord(x), y, swapped);
    SwapComplement(x);
  }

  lemma SameResidue(x: int, a: nat, b: nat)
    requires Represents(x, a) && (b - a) % 0xffff == 0 && (a == 0 <==> b == 0)
    ensures Represents(x, b)
  {
    assert x - b == (x - a) - (b - a);
  }

  lemma SwapComplement(x: int)
    requires 0 <= x <= 0xffff
    ensures SwapWord(0xffff - x) == 0xffff - SwapWord(x)
  {
    var hi, lo := x / 256, x % 256;
    assert 0xffff - x == 256 * (255 - hi) + (255 - lo);
  }
}
