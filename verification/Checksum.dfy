/** checksum.c: the Internet checksum over a buffer, on a host of either byte order. */
module Checksum {
  import opened Bytes

  /** How the host lays out a 16-bit word in memory. */
  datatype Order = Little | Big

  type Word16 = x: int | 0 <= x <= 0xFFFF

  /** The `int` accumulator of the C code: leaving this range would be undefined behaviour. */
  newtype Int32 = x: int | -0x8000_0000 <= x < 0x8000_0000

  /** The 16-bit word a host reads at two adjacent bytes. */
  function Word(order: Order, first: Byte, second: Byte): (w: Word16) {
    match order
    case Big => 256 * first + second
    case Little => first + 256 * second
  }

  /** An odd last byte is paired with a zero byte that follows it. */
  function TailWord(order: Order, last: Byte): (w: Word16) {
    Word(order, last, 0)
  }

  /** The plain sum of the 16-bit words of a buffer. */
  function Total(order: Order, p: seq<Byte>): nat {
    if |p| == 0 then 0
    else if |p| == 1 then TailWord(order, p[0])
    else Word(order, p[0], p[1]) + Total(order, p[2..])
  }

  /** Ones' complement addition of two 16-bit words: the carry is added back in. */
  function OnesAdd(a: Word16, b: Word16): (r: Word16) {
    if a + b <= 0xFFFF then a + b else a + b - 0xFFFF
  }

  /** The ones' complement sum of section 1 of RFC 1071. */
  function OnesSum(order: Order, p: seq<Byte>): (r: Word16) {
    if |p| == 0 then 0
    else if |p| == 1 then TailWord(order, p[0])
    else OnesAdd(Word(order, p[0], p[1]), OnesSum(order, p[2..]))
  }

  /** The representative of `t` modulo 65535 that ones' complement addition keeps:
      zero only for zero itself, 0xFFFF for every other multiple. */
  function Residue(t: nat): (r: Word16) {
    if t == 0 then 0 else 1 + (t - 1) % 0xFFFF
  }

  lemma ResidueUnique(t: nat, r: Word16, k: int)
    requires t == r + 0xFFFF * k
    requires t == 0 <==> r == 0
    ensures Residue(t) == r
  {
    if t != 0 {
      assert t - 1 == (r - 1) + 0xFFFF * k;
    }
  }

  lemma ResidueCongruent(t: nat) returns (k: nat)
    ensures t == Residue(t) + 0xFFFF * k
  {
    k := if t == 0 then 0 else (t - 1) / 0xFFFF;
  }

  /** Ones' complement addition is addition modulo 65535. */
  lemma OnesAddIsResidue(w: Word16, t: nat)
    ensures OnesAdd(w, Residue(t)) == Residue(w + t)
  {
    var k := ResidueCongruent(t);
    if w + Residue(t) <= 0xFFFF {
      ResidueUnique(w + t, w + Residue(t), k);
    } else {
      ResidueUnique(w + t, w + Residue(t) - 0xFFFF, k + 1);
    }
  }

  lemma {:induction false} OnesSumIsResidue(order: Order, p: seq<Byte>)
    ensures OnesSum(order, p) == Residue(Total(order, p))
  {
    if |p| == 1 {
      ResidueUnique(Total(order, p), TailWord(order, p[0]), 0);
    } else if |p| > 1 {
      OnesSumIsResidue(order, p[2..]);
      OnesAddIsResidue(Word(order, p[0], p[1]), Total(order, p[2..]));
    }
  }

  /** Adding the high half of a 32-bit sum to its low half, and then the carry of that:
      two folds are enough, and their complement cut to 16 bits is the complement of the
      ones' complement sum. */
  lemma TwoFoldsSuffice(t: nat)
    requires t < 0x8000_0000
    ensures var once := t / 0x1_0000 + t % 0x1_0000;
            var twice := once + once / 0x1_0000;
            twice < 0x8000_0000 && (-twice - 1) % 0x1_0000 == 0xFFFF - Residue(t)
  {
    var high, low := t / 0x1_0000, t % 0x1_0000;
    var once := high + low;
    if once <= 0xFFFF {
      ResidueUnique(t, once, high);
    } else {
      ResidueUnique(t, once - 0xFFFF, high + 1);
    }
  }

  /** The largest plain sum of a buffer of the given length. */
  function LargestTotal(order: Order, len: nat): nat {
    0xFFFF * (len / 2) + if len % 2 == 1 then TailWord(order, 255) else 0
  }

  /** Where a plain sum can lie: it bounds the accumulator. */
  lemma {:induction false} TotalBound(order: Order, p: seq<Byte>)
    ensures Total(order, p) <= LargestTotal(order, |p|)
    ensures (forall i :: 0 <= i < |p| ==> p[i] == 255) ==> Total(order, p) == LargestTotal(order, |p|)
  {
    if |p| > 1 {
      TotalBound(order, p[2..]);
    }
  }

  /** The signed accumulator holds the sum of every buffer of a length exactly up to 65536 bytes, and one
      byte more on a host that pairs the last byte with a high zero. */
  lemma AccumulatorFitsExactly(order: Order, len: nat)
    ensures (forall p: seq<Byte> :: |p| == len ==> Total(order, p) < 0x8000_0000)
            <==> len <= if order == Big then 0x1_0000 else 0x1_0001
  {
    if len <= if order == Big then 0x1_0000 else 0x1_0001 {
      forall p: seq<Byte> | |p| == len
        ensures Total(order, p) < 0x8000_0000
      {
        TotalBound(order, p);
      }
    } else {
      var ones: seq<Byte> := seq(len, _ => 255);
      TotalBound(order, ones);
      assert Total(order, ones) >= 0x8000_0000;
    }
  }

  /** `in_cksum` returns the complement of the ones' complement sum of section 1 of RFC 1071.
      The accumulator is an `Int32`, so the proof also shows that it never overflows as long as the
      whole sum fits it, which it does for every buffer of up to 65536 bytes. */
  method InCksum(order: Order, addr: array<Byte>, len: nat) returns (answer: Word16)
    requires len <= addr.Length && Total(order, addr[..len]) < 0x8000_0000
    ensures answer == 0xFFFF - OnesSum(order, addr[..len])
  {
    var sum: Int32 := 0;
    var w, nleft := 0, len;
    while nleft > 1
      invariant w + nleft == len
      invariant sum >= 0
      invariant sum as int + Total(order, addr[w..len]) == Total(order, addr[..len])
    {
      assert addr[w..len][2..] == addr[w + 2..len];
      sum := sum + Word(order, addr[w], addr[w + 1]) as Int32;
      w := w + 2;
      nleft := nleft - 2;
    }
    if nleft == 1 {
      sum := sum + TailWord(order, addr[w]) as Int32;
    }
    OnesSumIsResidue(order, addr[..len]);
    answer := Fold(sum);
  }

  /** The end of `in_cksum`: the carries are added back twice, and the complement is cut to 16 bits. */
  method Fold(total: Int32) returns (answer: Word16)
    requires total >= 0
    ensures answer == 0xFFFF - Residue(total as int)
  {
    TwoFoldsSuffice(total as int);
    var sum := total / 0x1_0000 + total % 0x1_0000;
    sum := sum + sum / 0x1_0000;
    answer := (-(sum as int) - 1) % 0x1_0000;
  }

  /** Changing one byte moves the plain sum by the weight of its position. */
  lemma {:induction false} TotalUpdate(p: seq<Byte>, i: nat, x: Byte)
    requires i < |p|
    ensures Total(Big, p[i := x]) == Total(Big, p) + (if i % 2 == 0 then 256 else 1) * (x - p[i])
  {
    if i >= 2 {
      TotalUpdate(p[2..], i - 2, x);
      assert p[i := x][2..] == p[2..][i - 2 := x];
    } else if |p| > 1 {
      assert p[i := x][2..] == p[2..];
    }
  }

  /** Section 2(B) of RFC 1071: a host of the other byte order computes the same sum with its
      two bytes exchanged. */
  function Swap16(x: Word16): (r: Word16) {
    256 * (x % 256) + x / 256
  }

  function SecondBytes(p: seq<Byte>): nat {
    if |p| < 2 then 0 else p[1] + SecondBytes(p[2..])
  }

  lemma {:induction false} TotalSwapped(p: seq<Byte>)
    ensures 256 * Total(Little, p) == Total(Big, p) + 0xFFFF * SecondBytes(p)
    ensures Total(Little, p) == 0 <==> Total(Big, p) == 0
  {
    if |p| > 1 {
      TotalSwapped(p[2..]);
    }
  }

  lemma ByteOrderIndependent(p: seq<Byte>)
    ensures OnesSum(Big, p) == Swap16(OnesSum(Little, p))
  {
    OnesSumIsResidue(Big, p);
    OnesSumIsResidue(Little, p);
    TotalSwapped(p);
    var t := Total(Little, p);
    var k := ResidueCongruent(t);
    var r := Residue(t);
    ResidueUnique(Total(Big, p), Swap16(r), 256 * k - SecondBytes(p) + r / 256);
  }
}
