/** 32-bit words as vectors over GF(2).

    src/crc32.cc keeps CRC values and matrix rows in `unsigned long`
    variables that only ever hold 32-bit values, and combines them with
    `^`, `& 1`, `>> 1` and `<< 1`.  Here such a word is its sequence of 32
    bits, bit 0 (the least significant) first, and each of those operators
    is the corresponding operation on the bits: `^` is Xor, `x & 1` is
    x[0], `x >> 1` is Down and `x << 1` (dropping bit 31) is Up. */
module Words {

  type Word = w: seq<bool> | |w| == 32 witness seq(32, _ => false)

  /** The word 0. */
  function Zero(): Word
  {
    seq(32, _ => false)
  }

  /** x ^ y */
  function Xor(x: Word, y: Word): Word
  {
    seq(32, k requires 0 <= k < 32 => x[k] != y[k])
  }

  /** x >> 1: every bit moves one place down and bit 31 becomes 0. */
  function Down(x: Word): Word
  {
    seq(32, k requires 0 <= k < 32 => k < 31 && x[k + 1])
  }

  /** x << 1 on a 32-bit value: every bit moves one place up, bit 31 is lost. */
  function Up(x: Word): Word
  {
    seq(32, k requires 0 <= k < 32 => 0 < k && x[k - 1])
  }

  /** 1 << j: only bit j is set. */
  function Unit(j: nat): Word
    requires j < 32
  {
    seq(32, k requires 0 <= k < 32 => k == j)
  }

  /** The k lowest binary digits of n, least significant first. */
  function NatBits(n: nat, k: nat): (bs: seq<bool>)
    ensures |bs| == k
    decreases k
  {
    if k == 0 then [] else [n % 2 == 1] + NatBits(n / 2, k - 1)
  }

  /** The number with binary digits bs, least significant first. */
  function BitsNat(bs: seq<bool>): nat
    decreases |bs|
  {
    if |bs| == 0 then 0 else (if bs[0] then 1 else 0) + 2 * BitsNat(bs[1..])
  }

  function Pow2(k: nat): (p: nat)
    ensures p >= 1
    decreases k
  {
    if k == 0 then 1 else 2 * Pow2(k - 1)
  }

  /** 2^(a + b) == 2^a * 2^b */
  lemma {:induction false} Pow2Add(a: nat, b: nat, c: nat)
    requires c == a + b
    ensures Pow2(c) == Pow2(a) * Pow2(b)
    decreases a
  {
    if a > 0 {
      Pow2Add(a - 1, b, c - 1);
    }
  }

  lemma {:induction false} Pow2Monotone(a: nat, b: nat)
    requires a <= b
    ensures Pow2(a) <= Pow2(b)
    decreases b
  {
    if a < b {
      Pow2Monotone(a, b - 1);
    }
  }

  /** k binary digits hold a number below 2^k. */
  lemma {:induction false} BitsNatBound(bs: seq<bool>)
    ensures BitsNat(bs) < Pow2(|bs|)
    decreases |bs|
  {
    if |bs| > 0 {
      BitsNatBound(bs[1..]);
    }
  }

  /** Reading digits as a number and writing it back gives the digits. */
  lemma {:induction false} NatBitsBack(bs: seq<bool>)
    ensures NatBits(BitsNat(bs), |bs|) == bs
    decreases |bs|
  {
    if |bs| > 0 {
      NatBitsBack(bs[1..]);
      var n := BitsNat(bs);
      assert n % 2 == (if bs[0] then 1 else 0) && n / 2 == BitsNat(bs[1..]);
    }
  }

  /** Writing n < 2^k as k digits and reading them back gives n. */
  lemma {:induction false} BitsNatBack(n: nat, k: nat)
    requires n < Pow2(k)
    ensures BitsNat(NatBits(n, k)) == n
    decreases k
  {
    if k > 0 {
      BitsNatBack(n / 2, k - 1);
      var bs := NatBits(n, k);
      assert bs[1..] == NatBits(n / 2, k - 1);
    }
  }

  // ---------------------------------------------------------------------
  // XOR makes words a vector space over GF(2)

  lemma XorZero(x: Word)
    ensures Xor(x, Zero()) == x && Xor(Zero(), x) == x
  {
  }

  lemma XorComm(x: Word, y: Word)
    ensures Xor(x, y) == Xor(y, x)
  {
  }

  lemma XorAssoc(x: Word, y: Word, z: Word)
    ensures Xor(Xor(x, y), z) == Xor(x, Xor(y, z))
  {
  }

  /** Shifting 1 << j left gives 1 << (j + 1). */
  lemma UpUnit(j: nat)
    requires j < 31
    ensures Up(Unit(j)) == Unit(j + 1)
  {
  }
}
