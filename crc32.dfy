/** crc32_combine (src/crc32.cc:29-82): the CRC-32 of a concatenation A ++ B
    from crc1 = CRC(A), crc2 = CRC(B) and len2 = |B|.

    Appending one zero bit to a message moves the reflected CRC register
    one step: shift right, and XOR in the polynomial 0xEDB88320 when the bit
    shifted out was set (ZeroBit).  crc32_combine advances crc1 by the
    8 * len2 zero bits of B's length with matrices that each stand for a
    power of two of such steps, and then XORs in crc2. */
module Crc32 {
  import opened Words
  import opened GF2

  /** The reflected CRC-32 polynomial 0xedb88320 (src/crc32.cc:41), as the
      set of its bits; PolyBytes checks them against the constant. */
  function Poly(): Word
  {
    seq(32, k requires 0 <= k < 32 => PolyBit(k))
  }

  /** Bit k of 0xedb88320. */
  predicate PolyBit(k: nat)
  {
    k == 5 || k == 8 || k == 9 || k == 15 || k == 19 || k == 20 || k == 21 ||
    k == 23 || k == 24 || k == 26 || k == 27 || k == 29 || k == 30 || k == 31
  }

  /** The bits of Poly are the binary digits of the bytes 0x20, 0x83,
      0xb8 and 0xed, the little-endian bytes of 0xedb88320. */
  lemma PolyBytes()
    ensures Poly() == NatBits(0x20, 8) + NatBits(0x83, 8) + NatBits(0xB8, 8) + NatBits(0xED, 8)
    ensures 0xEDB8_8320 == 0x20 + 0x100 * (0x83 + 0x100 * (0xB8 + 0x100 * 0xED))
  {
    var p := Poly();
    PolyByte0();
    PolyByte1();
    PolyByte2();
    PolyByte3();
    assert p == p[0..8] + p[8..16] + p[16..24] + p[24..32];
  }

  lemma PolyByte0()
    ensures Poly()[0..8] == NatBits(0x20, 8)
  {
    assert NatBits(0x20, 8) == [false, false, false, false, false, true, false, false];
  }

  lemma PolyByte1()
    ensures Poly()[8..16] == NatBits(0x83, 8)
  {
    assert NatBits(0x83, 8) == [true, true, false, false, false, false, false, true];
  }

  lemma PolyByte2()
    ensures Poly()[16..24] == NatBits(0xB8, 8)
  {
    assert NatBits(0xB8, 8) == [false, false, false, true, true, true, false, true];
  }

  lemma PolyByte3()
    ensures Poly()[24..32] == NatBits(0xED, 8)
  {
    assert NatBits(0xED, 8) == [true, false, true, true, false, true, true, true];
  }

  /** One zero bit: (v >> 1) ^ (v & 1 ? 0xedb88320 : 0). */
  function ZeroBit(v: Word): Word
  {
    Xor(Down(v), if v[0] then Poly() else Zero())
  }

  /** n zero bits: ZeroBit applied n times. */
  function ZeroBits(v: Word, n: nat): Word
    decreases n
  {
    if n == 0 then v else ZeroBits(ZeroBit(v), n - 1)
  }

  /** The result crc32_combine promises: crc1 when len2 <= 0, otherwise
      crc1 advanced over len2 zero bytes, XOR crc2. */
  function Combined(crc1: Word, crc2: Word, len2: int): Word
  {
    if len2 <= 0 then crc1 else Xor(ZeroBits(crc1, 8 * len2), crc2)
  }

  // ---------------------------------------------------------------------
  // The zero-bit operator

  /** Bits j and above of w, the rest cleared. */
  function From(w: Word, j: nat): Word
  {
    seq(32, k requires 0 <= k < 32 => j <= k && w[k])
  }

  lemma ZeroBitLinear(a: Word, b: Word)
    ensures ZeroBit(Xor(a, b)) == Xor(ZeroBit(a), ZeroBit(b))
  {
  }

  lemma {:induction false} ZeroBitsLinear(a: Word, b: Word, n: nat)
    ensures ZeroBits(Xor(a, b), n) == Xor(ZeroBits(a, n), ZeroBits(b, n))
    decreases n
  {
    if n > 0 {
      ZeroBitLinear(a, b);
      ZeroBitsLinear(ZeroBit(a), ZeroBit(b), n - 1);
    }
  }

  /** Zero bits appended to nothing leave the register at zero. */
  lemma {:induction false} ZeroBitsZero(n: nat)
    ensures ZeroBits(Zero(), n) == Zero()
    decreases n
  {
    if n > 0 {
      assert ZeroBit(Zero()) == Zero();
      ZeroBitsZero(n - 1);
    }
  }

  /** a zero bits and then b more are a + b zero bits. */
  lemma {:induction false} ZeroBitsAdd(v: Word, a: nat, b: nat, c: nat)
    requires c == a + b
    ensures ZeroBits(ZeroBits(v, a), b) == ZeroBits(v, c)
    decreases a
  {
    if a > 0 {
      ZeroBitsAdd(ZeroBit(v), a - 1, b, c - 1);
    }
  }

  // ---------------------------------------------------------------------
  // Operator matrices

  /** m is the operator for n zero bits. */
  ghost predicate Represents(m: Matrix, n: nat)
  {
    forall v: Word {:trigger Apply(m, v)} :: Apply(m, v) == ZeroBits(v, n)
  }

  /** The matrix src/crc32.cc:41-46 puts in odd: row 0 is the polynomial
      and row n is 1 << (n - 1). */
  function OneZeroBitMatrix(): Matrix
  {
    seq(32, n requires 0 <= n < 32 => if n == 0 then Poly() else Unit(n - 1))
  }

  lemma {:induction false} OneZeroBitRows(v: Word, lo: nat)
    requires 1 <= lo <= 32
    ensures SelectedRows(OneZeroBitMatrix(), v, lo) == From(Down(v), lo - 1)
    decreases 32 - lo
  {
    if lo == 32 {
      assert From(Down(v), 31) == Zero();
    } else {
      OneZeroBitRows(v, lo + 1);
      assert OneZeroBitMatrix()[lo] == Unit(lo - 1);
    }
  }

  /** The seed matrix is the operator for one zero bit. */
  lemma OneZeroBitRepresents()
    ensures Represents(OneZeroBitMatrix(), 1)
  {
    var m := OneZeroBitMatrix();
    forall v: Word
      ensures Apply(m, v) == ZeroBits(v, 1)
    {
      OneZeroBitRows(v, 1);
      assert From(Down(v), 0) == Down(v);
      XorComm(if v[0] then Poly() else Zero(), Down(v));
    }
  }

  lemma Twice(m: Matrix, n: nat, v: Word, n2: nat)
    requires Represents(m, n) && n2 == 2 * n
    ensures Apply(m, Apply(m, v)) == ZeroBits(v, n2)
  {
    var w := Apply(m, v);
    assert w == ZeroBits(v, n);
    assert Apply(m, w) == ZeroBits(w, n);
    ZeroBitsAdd(v, n, n, n2);
  }

  /** Squaring the operator for n zero bits gives the one for 2n. */
  lemma SquareRepresents(sq: Matrix, m: Matrix, n: nat, n2: nat)
    requires IsSquareOf(sq, m) && Represents(m, n) && n2 == 2 * n
    ensures Represents(sq, n2)
  {
    forall v: Word
      ensures Apply(sq, v) == ZeroBits(v, n2)
    {
      SquareApply(sq, m, v);
      Twice(m, n, v, n2);
    }
  }

  /** One halving of len in the square-and-multiply loop keeps
      len2 == low + unit * len with low < unit: the low bit of len is worth
      unit bytes, and each unit of len / 2 is worth twice as many.  When
      len / 2 is 0, all of len2 has been applied and len2 is at least the
      unit of the last bit. */
  lemma HalveLength(len2: int, low: nat, unit: nat, len: nat, low': nat, unit': nat, len': nat)
    requires len2 == low + unit * len && low < unit && len > 0
    requires low' == low + (if len % 2 == 1 then unit else 0)
    requires unit' == 2 * unit && len' == len / 2
    ensures len2 == low' + unit' * len' && low' < unit'
    ensures len' == 0 ==> low' == len2 && unit <= len2
  {
    assert len == 2 * len' + len % 2;
    assert unit * len == unit' * len' + unit * (len % 2);
  }

  /** Multiplying the running crc, already advanced over low0 bytes, by
      the operator for step more bytes advances it over low0 + step. */
  lemma ApplyZeros(m: Matrix, bits: nat, c: Word, crc1: Word, low0: nat, step: nat, low: nat)
    requires Represents(m, bits) && bits == 8 * step
    requires c == ZeroBits(crc1, 8 * low0) && low == low0 + step
    ensures Apply(m, c) == ZeroBits(crc1, 8 * low)
  {
    assert Apply(m, c) == ZeroBits(c, bits);
    ZeroBitsAdd(crc1, 8 * low0, bits, 8 * low);
  }

  lemma MaybeApplyZeros(m: Matrix, bits: nat, bit: bool, c: Word, c': Word, crc1: Word,
                        low0: nat, step: nat, low: nat)
    requires Represents(m, bits) && bits == 8 * step
    requires c == ZeroBits(crc1, 8 * low0) && low == low0 + (if bit then step else 0)
    requires c' == if bit then Apply(m, c) else c
    ensures c' == ZeroBits(crc1, 8 * low)
  {
    if bit {
      ApplyZeros(m, bits, c, crc1, low0, step, low);
    }
  }

  // ---------------------------------------------------------------------
  // crc32_combine

  /** The matrix in odd after src/crc32.cc:41-46. */
  method InitOdd(odd: array<Word>)
    requires odd.Length == 32
    modifies odd
    ensures odd[..] == OneZeroBitMatrix()
  {
    odd[0] := Poly();
    var row := Unit(0);
    for n := 1 to 32
      invariant row == Unit(n - 1)
      invariant odd[0] == Poly()
      invariant forall k :: 1 <= k < n ==> odd[k] == Unit(k - 1)
    {
      odd[n] := row;
      if n < 31 {
        UpUnit(n - 1);
      }
      row := Up(row);
    }
  }

  /** One half of the body of the loop at src/crc32.cc:56-77: square m,
      the operator for bits zero bits, into sq, and multiply crc by the
      square when the current bit of len2 is set.  The square is the
      operator for step bytes, and crc advances over them when bit is set. */
  method SquareAndApply(sq: array<Word>, m: array<Word>, crc: Word, bit: bool,
                        ghost crc1: Word, ghost low: nat, ghost bits: nat, ghost step: nat)
    returns (crc': Word, ghost low': nat)
    requires sq.Length == 32 && m.Length == 32 && sq != m
    requires Represents(m[..], bits) && 2 * bits == 8 * step
    requires crc == ZeroBits(crc1, 8 * low)
    modifies sq
    ensures Represents(sq[..], 2 * bits)
    ensures low' == low + (if bit then step else 0)
    ensures crc' == ZeroBits(crc1, 8 * low')
  {
    MatrixSquare(sq, m);
    SquareRepresents(sq[..], m[..], bits, 2 * bits);
    if bit {
      crc' := MatrixTimes(sq, crc);
    } else {
      crc' := crc;
    }
    low' := low + (if bit then step else 0);
    MaybeApplyZeros(sq[..], 2 * bits, bit, crc, crc', crc1, low, step, low');
  }

  /** The number of binary digits of n, 0 for n <= 0: how often n can be
      halved before it reaches 0. */
  function BitLength(n: int): nat
    decreases if n <= 0 then 0 else n
  {
    if n <= 0 then 0 else 1 + BitLength(n / 2)
  }

  /** A positive n of bit length h lies in [2^(h-1), 2^h). */
  lemma {:induction false} BitLengthBounds(n: int)
    requires n > 0
    ensures 1 <= BitLength(n) && Pow2(BitLength(n) - 1) <= n < Pow2(BitLength(n))
    decreases n
  {
    if n > 1 {
      BitLengthBounds(n / 2);
    }
  }

  /** crc32_combine: the CRC of A ++ B from crc1 = CRC(A), crc2 = CRC(B)
      and len2 = |B| in bytes. */
  method Combine(crc1: Word, crc2: Word, len2: int) returns (r: Word, ghost halvings: nat)
    ensures r == Combined(crc1, crc2, len2)
    ensures halvings == BitLength(len2)
  {
    if len2 <= 0 {
      return crc1, 0;
    }
    var even := new Word[32](_ => Zero());
    var odd := new Word[32](_ => Zero());

    InitOdd(odd);
    OneZeroBitRepresents();
    MatrixSquare(even, odd);
    SquareRepresents(even[..], odd[..], 1, 2);
    MatrixSquare(odd, even);
    SquareRepresents(odd[..], even[..], 2, 4);

    var crc := crc1;
    var len := len2;
    // low: the bytes applied to crc so far; unit: the bytes that each
    // remaining unit of len stands for
    ghost var low: nat := 0;
    ghost var unit: nat := 1;
    halvings := 0;
    while true
      invariant len > 0
      invariant len2 == low + unit * len && low < unit
      invariant unit == Pow2(halvings)
      invariant halvings + BitLength(len) == BitLength(len2)
      invariant crc == ZeroBits(crc1, 8 * low)
      invariant Represents(odd[..], 4 * unit)
      decreases len
    {
      ghost var low0, len0 := low, len;
      crc, low := SquareAndApply(even, odd, crc, len % 2 == 1, crc1, low, 4 * unit, unit);
      len := len / 2;
      HalveLength(len2, low0, unit, len0, low, 2 * unit, len);
      halvings := halvings + 1;
      if len == 0 {
        break;
      }

      low0, len0 := low, len;
      crc, low := SquareAndApply(odd, even, crc, len % 2 == 1, crc1, low, 2 * (4 * unit), 2 * unit);
      len := len / 2;
      HalveLength(len2, low0, 2 * unit, len0, low, 4 * unit, len);
      halvings := halvings + 1;
      assert 2 * (2 * (4 * unit)) == 4 * (4 * unit);
      unit := 4 * unit;
      if len == 0 {
        break;
      }
    }
    r := Xor(crc, crc2);
  }

  /** For a len2 that fits in a signed 64-bit `long`, the loop halves it at
      most 63 times. */
  lemma HalvingsOfLong(len2: int)
    requires 0 < len2 < Pow2(63)
    ensures BitLength(len2) <= 63
  {
    BitLengthBounds(len2);
    if BitLength(len2) > 63 {
      Pow2Monotone(63, BitLength(len2) - 1);
    }
  }

  // ---------------------------------------------------------------------
  // What combining means

  /** Combining a zero CRC: the prefix contributes nothing. */
  lemma CombinedFromZero(crc2: Word, len2: int)
    requires len2 > 0
    ensures Combined(Zero(), crc2, len2) == crc2
  {
    ZeroBitsZero(8 * len2);
    XorZero(crc2);
  }

  /** Combining is linear in both CRCs. */
  lemma CombinedLinear(a: Word, b: Word, a': Word, b': Word, len2: int)
    ensures Combined(Xor(a, a'), Xor(b, b'), len2) == Xor(Combined(a, b, len2), Combined(a', b', len2))
  {
    if len2 > 0 {
      ZeroBitsLinear(a, a', 8 * len2);
    }
  }

  /** Combining three pieces does not depend on the grouping, as long as a
      piece of length zero has CRC zero (as the CRC of empty data does). */
  lemma CombinedAssoc(a: Word, b: Word, c: Word, lb: nat, lc: nat)
    requires lb == 0 ==> b == Zero()
    ensures Combined(Combined(a, b, lb), c, lc) == Combined(a, Combined(b, c, lc), lb + lc)
  {
    if lb > 0 && lc > 0 {
      var za := ZeroBits(a, 8 * lb);
      ZeroBitsLinear(za, b, 8 * lc);
      ZeroBitsAdd(a, 8 * lb, 8 * lc, 8 * (lb + lc));
      XorAssoc(ZeroBits(za, 8 * lc), ZeroBits(b, 8 * lc), c);
    } else if lb == 0 && lc > 0 {
      ZeroBitsZero(8 * lc);
      XorZero(c);
    }
  }
}
