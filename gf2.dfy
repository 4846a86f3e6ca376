/** Matrices over GF(2) as used by crc32_combine (src/crc32.cc:10-27).

    A matrix is 32 words; bit j of a vector selects word j (row j), and the
    product is the XOR of the selected rows.  Row j is therefore the image
    of the basis vector Unit(j), and the product is the linear map that the
    matrix stands for. */
module GF2 {
  import opened Words

  type Matrix = m: seq<Word> | |m| == 32 witness seq(32, _ => seq(32, _ => false))

  /** XOR of the rows m[j], lo <= j < 32, whose bit j in v is set. */
  function SelectedRows(m: Matrix, v: Word, lo: nat): Word
    requires lo <= 32
    decreases 32 - lo
  {
    if lo == 32 then Zero()
    else Xor(if v[lo] then m[lo] else Zero(), SelectedRows(m, v, lo + 1))
  }

  /** The product of the matrix m and the vector v. */
  function Apply(m: Matrix, v: Word): Word
  {
    SelectedRows(m, v, 0)
  }

  /** sq is the square of m: row n of sq is m times row n of m. */
  ghost predicate IsSquareOf(sq: Matrix, m: Matrix)
  {
    forall n {:trigger sq[n]} :: 0 <= n < 32 ==> sq[n] == Apply(m, m[n])
  }

  // ---------------------------------------------------------------------
  // The product is linear

  lemma {:induction false} SelectedRowsZero(m: Matrix, lo: nat)
    requires lo <= 32
    ensures SelectedRows(m, Zero(), lo) == Zero()
    decreases 32 - lo
  {
    if lo < 32 {
      SelectedRowsZero(m, lo + 1);
      XorZero(Zero());
    }
  }

  lemma {:induction false} SelectedRowsLinear(m: Matrix, a: Word, b: Word, lo: nat)
    requires lo <= 32
    ensures SelectedRows(m, Xor(a, b), lo) == Xor(SelectedRows(m, a, lo), SelectedRows(m, b, lo))
    decreases 32 - lo
  {
    if lo < 32 {
      SelectedRowsLinear(m, a, b, lo + 1);
    }
  }

  lemma ApplyZero(m: Matrix)
    ensures Apply(m, Zero()) == Zero()
  {
    SelectedRowsZero(m, 0);
  }

  /** m (a ^ b) == (m a) ^ (m b) */
  lemma ApplyLinear(m: Matrix, a: Word, b: Word)
    ensures Apply(m, Xor(a, b)) == Xor(Apply(m, a), Apply(m, b))
  {
    SelectedRowsLinear(m, a, b, 0);
  }

  lemma {:induction false} SelectedRowsUnit(m: Matrix, j: nat, lo: nat)
    requires j < 32 && lo <= 32
    ensures SelectedRows(m, Unit(j), lo) == if lo <= j then m[j] else Zero()
    decreases 32 - lo
  {
    if lo < 32 {
      SelectedRowsUnit(m, j, lo + 1);
      XorZero(m[j]);
      XorZero(Zero());
    }
  }

  /** Row j of a matrix is its image of the j-th basis vector. */
  lemma ApplyUnit(m: Matrix, j: nat)
    requires j < 32
    ensures Apply(m, Unit(j)) == m[j]
  {
    SelectedRowsUnit(m, j, 0);
  }

  /** Rows selected only by bits that are all clear contribute nothing. */
  lemma {:induction false} SelectedRowsNone(m: Matrix, v: Word, lo: nat)
    requires lo <= 32
    requires forall j :: lo <= j < 32 ==> !v[j]
    ensures SelectedRows(m, v, lo) == Zero()
    decreases 32 - lo
  {
    if lo < 32 {
      SelectedRowsNone(m, v, lo + 1);
      XorZero(Zero());
    }
  }

  lemma SquareStep(m: Matrix, row: Word, rowSq: Word, b: bool, r: Word, rSq: Word)
    requires rowSq == Apply(m, row) && rSq == Apply(m, r)
    ensures Xor(if b then rowSq else Zero(), rSq) == Apply(m, Xor(if b then row else Zero(), r))
  {
    ApplyLinear(m, if b then row else Zero(), r);
    ApplyZero(m);
  }

  lemma {:induction false} SelectedRowsSquare(sq: Matrix, m: Matrix, v: Word, lo: nat)
    requires IsSquareOf(sq, m) && lo <= 32
    ensures SelectedRows(sq, v, lo) == Apply(m, SelectedRows(m, v, lo))
    decreases 32 - lo
  {
    if lo == 32 {
      ApplyZero(m);
    } else {
      SelectedRowsSquare(sq, m, v, lo + 1);
      SquareStep(m, m[lo], sq[lo], v[lo], SelectedRows(m, v, lo + 1), SelectedRows(sq, v, lo + 1));
    }
  }

  /** Multiplying by the square of m is multiplying by m twice. */
  lemma SquareApply(sq: Matrix, m: Matrix, v: Word)
    requires IsSquareOf(sq, m)
    ensures Apply(sq, v) == Apply(m, Apply(m, v))
  {
    SelectedRowsSquare(sq, m, v, 0);
  }

  // ---------------------------------------------------------------------
  // The loop of MatrixTimes

  /** The bits of w from position i on, moved down to position 0: the
      value of `vec` after i rounds of `vec >>= 1`. */
  function Shifted(w: Word, i: nat): Word
  {
    seq(32, k requires 0 <= k < 32 => k + i < 32 && w[k + i])
  }

  lemma ShiftedNext(w: Word, i: nat)
    ensures Down(Shifted(w, i)) == Shifted(w, i + 1)
  {
  }

  /** After 32 shifts nothing is left. */
  lemma ShiftedEnd(w: Word)
    ensures Shifted(w, 32) == Zero()
  {
  }

  /** Once the remaining bits are all clear, no row from i on is selected. */
  lemma NothingLeft(m: Matrix, w: Word, i: nat)
    requires i <= 32 && Shifted(w, i) == Zero()
    ensures SelectedRows(m, w, i) == Zero()
  {
    forall j | i <= j < 32
      ensures !w[j]
    {
      assert Shifted(w, i)[j - i] == w[j];
    }
    SelectedRowsNone(m, w, i);
  }

  /** Row i is added exactly when bit i is set. */
  lemma AddRow(m: Matrix, w: Word, i: nat, sum: Word, sum': Word)
    requires i < 32
    requires sum' == if w[i] then Xor(sum, m[i]) else sum
    ensures Xor(sum', SelectedRows(m, w, i + 1)) == Xor(sum, SelectedRows(m, w, i))
  {
    var rest := SelectedRows(m, w, i + 1);
    if w[i] {
      XorAssoc(sum, m[i], rest);
    } else {
      XorZero(rest);
    }
  }

  /** The first n rows of s are the rows of the square of m. */
  ghost predicate RowsSquared(s: seq<Word>, m: Matrix, n: nat)
    requires n <= |s| && n <= 32
  {
    forall k {:trigger s[k]} :: 0 <= k < n ==> s[k] == Apply(m, m[k])
  }

  lemma SquaredOneMore(s: seq<Word>, s': seq<Word>, m: Matrix, n: nat)
    requires n < |s| && n < 32 && s' == s[n := Apply(m, m[n])]
    requires RowsSquared(s, m, n)
    ensures RowsSquared(s', m, n + 1)
  {
  }

  // ---------------------------------------------------------------------
  // The operations

  /** gf2_matrix_times: walks the bits of vec from the bottom, adding row i
      for every set bit i, and stops as soon as no set bit remains. */
  method MatrixTimes(mat: array<Word>, vec: Word) returns (sum: Word)
    requires mat.Length == 32
    ensures sum == Apply(mat[..], vec)
  {
    ghost var m: Matrix := mat[..];
    ShiftedEnd(vec);
    sum := Zero();
    var v := vec;
    var i := 0;
    XorZero(Apply(m, vec));
    assert Shifted(vec, 0) == vec;
    while v != Zero()
      invariant 0 <= i <= 32
      invariant v == Shifted(vec, i)
      invariant Xor(sum, SelectedRows(m, vec, i)) == Apply(m, vec)
      decreases 32 - i
    {
      ghost var before := sum;
      if v[0] {
        sum := Xor(sum, mat[i]);
      }
      AddRow(m, vec, i, before, sum);
      ShiftedNext(vec, i);
      v := Down(v);
      i := i + 1;
    }
    NothingLeft(m, vec, i);
    XorZero(sum);
  }

  /** gf2_matrix_square: row n of square becomes mat times row n of mat,
      so that square is the matrix of multiplying by mat twice. */
  method MatrixSquare(square: array<Word>, mat: array<Word>)
    requires square.Length == 32 && mat.Length == 32 && square != mat
    modifies square
    ensures IsSquareOf(square[..], mat[..])
  {
    ghost var m: Matrix := mat[..];
    for n := 0 to 32
      invariant RowsSquared(square[..], m, n)
    {
      ghost var before := square[..];
      var row := MatrixTimes(mat, mat[n]);
      square[n] := row;
      SquaredOneMore(before, square[..], m, n);
    }
  }
}
