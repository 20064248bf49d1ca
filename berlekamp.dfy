/**
 * Berlekamp factoring over GF(2) with 512-bit bitset polynomials, and the
 * search that pairs subsets of the factors into two halves below a size.
 * The worklist keeps the product of what is left to factor, what was
 * found irreducible and what was dropped equal to the input.
 */
module Factoring {
  import opened Bits
  import opened Gf2Poly

  // ---------------------------------------------------------------------
  // The table of x^(2j) mod f

  /** The powers table of `berlekamp` is x^(2j) mod f, when the bitset product is exact. */
  ghost predicate SquarePowers(xp: seq<nat>, f: nat)
    requires f != 0
  {
    forall j :: 0 <= j < |xp| ==> xp[j] == Remainder(Pow2(2 * j), f)
  }

  /**
   * `xp[0] = 1; x2 = x^2 mod f; xp[j] = (xp[j-1] * x2) mod f`, the product
   * taken on the bitset.  It is exact when 2 deg f <= width, and then
   * xp[j] == x^(2j) mod f.
   */
  method Powers(f: nat, width: nat) returns (xp: seq<nat>)
    requires 2 < width && f < Pow2(width) && Deg(f) >= 2
    ensures |xp| == Deg(f) && xp[0] == 1
    ensures forall j :: 0 <= j < |xp| ==> xp[j] < Pow2(Deg(f))
    ensures 2 * Deg(f) <= width ==> SquarePowers(xp, f)
  {
    var n := Degree(f, width);
    DegBelow(f, width);
    var x2 := SquareOfX(f, n, width);
    FirstPower(f, n);
    xp := [1];
    for j := 1 to n
      invariant |xp| == j
      invariant xp[0] == 1
      invariant forall i :: 0 <= i < j ==> xp[i] < Pow2(n)
      invariant 2 * n <= width ==> forall i :: 0 <= i < j ==> xp[i] == Remainder(Pow2(2 * i), f)
    {
      var next := PowerStep(f, n, width, xp[j - 1], x2, j);
      xp := xp + [next];
    }
  }

  /** `x2 = rem(x^2, f)`, the multiplier of the table. */
  method SquareOfX(f: nat, n: nat, width: nat) returns (x2: nat)
    requires n == Deg(f) && 2 <= n && 2 < width && f < Pow2(width)
    ensures x2 == Remainder(Pow2(2), f) && x2 < Pow2(n)
  {
    Pow2Mono(3, width);
    x2 := Rem(Pow2(2), f, width);
    Division(Pow2(2), f);
    DegBelow(x2, n);
  }

  /** The first entry: 1 is x^0 mod f and fits below x^(deg f). */
  lemma FirstPower(f: nat, n: nat)
    requires n == Deg(f) && 2 <= n
    ensures 1 < Pow2(n) && Remainder(Pow2(2 * 0), f) == 1
  {
    DegBelow(1, 1);
    DegBelow(1, n);
    RemainderOfSmall(1, f);
  }

  /** One entry of the powers table: `rem(mul(xp[j-1], x2), f)`. */
  method PowerStep(f: nat, n: nat, width: nat, prev: nat, x2: nat, ghost j: nat) returns (next: nat)
    requires n == Deg(f) && 2 <= n < width && f < Pow2(width)
    requires prev < Pow2(n) && x2 == Remainder(Pow2(2), f) && j > 0
    requires 2 * n <= width ==> prev == Remainder(Pow2(2 * (j - 1)), f)
    ensures next < Pow2(n)
    ensures 2 * n <= width ==> next == Remainder(Pow2(2 * j), f)
  {
    Pow2Mono(n, width);
    Division(Pow2(2), f);
    DegBelow(x2, n);
    var m := Mul(prev, x2, width);
    LowBitsBelow(ClMul(prev, x2), width);
    next := Rem(m, f, width);
    Division(m, f);
    DegBelow(next, n);
    if 2 * n <= width {
      MulExact(prev, x2, n, n, width);
      NextPower(f, prev, x2, 2 * (j - 1));
      assert 2 * (j - 1) + 2 == 2 * j;
    }
  }

  /** Multiplying x^k mod f by x^2 mod f gives x^(k+2) mod f. */
  lemma NextPower(f: nat, prev: nat, x2: nat, k: nat)
    requires f != 0
    requires prev == Remainder(Pow2(k), f) && x2 == Remainder(Pow2(2), f)
    ensures Remainder(ClMul(prev, x2), f) == Remainder(Pow2(k + 2), f)
  {
    RemainderOfProduct(Pow2(k), Pow2(2), f);
    ClMulPow2Pow2(k, 2);
  }

  // ---------------------------------------------------------------------
  // The matrix Q - I

  /** n rows of n bits. */
  ghost predicate Square(m: seq<nat>, n: nat) {
    |m| == n && forall r :: 0 <= r < n ==> m[r] < Pow2(n)
  }

  /**
   * `M[i]` has bit j set when coefficient i of xp[j] is, then bit i flipped:
   * the transpose of the powers table minus the identity.
   */
  method BerlekampMatrix(xp: seq<nat>) returns (m: seq<nat>)
    ensures Square(m, |xp|)
    ensures forall i, j :: 0 <= i < |xp| && 0 <= j < |xp| ==> (Bit(m[i], j) <==> Bit(xp[j], i) != (i == j))
  {
    var n := |xp|;
    m := [];
    for i := 0 to n
      invariant |m| == i
      invariant forall r :: 0 <= r < i ==> m[r] < Pow2(n)
      invariant forall r, j :: 0 <= r < i && 0 <= j < n ==> (Bit(m[r], j) <==> Bit(xp[j], r) != (r == j))
    {
      var row := MatrixRow(xp, i);
      m := m + [row];
    }
  }

  /** Row i of Q - I. */
  method MatrixRow(xp: seq<nat>, i: nat) returns (row: nat)
    requires i < |xp|
    ensures row < Pow2(|xp|)
    ensures forall j :: 0 <= j < |xp| ==> (Bit(row, j) <==> Bit(xp[j], i) != (i == j))
  {
    var n := |xp|;
    row := 0;
    for j := 0 to n
      invariant row < Pow2(n)
      invariant forall k :: 0 <= k < n ==> (Bit(row, k) <==> k < j && Bit(xp[k], i))
    {
      if Bit(xp[j], i) {
        SetBit(row, j, n);
        row := Or(row, Pow2(j));
      }
    }
    FlipBit(row, i, n);
    row := Xor(row, Pow2(i));
  }

  /** `set(j)` sets bit j and no other, inside the width. */
  lemma SetBit(x: nat, j: nat, n: nat)
    requires x < Pow2(n) && j < n
    ensures Or(x, Pow2(j)) < Pow2(n)
    ensures forall k: nat :: Bit(Or(x, Pow2(j)), k) <==> Bit(x, k) || k == j
  {
    Pow2Mono(j + 1, n);
    OrBelow(x, Pow2(j), n);
    forall k: nat
      ensures Bit(Or(x, Pow2(j)), k) <==> Bit(x, k) || k == j
    {
      BitOr(x, Pow2(j), k);
      BitPow2(j, k);
    }
  }

  /** `flip(i)` toggles bit i and no other, inside the width. */
  lemma FlipBit(x: nat, i: nat, n: nat)
    requires x < Pow2(n) && i < n
    ensures Xor(x, Pow2(i)) < Pow2(n)
    ensures forall k: nat :: Bit(Xor(x, Pow2(i)), k) <==> Bit(x, k) != (k == i)
  {
    Pow2Mono(i + 1, n);
    XorBelow(x, Pow2(i), n);
    forall k: nat
      ensures Bit(Xor(x, Pow2(i)), k) <==> Bit(x, k) != (k == i)
    {
      BitXor(x, Pow2(i), k);
      BitPow2(i, k);
    }
  }

  // ---------------------------------------------------------------------
  // The kernel of a matrix of bit rows

  /** Parity of the bits that a and v share below n: their GF(2) dot product. */
  predicate Dot(a: nat, v: nat, n: nat) {
    if n == 0 then false else Dot(a, v, n - 1) != (Bit(a, n - 1) && Bit(v, n - 1))
  }

  /** v lies in the kernel of the n-column matrix m: every row is orthogonal to v. */
  ghost predicate Annihilates(m: seq<nat>, v: nat, n: nat) {
    forall r :: 0 <= r < |m| ==> !Dot(m[r], v, n)
  }

  /** The dot product is linear in the row. */
  lemma {:induction false} DotXor(a: nat, b: nat, v: nat, n: nat)
    ensures Dot(Xor(a, b), v, n) == (Dot(a, v, n) != Dot(b, v, n))
  {
    if n > 0 {
      DotXor(a, b, v, n - 1);
      BitXor(a, b, n - 1);
    }
  }

  /** The zero row is orthogonal to everything. */
  lemma {:induction false} DotZero(v: nat, n: nat)
    ensures !Dot(0, v, n)
  {
    if n > 0 {
      DotZero(v, n - 1);
      ZeroHasNoBit(n - 1);
    }
  }

  /** When a and v share exactly the two bits i and j, or none, their dot product below n counts those below n. */
  lemma {:induction false} DotPair(a: nat, v: nat, n: nat, i: nat, j: nat, both: bool)
    requires i != j
    requires forall k :: 0 <= k < n ==> (Bit(a, k) && Bit(v, k) <==> both && (k == i || k == j))
    ensures Dot(a, v, n) == (both && ((i < n) != (j < n)))
  {
    if n > 0 {
      DotPair(a, v, n - 1, i, j, both);
    }
  }

  /** Swapping two rows changes no kernel. */
  lemma {:induction false} SwapAnnihilates(m: seq<nat>, i: nat, j: nat, n: nat)
    requires i < |m| && j < |m|
    ensures forall v :: Annihilates(m[i := m[j]][j := m[i]], v, n) <==> Annihilates(m, v, n)
  {
    var s := m[i := m[j]][j := m[i]];
    forall v
      ensures Annihilates(s, v, n) <==> Annihilates(m, v, n)
    {
      forall r | 0 <= r < |m|
        ensures Dot(s[r], v, n) == Dot(m[if r == i then j else if r == j then i else r], v, n)
      {
      }
      forall r | 0 <= r < |m|
        ensures Dot(m[r], v, n) == Dot(s[if r == i then j else if r == j then i else r], v, n)
      {
      }
    }
  }

  /** XORing the pivot row into other rows changes no kernel: the pivot row is kept, so each step can be undone. */
  lemma {:induction false} ClearAnnihilates(s: seq<nat>, e: seq<nat>, row: nat, col: nat, n: nat)
    requires |e| == |s| && row < |s| && e[row] == s[row]
    requires forall r :: 0 <= r < |s| && r != row ==> e[r] == if Bit(s[r], col) then Xor(s[r], s[row]) else s[r]
    ensures forall v :: Annihilates(e, v, n) <==> Annihilates(s, v, n)
  {
    forall v
      ensures Annihilates(e, v, n) <==> Annihilates(s, v, n)
    {
      forall r | 0 <= r < |s|
        ensures Dot(e[r], v, n) == (Dot(s[r], v, n) != (r != row && Bit(s[r], col) && Dot(s[row], v, n)))
      {
        if r != row && Bit(s[r], col) {
          DotXor(s[r], s[row], v, n);
        }
      }
    }
  }

  // ---------------------------------------------------------------------
  // Gauss-Jordan elimination with pivot records

  /**
   * Columns before col are reduced: a pivot column c has its pivot row
   * piv[c] < row, the only row with bit c; a free column (piv[c] == -1)
   * has no bit in rows from `row` on; pivot rows increase with the column;
   * later columns have no pivot yet.
   */
  ghost predicate Reduced(m: seq<nat>, piv: seq<int>, row: nat, col: nat)
    requires |piv| == |m| && row <= |m| && col <= |m|
  {
    (forall c :: 0 <= c < col ==> -1 <= piv[c] < row) &&
    (forall c :: col <= c < |m| ==> piv[c] == -1) &&
    (forall c, r :: 0 <= c < col && 0 <= piv[c] && 0 <= r < |m| ==> (Bit(m[r], c) <==> r == piv[c])) &&
    (forall c, r :: 0 <= c < col && piv[c] == -1 && row <= r < |m| ==> !Bit(m[r], c)) &&
    (forall c1, c2 :: 0 <= c1 < c2 < col && 0 <= piv[c1] && 0 <= piv[c2] ==> piv[c1] < piv[c2])
  }

  /** First row from `row` on with bit col set, or -1. */
  method FindPivot(m: seq<nat>, row: nat, col: nat) returns (sel: int)
    requires row <= |m|
    ensures sel == -1 || row <= sel < |m|
    ensures sel == -1 ==> forall r :: row <= r < |m| ==> !Bit(m[r], col)
    ensures sel != -1 ==> Bit(m[sel], col) && forall r :: row <= r < sel ==> !Bit(m[r], col)
  {
    for r := row to |m|
      invariant forall k :: row <= k < r ==> !Bit(m[k], col)
    {
      if Bit(m[r], col) {
        return r;
      }
    }
    return -1;
  }

  /** `M[r] ^= M[row]` for every other row r with bit col set. */
  method ClearColumn(m: seq<nat>, row: nat, col: nat, n: nat) returns (m': seq<nat>)
    requires Square(m, n) && row < n
    ensures Square(m', n) && m'[row] == m[row]
    ensures forall r :: 0 <= r < n && r != row ==> m'[r] == if Bit(m[r], col) then Xor(m[r], m[row]) else m[r]
  {
    m' := m;
    for r := 0 to n
      invariant Square(m', n) && m'[row] == m[row]
      invariant forall k :: 0 <= k < n && k != row ==> m'[k] == if k < r && Bit(m[k], col) then Xor(m[k], m[row]) else m[k]
    {
      if r != row && Bit(m'[r], col) {
        XorBelow(m'[r], m'[row], n);
        m' := m'[r := Xor(m'[r], m'[row])];
      }
    }
  }

  /** Swapping two rows at or after `row` keeps the reduced columns reduced. */
  lemma SwapKeepsReduced(m: seq<nat>, piv: seq<int>, row: nat, col: nat, sel: nat)
    requires |piv| == |m| && row <= sel < |m| && col <= |m| && Reduced(m, piv, row, col)
    ensures Reduced(m[row := m[sel]][sel := m[row]], piv, row, col)
  {
  }

  /** A column with no bit from `row` on stays free. */
  lemma SkipKeepsReduced(m: seq<nat>, piv: seq<int>, row: nat, col: nat)
    requires |piv| == |m| && row <= |m| && col < |m| && Reduced(m, piv, row, col)
    requires forall r :: row <= r < |m| ==> !Bit(m[r], col)
    ensures Reduced(m, piv, row, col + 1)
  {
  }

  /** Clearing column col with pivot row `row` reduces one more column. */
  lemma ClearKeepsReduced(s: seq<nat>, e: seq<nat>, piv: seq<int>, row: nat, col: nat)
    requires |piv| == |s| == |e| && row < |s| && col < |s| && Reduced(s, piv, row, col)
    requires Bit(s[row], col)
    requires e[row] == s[row]
    requires forall r :: 0 <= r < |s| && r != row ==> e[r] == if Bit(s[r], col) then Xor(s[r], s[row]) else s[r]
    ensures Reduced(e, piv[col := row], row + 1, col + 1)
  {
    var piv' := piv[col := row];
    forall c, r | 0 <= c < col && 0 <= r < |s|
      ensures Bit(e[r], c) == Bit(s[r], c)
    {
      assert !Bit(s[row], c) by {
        if piv[c] >= 0 {
          assert Bit(s[row], c) <==> row == piv[c];
        } else {
          assert row <= row < |s|;
        }
      }
      BitXor(s[r], s[row], c);
    }
    forall r | 0 <= r < |s|
      ensures Bit(e[r], col) <==> r == row
    {
      BitXor(s[r], s[row], col);
    }
  }

  /**
   * The end state of the elimination: reduced in every column, every row
   * above the rank the pivot row of some column, the rest zero.
   */
  ghost predicate Echelon(m: seq<nat>, piv: seq<int>, rank: nat)
    requires |piv| == |m| && rank <= |m|
  {
    Reduced(m, piv, rank, |m|) &&
    (forall r :: 0 <= r < rank ==> r in piv) &&
    (forall r :: rank <= r < |m| ==> m[r] == 0)
  }

  /**
   * The elimination of `berlekamp`: for each column, find a pivot row from
   * `row` on, swap it up, clear the column in every other row and record
   * piv[col] = row; a column without a pivot stays -1.  Rows from the rank
   * on end zero, and the result has the same kernel as the input.
   */
  method Eliminate(m0: seq<nat>, n: nat) returns (m: seq<nat>, piv: seq<int>, rank: nat)
    requires Square(m0, n)
    ensures Square(m, n) && |piv| == n && rank <= n
    ensures Echelon(m, piv, rank)
    ensures forall v :: Annihilates(m, v, n) <==> Annihilates(m0, v, n)
  {
    m := m0;
    piv := seq(n, _ => -1);
    var row: nat := 0;
    for col := 0 to n
      invariant Square(m, n) && |piv| == n && row <= col
      invariant Reduced(m, piv, row, col)
      invariant forall r :: 0 <= r < row ==> r in piv
      invariant forall v :: Annihilates(m, v, n) <==> Annihilates(m0, v, n)
    {
      var sel := FindPivot(m, row, col);
      if sel == -1 {
        SkipKeepsReduced(m, piv, row, col);
        continue;
      }
      SwapKeepsReduced(m, piv, row, col, sel);
      SwapAnnihilates(m, row, sel, n);
      m := m[row := m[sel]][sel := m[row]];
      var cleared := ClearColumn(m, row, col, n);
      ClearKeepsReduced(m, cleared, piv, row, col);
      ClearAnnihilates(m, cleared, row, col, n);
      m := cleared;
      PivotRowsStep(piv, piv[col := row], row, col);
      piv := piv[col := row];
      row := row + 1;
    }
    rank := row;
    forall r | rank <= r < n
      ensures m[r] == 0
    {
      ZeroRow(m, piv, rank, r);
    }
  }

  /** Recording row as the pivot of the pivot-less column col keeps every row up to it a pivot row. */
  lemma {:induction false} PivotRowsStep(piv: seq<int>, piv': seq<int>, row: nat, col: nat)
    requires col < |piv| && piv[col] == -1 && piv' == piv[col := row]
    requires forall r :: 0 <= r < row ==> r in piv
    ensures forall r :: 0 <= r <= row ==> r in piv'
  {
    forall r | 0 <= r <= row
      ensures r in piv'
    {
      if r == row {
        assert piv'[col] == r;
      } else {
        assert r in piv;
        var c :| 0 <= c < |piv| && piv[c] == r;
        assert piv'[c] == r;
      }
    }
  }

  /** A row past the rank has no bit in any column, so it is zero. */
  lemma ZeroRow(m: seq<nat>, piv: seq<int>, rank: nat, r: nat)
    requires Square(m, |m|) && |piv| == |m| && rank <= r < |m| && Reduced(m, piv, rank, |m|)
    ensures m[r] == 0
  {
    forall k: nat | 0 <= k
      ensures !Bit(m[r], k)
    {
      if k >= |m| {
        BitAbove(m[r], |m|, k);
      } else if piv[k] >= 0 {
        assert Bit(m[r], k) <==> r == piv[k];
      } else {
        assert rank <= r < |m|;
      }
    }
    BelowFromBits(m[r], 0);
  }

  // ---------------------------------------------------------------------
  // The kernel basis

  /**
   * The kernel vector of free column col: bit col, and bit c for every pivot
   * column c whose pivot row has bit col.
   */
  ghost predicate KernelVector(m: seq<nat>, piv: seq<int>, col: nat, v: nat)
    requires |piv| == |m|
  {
    forall k: nat :: Bit(v, k) <==> k == col || (k < |m| && 0 <= piv[k] < |m| && Bit(m[piv[k]], col))
  }

  /** `Poly v; v.set(col); ... v.flip(c)` for the pivot columns c that col depends on. */
  method KernelVectorOf(m: seq<nat>, piv: seq<int>, col: nat, n: nat) returns (v: nat)
    requires |m| == n && |piv| == n && col < n && piv[col] == -1
    ensures v < Pow2(n) && KernelVector(m, piv, col, v)
  {
    v := 0;
    SetBit(0, col, n);
    v := Or(0, Pow2(col));
    for c := 0 to n
      invariant v < Pow2(n)
      invariant forall k: nat :: Bit(v, k) <==> k == col || (k < c && 0 <= piv[k] < n && Bit(m[piv[k]], col))
    {
      if 0 <= piv[c] < n && Bit(m[piv[c]], col) {
        FlipBit(v, c, n);
        v := Xor(v, Pow2(c));
      }
    }
    forall k: nat | k >= n
      ensures !Bit(v, k)
    {
      BitAbove(v, n, k);
    }
  }

  /**
   * The vector of a free column lies in the kernel of the echelon matrix:
   * pivot row piv[c] shares with it at most bit c and bit col, and has both
   * exactly when it has bit col; the rows past the rank are zero.
   */
  lemma {:induction false} KernelVectorAnnihilates(m: seq<nat>, piv: seq<int>, rank: nat, col: nat, v: nat)
    requires |piv| == |m| && rank <= |m| && col < |m| && piv[col] == -1
    requires Echelon(m, piv, rank) && KernelVector(m, piv, col, v)
    ensures Annihilates(m, v, |m|)
  {
    var n := |m|;
    forall r | 0 <= r < n
      ensures !Dot(m[r], v, n)
    {
      if r >= rank {
        DotZero(v, n);
      } else {
        assert r in piv;
        var c :| 0 <= c < n && piv[c] == r;
        forall k | 0 <= k < n
          ensures Bit(m[r], k) && Bit(v, k) <==> Bit(m[r], col) && (k == c || k == col)
        {
          if piv[k] >= 0 {
            assert Bit(m[r], k) <==> r == piv[k];
            assert piv[k] == piv[c] ==> k == c;
          }
        }
        DotPair(m[r], v, n, c, col, Bit(m[r], col));
      }
    }
  }

  /** `ker`: one kernel vector per free column, in column order; they form a basis of the kernel of the echelon matrix. */
  method KernelBasis(m: seq<nat>, piv: seq<int>, n: nat, ghost rank: nat) returns (ker: seq<nat>, ghost cols: seq<nat>)
    requires |m| == n && |piv| == n && rank <= n && Echelon(m, piv, rank)
    ensures FreeVectors(m, piv, ker, cols)
    ensures forall c :: 0 <= c < n && piv[c] == -1 ==> c in cols
    ensures KernelBasisOf(m, n, ker)
  {
    ker, cols := [], [];
    for col := 0 to n
      invariant FreeVectors(m, piv, ker, cols)
      invariant forall i :: 0 <= i < |cols| ==> cols[i] < col
      invariant forall c :: 0 <= c < col && piv[c] == -1 ==> c in cols
      invariant forall i :: 0 <= i < |ker| ==> ker[i] < Pow2(n) && Annihilates(m, ker[i], n)
    {
      if piv[col] == -1 {
        var v := FreeColumnVector(m, piv, col, n, rank);
        FreeVectorsSnoc(m, piv, ker, cols, v, col);
        ker, cols := ker + [v], cols + [col];
      }
    }
    FreeVectorsBasis(m, piv, rank, ker, cols);
  }

  /** Appending the vector of a later free column keeps the list of free vectors. */
  lemma {:induction false} FreeVectorsSnoc(m: seq<nat>, piv: seq<int>, ker: seq<nat>, cols: seq<nat>, v: nat, col: nat)
    requires |piv| == |m| && FreeVectors(m, piv, ker, cols) && col < |m| && piv[col] == -1
    requires KernelVector(m, piv, col, v) && forall i :: 0 <= i < |cols| ==> cols[i] < col
    ensures FreeVectors(m, piv, ker + [v], cols + [col])
  {
  }

  /** The vector of one free column, with its place in the kernel. */
  method FreeColumnVector(m: seq<nat>, piv: seq<int>, col: nat, n: nat, ghost rank: nat) returns (v: nat)
    requires |m| == n && |piv| == n && col < n && piv[col] == -1 && rank <= n && Echelon(m, piv, rank)
    ensures v < Pow2(n) && KernelVector(m, piv, col, v) && Annihilates(m, v, n)
  {
    v := KernelVectorOf(m, piv, col, n);
    KernelVectorAnnihilates(m, piv, rank, col, v);
  }

  // ---------------------------------------------------------------------
  // Splitting f with a combination of kernel vectors

  /** XOR of the kernel vectors ker[i], i < count, whose bit i is set in mask. */
  function Combination(ker: seq<nat>, mask: nat, count: nat): nat
    requires count <= |ker|
  {
    if count == 0 then 0
    else Xor(Combination(ker, mask, count - 1), if Bit(mask, count - 1) then ker[count - 1] else 0)
  }

  /** A combination of vectors below 2^w is below 2^w. */
  lemma {:induction false} CombinationBelow(ker: seq<nat>, mask: nat, count: nat, w: nat)
    requires count <= |ker| && forall i :: 0 <= i < |ker| ==> ker[i] < Pow2(w)
    ensures Combination(ker, mask, count) < Pow2(w)
  {
    if count > 0 {
      CombinationBelow(ker, mask, count - 1, w);
      XorBelow(Combination(ker, mask, count - 1), if Bit(mask, count - 1) then ker[count - 1] else 0, w);
    }
  }

  // ---------------------------------------------------------------------
  // The kernel vectors form a basis

  /**
   * ker is a basis of the kernel of m: its vectors lie in the kernel, no
   * nonzero combination of them vanishes, and every kernel vector below
   * 2^n is one of their combinations.  |ker| is then the dimension of the
   * kernel.
   */
  ghost predicate KernelBasisOf(m: seq<nat>, n: nat, ker: seq<nat>) {
    (forall i :: 0 <= i < |ker| ==> ker[i] < Pow2(n) && Annihilates(m, ker[i], n)) &&
    (forall mask: nat :: 1 <= mask < Pow2(|ker|) ==> Combination(ker, mask, |ker|) != 0) &&
    (forall v: nat :: v < Pow2(n) && Annihilates(m, v, n) ==>
       exists mask: nat :: mask < Pow2(|ker|) && v == Combination(ker, mask, |ker|))
  }

  /** Two matrices with the same kernel have the same kernel bases. */
  lemma {:induction false} BasisOfSameKernel(a: seq<nat>, b: seq<nat>, n: nat, ker: seq<nat>)
    requires forall v :: Annihilates(a, v, n) <==> Annihilates(b, v, n)
    requires KernelBasisOf(a, n, ker)
    ensures KernelBasisOf(b, n, ker)
  {
    forall v: nat | v < Pow2(n) && Annihilates(b, v, n)
      ensures exists mask: nat :: mask < Pow2(|ker|) && v == Combination(ker, mask, |ker|)
    {
      assert Annihilates(a, v, n);
    }
  }

  /**
   * The vectors of the free columns, what `KernelBasis` builds: ker[i] is
   * the kernel vector of free column cols[i], the columns ascending.
   */
  ghost predicate FreeVectors(m: seq<nat>, piv: seq<int>, ker: seq<nat>, cols: seq<nat>)
    requires |piv| == |m|
  {
    |ker| == |cols| &&
    (forall i :: 0 <= i < |ker| ==> cols[i] < |m| && piv[cols[i]] == -1 && KernelVector(m, piv, cols[i], ker[i])) &&
    (forall i, j :: 0 <= i < j < |cols| ==> cols[i] < cols[j])
  }

  /** The mask that selects ker[i] exactly when v has bit cols[i]. */
  function FreeMask(v: nat, cols: seq<nat>, count: nat): nat
    requires count <= |cols|
  {
    if count == 0 then 0
    else Xor(FreeMask(v, cols, count - 1), if Bit(v, cols[count - 1]) then Pow2(count - 1) else 0)
  }

  lemma {:induction false} FreeMaskBits(v: nat, cols: seq<nat>, count: nat)
    requires count <= |cols|
    ensures FreeMask(v, cols, count) < Pow2(count)
    ensures forall i: nat :: Bit(FreeMask(v, cols, count), i) <==> i < count && Bit(v, cols[i])
  {
    if count > 0 {
      var prev := FreeMask(v, cols, count - 1);
      var add := if Bit(v, cols[count - 1]) then Pow2(count - 1) else 0;
      FreeMaskBits(v, cols, count - 1);
      XorBelow(prev, add, count);
      forall i: nat
        ensures Bit(Xor(prev, add), i) <==> i < count && Bit(v, cols[i])
      {
        BitXor(prev, add, i);
        BitPow2(count - 1, i);
        ZeroHasNoBit(i);
      }
    }
  }

  /** The dot product is symmetric. */
  lemma {:induction false} DotComm(a: nat, v: nat, n: nat)
    ensures Dot(a, v, n) == Dot(v, a, n)
  {
    if n > 0 {
      DotComm(a, v, n - 1);
    }
  }

  /** A combination has bit cols[j] exactly when the mask selects ker[j]: only ker[j] has that free column. */
  lemma {:induction false} CombinationAtFree(m: seq<nat>, piv: seq<int>, ker: seq<nat>, cols: seq<nat>, mask: nat, count: nat, j: nat)
    requires |piv| == |m| && FreeVectors(m, piv, ker, cols) && count <= |ker| && j < |cols|
    ensures Bit(Combination(ker, mask, count), cols[j]) <==> j < count && Bit(mask, j)
  {
    if count > 0 {
      CombinationAtFree(m, piv, ker, cols, mask, count - 1, j);
      var sel := if Bit(mask, count - 1) then ker[count - 1] else 0;
      BitXor(Combination(ker, mask, count - 1), sel, cols[j]);
      ZeroHasNoBit(cols[j]);
      assert KernelVector(m, piv, cols[count - 1], ker[count - 1]);
      assert cols[j] == cols[count - 1] <==> j == count - 1;
    }
  }

  /** Combinations of kernel vectors stay in the kernel. */
  lemma {:induction false} CombinationAnnihilates(m: seq<nat>, n: nat, ker: seq<nat>, mask: nat, count: nat)
    requires count <= |ker| && forall i :: 0 <= i < |ker| ==> Annihilates(m, ker[i], n)
    ensures Annihilates(m, Combination(ker, mask, count), n)
  {
    if count == 0 {
      forall r | 0 <= r < |m|
        ensures !Dot(m[r], 0, n)
      {
        DotZero(m[r], n);
        DotComm(m[r], 0, n);
      }
    } else {
      CombinationAnnihilates(m, n, ker, mask, count - 1);
      var prev := Combination(ker, mask, count - 1);
      var sel := if Bit(mask, count - 1) then ker[count - 1] else 0;
      forall r | 0 <= r < |m|
        ensures !Dot(m[r], Xor(prev, sel), n)
      {
        DotXor(prev, sel, m[r], n);
        DotComm(m[r], Xor(prev, sel), n);
        DotComm(m[r], prev, n);
        DotComm(m[r], sel, n);
        DotZero(m[r], n);
        DotComm(m[r], 0, n);
      }
    }
  }

  /** A nonzero mask below 2^|ker| gives a nonzero combination. */
  lemma {:induction false} CombinationsIndependent(m: seq<nat>, piv: seq<int>, ker: seq<nat>, cols: seq<nat>, mask: nat)
    requires |piv| == |m| && FreeVectors(m, piv, ker, cols) && 1 <= mask < Pow2(|ker|)
    ensures Combination(ker, mask, |ker|) != 0
  {
    if forall j: nat :: j < |ker| ==> !Bit(mask, j) {
      forall k: nat
        ensures Bit(mask, k) == Bit(0, k)
      {
        ZeroHasNoBit(k);
        if k >= |ker| {
          BitAbove(mask, |ker|, k);
        }
      }
      BitExt(mask, 0);
    }
    var j: nat :| j < |ker| && Bit(mask, j);
    CombinationAtFree(m, piv, ker, cols, mask, |ker|, j);
    NonZeroFromBit(Combination(ker, mask, |ker|), cols[j]);
  }

  /**
   * A kernel vector of the echelon matrix without bits at the free columns
   * has no bit at pivot column k either: pivot row piv[k] shares only bit k
   * with it.
   */
  lemma {:induction false} PivotBitClear(m: seq<nat>, piv: seq<int>, rank: nat, cols: seq<nat>, w: nat, k: nat)
    requires |piv| == |m| && rank <= |m| && Echelon(m, piv, rank) && Annihilates(m, w, |m|)
    requires forall c :: 0 <= c < |m| && piv[c] == -1 ==> c in cols
    requires forall c :: c in cols ==> !Bit(w, c)
    requires k < |m| && piv[k] >= 0
    ensures !Bit(w, k)
  {
    var n := |m|;
    var r := piv[k];
    forall c | 0 <= c < n
      ensures Bit(m[r], c) && Bit(w, c) <==> Bit(w, k) && c == k
    {
      if piv[c] >= 0 {
        assert Bit(m[r], c) <==> r == piv[c];
        assert piv[c] == piv[k] ==> c == k;
      } else {
        assert c in cols;
      }
    }
    DotPair(m[r], w, n, k, n, Bit(w, k));
  }

  /** Every kernel vector of the echelon matrix is the combination its free bits select. */
  lemma {:induction false} KernelSpanned(m: seq<nat>, piv: seq<int>, rank: nat, ker: seq<nat>, cols: seq<nat>, v: nat)
    requires |piv| == |m| && rank <= |m| && Echelon(m, piv, rank) && FreeVectors(m, piv, ker, cols)
    requires forall c :: 0 <= c < |m| && piv[c] == -1 ==> c in cols
    requires forall i :: 0 <= i < |ker| ==> ker[i] < Pow2(|m|) && Annihilates(m, ker[i], |m|)
    requires v < Pow2(|m|) && Annihilates(m, v, |m|)
    ensures FreeMask(v, cols, |cols|) < Pow2(|ker|) && v == Combination(ker, FreeMask(v, cols, |cols|), |ker|)
  {
    var n := |m|;
    var mask := FreeMask(v, cols, |cols|);
    FreeMaskBits(v, cols, |cols|);
    var g := Combination(ker, mask, |ker|);
    CombinationBelow(ker, mask, |ker|, n);
    CombinationAnnihilates(m, n, ker, mask, |ker|);
    var w := Xor(v, g);
    XorBelow(v, g, n);
    forall r | 0 <= r < n
      ensures !Dot(m[r], w, n)
    {
      DotXor(v, g, m[r], n);
      DotComm(m[r], w, n);
      DotComm(m[r], v, n);
      DotComm(m[r], g, n);
    }
    forall c | c in cols
      ensures !Bit(w, c)
    {
      var j :| 0 <= j < |cols| && cols[j] == c;
      BitXor(v, g, c);
      CombinationAtFree(m, piv, ker, cols, mask, |ker|, j);
    }
    forall k: nat
      ensures Bit(w, k) == Bit(0, k)
    {
      ZeroHasNoBit(k);
      if k >= n {
        BitAbove(w, n, k);
      } else if piv[k] == -1 {
        assert k in cols;
      } else {
        PivotBitClear(m, piv, rank, cols, w, k);
      }
    }
    BitExt(w, 0);
    XorZeroIff(v, g);
  }

  /** The vectors of the free columns of an echelon matrix form a basis of its kernel. */
  lemma {:induction false} FreeVectorsBasis(m: seq<nat>, piv: seq<int>, rank: nat, ker: seq<nat>, cols: seq<nat>)
    requires |piv| == |m| && rank <= |m| && Echelon(m, piv, rank) && FreeVectors(m, piv, ker, cols)
    requires forall c :: 0 <= c < |m| && piv[c] == -1 ==> c in cols
    requires forall i :: 0 <= i < |ker| ==> ker[i] < Pow2(|m|) && Annihilates(m, ker[i], |m|)
    ensures KernelBasisOf(m, |m|, ker)
  {
    forall mask: nat | 1 <= mask < Pow2(|ker|)
      ensures Combination(ker, mask, |ker|) != 0
    {
      CombinationsIndependent(m, piv, ker, cols, mask);
    }
    forall v: nat | v < Pow2(|m|) && Annihilates(m, v, |m|)
      ensures exists mask: nat :: mask < Pow2(|ker|) && v == Combination(ker, mask, |ker|)
    {
      KernelSpanned(m, piv, rank, ker, cols, v);
    }
  }

  /** `g ^= ker[i]` for each i with `mask & (1u << i)`. */
  method Combine(ker: seq<nat>, mask: nat) returns (g: nat)
    ensures g == Combination(ker, mask, |ker|)
  {
    g := 0;
    for i := 0 to |ker|
      invariant g == Combination(ker, mask, i)
    {
      AndPow2(mask, i);
      if And(mask, Pow2(i)) != 0 {
        g := Xor(g, ker[i]);
      } else {
        XorZero(g);
      }
    }
  }

  /** g gives no split of f: g is 1 or 0, or gcd(f, g) is 0 or f. */
  ghost predicate NoSplit(f: nat, g: nat) {
    IsConst(g, true) || g == 0 || GcdOf(f, g) == 0 || GcdOf(f, g) == f
  }

  /** A nonzero gcd with f divides f exactly: gcd * (f / gcd) == f. */
  lemma GcdSplits(f: nat, g: nat)
    requires GcdOf(f, g) != 0
    ensures ClMul(GcdOf(f, g), Quotient(f, GcdOf(f, g))) == f
  {
    GcdIsGreatest(f, g);
    DividesExactly(GcdOf(f, g), f);
  }

  /**
   * The mask loop of `berlekamp`: try every nonzero combination of the
   * kernel vectors in mask order, skipping 1 and 0, until gcd(f, g) is a
   * proper nonzero divisor d; then f == d * (f / d).
   */
  method TrySplit(f: nat, ker: seq<nat>, width: nat) returns (split: bool, d: nat, e: nat, ghost mask: nat)
    requires f < Pow2(width) && forall i :: 0 <= i < |ker| ==> ker[i] < Pow2(width)
    ensures split ==> 1 <= mask < Pow2(|ker|) && !NoSplit(f, Combination(ker, mask, |ker|))
    ensures split ==> d == GcdOf(f, Combination(ker, mask, |ker|)) && d != 0 && d != f && e == Quotient(f, d)
    ensures split ==> ClMul(d, e) == f && d < Pow2(width) && e < Pow2(width)
    ensures split ==> forall m :: 1 <= m < mask ==> NoSplit(f, Combination(ker, m, |ker|))
    ensures !split ==> forall m :: 1 <= m < Pow2(|ker|) ==> NoSplit(f, Combination(ker, m, |ker|))
  {
    split, d, e, mask := false, 0, 0, 0;
    var next: nat := 1;
    while next < Pow2(|ker|) && !split
      invariant 1 <= next
      invariant !split ==> forall m :: 1 <= m < next ==> NoSplit(f, Combination(ker, m, |ker|))
      invariant split ==> 1 <= mask < Pow2(|ker|) && !NoSplit(f, Combination(ker, mask, |ker|))
      invariant split ==> d == GcdOf(f, Combination(ker, mask, |ker|)) && d != 0 && d != f && e == Quotient(f, d)
      invariant split ==> ClMul(d, e) == f && d < Pow2(width) && e < Pow2(width)
      invariant split ==> forall m :: 1 <= m < mask ==> NoSplit(f, Combination(ker, m, |ker|))
      decreases Pow2(|ker|) - next
    {
      var found, gcd, q := TryMask(f, ker, width, next);
      if found {
        split, d, e, mask := true, gcd, q, next;
      }
      next := next + 1;
    }
  }

  /** One pass of the mask loop: combine, skip 1 and 0, then test the gcd. */
  method TryMask(f: nat, ker: seq<nat>, width: nat, mask: nat) returns (split: bool, d: nat, e: nat)
    requires f < Pow2(width) && forall i :: 0 <= i < |ker| ==> ker[i] < Pow2(width)
    ensures split <==> !NoSplit(f, Combination(ker, mask, |ker|))
    ensures split ==> d == GcdOf(f, Combination(ker, mask, |ker|)) && d != 0 && d != f && e == Quotient(f, d)
    ensures split ==> ClMul(d, e) == f && d < Pow2(width) && e < Pow2(width)
  {
    split, d, e := false, 0, 0;
    var g := Combine(ker, mask);
    CombinationBelow(ker, mask, |ker|, width);
    if !(IsConst(g, true) || g == 0) {
      var gcd := Gcd(f, g, width);
      if gcd != 0 && gcd != f {
        var q := Quo(f, gcd, width);
        GcdSplits(f, g);
        split, d, e := true, gcd, q;
      }
    }
  }

  // ---------------------------------------------------------------------
  // The worklist

  /** Product of a list of polynomials, 1 for the empty list. */
  function ProductOf(fs: seq<nat>): nat {
    if |fs| == 0 then 1 else ClMul(fs[0], ProductOf(fs[1..]))
  }

  lemma {:induction false} ProductAppend(fs: seq<nat>, f: nat)
    ensures ProductOf(fs + [f]) == ClMul(ProductOf(fs), f)
    decreases |fs|
  {
    if |fs| == 0 {
      ClMulOne(f);
      assert ProductOf([f]) == ClMul(f, ProductOf([]));
    } else {
      assert (fs + [f])[1..] == fs[1..] + [f];
      ProductAppend(fs[1..], f);
      ClMulAssoc(fs[0], ProductOf(fs[1..]), f);
    }
  }

  /** What one pass of the worklist does with the polynomial it takes. */
  datatype Outcome = Irreducible | Split(d: nat, e: nat) | Dropped

  /**
   * One pass on f: degree at most 1, or a kernel of Q - I of dimension at
   * most one, makes f irreducible; otherwise the first mask whose
   * combination of the kernel basis has a proper gcd with f gives
   * f == d * e; when no mask splits, f is neither kept nor split.  The
   * powers table, the matrix Q - I, its kernel basis and the mask are
   * returned as ghost outputs.
   */
  method FactorOne(f: nat, width: nat) returns (outcome: Outcome, ghost xp: seq<nat>, ghost q: seq<nat>, ghost ker: seq<nat>, ghost mask: nat)
    requires 2 < width && f < Pow2(width)
    ensures Deg(f) >= 2 ==> |xp| == Deg(f) && (2 * Deg(f) <= width ==> SquarePowers(xp, f))
    ensures Deg(f) >= 2 ==> Square(q, |xp|) && forall i, j :: 0 <= i < |xp| && 0 <= j < |xp| ==> (Bit(q[i], j) <==> Bit(xp[j], i) != (i == j))
    ensures Deg(f) >= 2 ==> KernelBasisOf(q, |xp|, ker)
    ensures outcome.Irreducible? <==> Deg(f) <= 1 || |ker| <= 1
    ensures outcome.Dropped? ==> forall m :: 1 <= m < Pow2(|ker|) ==> NoSplit(f, Combination(ker, m, |ker|))
    ensures outcome.Split? ==> 1 <= mask < Pow2(|ker|) && outcome.d == GcdOf(f, Combination(ker, mask, |ker|))
    ensures outcome.Split? ==> forall m :: 1 <= m < mask ==> NoSplit(f, Combination(ker, m, |ker|))
    ensures outcome.Split? ==> ClMul(outcome.d, outcome.e) == f && outcome.d != f && outcome.d != 0 && outcome.e == Quotient(f, outcome.d)
    ensures outcome.Split? ==> outcome.d < Pow2(width) && outcome.e < Pow2(width)
  {
    xp, q, ker, mask := [], [], [], 0;
    var n := Degree(f, width);
    if n <= 1 {
      return Irreducible, xp, q, ker, mask;
    }
    DegBelow(f, width);
    var powers := Powers(f, width);
    var matrix := BerlekampMatrix(powers);
    xp, q := powers, matrix;
    var reduced, piv, rank := Eliminate(matrix, n);
    var basis, cols := KernelBasis(reduced, piv, n, rank);
    ker := basis;
    BasisOfSameKernel(reduced, q, n, ker);
    if |basis| <= 1 {
      return Irreducible, xp, q, ker, mask;
    }
    Pow2Mono(n, width);
    var split, d, e;
    split, d, e, mask := TrySplit(f, basis, width);
    if split {
      outcome := Split(d, e);
    } else {
      outcome := Dropped;
    }
  }

  /** The worklist invariant: (to factor) * (irreducible) * (dropped) == P. */
  function Accounted(toFactor: seq<nat>, irreducible: seq<nat>, dropped: seq<nat>): nat {
    ClMul(ClMul(ProductOf(toFactor), ProductOf(irreducible)), ProductOf(dropped))
  }

  /** Moving the last entry to `irreducible` keeps the product. */
  lemma MoveToIrreducible(rest: seq<nat>, f: nat, irr: seq<nat>, dr: seq<nat>)
    ensures Accounted(rest, irr + [f], dr) == Accounted(rest + [f], irr, dr)
  {
    ProductAppend(rest, f);
    ProductAppend(irr, f);
    ClMulAssoc(ProductOf(rest), f, ProductOf(irr));
    ClMulComm(f, ProductOf(irr));
    ClMulAssoc(ProductOf(rest), ProductOf(irr), f);
    ClMulAssoc(ProductOf(rest), ProductOf(irr), f);
  }

  /** Moving the last entry to `dropped` keeps the product. */
  lemma MoveToDropped(rest: seq<nat>, f: nat, irr: seq<nat>, dr: seq<nat>)
    ensures Accounted(rest, irr, dr + [f]) == Accounted(rest + [f], irr, dr)
  {
    var r, i, d := ProductOf(rest), ProductOf(irr), ProductOf(dr);
    ProductAppend(rest, f);
    ProductAppend(dr, f);
    MoveToIrreducible(rest, f, irr, dr);
    ProductAppend(irr, f);
    // (r f) i d == r (i f) d == ((r i) f) d == (r i) (f d) == (r i) (d f)
    ClMulAssoc(r, i, f);
    ClMulAssoc(ClMul(r, i), f, d);
    ClMulComm(f, d);
  }

  /** Replacing the last entry f by d and e with d * e == f keeps the product. */
  lemma ReplaceBySplit(rest: seq<nat>, f: nat, d: nat, e: nat, irr: seq<nat>, dr: seq<nat>)
    requires ClMul(d, e) == f
    ensures Accounted(rest + [d, e], irr, dr) == Accounted(rest + [f], irr, dr)
  {
    ProductAppend(rest, f);
    ProductAppend(rest, d);
    assert rest + [d, e] == (rest + [d]) + [e];
    ProductAppend(rest + [d], e);
    ClMulAssoc(ProductOf(rest), d, e);
  }

  /**
   * `berlekamp`: take the last polynomial off the worklist and keep it as
   * irreducible, replace it by its two factors, or drop it.  The source
   * loops until the worklist is empty; the model stops after `fuel`
   * passes and reports whether the worklist ran out.
   */
  method Berlekamp(p: nat, width: nat, fuel: nat) returns (irreducible: seq<nat>, finished: bool, ghost dropped: seq<nat>)
    requires 2 < width && p < Pow2(width)
    ensures forall i :: 0 <= i < |irreducible| ==> irreducible[i] < Pow2(width)
    ensures finished ==> ClMul(ProductOf(irreducible), ProductOf(dropped)) == p
    ensures finished && dropped == [] ==> ProductOf(irreducible) == p
  {
    var toFactor: seq<nat> := [p];
    irreducible, dropped := [], [];
    ClMulOne(p);
    assert ProductOf([p]) == ClMul(p, ProductOf([]));
    var passes: nat := 0;
    while toFactor != [] && passes < fuel
      invariant Accounted(toFactor, irreducible, dropped) == p
      invariant forall i :: 0 <= i < |toFactor| ==> toFactor[i] < Pow2(width)
      invariant forall i :: 0 <= i < |irreducible| ==> irreducible[i] < Pow2(width)
      decreases fuel - passes
    {
      var f := toFactor[|toFactor| - 1];
      var rest := toFactor[..|toFactor| - 1];
      assert toFactor == rest + [f];
      var outcome, xp, q, ker, mask := FactorOne(f, width);
      match outcome {
        case Irreducible =>
          MoveToIrreducible(rest, f, irreducible, dropped);
          irreducible := irreducible + [f];
          toFactor := rest;
        case Split(d, e) =>
          ReplaceBySplit(rest, f, d, e, irreducible, dropped);
          toFactor := rest + [d, e];
        case Dropped =>
          MoveToDropped(rest, f, irreducible, dropped);
          dropped := dropped + [f];
          toFactor := rest;
      }
      passes := passes + 1;
    }
    finished := toFactor == [];
    if finished {
      ClMulOne(ClMul(ProductOf(irreducible), ProductOf(dropped)));
      ClMulOne(ProductOf(irreducible));
    }
  }

  // ---------------------------------------------------------------------
  // Pairing the factors: `dfs`

  /**
   * Running products at the leaves of `dfs` from position idx: a branch
   * stops as soon as its product reaches degree `size`; otherwise each
   * factor is skipped or multiplied in on the bitset.
   */
  function Leaves(fs: seq<nat>, idx: nat, size: nat, cur: nat, width: nat): set<nat>
    requires idx <= |fs|
    decreases |fs| - idx
  {
    if Deg(cur) >= size then {}
    else if idx == |fs| then {cur}
    else Leaves(fs, idx + 1, size, cur, width) + Leaves(fs, idx + 1, size, LowBits(ClMul(cur, fs[idx]), width), width)
  }

  /** The pairs `dfs` records for its leaves: (c, P / c) when P / c also has degree below size. */
  function Emitted(p: nat, size: nat, leaves: set<nat>): set<(nat, nat)> {
    set c | c in leaves && c != 0 && Deg(Quotient(p, c)) < size :: (c, Quotient(p, c))
  }

  /** With nonzero factors whose lowest bit leaves room, every bitset product stays nonzero. */
  ghost predicate Factors(fs: seq<nat>, size: nat, width: nat) {
    forall i :: 0 <= i < |fs| ==> 0 < fs[i] < Pow2(width) && Ctz(fs[i]) + size <= width
  }

  /** A running product below degree `size` times a factor stays nonzero on the bitset. */
  lemma NextNonZero(cur: nat, f: nat, size: nat, width: nat)
    requires 0 < cur && Deg(cur) < size && 0 < f && Ctz(f) + size <= width
    ensures LowBits(ClMul(cur, f), width) != 0
  {
    LowestBitOfProduct(cur, f);
    CtzBelowDeg(cur);
    BitLow(ClMul(cur, f), width, Ctz(cur) + Ctz(f));
    NonZeroFromBit(LowBits(ClMul(cur, f), width), Ctz(cur) + Ctz(f));
  }

  /**
   * `dfs`: prune at degree `size`; at the end of the factor list record
   * (cur, quo(P, cur)) when the cofactor is below `size` too; otherwise
   * recurse without and then with factor idx.  The string set of the
   * source is a set of polynomial pairs here.
   */
  method Dfs(idx: nat, fs: seq<nat>, p: nat, size: nat, cur: nat, sol: set<(nat, nat)>, width: nat)
    returns (sol': set<(nat, nat)>)
    requires idx <= |fs| && p < Pow2(width) && 0 < cur < Pow2(width) && Factors(fs, size, width)
    ensures sol' == sol + Emitted(p, size, Leaves(fs, idx, size, cur, width))
    decreases |fs| - idx
  {
    var d := Degree(cur, width);
    if d >= size {
      return sol;
    }
    if idx == |fs| {
      var other := Quo(p, cur, width);
      var od := Degree(other, width);
      if od < size {
        sol' := sol + {(cur, other)};
      } else {
        sol' := sol;
      }
      assert Leaves(fs, idx, size, cur, width) == {cur};
      return;
    }
    var without := Dfs(idx + 1, fs, p, size, cur, sol, width);
    var next := Mul(cur, fs[idx], width);
    NextNonZero(cur, fs[idx], size, width);
    LowBitsBelow(ClMul(cur, fs[idx]), width);
    sol' := Dfs(idx + 1, fs, p, size, next, without, width);
    EmittedUnion(p, size, Leaves(fs, idx + 1, size, cur, width), Leaves(fs, idx + 1, size, next, width));
  }

  lemma EmittedUnion(p: nat, size: nat, a: set<nat>, b: set<nat>)
    ensures Emitted(p, size, a + b) == Emitted(p, size, a) + Emitted(p, size, b)
  {
  }

  /** All products of a subset of fs[idx..] with cur, on the bitset, without pruning. */
  function SubsetProducts(fs: seq<nat>, idx: nat, cur: nat, width: nat): set<nat>
    requires idx <= |fs|
    decreases |fs| - idx
  {
    if idx == |fs| then {cur}
    else SubsetProducts(fs, idx + 1, cur, width) + SubsetProducts(fs, idx + 1, LowBits(ClMul(cur, fs[idx]), width), width)
  }

  /** Every leaf is a subset product of degree below size. */
  lemma {:induction false} LeavesAreSubsetProducts(fs: seq<nat>, idx: nat, size: nat, cur: nat, width: nat, c: nat)
    requires idx <= |fs| && c in Leaves(fs, idx, size, cur, width)
    ensures c in SubsetProducts(fs, idx, cur, width) && Deg(c) < size
    decreases |fs| - idx
  {
    if Deg(cur) < size && idx < |fs| {
      var next := LowBits(ClMul(cur, fs[idx]), width);
      if c in Leaves(fs, idx + 1, size, cur, width) {
        LeavesAreSubsetProducts(fs, idx + 1, size, cur, width, c);
      } else {
        LeavesAreSubsetProducts(fs, idx + 1, size, next, width, c);
      }
    }
  }

  /** Sum of the degrees of fs[idx..]. */
  function SumDeg(fs: seq<nat>, idx: nat): int
    requires idx <= |fs|
    decreases |fs| - idx
  {
    if idx == |fs| then 0 else Deg(fs[idx]) + SumDeg(fs, idx + 1)
  }

  /** Nonzero factors whose degrees, added to deg cur, stay below the width: no product overflows. */
  ghost predicate Room(fs: seq<nat>, idx: nat, cur: nat, width: nat)
    requires idx <= |fs|
  {
    0 < cur && (forall i :: idx <= i < |fs| ==> fs[i] > 0) && Deg(cur) + SumDeg(fs, idx) < width
  }

  lemma SumDegNonNegative(fs: seq<nat>, idx: nat)
    requires idx <= |fs| && forall i :: idx <= i < |fs| ==> fs[i] > 0
    ensures SumDeg(fs, idx) >= 0
    decreases |fs| - idx
  {
    if idx < |fs| {
      SumDegNonNegative(fs, idx + 1);
    }
  }

  /** With room, the bitset product with the next factor is exact and leaves room. */
  lemma ExactStep(fs: seq<nat>, idx: nat, cur: nat, width: nat)
    requires idx < |fs| && Room(fs, idx, cur, width)
    ensures LowBits(ClMul(cur, fs[idx]), width) == ClMul(cur, fs[idx])
    ensures Deg(ClMul(cur, fs[idx])) == Deg(cur) + Deg(fs[idx])
    ensures Room(fs, idx + 1, cur, width) && Room(fs, idx + 1, ClMul(cur, fs[idx]), width)
  {
    var f := fs[idx];
    DegClMul(cur, f);
    SumDegNonNegative(fs, idx + 1);
    DegBelow(ClMul(cur, f), width);
    LowBitsOfSmall(ClMul(cur, f), width);
  }

  /**
   * With room, a subset product c from cur has degree between deg cur and
   * deg cur + the remaining degrees, and divides cur * fs[idx] * ... .
   */
  lemma {:induction false} SubsetProductFacts(fs: seq<nat>, idx: nat, cur: nat, width: nat, c: nat)
    requires idx <= |fs| && Room(fs, idx, cur, width) && c in SubsetProducts(fs, idx, cur, width)
    ensures c > 0 && Deg(cur) <= Deg(c)
    ensures Divides(c, ClMul(cur, ProductOf(fs[idx..])))
    decreases |fs| - idx
  {
    if idx == |fs| {
      ClMulOne(cur);
      assert ProductOf(fs[idx..]) == 1;
      assert ClMul(1, c) == c;
    } else {
      var f := fs[idx];
      var tail := ProductOf(fs[idx + 1..]);
      assert ProductOf(fs[idx..]) == ClMul(f, tail) by {
        assert fs[idx..][1..] == fs[idx + 1..];
      }
      ExactStep(fs, idx, cur, width);
      if c in SubsetProducts(fs, idx + 1, cur, width) {
        SubsetProductFacts(fs, idx + 1, cur, width, c);
        var x: nat :| ClMul(x, c) == ClMul(cur, tail);
        // cur (f tail) == f (cur tail) == (f x) c
        ClMulAssoc(cur, f, tail);
        ClMulComm(cur, f);
        ClMulAssoc(f, cur, tail);
        ClMulAssoc(f, x, c);
        assert ClMul(ClMul(f, x), c) == ClMul(cur, ClMul(f, tail));
      } else {
        var next := ClMul(cur, f);
        SubsetProductFacts(fs, idx + 1, next, width, c);
        ClMulAssoc(cur, f, tail);
      }
    }
  }

  /** With room, pruning loses nothing: every subset product below size is a leaf. */
  lemma {:induction false} SubsetProductsAreLeaves(fs: seq<nat>, idx: nat, size: nat, cur: nat, width: nat, c: nat)
    requires idx <= |fs| && Room(fs, idx, cur, width)
    requires c in SubsetProducts(fs, idx, cur, width) && Deg(c) < size
    ensures c in Leaves(fs, idx, size, cur, width)
    decreases |fs| - idx
  {
    SubsetProductFacts(fs, idx, cur, width, c);
    if idx < |fs| {
      ExactStep(fs, idx, cur, width);
      if c in SubsetProducts(fs, idx + 1, cur, width) {
        SubsetProductsAreLeaves(fs, idx + 1, size, cur, width, c);
      } else {
        SubsetProductsAreLeaves(fs, idx + 1, size, ClMul(cur, fs[idx]), width, c);
      }
    }
  }

  /** Every pair `dfs` records from position 0 with cur == 1 splits P into two factors below size. */
  lemma PairsFactorP(fs: seq<nat>, p: nat, size: nat, width: nat, pr: (nat, nat))
    requires Room(fs, 0, 1, width) && p == ProductOf(fs)
    requires pr in Emitted(p, size, Leaves(fs, 0, size, 1, width))
    ensures ClMul(pr.0, pr.1) == p && Deg(pr.0) < size && Deg(pr.1) < size
    ensures pr.0 in SubsetProducts(fs, 0, 1, width)
  {
    var c := pr.0;
    assert fs[0..] == fs;
    ClMulOne(p);
    LeavesAreSubsetProducts(fs, 0, size, 1, width, c);
    SubsetProductFacts(fs, 0, 1, width, c);
    DividesExactly(c, p);
  }

  /**
   * Conversely, with no overflow, every product c of a subset of the factors
   * with c and P / c both below size is recorded.
   */
  lemma PairsComplete(fs: seq<nat>, p: nat, size: nat, width: nat, c: nat)
    requires Room(fs, 0, 1, width) && p == ProductOf(fs)
    requires c in SubsetProducts(fs, 0, 1, width) && c != 0 && Deg(c) < size && Deg(Quotient(p, c)) < size
    ensures (c, Quotient(p, c)) in Emitted(p, size, Leaves(fs, 0, size, 1, width))
  {
    SubsetProductsAreLeaves(fs, 0, size, 1, width, c);
  }
}
