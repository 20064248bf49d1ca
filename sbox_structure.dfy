/**
 * Structure tests on an S-box table: whether it is a permutation, whether
 * it is affine modulo 256, whether it is x XOR k, and whether it is affine
 * over GF(2), i.e. s(x) == M·x ⊕ c for an 8x8 bit matrix M.
 */
module SboxStructure {
  import opened Bits
  import opened Gf2
  import opened Wrappers
  import opened Network
  import opened ByteOps

  // ---------------------------------------------------------------------
  // Permutation test

  /** `set(s)`. */
  function Values(s: seq<nat>): set<nat> {
    set i | 0 <= i < |s| :: s[i]
  }

  /** The values of the first n entries. */
  function ValuesUpTo(s: seq<nat>, n: nat): set<nat>
    requires n <= |s|
  {
    set i | 0 <= i < n :: s[i]
  }

  /** `min(s)`. */
  function MinOf(s: seq<nat>): (r: nat)
    requires |s| > 0
    ensures r in s && forall i :: 0 <= i < |s| ==> r <= s[i]
  {
    if |s| == 1 then s[0]
    else
      var rest := MinOf(s[1..]);
      assert forall i :: 1 <= i < |s| ==> s[i] == s[1..][i - 1];
      if s[0] <= rest then s[0] else rest
  }

  /** `max(s)`. */
  function MaxOf(s: seq<nat>): (r: nat)
    requires |s| > 0
    ensures r in s && forall i :: 0 <= i < |s| ==> s[i] <= r
  {
    if |s| == 1 then s[0]
    else
      var rest := MaxOf(s[1..]);
      assert forall i :: 1 <= i < |s| ==> s[i] == s[1..][i - 1];
      if s[0] >= rest then s[0] else rest
  }

  /** `len(set(s)) == 256 and min(s) == 0 and max(s) == 255`. */
  predicate IsPermutation(s: seq<nat>)
    requires |s| > 0
  {
    |Values(s)| == 256 && MinOf(s) == 0 && MaxOf(s) == 255
  }

  /** No value occurs twice among the first n entries. */
  predicate DistinctUpTo(s: seq<nat>, n: nat)
    requires n <= |s|
  {
    forall i, j :: 0 <= i < j < n ==> s[i] != s[j]
  }

  /** n entries have at most n values, and exactly n when they differ. */
  lemma {:induction false} ValuesUpToCard(s: seq<nat>, n: nat)
    requires n <= |s|
    ensures |ValuesUpTo(s, n)| <= n
    ensures |ValuesUpTo(s, n)| == n <==> DistinctUpTo(s, n)
    decreases n
  {
    if n > 0 {
      ValuesUpToCard(s, n - 1);
      assert ValuesUpTo(s, n) == ValuesUpTo(s, n - 1) + {s[n - 1]};
      if s[n - 1] in ValuesUpTo(s, n - 1) {
        var i :| 0 <= i < n - 1 && s[i] == s[n - 1];
        assert !DistinctUpTo(s, n);
      } else {
        assert DistinctUpTo(s, n) <==> DistinctUpTo(s, n - 1);
      }
    }
  }

  /** The numbers below n. */
  function Range(n: nat): set<nat> {
    if n == 0 then {} else Range(n - 1) + {n - 1}
  }

  lemma {:induction false} RangeMember(n: nat, y: nat)
    ensures y in Range(n) <==> y < n
    decreases n
  {
    if n > 0 {
      RangeMember(n - 1, y);
    }
  }

  lemma {:induction false} RangeCard(n: nat)
    ensures |Range(n)| == n
    decreases n
  {
    if n > 0 {
      RangeCard(n - 1);
      RangeMember(n - 1, n - 1);
    }
  }

  /** A subset is no larger than the set around it. */
  lemma {:induction false} SubsetCard(a: set<nat>, b: set<nat>)
    requires a <= b
    ensures |a| <= |b|
    decreases |b|
  {
    if b != {} {
      var x :| x in b;
      SubsetCard(a - {x}, b - {x});
    }
  }

  /** Pigeonhole: 256 distinct bytes hit every byte. */
  lemma DistinctCovers(s: seq<nat>, y: nat)
    requires IsSBox(s) && DistinctUpTo(s, 256) && y < 256
    ensures y in Values(s)
  {
    assert Values(s) == ValuesUpTo(s, 256);
    ValuesUpToCard(s, 256);
    RangeCard(256);
    if y !in Values(s) {
      forall v | v in Values(s) ensures v in Range(256) - {y} {
        RangeMember(256, v);
      }
      SubsetCard(Values(s), Range(256) - {y});
      RangeMember(256, y);
    }
  }

  /** Conversely, a byte table that hits every byte has distinct entries. */
  lemma CoversDistinct(s: seq<nat>)
    requires IsSBox(s) && forall y :: 0 <= y < 256 ==> y in Values(s)
    ensures DistinctUpTo(s, 256)
  {
    assert Values(s) == ValuesUpTo(s, 256);
    ValuesUpToCard(s, 256);
    RangeCard(256);
    forall v | v in Range(256) ensures v in Values(s) {
      RangeMember(256, v);
    }
    SubsetCard(Range(256), Values(s));
  }

  /**
   * For a byte table of 256 entries the three readings of "permutation"
   * agree: the Python test, 256 distinct entries, and every byte being hit.
   */
  lemma PermutationIff(s: seq<nat>)
    requires IsSBox(s)
    ensures IsPermutation(s) <==> DistinctUpTo(s, 256)
    ensures DistinctUpTo(s, 256) <==> forall y :: 0 <= y < 256 ==> y in Values(s)
  {
    assert Values(s) == ValuesUpTo(s, 256);
    ValuesUpToCard(s, 256);
    if DistinctUpTo(s, 256) {
      forall y | 0 <= y < 256 ensures y in Values(s) {
        DistinctCovers(s, y);
      }
      DistinctCovers(s, 0);
      DistinctCovers(s, 255);
    }
    if forall y :: 0 <= y < 256 ==> y in Values(s) {
      CoversDistinct(s);
    }
  }

  // ---------------------------------------------------------------------
  // Affine modulo 256

  /** s(x) == (a·x + b) mod 256 for every entry. */
  predicate AffineWith(s: seq<nat>, a: nat, b: nat) {
    forall x :: 0 <= x < |s| ==> s[x] == (a * x + b) % 256
  }

  /** a = (s(1) − s(0)) mod 256, with Python's non-negative remainder. */
  function Slope(s: seq<nat>): nat
    requires |s| >= 2
  {
    ((s[1] as int - s[0] as int) % 256) as nat
  }

  /** An affine fit is determined by s(0) and s(1). */
  lemma AffineParameters(s: seq<nat>, a: nat, b: nat)
    requires |s| >= 2 && a < 256 && b < 256 && AffineWith(s, a, b)
    ensures b == s[0] && a == Slope(s)
  {
    assert s[0] == (a * 0 + b) % 256;
    assert s[1] == (a * 1 + b) % 256;
  }

  /**
   * `check_affine`: reject when s(0) == s(1); otherwise take b = s(0),
   * a = (s(1) − b) mod 256 and test every x.  The test is complete: when it
   * rejects a table with s(0) != s(1), no byte pair (a, b) fits.
   */
  method CheckAffine(s: seq<nat>) returns (r: Option<(nat, nat)>)
    requires |s| == 256
    ensures r.Some? <==> s[0] != s[1] && AffineWith(s, Slope(s), s[0])
    ensures r.Some? ==> r.value == (Slope(s), s[0])
    ensures r.None? && s[0] != s[1] ==>
      forall a, b :: 0 <= a < 256 && 0 <= b < 256 ==> !AffineWith(s, a, b)
  {
    if s[0] == s[1] {
      return None;
    }
    var b := s[0];
    var a := Slope(s);
    for x := 0 to 256
      invariant forall q :: 0 <= q < x ==> s[q] == (a * q + b) % 256
    {
      var expected := (a * x + b) % 256;
      if s[x] != expected {
        forall a', b' | 0 <= a' < 256 && 0 <= b' < 256
          ensures !AffineWith(s, a', b')
        {
          if AffineWith(s, a', b') {
            AffineParameters(s, a', b');
          }
        }
        return None;
      }
    }
    return Some((a, b));
  }

  // ---------------------------------------------------------------------
  // XOR with a constant

  /** s(x) == x ^ k for every entry. */
  predicate XorWith(s: seq<nat>, k: nat) {
    forall x :: 0 <= x < |s| ==> s[x] == Xor(x, k)
  }

  /**
   * `check_xor_structure`: k = s(0) ^ 0, then test s(x) == x ^ k for every
   * x.  Since x = 0 forces k = s(0), a rejection means no k fits.
   */
  method CheckXorStructure(s: seq<nat>) returns (r: Option<nat>)
    requires |s| == 256
    ensures r.Some? <==> XorWith(s, s[0])
    ensures r.Some? ==> r.value == s[0]
    ensures r.None? ==> forall k :: !XorWith(s, k)
  {
    XorZero(s[0]);
    var k := Xor(s[0], 0);
    for x := 0 to 256
      invariant forall q :: 0 <= q < x ==> s[q] == Xor(q, k)
    {
      if s[x] != Xor(x, k) {
        forall k' ensures !XorWith(s, k') {
          XorZero(k');
        }
        return None;
      }
    }
    return Some(k);
  }

  // ---------------------------------------------------------------------
  // Affine over GF(2)

  /** `1 << i` for a bit index of a byte. */
  function Unit(i: nat): (u: nat)
    requires i < 8
    ensures u == Pow2(i) && u < 256
  {
    Pow2Mono(i, 8);
    Pow2Values();
    Pow2(i)
  }

  /** Column i of the fitted matrix, as a byte: s(2^i) ⊕ s(0). */
  function Columns(s: seq<nat>): (cols: seq<nat>)
    requires |s| == 256
    ensures |cols| == 8
  {
    seq(8, i requires 0 <= i < 8 => Xor(s[Unit(i)], s[0]))
  }

  /** The fitted value M·x ⊕ c at x, computed on whole bytes. */
  function Fit(s: seq<nat>, x: nat): nat
    requires |s| == 256
  {
    Xor(s[0], DotRow(x, Columns(s)))
  }

  /** The table is affine over GF(2) with the fitted M and c. */
  predicate AffineGf2(s: seq<nat>)
    requires |s| == 256
  {
    forall x :: 0 <= x < 256 ==> s[x] == Fit(s, x)
  }

  /** The number of x < n where the fit disagrees with the table. */
  function Misfits(s: seq<nat>, n: nat): nat
    requires |s| == 256 && n <= 256
  {
    if n == 0 then 0 else Misfits(s, n - 1) + (if s[n - 1] != Fit(s, n - 1) then 1 else 0)
  }

  /** XOR of two bit-vector entries is the entry of the XOR. */
  lemma BitVectorXor(a: nat, b: nat, j: nat)
    requires j < 8
    ensures BitVector(Xor(a, b))[j] == Xor(BitVector(a)[j], BitVector(b)[j])
  {
    BitVectorEntry(a, j);
    BitVectorEntry(b, j);
    BitVectorEntry(Xor(a, b), j);
    BitXor(a, b, j);
    XorZero(0); XorZero(1); XorSelf(1);
  }

  /** One step of the bit-sliced evaluation: adding `M[i][j] & x_bits[j]`
      to bit i tracks adding column j (when x selects it) to the byte. */
  lemma FitStep(c: nat, d: nat, col: nat, x: nat, i: nat, j: nat)
    requires i < 8 && j < 8
    ensures BitVector(Xor(c, Xor(d, Term(Bit(x, j), col))))[i]
         == Xor(BitVector(Xor(c, d))[i], And(BitVector(col)[i], BitVector(x)[j]))
  {
    XorAssoc(c, d, Term(Bit(x, j), col));
    BitVectorXor(Xor(c, d), Term(Bit(x, j), col), i);
    BitVectorEntry(x, j);
    BitVectorEntry(col, i);
    BitVectorEntry(0, i);
    ZeroHasNoBit(i);
    assert And(0, 0) == 0 && And(0, 1) == 0 && And(1, 0) == 0 && And(1, 1) == 1;
  }

  /** The eight result bits for input x, as the script computes them from
      the bit matrix m and the constant bits c. */
  method FitBits(s: seq<nat>, m: seq<seq<nat>>, c: seq<nat>, x: nat) returns (result: nat)
    requires IsSBox(s) && x < 256
    requires c == BitVector(s[0])
    requires |m| == 8 && forall j :: 0 <= j < 8 ==> |m[j]| == 8
    requires forall j, q :: 0 <= j < 8 && 0 <= q < 8 ==> m[j][q] == BitVector(Columns(s)[q])[j]
    ensures result == Fit(s, x)
  {
    var xBits := BitVector(x);
    var resultBits: seq<nat> := [0, 0, 0, 0, 0, 0, 0, 0];
    var cols := Columns(s);
    for i := 0 to 8
      invariant |resultBits| == 8
      invariant forall q :: 0 <= q < i ==> resultBits[q] == BitVector(Fit(s, x))[q]
    {
      var bitSum := c[i];
      XorZero(s[0]);
      for j := 0 to 8
        invariant bitSum == BitVector(Xor(s[0], DotRowUpTo(x, cols, j)))[i]
      {
        FitStep(s[0], DotRowUpTo(x, cols, j), cols[j], x, i, j);
        bitSum := Xor(bitSum, And(m[i][j], xBits[j]));
      }
      resultBits := resultBits[i := bitSum];
    }
    assert resultBits == BitVector(Fit(s, x));
    Pow2Values();
    forall q | 0 <= q < 8 ensures cols[q] < Pow2(8) {
      XorByte(s[Unit(q)], s[0]);
    }
    DotRowBelow(x, cols, 8);
    XorByte(s[0], DotRow(x, cols));
    BitVectorRoundTrip(Fit(s, x));
    result := VectorToByte(resultBits);
  }

  /** The bit matrix of the fit: `M[j][i]` is bit j of s(2^i) ⊕ s(0),
      computed from the bit vectors of s(2^i) and c. */
  method FitMatrix(s: seq<nat>, c: seq<nat>) returns (m: seq<seq<nat>>)
    requires IsSBox(s) && c == BitVector(s[0])
    ensures |m| == 8 && forall j :: 0 <= j < 8 ==> |m[j]| == 8
    ensures forall j, q :: 0 <= j < 8 && 0 <= q < 8 ==> m[j][q] == BitVector(Columns(s)[q])[j]
  {
    m := seq(8, _ => seq(8, _ => 0 as nat));
    for i := 0 to 8
      invariant |m| == 8 && forall j :: 0 <= j < 8 ==> |m[j]| == 8
      invariant forall j, q :: 0 <= j < 8 && 0 <= q < i ==> m[j][q] == BitVector(Columns(s)[q])[j]
    {
      var x := Shl(1, i);
      assert x == Unit(i);
      var sxBits := BitVector(s[x]);
      for j := 0 to 8
        invariant |m| == 8 && forall j' :: 0 <= j' < 8 ==> |m[j']| == 8
        invariant forall j', q :: 0 <= j' < 8 && 0 <= q < i ==> m[j'][q] == BitVector(Columns(s)[q])[j']
        invariant forall j' :: 0 <= j' < j ==> m[j'][i] == BitVector(Columns(s)[i])[j']
      {
        BitVectorXor(s[x], s[0], j);
        var row: seq<nat> := m[j][i := Xor(sxBits[j], c[j])];
        m := m[j := row];
      }
    }
  }

  /**
   * The GF(2) affine fit: c is the bit vector of s(0), column i of M the
   * bits of s(2^i) ⊕ c, and every x is checked bit by bit.  is_affine holds
   * exactly when the table equals its fit, and errors counts the x where it
   * does not.
   */
  method AffineFitGf2(s: seq<nat>) returns (isAffine: bool, errors: nat)
    requires IsSBox(s)
    ensures isAffine <==> AffineGf2(s)
    ensures errors == Misfits(s, 256)
    ensures errors == 0 <==> isAffine
  {
    var c := BitVector(s[0]);
    var m := FitMatrix(s, c);
    isAffine := true;
    errors := 0;
    for x := 0 to 256
      invariant isAffine <==> forall q :: 0 <= q < x ==> s[q] == Fit(s, q)
      invariant errors == Misfits(s, x)
      invariant errors == 0 <==> isAffine
    {
      var result := FitBits(s, m, c, x);
      if result != s[x] {
        isAffine := false;
        errors := errors + 1;
      }
    }
  }

  /**
   * The fit finds every GF(2)-affine table: if s(x) == L(x) ⊕ k for some
   * byte columns L and constant k, then k == s(0), L's columns are the
   * fitted ones, and the table passes the test.
   */
  lemma FitComplete(s: seq<nat>, k: nat, cols: seq<nat>)
    requires IsSBox(s) && |cols| == 8
    requires forall x :: 0 <= x < 256 ==> s[x] == Xor(k, DotRow(x, cols))
    ensures k == s[0] && Columns(s) == cols
    ensures AffineGf2(s)
  {
    DotRowZero(0, cols);
    XorZero(k);
    forall i | 0 <= i < 8 ensures Columns(s)[i] == cols[i] {
      DotRowUnit(i, cols);
      XorComm(k, cols[i]);
      XorCancel(cols[i], k);
    }
  }
}
