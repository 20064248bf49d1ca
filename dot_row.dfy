/**
 * The two loops that compute one output byte of a GF(2) matrix-vector
 * product: `dot_row(row, v)` is the XOR of v[k] over the set bits k of the
 * 32-bit mask `row`.  Both are proved against Gf2.DotRow, whose algebra
 * (linearity in the mask, unit masks, composition) is proved in Gf2.
 */
module DotRowLoops {
  import opened Bits
  import opened Gf2

  /** The straightforward form: test each of the 32 bits with `row >> k & 1`. */
  method DotRowScan(row: u32, v: seq<nat>) returns (acc: nat)
    requires IsState(v)
    ensures acc == DotRow(row, v)
    ensures acc < 256
  {
    acc := 0;
    for k := 0 to 32
      invariant acc == DotRowUpTo(row, v, k)
    {
      if Shr(row, k) % 2 == 1 {
        acc := Xor(acc, v[k]);
      } else {
        XorZero(acc);
      }
    }
    DotRowByte(row, v);
  }

  /**
   * The form used by the solvers: visit only the set bits, lowest first,
   * with `k = ctz(row)` and `row &= row - 1`.  The body runs once per set
   * bit, so at most 32 times.
   */
  method DotRowCtz(row: u32, v: seq<nat>) returns (acc: nat, ghost steps: nat)
    requires IsState(v)
    ensures acc == DotRow(row, v)
    ensures acc < 256
    ensures steps == Popcount(row) <= 32
  {
    Pow2Values();
    acc := 0;
    var m: nat := row;
    steps := 0;
    XorZero(DotRow(row, v));
    while m != 0
      invariant m <= row
      invariant Xor(acc, DotRow(m, v)) == DotRow(row, v)
      invariant steps + Popcount(m) == Popcount(row)
      decreases m
    {
      var k := Ctz(m);
      CtzBelow(m, 32);
      ClearLowest(m);
      PopcountClear(m);
      var m' := And(m, m - 1);
      // m == m' ^ (1 << k), so DotRow(m) == DotRow(m') ^ v[k]
      XorCancel(m, Pow2(k));
      DotRowLinear(m', Pow2(k), v);
      DotRowUnit(k, v);
      XorComm(DotRow(m', v), v[k]);
      XorAssoc(acc, v[k], DotRow(m', v));
      acc := Xor(acc, v[k]);
      m := m';
      steps := steps + 1;
    }
    DotRowZero(0, v);
    XorZero(acc);
    DotRowByte(row, v);
    PopcountBelow(row, 32);
  }

  /** 2^n - 1 has exactly the bits below n set. */
  lemma {:induction false} BitAllOnes(n: nat, k: nat)
    ensures Bit(Pow2(n) - 1, k) <==> k < n
    decreases n
  {
    if n == 0 {
      ZeroHasNoBit(k);
    } else {
      assert (Pow2(n) - 1) / 2 == Pow2(n - 1) - 1 && (Pow2(n) - 1) % 2 == 1;
      if k > 0 {
        BitSucc(Pow2(n) - 1, k - 1);
        BitAllOnes(n - 1, k - 1);
      }
    }
  }

  lemma {:induction false} DotRowAllOnesUpTo(v: seq<nat>, n: nat)
    requires n <= |v| <= 32
    ensures DotRowUpTo(0xFFFF_FFFF, v, n) == XorAll(v[..n])
  {
    if n > 0 {
      assert v[..n][..n - 1] == v[..n - 1];
      Pow2Values();
      BitAllOnes(32, n - 1);
      DotRowAllOnesUpTo(v, n - 1);
    }
  }

  /** The all-ones mask XORs every byte of the state together. */
  lemma DotRowAllOnes(v: seq<nat>)
    requires |v| == 32
    ensures DotRow(0xFFFF_FFFF, v) == XorAll(v)
  {
    DotRowAllOnesUpTo(v, 32);
    assert v[..32] == v;
  }

  /** Only bits 0 and 31 of 0x80000001 are set: it selects v[0] ^ v[31]. */
  lemma DotRowEnds(v: seq<nat>)
    requires |v| == 32
    ensures DotRow(0x8000_0001, v) == Xor(v[0], v[31])
  {
    Pow2Values();
    assert Pow2(31) == 0x8000_0000;
    assert Pow2(0) == 1;
    BitPow2(0, 31);
    forall k: nat ensures Bit(0x8000_0001, k) == Bit(Xor(Pow2(31), Pow2(0)), k) {
      BitXor(Pow2(31), Pow2(0), k);
      BitPow2(31, k);
      BitPow2(0, k);
      if k >= 32 {
        BitAbove(0x8000_0001, 32, k);
      } else if 0 < k < 31 {
        BitSucc(0x8000_0001, k - 1);
        BitSucc(0x4000_0000, k - 1);
        assert Bit(0x8000_0001, k) == Bit(Pow2(30), k - 1);
        BitPow2(30, k - 1);
      }
    }
    BitExt(0x8000_0001, Xor(Pow2(31), Pow2(0)));
    DotRowLinear(Pow2(31), Pow2(0), v);
    DotRowUnit(31, v);
    DotRowUnit(0, v);
    XorComm(v[31], v[0]);
  }

  /** The self-test vector: byte i is `(u8)(i * 7 + 3)`. */
  function TestVector(): (v: seq<nat>)
    ensures IsState(v)
  {
    seq(32, i requires 0 <= i < 32 => (i * 7 + 3) % 256)
  }

  /**
   * The self-test: both loops are run on five masks over the test vector and
   * compared; any mismatch returns 1.  Since both compute DotRow, it returns 0.
   */
  method TestDotRow() returns (status: int)
    ensures status == 0
  {
    var v := new nat[32];
    for i := 0 to 32
      invariant forall q :: 0 <= q < i ==> v[q] == (q * 7 + 3) % 256
    {
      v[i] := (i * 7 + 3) % 256;
    }
    assert v[..] == TestVector();
    var rows: seq<u32> := [0x1234_5678, 0xFFFF_FFFF, 0x0000_0000, 0x8000_0001, 0xAAAA_AAAA];
    for i := 0 to 5
      invariant v[..] == TestVector()
    {
      var original := DotRowScan(rows[i], v[..]);
      var optimized, _ := DotRowCtz(rows[i], v[..]);
      if original != optimized {
        return 1;
      }
    }
    return 0;
  }
}
