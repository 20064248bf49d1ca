/**
 * GF(2) linear algebra for the diffusion layer of the crack-me.
 *
 * A matrix is a list of row masks; bit k of row j says that entry k of the
 * input contributes to entry j of the output.  Applying a row mask to a
 * list of entries XORs the selected entries together (DotRow).  The same
 * operation serves two purposes: on a 32-byte state it is one output byte
 * of the diffusion, and on a list of 32 row masks it is one row of a
 * matrix product.
 */
module Gf2 {
  import opened Bits

  /** `if p then x else 0`: the contribution of one entry. */
  function Term(p: bool, x: nat): nat {
    if p then x else 0
  }

  /** XOR of v[k] over the set bits k < n of row. */
  function DotRowUpTo(row: nat, v: seq<nat>, n: nat): nat
    requires n <= |v|
  {
    if n == 0 then 0 else Xor(DotRowUpTo(row, v, n - 1), Term(Bit(row, n - 1), v[n - 1]))
  }

  /** XOR of v[k] over every set bit k of row (bit 0 selects v[0]). */
  function DotRow(row: nat, v: seq<nat>): nat {
    DotRowUpTo(row, v, |v|)
  }

  /** m·v: entry j is DotRow(m[j], v).  With v a list of row masks this is
      the matrix product, row by row. */
  function Mul(m: seq<nat>, v: seq<nat>): (r: seq<nat>)
    ensures |r| == |m|
  {
    seq(|m|, j requires 0 <= j < |m| => DotRow(m[j], v))
  }

  /** 32 row masks of 32 bits. */
  predicate IsMatrix(m: seq<nat>) {
    |m| == 32 && forall j :: 0 <= j < 32 ==> m[j] < 0x1_0000_0000
  }

  /** A 32-byte state. */
  predicate IsState(v: seq<nat>) {
    |v| == 32 && forall j :: 0 <= j < 32 ==> v[j] < 256
  }

  function Identity(): (r: seq<nat>)
    ensures |r| == 32
  {
    seq(32, i requires 0 <= i => Pow2(i))
  }

  function Zeros(): (r: seq<nat>)
    ensures |r| == 32
  {
    seq(32, i => 0)
  }

  /** b·a is the identity. */
  predicate LeftInverse(b: seq<nat>, a: seq<nat>)
    requires |b| == 32
  {
    forall i :: 0 <= i < 32 ==> DotRow(b[i], a) == Pow2(i)
  }

  /** b is a two-sided inverse of a. */
  predicate IsInverse(b: seq<nat>, a: seq<nat>)
    requires |a| == 32 && |b| == 32
  {
    LeftInverse(b, a) && LeftInverse(a, b)
  }

  /** The diffusion a maps some nonzero state to the zero state, so two
      different states collide under it. */
  ghost predicate Singular(a: seq<nat>) {
    exists s :: IsState(s) && s != Zeros() && Mul(a, s) == Zeros()
  }

  // ---------------------------------------------------------------------
  // Bounds

  lemma {:induction false} DotRowUpToBelow(row: nat, v: seq<nat>, n: nat, w: nat)
    requires n <= |v|
    requires forall k :: 0 <= k < |v| ==> v[k] < Pow2(w)
    ensures DotRowUpTo(row, v, n) < Pow2(w)
  {
    if n > 0 {
      DotRowUpToBelow(row, v, n - 1, w);
      XorBelow(DotRowUpTo(row, v, n - 1), Term(Bit(row, n - 1), v[n - 1]), w);
    }
  }

  /** Entries of width w give a result of width w. */
  lemma DotRowBelow(row: nat, v: seq<nat>, w: nat)
    requires forall k :: 0 <= k < |v| ==> v[k] < Pow2(w)
    ensures DotRow(row, v) < Pow2(w)
  {
    DotRowUpToBelow(row, v, |v|, w);
  }

  /** The XOR of bytes is a byte. */
  lemma DotRowByte(row: nat, v: seq<nat>)
    requires forall k :: 0 <= k < |v| ==> v[k] < 256
    ensures DotRow(row, v) < 256
  {
    Pow2Values();
    DotRowBelow(row, v, 8);
  }

  /** A product of 32-bit rows has 32-bit rows. */
  lemma DotRowU32(row: nat, v: seq<nat>)
    requires forall k :: 0 <= k < |v| ==> v[k] < 0x1_0000_0000
    ensures DotRow(row, v) < 0x1_0000_0000
  {
    Pow2Values();
    DotRowBelow(row, v, 32);
  }

  lemma MulState(m: seq<nat>, v: seq<nat>)
    requires |m| == 32 && IsState(v)
    ensures IsState(Mul(m, v))
  {
    forall j | 0 <= j < 32 ensures Mul(m, v)[j] < 256 {
      DotRowByte(m[j], v);
    }
  }

  lemma MulMatrix(b: seq<nat>, a: seq<nat>)
    requires |b| == 32 && IsMatrix(a)
    ensures IsMatrix(Mul(b, a))
  {
    forall j | 0 <= j < 32 ensures Mul(b, a)[j] < 0x1_0000_0000 {
      DotRowU32(b[j], a);
    }
  }

  lemma IdentityIsMatrix()
    ensures IsMatrix(Identity())
  {
    forall i | 0 <= i < 32 ensures Pow2(i) < 0x1_0000_0000 {
      Pow2Values();
      Pow2Mono(i + 1, 32);
    }
  }

  // ---------------------------------------------------------------------
  // Algebra of DotRow

  lemma TermXor(p: bool, q: bool, x: nat)
    ensures Term(p != q, x) == Xor(Term(p, x), Term(q, x))
  {
    XorSelf(x);
  }

  lemma {:induction false} DotRowLinearUpTo(a: nat, b: nat, v: seq<nat>, n: nat)
    requires n <= |v|
    ensures DotRowUpTo(Xor(a, b), v, n) == Xor(DotRowUpTo(a, v, n), DotRowUpTo(b, v, n))
  {
    if n > 0 {
      DotRowLinearUpTo(a, b, v, n - 1);
      BitXor(a, b, n - 1);
      TermXor(Bit(a, n - 1), Bit(b, n - 1), v[n - 1]);
      XorSwapMiddle(DotRowUpTo(a, v, n - 1), DotRowUpTo(b, v, n - 1),
                    Term(Bit(a, n - 1), v[n - 1]), Term(Bit(b, n - 1), v[n - 1]));
    }
  }

  /** DotRow is linear in the row mask. */
  lemma DotRowLinear(a: nat, b: nat, v: seq<nat>)
    ensures DotRow(Xor(a, b), v) == Xor(DotRow(a, v), DotRow(b, v))
  {
    DotRowLinearUpTo(a, b, v, |v|);
  }

  lemma {:induction false} DotRowUnitUpTo(k: nat, v: seq<nat>, n: nat)
    requires n <= |v|
    ensures DotRowUpTo(Pow2(k), v, n) == (if k < n then v[k] else 0)
  {
    if n > 0 {
      DotRowUnitUpTo(k, v, n - 1);
      BitPow2(k, n - 1);
      XorZero(DotRowUpTo(Pow2(k), v, n - 1));
    }
  }

  /** A one-bit row selects exactly that entry. */
  lemma DotRowUnit(k: nat, v: seq<nat>)
    requires k < |v|
    ensures DotRow(Pow2(k), v) == v[k]
  {
    DotRowUnitUpTo(k, v, |v|);
  }

  lemma {:induction false} DotRowZeroUpTo(g: nat, v: seq<nat>, n: nat)
    requires n <= |v|
    requires g == 0 || forall k :: 0 <= k < |v| ==> v[k] == 0
    ensures DotRowUpTo(g, v, n) == 0
  {
    if n > 0 {
      DotRowZeroUpTo(g, v, n - 1);
      ZeroHasNoBit(n - 1);
    }
  }

  /** The empty row, or a vector of zeros, gives zero. */
  lemma DotRowZero(g: nat, v: seq<nat>)
    requires g == 0 || forall k :: 0 <= k < |v| ==> v[k] == 0
    ensures DotRow(g, v) == 0
  {
    DotRowZeroUpTo(g, v, |v|);
  }

  lemma {:induction false} DotRowAgreeUpTo(g: nat, v: seq<nat>, w: seq<nat>, n: nat)
    requires n <= |v| == |w|
    requires forall k :: 0 <= k < |v| && Bit(g, k) ==> v[k] == w[k]
    ensures DotRowUpTo(g, v, n) == DotRowUpTo(g, w, n)
  {
    if n > 0 {
      DotRowAgreeUpTo(g, v, w, n - 1);
    }
  }

  /** Entries the row does not select do not matter. */
  lemma DotRowAgree(g: nat, v: seq<nat>, w: seq<nat>)
    requires |v| == |w|
    requires forall k :: 0 <= k < |v| && Bit(g, k) ==> v[k] == w[k]
    ensures DotRow(g, v) == DotRow(g, w)
  {
    DotRowAgreeUpTo(g, v, w, |v|);
  }

  lemma {:induction false} DotRowRestrictUpTo(g: nat, m: nat, v: seq<nat>, n: nat)
    requires n <= |v|
    requires forall k :: 0 <= k < |v| && !Bit(m, k) ==> v[k] == 0
    ensures DotRowUpTo(g, v, n) == DotRowUpTo(And(g, m), v, n)
  {
    if n > 0 {
      DotRowRestrictUpTo(g, m, v, n - 1);
      BitAnd(g, m, n - 1);
    }
  }

  /** Bits of the row outside the support m of v do not matter. */
  lemma DotRowRestrict(g: nat, m: nat, v: seq<nat>)
    requires forall k :: 0 <= k < |v| && !Bit(m, k) ==> v[k] == 0
    ensures DotRow(g, v) == DotRow(And(g, m), v)
  {
    DotRowRestrictUpTo(g, m, v, |v|);
  }

  /** Replacing entry k changes the result only if the row selects k. */
  lemma DotRowUpdate(g: nat, v: seq<nat>, k: nat, x: nat)
    requires k < |v|
    ensures DotRow(g, v[k := x]) == Xor(DotRow(g, v), Term(Bit(g, k), Xor(v[k], x)))
  {
    var w := v[k := x];
    if Bit(g, k) {
      var g0 := Xor(g, Pow2(k));
      forall j | 0 <= j < |v| && Bit(g0, j)
        ensures w[j] == v[j]
      {
        BitXor(g, Pow2(k), j);
        BitPow2(k, j);
      }
      DotRowAgree(g0, w, v);
      XorCancel(g, Pow2(k));
      XorComm(Pow2(k), g0);
      XorComm(g, Pow2(k));
      assert Xor(g0, Pow2(k)) == g;
      DotRowLinear(g0, Pow2(k), w);
      DotRowLinear(g0, Pow2(k), v);
      DotRowUnit(k, w);
      DotRowUnit(k, v);
      // Xor(D0, x) == Xor(Xor(D0, v[k]), Xor(v[k], x))
      XorAssoc(DotRow(g0, v), v[k], Xor(v[k], x));
      XorAssoc(v[k], v[k], x);
      XorSelf(v[k]);
    } else {
      forall j | 0 <= j < |v| && Bit(g, j)
        ensures w[j] == v[j]
      {
      }
      DotRowAgree(g, w, v);
    }
  }

  lemma LowBitsStep(g: nat, n: nat)
    requires n > 0
    ensures LowBits(g, n) == Xor(LowBits(g, n - 1), Term(Bit(g, n - 1), Pow2(n - 1)))
  {
    var t := Term(Bit(g, n - 1), Pow2(n - 1));
    forall k: nat ensures Bit(LowBits(g, n), k) == Bit(Xor(LowBits(g, n - 1), t), k) {
      BitLow(g, n, k);
      BitLow(g, n - 1, k);
      BitXor(LowBits(g, n - 1), t, k);
      BitPow2(n - 1, k);
      ZeroHasNoBit(k);
    }
    BitExt(LowBits(g, n), Xor(LowBits(g, n - 1), t));
  }

  lemma {:induction false} DotRowIdentityUpTo(g: nat, n: nat)
    requires n <= 32
    ensures DotRowUpTo(g, Identity(), n) == LowBits(g, n)
  {
    if n > 0 {
      DotRowIdentityUpTo(g, n - 1);
      LowBitsStep(g, n);
    }
  }

  /** Combining the identity rows gives the mask back. */
  lemma DotRowIdentity(g: nat)
    requires g < 0x1_0000_0000
    ensures DotRow(g, Identity()) == g
  {
    DotRowIdentityUpTo(g, 32);
    Pow2Values();
    LowBitsOfSmall(g, 32);
  }

  lemma {:induction false} DotRowComposeUpTo(g: nat, h: seq<nat>, v: seq<nat>, n: nat)
    requires n <= |h|
    ensures DotRow(DotRowUpTo(g, h, n), v) == DotRowUpTo(g, Mul(h, v), n)
  {
    if n == 0 {
      DotRowZero(0, v);
    } else {
      DotRowComposeUpTo(g, h, v, n - 1);
      var t := Term(Bit(g, n - 1), h[n - 1]);
      DotRowLinear(DotRowUpTo(g, h, n - 1), t, v);
      DotRowZero(0, v);
    }
  }

  /** Row g of (h·v) is g·(h·v): matrix products associate. */
  lemma DotRowCompose(g: nat, h: seq<nat>, v: seq<nat>)
    ensures DotRow(DotRow(g, h), v) == DotRow(g, Mul(h, v))
  {
    DotRowComposeUpTo(g, h, v, |h|);
  }

  /** (b·a)·v == b·(a·v). */
  lemma MulAssoc(b: seq<nat>, a: seq<nat>, v: seq<nat>)
    ensures Mul(Mul(b, a), v) == Mul(b, Mul(a, v))
  {
    forall j | 0 <= j < |b|
      ensures Mul(Mul(b, a), v)[j] == Mul(b, Mul(a, v))[j]
    {
      DotRowCompose(b[j], a, v);
    }
  }

  /** When b·a is the identity, b undoes a on every 32-entry vector. */
  lemma LeftInverseCancels(b: seq<nat>, a: seq<nat>, v: seq<nat>)
    requires |b| == 32 && |v| == 32
    requires LeftInverse(b, a)
    ensures Mul(b, Mul(a, v)) == v
  {
    forall j | 0 <= j < 32
      ensures Mul(b, Mul(a, v))[j] == v[j]
    {
      DotRowCompose(b[j], a, v);
      DotRowUnit(j, v);
    }
  }

  /** A singular matrix has no left inverse. */
  lemma SingularHasNoLeftInverse(a: seq<nat>, b: seq<nat>)
    requires |b| == 32
    requires Singular(a)
    ensures !LeftInverse(b, a)
  {
    var s :| IsState(s) && s != Zeros() && Mul(a, s) == Zeros();
    var z := Mul(b, Zeros());
    forall j | 0 <= j < 32
      ensures z[j] == 0
    {
      DotRowZero(b[j], Zeros());
    }
    assert z == Zeros();
    if LeftInverse(b, a) {
      LeftInverseCancels(b, a, s);
      assert false;
    }
  }

  /** b·a == I and g·b == I force g == a: the left inverse of b is a. */
  lemma InverseFromBothSides(g: seq<nat>, b: seq<nat>, a: seq<nat>)
    requires IsMatrix(a) && |b| == 32 && IsMatrix(g)
    requires LeftInverse(b, a) && LeftInverse(g, b)
    ensures g == a
  {
    assert Mul(b, a) == Identity();
    forall i | 0 <= i < 32
      ensures g[i] == a[i]
    {
      // a[i] == (g[i]·b)·a == g[i]·(b·a) == g[i]·I == g[i]
      DotRowCompose(g[i], b, a);
      DotRowUnit(i, a);
      DotRowIdentity(g[i]);
    }
  }

  // ---------------------------------------------------------------------
  // Walking the set bits of a row: `while (row) { k = ctz(row); ...;
  // row &= row - 1; }` visits the entries a row selects in index order.

  /** The entries d[k], k < n, that the set bits of row select, in index order. */
  function Selected<T>(d: seq<T>, row: nat, n: nat): seq<T>
    requires n <= |d|
  {
    if n == 0 then [] else Selected(d, row, n - 1) + (if Bit(row, n - 1) then [d[n - 1]] else [])
  }

  /** Below the lowest set bit of m there is nothing to select. */
  lemma {:induction false} SelectedBelowLowest<T>(d: seq<T>, m: nat, n: nat)
    requires m > 0 && n <= Ctz(m) && n <= |d|
    ensures Selected(d, m, n) == []
    ensures Selected(d, Xor(m, Pow2(Ctz(m))), n) == []
    decreases n
  {
    if n > 0 {
      SelectedBelowLowest(d, m, n - 1);
      CtzIsLowest(m, n - 1);
      BitXor(m, Pow2(Ctz(m)), n - 1);
      BitPow2(Ctz(m), n - 1);
    }
  }

  /** Clearing the lowest set bit k of m removes the first selected entry, d[k]. */
  lemma {:induction false} SelectedClearUpTo<T>(d: seq<T>, m: nat, n: nat)
    requires m > 0 && Ctz(m) < n <= |d|
    ensures Selected(d, m, n) == [d[Ctz(m)]] + Selected(d, Xor(m, Pow2(Ctz(m))), n)
    decreases n
  {
    var k := Ctz(m);
    CtzIsLowest(m, k);
    BitXor(m, Pow2(k), n - 1);
    BitPow2(k, n - 1);
    if n - 1 == k {
      SelectedBelowLowest(d, m, k);
    } else {
      SelectedClearUpTo(d, m, n - 1);
    }
  }

  /** One step of the walk: `row &= row - 1` drops d[ctz(row)] from the front. */
  lemma SelectedClear<T>(d: seq<T>, m: nat)
    requires 0 < m < Pow2(|d|)
    ensures Ctz(m) < |d| && And(m, m - 1) < m
    ensures Selected(d, m, |d|) == [d[Ctz(m)]] + Selected(d, And(m, m - 1), |d|)
  {
    CtzBelow(m, |d|);
    ClearLowest(m);
    SelectedClearUpTo(d, m, |d|);
  }

  /** The empty row selects nothing. */
  lemma {:induction false} SelectedZero<T>(d: seq<T>, n: nat)
    requires n <= |d|
    ensures Selected(d, 0, n) == []
    decreases n
  {
    if n > 0 {
      SelectedZero(d, n - 1);
      ZeroHasNoBit(n - 1);
    }
  }

  /** XOR of every entry (0 for none). */
  function XorAll(xs: seq<nat>): nat {
    if |xs| == 0 then 0 else Xor(XorAll(xs[..|xs| - 1]), xs[|xs| - 1])
  }

  lemma {:induction false} XorAllAppend(a: seq<nat>, b: seq<nat>)
    ensures XorAll(a + b) == Xor(XorAll(a), XorAll(b))
    decreases |b|
  {
    if |b| == 0 {
      assert a + b == a;
      XorZero(XorAll(a));
    } else {
      var b' := b[..|b| - 1];
      assert (a + b)[..|a + b| - 1] == a + b';
      XorAllAppend(a, b');
      XorAssoc(XorAll(a), XorAll(b'), b[|b| - 1]);
    }
  }

  /** The selected entries XOR to the row's dot product. */
  lemma {:induction false} XorAllSelected(row: nat, v: seq<nat>, n: nat)
    requires n <= |v|
    ensures XorAll(Selected(v, row, n)) == DotRowUpTo(row, v, n)
    decreases n
  {
    if n > 0 {
      var tail := if Bit(row, n - 1) then [v[n - 1]] else [];
      XorAllSelected(row, v, n - 1);
      XorAllAppend(Selected(v, row, n - 1), tail);
      if !Bit(row, n - 1) {
        XorZero(DotRowUpTo(row, v, n - 1));
      } else {
        assert tail[..0] == [];
        XorZero(v[n - 1]);
      }
    }
  }
}
