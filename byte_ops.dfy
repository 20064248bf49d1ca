/**
 * Small byte-level helpers of the table-analysis scripts: the 8-bit
 * vector view of a byte, the split into two 4-bit halves, rotation of a
 * w-bit word, and multiplication in GF(2^4) by shift-and-add.
 */
module ByteOps {
  import opened Bits
  import opened Gf2

  // ---------------------------------------------------------------------
  // A byte as a vector of bits

  /** `[(x >> i) & 1 for i in range(8)]`: bit 0 first. */
  function BitVector(x: nat): (v: seq<nat>)
    ensures |v| == 8
  {
    seq(8, i requires 0 <= i < 8 => And(Shr(x, i), 1))
  }

  /** `sum(v[i] << i for i in range(n))`. */
  function Weighted(v: seq<nat>, n: nat): nat
    requires n <= |v|
  {
    if n == 0 then 0 else Weighted(v, n - 1) + Shl(v[n - 1], n - 1)
  }

  /** `vector_to_byte`: the first eight entries, weighted by position. */
  function VectorToByte(v: seq<nat>): nat
    requires |v| >= 8
  {
    Weighted(v, 8)
  }

  /** `y & 1` is the parity bit of y. */
  lemma AndOne(y: nat)
    ensures And(y, 1) == y % 2
  {
    assert And(y / 2, 0) == 0;
  }

  /** The low n + 1 bits are the low n bits plus bit n in place. */
  lemma {:induction false} LowBitsAdd(x: nat, n: nat)
    ensures LowBits(x, n + 1) == LowBits(x, n) + Shl(Shr(x, n) % 2, n)
    decreases n
  {
    if n > 0 {
      LowBitsAdd(x / 2, n - 1);
      assert Shr(x, n) == Shr(x / 2, n - 1);
      var b := Shr(x, n) % 2;
      assert Shl(b, n) == 2 * Shl(b, n - 1);
    }
  }

  /** The weighted sum of the first n entries of the bit vector is the low
      n bits of x. */
  lemma {:induction false} WeightedBits(x: nat, n: nat)
    requires n <= 8
    ensures Weighted(BitVector(x), n) == LowBits(x, n)
    decreases n
  {
    if n > 0 {
      WeightedBits(x, n - 1);
      AndOne(Shr(x, n - 1));
      LowBitsAdd(x, n - 1);
    }
  }

  /** Every entry of `bit_vector(x)` is 0 or 1, and `vector_to_byte`
      undoes `bit_vector` on every byte. */
  lemma BitVectorRoundTrip(x: nat)
    requires x < 256
    ensures forall i :: 0 <= i < 8 ==> BitVector(x)[i] <= 1
    ensures VectorToByte(BitVector(x)) == x
  {
    forall i | 0 <= i < 8 ensures BitVector(x)[i] <= 1 {
      AndOne(Shr(x, i));
    }
    WeightedBits(x, 8);
    Pow2Values();
    LowBitsOfSmall(x, 8);
  }

  /** Entry i of the bit vector is set exactly when bit i of x is. */
  lemma BitVectorEntry(x: nat, i: nat)
    requires i < 8
    ensures BitVector(x)[i] == (if Bit(x, i) then 1 else 0)
  {
    AndOne(Shr(x, i));
  }

  /** A vector of eight 0/1 entries packs into a byte. */
  lemma {:induction false} WeightedBelow(v: seq<nat>, n: nat)
    requires n <= |v| && forall i :: 0 <= i < |v| ==> v[i] <= 1
    ensures Weighted(v, n) < Pow2(n)
    decreases n
  {
    if n > 0 {
      WeightedBelow(v, n - 1);
    }
  }

  // ---------------------------------------------------------------------
  // Nibbles

  /** `to_4bit_pairs`: (x >> 4, x & 0xF). */
  function ToNibbles(x: nat): (nat, nat) {
    (Shr(x, 4), And(x, 0xF))
  }

  /** `from_4bit_pairs`: (high << 4) | low. */
  function FromNibbles(high: nat, low: nat): nat {
    Or(Shl(high, 4), low)
  }

  /** Both halves of a byte are below 16 and `from_4bit_pairs` reassembles
      the byte. */
  lemma NibblesRoundTrip(x: nat)
    requires x < 256
    ensures ToNibbles(x).0 < 16 && ToNibbles(x).1 < 16
    ensures FromNibbles(ToNibbles(x).0, ToNibbles(x).1) == x
  {
    Pow2Small();
    SplitJoin(x, 4, 4);
  }

  /** Splitting x < 2^(n+m) at bit n gives a high part below 2^m and a low
      part below 2^n, and `(high << n) | low` is x again. */
  lemma SplitJoin(x: nat, n: nat, m: nat)
    requires x < Pow2(n + m)
    ensures Shr(x, n) < Pow2(m) && And(x, Pow2(n) - 1) < Pow2(n)
    ensures Or(Shl(Shr(x, n), n), And(x, Pow2(n) - 1)) == x
  {
    ShrBelow(x, m, n);
    AndBelow(x, Pow2(n) - 1);
    var y := Or(Shl(Shr(x, n), n), And(x, Pow2(n) - 1));
    forall k: nat ensures Bit(y, k) == Bit(x, k) {
      BitOr(Shl(Shr(x, n), n), And(x, Pow2(n) - 1), k);
      BitShl(Shr(x, n), n, k);
      if k >= n {
        BitShr(x, n, k - n);
      }
      BitAnd(x, Pow2(n) - 1, k);
      BitMask(n, k);
    }
    BitExt(y, x);
  }

  // ---------------------------------------------------------------------
  // Rotation

  /** `((x << rot) | (x >> (w - rot))) & ((1 << w) - 1)`: the 8-bit form
      has w = 8, the 32-bit form w = 32. */
  function Rotl(x: nat, rot: nat, w: nat): (r: nat)
    requires rot <= w
    ensures r < Pow2(w)
  {
    var r := And(Or(Shl(x, rot), Shr(x, w - rot)), Pow2(w) - 1);
    AndBelow(Or(Shl(x, rot), Shr(x, w - rot)), Pow2(w) - 1);
    r
  }

  /** Bit k of the rotation is bit k - rot of x, counted modulo w. */
  lemma RotlBit(x: nat, rot: nat, w: nat, k: nat)
    requires x < Pow2(w) && rot < w
    ensures Bit(Rotl(x, rot, w), k) <==>
      k < w && (if rot <= k then Bit(x, k - rot) else Bit(x, k + w - rot))
  {
    var o := Or(Shl(x, rot), Shr(x, w - rot));
    BitAnd(o, Pow2(w) - 1, k);
    BitMask(w, k);
    BitOr(Shl(x, rot), Shr(x, w - rot), k);
    BitShl(x, rot, k);
    BitShr(x, w - rot, k);
    if rot <= k {
      BitAbove(x, w, k + w - rot);
    }
  }

  /** One bit of the round trip below. */
  lemma RotlInverseBit(x: nat, rot: nat, back: nat, w: nat, k: nat)
    requires x < Pow2(w) && rot < w && back < w && (back == 0 <==> rot == 0)
    requires rot > 0 ==> back == w - rot
    ensures Bit(Rotl(Rotl(x, rot, w), back, w), k) == Bit(x, k)
  {
    var y := Rotl(x, rot, w);
    RotlBit(y, back, w, k);
    if k < w {
      if back <= k {
        RotlBit(x, rot, w, k - back);
      } else {
        RotlBit(x, rot, w, k + w - back);
      }
    } else {
      BitAbove(x, w, k);
    }
  }

  /** Rotating by rot and then by the rest of the word gives x back. */
  lemma RotlInverse(x: nat, rot: nat, w: nat)
    requires x < Pow2(w) && rot < w
    ensures Rotl(Rotl(x, rot, w), (w - rot) % w, w) == x
  {
    var back := if rot == 0 then 0 else w - rot;
    assert back == (w - rot) % w;
    forall k: nat ensures Bit(Rotl(Rotl(x, rot, w), back, w), k) == Bit(x, k) {
      RotlInverseBit(x, rot, back, w, k);
    }
    BitExt(Rotl(Rotl(x, rot, w), back, w), x);
  }

  // ---------------------------------------------------------------------
  // GF(2^4)

  /** The shift step of `gf16_mult`: `a << 1`, reduced by poly when bit 4
      comes out set. */
  function Times2(a: nat, poly: nat): nat {
    if And(Shl(a, 1), 0x10) != 0 then Xor(Shl(a, 1), poly) else Shl(a, 1)
  }

  /** The value the shift-and-add loop accumulates before the final mask. */
  function ShiftAdd(a: nat, b: nat, poly: nat): nat
    decreases b
  {
    if b == 0 then 0 else Xor(Term(And(b, 1) != 0, a), ShiftAdd(Times2(a, poly), Shr(b, 1), poly))
  }

  /**
   * `gf16_mult(a, b, poly)`: while b > 0, add a when b's low bit is set,
   * double a (reducing by poly), halve b; return the result masked to four
   * bits.  The loop ends because b halves on every pass.
   */
  method Gf16Mult(a: nat, b: nat, poly: nat) returns (r: nat)
    ensures r == And(ShiftAdd(a, b, poly), 0xF)
    ensures r < 16
  {
    var result := 0;
    var x := a;
    var y := b;
    XorZero(ShiftAdd(a, b, poly));
    while y > 0
      invariant Xor(result, ShiftAdd(x, y, poly)) == ShiftAdd(a, b, poly)
      decreases y
    {
      var t := Term(And(y, 1) != 0, x);
      XorAssoc(result, t, ShiftAdd(Times2(x, poly), Shr(y, 1), poly));
      if And(y, 1) != 0 {
        result := Xor(result, x);
      } else {
        XorZero(result);
      }
      x := Shl(x, 1);
      if And(x, 0x10) != 0 {
        x := Xor(x, poly);
      }
      y := Shr(y, 1);
    }
    XorZero(result);
    r := And(result, 0xF);
    AndBelow(result, 0xF);
  }

  /** Doubling keeps a 4-bit value below 16 under the modulus x^4 + x + 1. */
  lemma Times2Below(a: nat)
    requires a < 16
    ensures Times2(a, 0x13) < 16
  {
    Pow2Small();
    assert Pow2(5) == 32;
    assert Shr(0x13, 4) == 1;
    ReduceBelow(Shl(a, 1), 0x13, 4);
  }

  /** Reducing a value below 2^(n+1) by a polynomial of degree n, when bit n
      is set, leaves a value below 2^n. */
  lemma ReduceBelow(d: nat, poly: nat, n: nat)
    requires d < Pow2(n + 1) && poly < Pow2(n + 1) && Bit(poly, n)
    ensures (if And(d, Pow2(n)) != 0 then Xor(d, poly) else d) < Pow2(n)
  {
    AndPow2(d, n);
    if Bit(d, n) {
      forall k: nat | k >= n ensures !Bit(Xor(d, poly), k) {
        BitXor(d, poly, k);
        if k > n {
          BitAbove(d, n + 1, k);
          BitAbove(poly, n + 1, k);
        }
      }
      BelowFromBits(Xor(d, poly), n);
    } else {
      forall k: nat | k >= n ensures !Bit(d, k) {
        if k > n {
          BitAbove(d, n + 1, k);
        }
      }
      BelowFromBits(d, n);
    }
  }

  /** With 4-bit operands the accumulated value already fits in 4 bits, so
      the final mask changes nothing. */
  lemma {:induction false} ShiftAddBelow(a: nat, b: nat)
    requires a < 16
    ensures ShiftAdd(a, b, 0x13) < 16
    decreases b
  {
    if b > 0 {
      Times2Below(a);
      ShiftAddBelow(Times2(a, 0x13), Shr(b, 1));
      Pow2Values();
      XorBelow(Term(And(b, 1) != 0, a), ShiftAdd(Times2(a, 0x13), Shr(b, 1), 0x13), 4);
    }
  }

  /** Multiplying by 0 gives 0 and multiplying by 1 gives a back. */
  lemma Gf16Units(a: nat)
    requires a < 16
    ensures And(ShiftAdd(a, 0, 0x13), 0xF) == 0
    ensures And(ShiftAdd(a, 1, 0x13), 0xF) == a
  {
    AndOne(1);
    assert Shr(1, 1) == 0;
    XorZero(a);
    assert ShiftAdd(a, 1, 0x13) == a;
    Pow2Values();
    assert Pow2(4) - 1 == 0xF;
    forall k: nat ensures Bit(And(a, 0xF), k) == Bit(a, k) {
      BitAnd(a, 0xF, k);
      BitMask(4, k);
      if k >= 4 {
        BitAbove(a, 4, k);
      }
    }
    BitExt(And(a, 0xF), a);
  }

  /** Multiplication distributes over addition (XOR) in the multiplier. */
  lemma {:induction false} ShiftAddLinear(a: nat, b1: nat, b2: nat, poly: nat)
    ensures ShiftAdd(a, Xor(b1, b2), poly) == Xor(ShiftAdd(a, b1, poly), ShiftAdd(a, b2, poly))
    decreases b1 + b2
  {
    var b := Xor(b1, b2);
    if b1 == 0 {
      XorZero(b2);
      XorZero(ShiftAdd(a, b2, poly));
    } else if b2 == 0 {
      XorZero(b1);
      XorZero(ShiftAdd(a, b1, poly));
    } else {
      var a2 := Times2(a, poly);
      XorUnfold(b1, b2);
      AndOne(b); AndOne(b1); AndOne(b2);
      assert Shr(b, 1) == Xor(Shr(b1, 1), Shr(b2, 1));
      ShiftAddLinear(a2, Shr(b1, 1), Shr(b2, 1), poly);
      var t1 := Term(And(b1, 1) != 0, a);
      var t2 := Term(And(b2, 1) != 0, a);
      var r1 := ShiftAdd(a2, Shr(b1, 1), poly);
      var r2 := ShiftAdd(a2, Shr(b2, 1), poly);
      assert Term(And(b, 1) != 0, a) == Xor(t1, t2) by {
        XorZero(a); XorZero(0); XorSelf(a);
      }
      XorSwapMiddle(t1, t2, r1, r2);
      if b == 0 {
        XorZeroIff(b1, b2);
        XorSelf(ShiftAdd(a, b1, poly));
        assert Xor(ShiftAdd(a, b1, poly), ShiftAdd(a, b2, poly)) == 0;
        assert Shr(b, 1) == 0;
      }
    }
  }
}
