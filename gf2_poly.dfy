/**
 * Polynomials over GF(2) as `std::bitset<512>` values: coefficient i is
 * bit i of a natural number.  Addition is XOR; `ClMul` is the exact
 * carry-less product, and the bitset product `mul` is `ClMul` cut to
 * the bitset width.  The ring laws of `ClMul` are proved here, with
 * degrees, long division and the Euclidean gcd built on them.
 */
module Gf2Poly {
  import opened Bits

  /** `MAX_BITS`: the bitset width. */
  const MaxBits: nat := 512

  // ---------------------------------------------------------------------
  // Degree

  /** Index of the highest set coefficient, -1 for the zero polynomial. */
  function Deg(p: nat): (d: int)
    ensures d >= -1
    ensures d == -1 <==> p == 0
  {
    if p == 0 then -1 else 1 + Deg(p / 2)
  }

  /** A nonzero polynomial of degree d lies in [2^d, 2^(d+1)). */
  lemma {:induction false} DegBounds(p: nat)
    requires p > 0
    ensures Pow2(Deg(p)) <= p < Pow2(Deg(p) + 1)
    decreases p
  {
    if p > 1 {
      DegBounds(p / 2);
    }
  }

  /** Conversely, [2^k, 2^(k+1)) pins the degree to k. */
  lemma {:induction false} DegFromBounds(p: nat, k: nat)
    requires Pow2(k) <= p < Pow2(k + 1)
    ensures Deg(p) == k
    decreases k
  {
    if k > 0 {
      DegFromBounds(p / 2, k - 1);
    }
  }

  /** Fitting in n bits is having degree below n. */
  lemma DegBelow(p: nat, n: nat)
    ensures p < Pow2(n) <==> Deg(p) < n
  {
    if p > 0 {
      DegBounds(p);
      if Deg(p) < n {
        Pow2Mono(Deg(p) + 1, n);
      } else {
        Pow2Mono(n, Deg(p));
      }
    }
  }

  /** A set bit k puts the value at or above 2^k. */
  lemma BitLower(x: nat, k: nat)
    requires Bit(x, k)
    ensures Pow2(k) <= x && k <= Deg(x)
  {
    if x < Pow2(k) {
      BitAbove(x, k, k);
    }
    NonZeroFromBit(x, k);
    DegBounds(x);
    if Deg(x) < k {
      Pow2Mono(Deg(x) + 1, k);
    }
  }

  /** The degree is the highest set bit: it is set and nothing above it is. */
  lemma DegTopBit(p: nat, k: nat)
    requires p > 0
    ensures Bit(p, Deg(p))
    ensures Deg(p) < k ==> !Bit(p, k)
  {
    DegBounds(p);
    if Deg(p) < k {
      BitAbove(p, Deg(p) + 1, k);
    }
    if !Bit(p, Deg(p)) {
      DropTopBit(p, Deg(p));
    }
  }

  /** A value below 2^(n+1) without bit n is below 2^n. */
  lemma DropTopBit(x: nat, n: nat)
    requires x < Pow2(n + 1) && !Bit(x, n)
    ensures x < Pow2(n)
  {
    forall k: nat | n <= k
      ensures !Bit(x, k)
    {
      if k > n {
        BitAbove(x, n + 1, k);
      }
    }
    BelowFromBits(x, n);
  }

  /** Doubling (`<< 1`) raises the degree of a nonzero polynomial by one. */
  lemma DegDouble(p: nat)
    requires p > 0
    ensures Deg(2 * p) == Deg(p) + 1
  {
    assert (2 * p) / 2 == p;
  }

  /** The sum has degree at most the larger one, and exactly the larger when they differ. */
  lemma DegXor(a: nat, b: nat)
    ensures Deg(Xor(a, b)) <= if Deg(a) < Deg(b) then Deg(b) else Deg(a)
    ensures Deg(a) < Deg(b) ==> Deg(Xor(a, b)) == Deg(b)
  {
    var m := if Deg(a) < Deg(b) then Deg(b) else Deg(a);
    if m >= 0 {
      DegBelow(a, m + 1);
      DegBelow(b, m + 1);
      XorBelow(a, b, m + 1);
      DegBelow(Xor(a, b), m + 1);
      if Deg(a) < Deg(b) {
        DegTopBit(b, 0);
        DegBelow(a, Deg(b));
        BitAbove(a, Deg(b), Deg(b));
        BitXor(a, b, Deg(b));
        BitLower(Xor(a, b), Deg(b));
      }
    } else {
      XorZero(0);
    }
  }

  // ---------------------------------------------------------------------
  // Constants

  /**
   * `isConst(p, one)`: with `one`, p is the polynomial 1 (one set bit, the
   * constant term); without, p is zero.
   */
  function IsConst(p: nat, one: bool): (r: bool)
    ensures r <==> if one then p == 1 else p == 0
  {
    if one then
      PopcountOne(p);
      Popcount(p) == 1 && Bit(p, 0)
    else p == 0
  }

  lemma PopcountOne(p: nat)
    ensures Popcount(p) == 1 && Bit(p, 0) <==> p == 1
  {
    if Popcount(p) == 1 && Bit(p, 0) {
      PopcountZero(p / 2);
    }
  }

  lemma {:induction false} PopcountZero(x: nat)
    requires Popcount(x) == 0
    ensures x == 0
  {
    if x > 0 {
      PopcountZero(x / 2);
    }
  }

  // ---------------------------------------------------------------------
  // The carry-less product

  /** The exact product: a's low coefficient times b, plus x times (a / x) times b. */
  function ClMul(a: nat, b: nat): nat
    decreases a
  {
    if a == 0 then 0 else Xor(if a % 2 == 1 then b else 0, 2 * ClMul(a / 2, b))
  }

  /** `2 * (a ^ b) == (2 * a) ^ (2 * b)`. */
  lemma XorDouble(a: nat, b: nat)
    ensures Xor(2 * a, 2 * b) == 2 * Xor(a, b)
  {
    XorUnfold(2 * a, 2 * b);
    assert (2 * a) / 2 == a && (2 * b) / 2 == b;
  }

  /** An odd value is 1 plus twice its half. */
  lemma XorOdd(h: nat)
    ensures Xor(1, 2 * h) == 2 * h + 1
  {
    XorUnfold(1, 2 * h);
    assert (2 * h) / 2 == h;
    XorZero(h);
  }

  lemma ClMulZeroRight(a: nat)
    ensures ClMul(a, 0) == 0
    decreases a
  {
    if a > 0 {
      ClMulZeroRight(a / 2);
      XorZero(0);
    }
  }

  lemma ClMulOne(b: nat)
    ensures ClMul(1, b) == b && ClMul(b, 1) == b
  {
    XorZero(b);
    ClMulRightOne(b);
  }

  lemma {:induction false} ClMulRightOne(a: nat)
    ensures ClMul(a, 1) == a
    decreases a
  {
    if a > 0 {
      ClMulRightOne(a / 2);
      if a % 2 == 1 {
        XorOdd(a / 2);
      } else {
        XorZero(2 * (a / 2));
      }
    }
  }

  /** `(x * a) * b == x * (a * b)`: shifting the left factor shifts the product. */
  lemma ClMulDouble(a: nat, b: nat)
    ensures ClMul(2 * a, b) == 2 * ClMul(a, b)
  {
    if a > 0 {
      assert (2 * a) / 2 == a && (2 * a) % 2 == 0;
      XorZero(2 * ClMul(a, b));
    }
  }

  /** Shifting the right factor shifts the product too. */
  lemma {:induction false} ClMulDoubleRight(a: nat, b: nat)
    ensures ClMul(a, 2 * b) == 2 * ClMul(a, b)
    decreases a
  {
    if a > 0 {
      ClMulDoubleRight(a / 2, b);
      var low := if a % 2 == 1 then b else 0;
      assert (if a % 2 == 1 then 2 * b else 0) == 2 * low;
      XorDouble(low, 2 * ClMul(a / 2, b));
    }
  }

  /** The product distributes over a sum in the left factor. */
  lemma {:induction false} ClMulXorLeft(a1: nat, a2: nat, b: nat)
    ensures ClMul(Xor(a1, a2), b) == Xor(ClMul(a1, b), ClMul(a2, b))
    decreases a1 + a2
  {
    var x := Xor(a1, a2);
    if a1 == 0 {
      XorZero(a2);
      XorZero(ClMul(a2, b));
    } else if a2 == 0 {
      XorZero(a1);
      XorZero(ClMul(a1, b));
    } else if x == 0 {
      XorZeroIff(a1, a2);
      XorSelf(ClMul(a1, b));
    } else {
      XorUnfold(a1, a2);
      ClMulXorLeft(a1 / 2, a2 / 2, b);
      var b1 := if a1 % 2 == 1 then b else 0;
      var b2 := if a2 % 2 == 1 then b else 0;
      var c1 := ClMul(a1 / 2, b);
      var c2 := ClMul(a2 / 2, b);
      assert (if x % 2 == 1 then b else 0) == Xor(b1, b2) by {
        XorSelf(b);
        XorZero(b);
        XorZero(0);
      }
      XorDouble(c1, c2);
      XorSwapMiddle(b1, b2, 2 * c1, 2 * c2);
    }
  }

  /** The product distributes over a sum in the right factor. */
  lemma {:induction false} ClMulXorRight(a: nat, b: nat, c: nat)
    ensures ClMul(a, Xor(b, c)) == Xor(ClMul(a, b), ClMul(a, c))
    decreases a
  {
    if a == 0 {
      XorZero(0);
    } else {
      ClMulXorRight(a / 2, b, c);
      var lb := if a % 2 == 1 then b else 0;
      var lc := if a % 2 == 1 then c else 0;
      assert (if a % 2 == 1 then Xor(b, c) else 0) == Xor(lb, lc) by {
        XorZero(0);
      }
      XorDouble(ClMul(a / 2, b), ClMul(a / 2, c));
      XorSwapMiddle(lb, lc, 2 * ClMul(a / 2, b), 2 * ClMul(a / 2, c));
    }
  }

  /** The product is commutative. */
  lemma {:induction false} ClMulComm(a: nat, b: nat)
    ensures ClMul(a, b) == ClMul(b, a)
    decreases a + b
  {
    if a == 0 {
      ClMulZeroRight(b);
    } else if b == 0 {
      ClMulZeroRight(a);
    } else {
      ClMulComm(a / 2, b);
      ClMulComm(b / 2, a);
      ClMulComm(a / 2, b / 2);
      Expand(a, b);
      Expand(b, a);
      var m := ClMul(b / 2, a / 2);
      var ab := if a % 2 == 1 then b else 0;
      var ba := if b % 2 == 1 then a else 0;
      var bah := if b % 2 == 1 then a / 2 else 0;
      var abh := if a % 2 == 1 then b / 2 else 0;
      XorAssoc(ab, 2 * bah, 4 * m);
      XorAssoc(ba, 2 * abh, 4 * m);
      CrossTerms(a, b);
    }
  }

  /** Two steps of the definition, with the inner product commuted. */
  lemma Expand(a: nat, b: nat)
    requires a > 0 && ClMul(a / 2, b) == ClMul(b, a / 2)
    ensures ClMul(a, b) == Xor(if a % 2 == 1 then b else 0,
                               Xor(2 * (if b % 2 == 1 then a / 2 else 0), 4 * ClMul(b / 2, a / 2)))
  {
    var m := ClMul(b / 2, a / 2);
    var bah := if b % 2 == 1 then a / 2 else 0;
    var ab := if a % 2 == 1 then b else 0;
    assert ClMul(a, b) == Xor(ab, 2 * ClMul(b, a / 2));
    assert ClMul(b, a / 2) == Xor(bah, 2 * m) by {
      if b == 0 {
        XorZero(0);
      }
    }
    XorDouble(bah, 2 * m);
    assert 2 * (2 * m) == 4 * m;
  }

  /** The degree-0 and degree-1 cross terms of a * b and b * a agree. */
  lemma CrossTerms(a: nat, b: nat)
    ensures Xor(if a % 2 == 1 then b else 0, 2 * (if b % 2 == 1 then a / 2 else 0))
         == Xor(if b % 2 == 1 then a else 0, 2 * (if a % 2 == 1 then b / 2 else 0))
  {
    XorZero(0);
    XorZero(b);
    XorZero(a);
    XorZero(2 * (a / 2));
    XorZero(2 * (b / 2));
    if a % 2 == 1 && b % 2 == 1 {
      XorUnfold(b, 2 * (a / 2));
      XorUnfold(a, 2 * (b / 2));
      assert (2 * (a / 2)) / 2 == a / 2 && (2 * (b / 2)) / 2 == b / 2;
      XorComm(a / 2, b / 2);
      assert Xor(b, 2 * (a / 2)) / 2 == Xor(a, 2 * (b / 2)) / 2;
    }
  }

  /** The product is associative. */
  lemma {:induction false} ClMulAssoc(a: nat, b: nat, c: nat)
    ensures ClMul(ClMul(a, b), c) == ClMul(a, ClMul(b, c))
    decreases a
  {
    if a > 0 {
      var low := if a % 2 == 1 then b else 0;
      ClMulXorLeft(low, 2 * ClMul(a / 2, b), c);
      ClMulDouble(ClMul(a / 2, b), c);
      ClMulAssoc(a / 2, b, c);
      assert ClMul(low, c) == if a % 2 == 1 then ClMul(b, c) else 0;
    }
  }

  /** `b << s` is the product with x^s. */
  lemma {:induction false} ClMulPow2(s: nat, b: nat)
    ensures ClMul(Pow2(s), b) == Shl(b, s)
    decreases s
  {
    if s == 0 {
      ClMulOne(b);
    } else {
      ClMulDouble(Pow2(s - 1), b);
      ClMulPow2(s - 1, b);
      ShlSucc(b, s);
    }
  }

  lemma ShlSucc(b: nat, s: nat)
    requires s > 0
    ensures Shl(b, s) == 2 * Shl(b, s - 1)
  {
    var p := Pow2(s - 1);
    assert b * (2 * p) == 2 * (b * p);
  }

  /** GF(2)[x] has no zero divisors: degrees add. */
  lemma {:induction false} DegClMul(y: nat, d: nat)
    requires y > 0 && d > 0
    ensures Deg(ClMul(y, d)) == Deg(y) + Deg(d)
    decreases y
  {
    if y == 1 {
      ClMulOne(d);
    } else {
      DegClMul(y / 2, d);
      var c := ClMul(y / 2, d);
      DegDouble(c);
      DegXor(if y % 2 == 1 then d else 0, 2 * c);
    }
  }

  /** The exact product of polynomials of degree below m and n has degree below m + n. */
  lemma ClMulBelow(a: nat, b: nat, m: nat, n: nat)
    requires a < Pow2(m) && b < Pow2(n)
    ensures ClMul(a, b) < Pow2(m + n)
  {
    if a == 0 {
    } else if b == 0 {
      ClMulZeroRight(a);
    } else {
      DegBelow(a, m);
      DegBelow(b, n);
      DegClMul(a, b);
      DegBelow(ClMul(a, b), m + n);
    }
  }

  /** Multiplying by x never creates bits below the lowest bit of b. */
  lemma {:induction false} NoBitsBelowCtz(x: nat, b: nat, k: nat)
    requires b > 0 && k < Ctz(b)
    ensures !Bit(ClMul(x, b), k)
    decreases x
  {
    if x == 0 {
      ZeroHasNoBit(k);
    } else {
      var c := ClMul(x / 2, b);
      CtzIsLowest(b, k);
      ZeroHasNoBit(k);
      BitXor(if x % 2 == 1 then b else 0, 2 * c, k);
      if k > 0 {
        NoBitsBelowCtz(x / 2, b, k - 1);
        BitSucc(2 * c, k - 1);
        assert (2 * c) / 2 == c;
      }
    }
  }

  /** The lowest bit of a product is the sum of the lowest bits. */
  lemma {:induction false} LowestBitOfProduct(a: nat, b: nat)
    requires a > 0 && b > 0
    ensures Bit(ClMul(a, b), Ctz(a) + Ctz(b))
    decreases a
  {
    var c := ClMul(a / 2, b);
    if a % 2 == 0 {
      LowestBitOfProduct(a / 2, b);
      XorZero(2 * c);
      BitSucc(2 * c, Ctz(a / 2) + Ctz(b));
      assert (2 * c) / 2 == c;
    } else {
      CtzIsLowest(b, 0);
      BitXor(b, 2 * c, Ctz(b));
      if Ctz(b) > 0 {
        NoBitsBelowCtz(a / 2, b, Ctz(b) - 1);
        BitSucc(2 * c, Ctz(b) - 1);
        assert (2 * c) / 2 == c;
      }
    }
  }

  /** The lowest set bit is at most the degree. */
  lemma CtzBelowDeg(x: nat)
    requires x > 0
    ensures Ctz(x) <= Deg(x)
  {
    CtzIsLowest(x, 0);
    BitLower(x, Ctz(x));
  }

  // ---------------------------------------------------------------------
  // Bitset operations

  /** `b << s` on a bitset of `width` bits: bits shifted past the top are lost. */
  function ShiftIn(b: nat, s: nat, width: nat): nat {
    LowBits(Shl(b, s), width)
  }

  /** `deg`: scan from the top bit down; -1 when no bit is set. */
  method Degree(p: nat, width: nat) returns (d: int)
    requires p < Pow2(width)
    ensures d == Deg(p)
  {
    var i: nat := width;
    while i > 0
      invariant i <= width && p < Pow2(i)
    {
      i := i - 1;
      if Bit(p, i) {
        BitLower(p, i);
        DegBelow(p, i + 1);
        return i;
      }
      DropTopBit(p, i);
    }
    return -1;
  }

  /** Cutting to a width distributes over XOR. */
  lemma LowBitsXor(x: nat, y: nat, w: nat)
    ensures LowBits(Xor(x, y), w) == Xor(LowBits(x, w), LowBits(y, w))
  {
    forall k: nat
      ensures Bit(LowBits(Xor(x, y), w), k) == Bit(Xor(LowBits(x, w), LowBits(y, w)), k)
    {
      BitLow(Xor(x, y), w, k);
      BitXor(x, y, k);
      BitXor(LowBits(x, w), LowBits(y, w), k);
      BitLow(x, w, k);
      BitLow(y, w, k);
    }
    BitExt(LowBits(Xor(x, y), w), Xor(LowBits(x, w), LowBits(y, w)));
  }

  /** The low i + 1 bits are the low i bits plus bit i. */
  lemma LowBitsSucc(a: nat, i: nat)
    ensures LowBits(a, i + 1) == Xor(LowBits(a, i), if Bit(a, i) then Pow2(i) else 0)
  {
    var e := if Bit(a, i) then Pow2(i) else 0;
    forall k: nat
      ensures Bit(LowBits(a, i + 1), k) == Bit(Xor(LowBits(a, i), e), k)
    {
      BitLow(a, i + 1, k);
      BitLow(a, i, k);
      BitXor(LowBits(a, i), e, k);
      BitPow2(i, k);
      ZeroHasNoBit(k);
    }
    BitExt(LowBits(a, i + 1), Xor(LowBits(a, i), e));
  }

  /** One pass of `mul`'s loop adds `b << i` when bit i of a is set. */
  lemma MulStep(a: nat, b: nat, i: nat, width: nat)
    ensures LowBits(ClMul(LowBits(a, i + 1), b), width)
         == Xor(LowBits(ClMul(LowBits(a, i), b), width), if Bit(a, i) then ShiftIn(b, i, width) else 0)
  {
    var e := if Bit(a, i) then Pow2(i) else 0;
    LowBitsSucc(a, i);
    ClMulXorLeft(LowBits(a, i), e, b);
    LowBitsXor(ClMul(LowBits(a, i), b), ClMul(e, b), width);
    if Bit(a, i) {
      ClMulPow2(i, b);
    } else {
      LowBitsOfSmall(0, width);
    }
  }

  /** `mul`: XOR of `b << i` over the set bits i of a, i.e. the product cut to the width. */
  method Mul(a: nat, b: nat, width: nat) returns (r: nat)
    requires a < Pow2(width) && b < Pow2(width)
    ensures r == LowBits(ClMul(a, b), width)
  {
    r := 0;
    LowBitsOfSmall(0, width);
    var da := Degree(a, width);
    if da < 0 {
      return;
    }
    for i := 0 to da + 1
      invariant r == LowBits(ClMul(LowBits(a, i), b), width)
    {
      MulStep(a, b, i, width);
      if Bit(a, i) {
        r := Xor(r, ShiftIn(b, i, width));
      } else {
        XorZero(r);
      }
    }
    DegBounds(a);
    LowBitsOfSmall(a, da + 1);
  }

  /** The bitset product is exact when the degrees leave room. */
  lemma MulExact(a: nat, b: nat, m: nat, n: nat, width: nat)
    requires a < Pow2(m) && b < Pow2(n) && m + n <= width
    ensures LowBits(ClMul(a, b), width) == ClMul(a, b)
  {
    ClMulBelow(a, b, m, n);
    Pow2Mono(m + n, width);
    LowBitsOfSmall(ClMul(a, b), width);
  }

  // ---------------------------------------------------------------------
  // Long division

  /** Cancelling the top coefficient of a with `b << (deg a - deg b)` lowers the degree. */
  lemma CancelTop(a: nat, b: nat)
    requires b != 0 && Deg(a) >= Deg(b)
    ensures Deg(Shl(b, Deg(a) - Deg(b))) == Deg(a)
    ensures Deg(Xor(a, Shl(b, Deg(a) - Deg(b)))) < Deg(a)
  {
    var s := Deg(a) - Deg(b);
    var t := Shl(b, s);
    DegShl(b, s);
    DegBelow(a, Deg(a) + 1);
    DegBelow(t, Deg(a) + 1);
    XorBelow(a, t, Deg(a) + 1);
    DegTopBit(a, 0);
    DegTopBit(t, 0);
    BitXor(a, t, Deg(a));
    DropTopBit(Xor(a, t), Deg(a));
    DegBelow(Xor(a, t), Deg(a));
  }

  /** Shifting by s raises the degree of a nonzero polynomial by s. */
  lemma DegShl(b: nat, s: nat)
    requires b != 0
    ensures Deg(Shl(b, s)) == Deg(b) + s
  {
    ClMulPow2(s, b);
    DegClMul(Pow2(s), b);
    DegFromBounds(Pow2(s), s) by {
      Pow2Mono(s, s + 1);
    }
  }

  /** Quotient and remainder of GF(2)[x] long division. */
  function QuoRem(a: nat, b: nat): (nat, nat)
    requires b != 0
    decreases Deg(a) + 1
  {
    if Deg(a) < Deg(b) then (0, a)
    else
      CancelTop(a, b);
      var s := Deg(a) - Deg(b);
      var rest := QuoRem(Xor(a, Shl(b, s)), b);
      (Xor(rest.0, Pow2(s)), rest.1)
  }

  function Quotient(a: nat, b: nat): nat
    requires b != 0
  {
    QuoRem(a, b).0
  }

  function Remainder(a: nat, b: nat): nat
    requires b != 0
  {
    QuoRem(a, b).1
  }

  /** Division: a == q * b + r with deg r < deg b. */
  lemma {:induction false} Division(a: nat, b: nat)
    requires b != 0
    ensures a == Xor(ClMul(Quotient(a, b), b), Remainder(a, b))
    ensures Deg(Remainder(a, b)) < Deg(b)
    decreases Deg(a) + 1
  {
    if Deg(a) < Deg(b) {
      XorZero(a);
    } else {
      CancelTop(a, b);
      var s := Deg(a) - Deg(b);
      var t := Shl(b, s);
      var a' := Xor(a, t);
      Division(a', b);
      var q', r := Quotient(a', b), Remainder(a', b);
      ClMulXorLeft(q', Pow2(s), b);
      ClMulPow2(s, b);
      // a == a' + t == (q' b + r) + t == (q' + x^s) b + r
      XorCancel(a, t);
      XorAssoc(ClMul(q', b), r, t);
      XorComm(r, t);
      XorAssoc(ClMul(q', b), t, r);
    }
  }

  /** Quotient and remainder are the only pair with that property. */
  lemma DivisionUnique(a: nat, b: nat, q: nat, r: nat)
    requires b != 0 && a == Xor(ClMul(q, b), r) && Deg(r) < Deg(b)
    ensures q == Quotient(a, b) && r == Remainder(a, b)
  {
    Division(a, b);
    var q', r' := Quotient(a, b), Remainder(a, b);
    // q b + q' b == r + r', whose degree is below deg b
    XorSwapMiddle(ClMul(q, b), r, ClMul(q', b), r');
    XorSelf(a);
    XorZeroIff(Xor(ClMul(q, b), ClMul(q', b)), Xor(r, r'));
    ClMulXorLeft(q, q', b);
    DegXor(r, r');
    if Xor(q, q') != 0 {
      DegClMul(Xor(q, q'), b);
    }
    XorZeroIff(q, q');
    XorZero(r);
    ClMulZeroLeft(b);
    XorZeroIff(r, r');
  }

  lemma ClMulZeroLeft(b: nat)
    ensures ClMul(0, b) == 0
  {
  }

  /** `b.set(s)` on a bit that is clear adds x^s. */
  lemma SetClearBit(q: nat, s: nat)
    requires !Bit(q, s)
    ensures Or(q, Pow2(s)) == Xor(q, Pow2(s))
    ensures forall k: nat :: Bit(Or(q, Pow2(s)), k) <==> Bit(q, k) || k == s
  {
    forall k: nat
      ensures Bit(Or(q, Pow2(s)), k) == Bit(Xor(q, Pow2(s)), k)
      ensures Bit(Or(q, Pow2(s)), k) <==> Bit(q, k) || k == s
    {
      BitOr(q, Pow2(s), k);
      BitXor(q, Pow2(s), k);
      BitPow2(s, k);
    }
    BitExt(Or(q, Pow2(s)), Xor(q, Pow2(s)));
  }

  /** One pass of `divOrRem`'s loop keeps a0 == q * b + a and lowers deg a. */
  lemma DivStep(a0: nat, q: nat, a: nat, b: nat, width: nat)
    requires b != 0 && a < Pow2(width) && Deg(a) >= Deg(b)
    requires a0 == Xor(ClMul(q, b), a) && !Bit(q, Deg(a) - Deg(b))
    ensures var s := Deg(a) - Deg(b);
      var a' := Xor(a, ShiftIn(b, s, width));
      a0 == Xor(ClMul(Or(q, Pow2(s)), b), a') && Deg(a') < Deg(a) && a' < Pow2(width)
  {
    var s := Deg(a) - Deg(b);
    var t := Shl(b, s);
    CancelTop(a, b);
    DegBelow(a, width);
    DegBelow(t, width);
    LowBitsOfSmall(t, width);
    var a' := Xor(a, t);
    DegBelow(a', width);
    SetClearBit(q, s);
    ClMulXorLeft(q, Pow2(s), b);
    ClMulPow2(s, b);
    // (q b + t) + (a + t) == q b + a
    XorSwapMiddle(ClMul(q, b), t, a, t);
    XorSelf(t);
    XorZero(Xor(ClMul(q, b), a));
  }

  /**
   * `divOrRem`: cancel the top coefficient of a with `b << (deg a - deg b)`
   * and record the shift in q until deg a < deg b; return the remainder
   * or the quotient.  With b == 0 the source never leaves the loop, so
   * b != 0 is required.
   */
  method DivOrRem(a0: nat, b: nat, wantRem: bool, width: nat) returns (res: nat)
    requires a0 < Pow2(width) && b < Pow2(width) && b != 0
    ensures res == if wantRem then Remainder(a0, b) else Quotient(a0, b)
    ensures res < Pow2(width)
  {
    var q: nat := 0;
    var a: nat := a0;
    var db := Degree(b, width);
    var da := Degree(a, width);
    ClMulZeroLeft(b);
    XorZero(a0);
    while da >= db
      invariant a < Pow2(width) && da == Deg(a) && db == Deg(b)
      invariant a0 == Xor(ClMul(q, b), a)
      invariant forall k: nat :: Bit(q, k) ==> k > Deg(a) - Deg(b)
      decreases da + 1
    {
      var shift := da - db;
      DivStep(a0, q, a, b, width);
      SetClearBit(q, shift);
      q := Or(q, Pow2(shift));
      a := Xor(a, ShiftIn(b, shift, width));
      da := Degree(a, width);
    }
    DivisionUnique(a0, b, q, a);
    if wantRem {
      res := a;
    } else {
      res := q;
      QuotientBelow(a0, b, width);
    }
  }

  /** The quotient is no wider than the dividend. */
  lemma QuotientBelow(a: nat, b: nat, width: nat)
    requires b != 0 && a < Pow2(width)
    ensures Quotient(a, b) < Pow2(width)
    ensures Quotient(a, b) != 0 ==> Deg(Quotient(a, b)) + Deg(b) == Deg(a)
  {
    Division(a, b);
    var q, r := Quotient(a, b), Remainder(a, b);
    if q != 0 {
      DegClMul(q, b);
      DegXor(r, ClMul(q, b));
      XorComm(r, ClMul(q, b));
      DegBelow(a, width);
      DegBelow(q, width);
    }
  }

  /** `rem`. */
  method Rem(a: nat, b: nat, width: nat) returns (r: nat)
    requires a < Pow2(width) && b < Pow2(width) && b != 0
    ensures r == Remainder(a, b) && r < Pow2(width)
  {
    r := DivOrRem(a, b, true, width);
  }

  /** `quo`. */
  method Quo(a: nat, b: nat, width: nat) returns (q: nat)
    requires a < Pow2(width) && b < Pow2(width) && b != 0
    ensures q == Quotient(a, b) && q < Pow2(width)
  {
    q := DivOrRem(a, b, false, width);
  }

  /** Adding a multiple of f does not change the remainder modulo f. */
  lemma RemainderOfShifted(x: nat, k: nat, y: nat, f: nat)
    requires f != 0 && x == Xor(ClMul(k, f), y)
    ensures Remainder(x, f) == Remainder(y, f)
  {
    Division(y, f);
    var q, r := Quotient(y, f), Remainder(y, f);
    XorAssoc(ClMul(k, f), ClMul(q, f), r);
    ClMulXorLeft(k, q, f);
    DivisionUnique(x, f, Xor(k, q), r);
  }

  /** Remainders may be taken before multiplying. */
  lemma RemainderOfProduct(a: nat, b: nat, f: nat)
    requires f != 0
    ensures Remainder(ClMul(Remainder(a, f), Remainder(b, f)), f) == Remainder(ClMul(a, b), f)
  {
    Division(a, f);
    Division(b, f);
    var qa, ra := Quotient(a, f), Remainder(a, f);
    var qb, rb := Quotient(b, f), Remainder(b, f);
    // a b == qa f b + ra qb f + ra rb
    ClMulXorLeft(ClMul(qa, f), ra, b);
    ClMulXorRight(ra, ClMul(qb, f), rb);
    XorAssoc(ClMul(ClMul(qa, f), b), ClMul(ra, ClMul(qb, f)), ClMul(ra, rb));
    ClMulAssoc(qa, f, b);
    ClMulComm(f, b);
    ClMulAssoc(qa, b, f);
    ClMulAssoc(ra, qb, f);
    ClMulXorLeft(ClMul(qa, b), ClMul(ra, qb), f);
    RemainderOfShifted(ClMul(a, b), Xor(ClMul(qa, b), ClMul(ra, qb)), ClMul(ra, rb), f);
  }

  /** A polynomial of lower degree is its own remainder. */
  lemma RemainderOfSmall(a: nat, f: nat)
    requires f != 0 && Deg(a) < Deg(f)
    ensures Remainder(a, f) == a && Quotient(a, f) == 0
  {
  }

  /** x^a * x^b == x^(a + b). */
  lemma ClMulPow2Pow2(a: nat, b: nat)
    ensures ClMul(Pow2(a), Pow2(b)) == Pow2(a + b)
  {
    ClMulPow2(a, Pow2(b));
    Pow2Add(b, a);
  }

  // ---------------------------------------------------------------------
  // Divisibility and the gcd

  /** d divides a in GF(2)[x]. */
  ghost predicate Divides(d: nat, a: nat) {
    exists x: nat :: ClMul(x, d) == a
  }

  /** A nonzero divisor divides exactly: d * (a / d) == a. */
  lemma DividesExactly(d: nat, a: nat)
    requires d != 0 && Divides(d, a)
    ensures ClMul(d, Quotient(a, d)) == a && Remainder(a, d) == 0
  {
    var x: nat :| ClMul(x, d) == a;
    XorZero(a);
    DivisionUnique(a, d, x, 0);
    ClMulComm(x, d);
  }

  /** Euclid: gcd(a, 0) == a, gcd(a, b) == gcd(b, a mod b). */
  function GcdOf(a: nat, b: nat): nat
    decreases Deg(b) + 1
  {
    if b == 0 then a
    else
      Division(a, b);
      GcdOf(b, Remainder(a, b))
  }

  /** With a == q * b + r, the common divisors of a and b are those of b and r. */
  lemma CommonDivisorsStep(a: nat, b: nat, q: nat, r: nat, d: nat)
    requires a == Xor(ClMul(q, b), r)
    ensures Divides(d, a) && Divides(d, b) <==> Divides(d, b) && Divides(d, r)
  {
    XorCancel(r, ClMul(q, b));
    XorComm(r, ClMul(q, b));
    if Divides(d, a) && Divides(d, b) {
      var x: nat :| ClMul(x, d) == a;
      var y: nat :| ClMul(y, d) == b;
      ClMulAssoc(q, y, d);
      ClMulXorLeft(x, ClMul(q, y), d);
      assert ClMul(Xor(x, ClMul(q, y)), d) == r;
    }
    if Divides(d, b) && Divides(d, r) {
      var y: nat :| ClMul(y, d) == b;
      var z: nat :| ClMul(z, d) == r;
      ClMulAssoc(q, y, d);
      ClMulXorLeft(ClMul(q, y), z, d);
      assert ClMul(Xor(ClMul(q, y), z), d) == a;
    }
  }

  /** The divisors of gcd(a, b) are exactly the common divisors of a and b. */
  lemma {:induction false} GcdDivisors(a: nat, b: nat, d: nat)
    ensures Divides(d, GcdOf(a, b)) <==> Divides(d, a) && Divides(d, b)
    decreases Deg(b) + 1
  {
    if b == 0 {
      ClMulZeroLeft(d);
      assert ClMul(0, d) == 0;
    } else {
      Division(a, b);
      GcdDivisors(b, Remainder(a, b), d);
      CommonDivisorsStep(a, b, Quotient(a, b), Remainder(a, b), d);
    }
  }

  /** gcd(a, b) is a common divisor, and every common divisor divides it. */
  lemma GcdIsGreatest(a: nat, b: nat)
    ensures Divides(GcdOf(a, b), a) && Divides(GcdOf(a, b), b)
    ensures forall d: nat :: Divides(d, a) && Divides(d, b) ==> Divides(d, GcdOf(a, b))
  {
    var g := GcdOf(a, b);
    ClMulOne(g);
    assert ClMul(1, g) == g;
    GcdDivisors(a, b, g);
    forall d: nat | Divides(d, a) && Divides(d, b)
      ensures Divides(d, g)
    {
      GcdDivisors(a, b, d);
    }
  }

  /** `gcd`: the Euclidean loop, ending when b becomes zero. */
  method Gcd(a0: nat, b0: nat, width: nat) returns (g: nat)
    requires a0 < Pow2(width) && b0 < Pow2(width)
    ensures g == GcdOf(a0, b0) && g < Pow2(width)
    ensures Divides(g, a0) && Divides(g, b0)
  {
    var a: nat, b: nat := a0, b0;
    while b != 0
      invariant a < Pow2(width) && b < Pow2(width)
      invariant GcdOf(a, b) == GcdOf(a0, b0)
      decreases Deg(b) + 1
    {
      var r := Rem(a, b, width);
      Division(a, b);
      a, b := b, r;
    }
    g := a;
    GcdIsGreatest(a0, b0);
  }
}
