/**
 * Machine words as natural numbers, with the bitwise operators of C and
 * Python (`>>`, `&`, `|`, `^`, `x & (x - 1)`, count-trailing-zeros,
 * popcount) defined bit by bit.  Fixed widths (uint8_t, uint32_t,
 * uint64_t) are the subset types below; every operator keeps a value
 * inside a width, which the `...Below` lemmas state.
 */
module Bits {

  type byte = x: nat | x < 256
  type u32 = x: nat | x < 0x1_0000_0000
  type u64 = x: nat | x < 0x1_0000_0000_0000_0000

  /** 2^k, i.e. `1 << k`. */
  function Pow2(k: nat): (r: nat)
    ensures r > 0
  {
    if k == 0 then 1 else 2 * Pow2(k - 1)
  }

  /** `x >> n`. */
  function Shr(x: nat, n: nat): (r: nat)
    ensures r <= x
  {
    if n == 0 then x else Shr(x / 2, n - 1)
  }

  /** `(x >> k) & 1`: bit k of x, bit 0 least significant. */
  predicate Bit(x: nat, k: nat) {
    Shr(x, k) % 2 == 1
  }

  /** `x & ((1 << n) - 1)`: the low n bits of x. */
  function LowBits(x: nat, n: nat): nat {
    if n == 0 then 0 else 2 * LowBits(x / 2, n - 1) + x % 2
  }

  /** `a ^ b`. */
  function Xor(a: nat, b: nat): nat
    decreases a + b
  {
    if a == 0 then b
    else if b == 0 then a
    else 2 * Xor(a / 2, b / 2) + (if a % 2 == b % 2 then 0 else 1)
  }

  /** `a & b`. */
  function And(a: nat, b: nat): nat
    decreases a + b
  {
    if a == 0 || b == 0 then 0
    else 2 * And(a / 2, b / 2) + (if a % 2 == 1 && b % 2 == 1 then 1 else 0)
  }

  /** `a | b`. */
  function Or(a: nat, b: nat): nat
    decreases a + b
  {
    if a == 0 then b
    else if b == 0 then a
    else 2 * Or(a / 2, b / 2) + (if a % 2 == 1 || b % 2 == 1 then 1 else 0)
  }

  /** Number of set bits. */
  function Popcount(x: nat): nat {
    if x == 0 then 0 else x % 2 + Popcount(x / 2)
  }

  /** Count of trailing zero bits (`__builtin_ctz`), defined for x != 0. */
  function Ctz(x: nat): nat
    requires x > 0
  {
    if x % 2 == 1 then 0 else 1 + Ctz(x / 2)
  }

  // ---------------------------------------------------------------------
  // Constants

  lemma Pow2Values()
    ensures Pow2(4) == 16 && Pow2(8) == 256 && Pow2(32) == 0x1_0000_0000
    ensures Pow2(64) == 0x1_0000_0000_0000_0000
  {
    Pow2Small();
    Pow2Add(16, 16);
    Pow2Add(32, 32);
  }

  lemma Pow2Small()
    ensures Pow2(4) == 16 && Pow2(8) == 256 && Pow2(16) == 0x1_0000
  {
    assert Pow2(4) == 16;
    Pow2Add(4, 4);
    Pow2Add(8, 8);
  }

  lemma {:induction false} Pow2Add(a: nat, b: nat)
    ensures Pow2(a + b) == Pow2(a) * Pow2(b)
    decreases a
  {
    if a > 0 {
      Pow2Add(a - 1, b);
    }
  }

  lemma {:induction false} Pow2Mono(a: nat, b: nat)
    requires a <= b
    ensures Pow2(a) <= Pow2(b)
    decreases b
  {
    if a < b {
      Pow2Mono(a, b - 1);
    }
  }

  // ---------------------------------------------------------------------
  // Single bits

  lemma BitSucc(x: nat, k: nat)
    ensures Bit(x, k + 1) <==> Bit(x / 2, k)
  {
    assert Shr(x, k + 1) == Shr(x / 2, k);
  }

  lemma {:induction false} ShrZero(n: nat)
    ensures Shr(0, n) == 0
    decreases n
  {
    if n > 0 {
      ShrZero(n - 1);
    }
  }

  lemma ZeroHasNoBit(k: nat)
    ensures !Bit(0, k)
  {
    ShrZero(k);
  }

  /** Two numbers with the same bits are equal. */
  lemma {:induction false} BitExt(a: nat, b: nat)
    requires forall k: nat :: Bit(a, k) == Bit(b, k)
    ensures a == b
    decreases a + b
  {
    if a != 0 || b != 0 {
      assert Bit(a, 0) == Bit(b, 0);
      forall k: nat
        ensures Bit(a / 2, k) == Bit(b / 2, k)
      {
        BitSucc(a, k);
        BitSucc(b, k);
        assert Bit(a, k + 1) == Bit(b, k + 1);
      }
      BitExt(a / 2, b / 2);
    }
  }

  /** A number with a bit set is not zero. */
  lemma NonZeroFromBit(x: nat, k: nat)
    requires Bit(x, k)
    ensures x != 0
  {
    if x == 0 {
      ZeroHasNoBit(k);
    }
  }

  lemma {:induction false} BitPow2(k: nat, j: nat)
    ensures Bit(Pow2(k), j) <==> j == k
    decreases k
  {
    if k == 0 {
      if j > 0 {
        BitSucc(1, j - 1);
        ZeroHasNoBit(j - 1);
      }
    } else {
      assert Pow2(k) / 2 == Pow2(k - 1);
      if j > 0 {
        BitSucc(Pow2(k), j - 1);
        BitPow2(k - 1, j - 1);
      }
    }
  }

  /** Bits at or above n are clear in a number below 2^n. */
  lemma {:induction false} BitAbove(x: nat, n: nat, k: nat)
    requires x < Pow2(n) && n <= k
    ensures !Bit(x, k)
    decreases n
  {
    if n == 0 {
      assert x == 0;
      ZeroHasNoBit(k);
    } else {
      BitSucc(x, k - 1);
      BitAbove(x / 2, n - 1, k - 1);
    }
  }

  /** Conversely, a number without bits at or above n is below 2^n. */
  lemma {:induction false} BelowFromBits(x: nat, n: nat)
    requires forall k: nat :: n <= k ==> !Bit(x, k)
    ensures x < Pow2(n)
    decreases x
  {
    if x != 0 {
      if n == 0 {
        BitExt(x, 0) by {
          forall k: nat ensures Bit(x, k) == Bit(0, k) {
            ZeroHasNoBit(k);
          }
        }
      } else {
        forall k: nat | n - 1 <= k
          ensures !Bit(x / 2, k)
        {
          BitSucc(x, k);
        }
        BelowFromBits(x / 2, n - 1);
      }
    }
  }

  // ---------------------------------------------------------------------
  // Bitwise operators, bit by bit

  lemma XorUnfold(a: nat, b: nat)
    ensures Xor(a, b) / 2 == Xor(a / 2, b / 2)
    ensures Xor(a, b) % 2 == (if a % 2 == b % 2 then 0 else 1)
  {
  }

  lemma AndUnfold(a: nat, b: nat)
    ensures And(a, b) / 2 == And(a / 2, b / 2)
    ensures And(a, b) % 2 == (if a % 2 == 1 && b % 2 == 1 then 1 else 0)
  {
  }

  lemma OrUnfold(a: nat, b: nat)
    ensures Or(a, b) / 2 == Or(a / 2, b / 2)
    ensures Or(a, b) % 2 == (if a % 2 == 1 || b % 2 == 1 then 1 else 0)
  {
  }

  lemma {:induction false} BitXor(a: nat, b: nat, k: nat)
    ensures Bit(Xor(a, b), k) <==> Bit(a, k) != Bit(b, k)
    decreases k
  {
    XorUnfold(a, b);
    if k > 0 {
      BitSucc(Xor(a, b), k - 1);
      BitSucc(a, k - 1);
      BitSucc(b, k - 1);
      BitXor(a / 2, b / 2, k - 1);
    }
  }

  lemma {:induction false} BitAnd(a: nat, b: nat, k: nat)
    ensures Bit(And(a, b), k) <==> Bit(a, k) && Bit(b, k)
    decreases k
  {
    AndUnfold(a, b);
    if k > 0 {
      BitSucc(And(a, b), k - 1);
      BitSucc(a, k - 1);
      BitSucc(b, k - 1);
      BitAnd(a / 2, b / 2, k - 1);
    }
  }

  lemma {:induction false} BitOr(a: nat, b: nat, k: nat)
    ensures Bit(Or(a, b), k) <==> Bit(a, k) || Bit(b, k)
    decreases k
  {
    OrUnfold(a, b);
    if k > 0 {
      BitSucc(Or(a, b), k - 1);
      BitSucc(a, k - 1);
      BitSucc(b, k - 1);
      BitOr(a / 2, b / 2, k - 1);
    }
  }

  lemma {:induction false} BitShr(x: nat, n: nat, k: nat)
    ensures Bit(Shr(x, n), k) <==> Bit(x, k + n)
    decreases n
  {
    if n > 0 {
      BitShr(x / 2, n - 1, k);
      BitSucc(x, k + n - 1);
    }
  }

  lemma {:induction false} BitLow(x: nat, n: nat, k: nat)
    ensures Bit(LowBits(x, n), k) <==> k < n && Bit(x, k)
    decreases n
  {
    if n == 0 {
      ZeroHasNoBit(k);
    } else {
      var l := LowBits(x / 2, n - 1);
      assert LowBits(x, n) / 2 == l && LowBits(x, n) % 2 == x % 2;
      if k > 0 {
        BitSucc(LowBits(x, n), k - 1);
        BitSucc(x, k - 1);
        BitLow(x / 2, n - 1, k - 1);
      }
    }
  }

  // ---------------------------------------------------------------------
  // Algebra of XOR

  lemma XorComm(a: nat, b: nat)
    ensures Xor(a, b) == Xor(b, a)
  {
    forall k: nat ensures Bit(Xor(a, b), k) == Bit(Xor(b, a), k) {
      BitXor(a, b, k);
      BitXor(b, a, k);
    }
    BitExt(Xor(a, b), Xor(b, a));
  }

  lemma XorAssoc(a: nat, b: nat, c: nat)
    ensures Xor(Xor(a, b), c) == Xor(a, Xor(b, c))
  {
    forall k: nat ensures Bit(Xor(Xor(a, b), c), k) == Bit(Xor(a, Xor(b, c)), k) {
      BitXor(Xor(a, b), c, k);
      BitXor(a, b, k);
      BitXor(a, Xor(b, c), k);
      BitXor(b, c, k);
    }
    BitExt(Xor(Xor(a, b), c), Xor(a, Xor(b, c)));
  }

  lemma XorZero(a: nat)
    ensures Xor(a, 0) == a && Xor(0, a) == a
  {
  }

  lemma XorSelf(a: nat)
    ensures Xor(a, a) == 0
  {
    forall k: nat ensures Bit(Xor(a, a), k) == Bit(0, k) {
      BitXor(a, a, k);
      ZeroHasNoBit(k);
    }
    BitExt(Xor(a, a), 0);
  }

  /** x ^ y == 0 exactly when x == y. */
  lemma XorZeroIff(a: nat, b: nat)
    ensures Xor(a, b) == 0 <==> a == b
  {
    if Xor(a, b) == 0 {
      forall k: nat ensures Bit(a, k) == Bit(b, k) {
        BitXor(a, b, k);
        ZeroHasNoBit(k);
      }
      BitExt(a, b);
    } else if a == b {
      XorSelf(a);
    }
  }

  /** (a ^ b) ^ b == a: XOR with the same value twice cancels. */
  lemma XorCancel(a: nat, b: nat)
    ensures Xor(Xor(a, b), b) == a
  {
    XorAssoc(a, b, b);
    XorSelf(b);
  }

  /** Rearranging four XOR terms: (a ^ b) ^ (c ^ d) == (a ^ c) ^ (b ^ d). */
  lemma XorSwapMiddle(a: nat, b: nat, c: nat, d: nat)
    ensures Xor(Xor(a, b), Xor(c, d)) == Xor(Xor(a, c), Xor(b, d))
  {
    forall k: nat ensures Bit(Xor(Xor(a, b), Xor(c, d)), k) == Bit(Xor(Xor(a, c), Xor(b, d)), k) {
      BitXor(Xor(a, b), Xor(c, d), k);
      BitXor(a, b, k);
      BitXor(c, d, k);
      BitXor(Xor(a, c), Xor(b, d), k);
      BitXor(a, c, k);
      BitXor(b, d, k);
    }
    BitExt(Xor(Xor(a, b), Xor(c, d)), Xor(Xor(a, c), Xor(b, d)));
  }

  /** `a | b` equals `a ^ b` when no bit is shared. */
  lemma OrDisjoint(a: nat, b: nat)
    requires And(a, b) == 0
    ensures Or(a, b) == Xor(a, b)
  {
    forall k: nat ensures Bit(Or(a, b), k) == Bit(Xor(a, b), k) {
      BitOr(a, b, k);
      BitXor(a, b, k);
      BitAnd(a, b, k);
      ZeroHasNoBit(k);
    }
    BitExt(Or(a, b), Xor(a, b));
  }

  // ---------------------------------------------------------------------
  // Widths

  lemma {:induction false} XorBelow(a: nat, b: nat, n: nat)
    requires a < Pow2(n) && b < Pow2(n)
    ensures Xor(a, b) < Pow2(n)
    decreases n
  {
    if n > 0 && a != 0 && b != 0 {
      XorBelow(a / 2, b / 2, n - 1);
    }
  }

  lemma {:induction false} OrBelow(a: nat, b: nat, n: nat)
    requires a < Pow2(n) && b < Pow2(n)
    ensures Or(a, b) < Pow2(n)
    decreases n
  {
    if n > 0 && a != 0 && b != 0 {
      OrBelow(a / 2, b / 2, n - 1);
    }
  }

  lemma {:induction false} AndBelow(a: nat, b: nat)
    ensures And(a, b) <= a && And(a, b) <= b
    decreases a + b
  {
    if a != 0 && b != 0 {
      AndBelow(a / 2, b / 2);
    }
  }

  lemma {:induction false} LowBitsBelow(x: nat, n: nat)
    ensures LowBits(x, n) < Pow2(n)
    decreases n
  {
    if n > 0 {
      LowBitsBelow(x / 2, n - 1);
    }
  }

  lemma {:induction false} LowBitsOfSmall(x: nat, n: nat)
    requires x < Pow2(n)
    ensures LowBits(x, n) == x
    decreases n
  {
    if n > 0 {
      LowBitsOfSmall(x / 2, n - 1);
    }
  }

  lemma {:induction false} ShrBelow(x: nat, m: nat, n: nat)
    requires x < Pow2(m + n)
    ensures Shr(x, n) < Pow2(m)
    decreases n
  {
    if n > 0 {
      ShrBelow(x / 2, m, n - 1);
    }
  }

  /** Byte values are closed under XOR. */
  lemma XorByte(a: byte, b: byte)
    ensures Xor(a, b) < 256
  {
    Pow2Values();
    XorBelow(a, b, 8);
  }

  lemma XorU32(a: u32, b: u32)
    ensures Xor(a, b) < 0x1_0000_0000
  {
    Pow2Values();
    XorBelow(a, b, 32);
  }

  lemma XorU64(a: u64, b: u64)
    ensures Xor(a, b) < 0x1_0000_0000_0000_0000
  {
    Pow2Values();
    XorBelow(a, b, 64);
  }

  // ---------------------------------------------------------------------
  // Lowest set bit: ctz and `x & (x - 1)`

  /** ctz(x) is the index of the lowest set bit of x. */
  lemma {:induction false} CtzIsLowest(x: nat, j: nat)
    requires x > 0
    ensures Bit(x, Ctz(x))
    ensures j < Ctz(x) ==> !Bit(x, j)
    decreases x
  {
    if x % 2 == 0 {
      CtzIsLowest(x / 2, if j == 0 then 0 else j - 1);
      BitSucc(x, Ctz(x / 2));
      if 0 < j < Ctz(x) {
        BitSucc(x, j - 1);
      }
    }
  }

  lemma CtzBelow(x: nat, n: nat)
    requires 0 < x < Pow2(n)
    ensures Ctz(x) < n
  {
    CtzIsLowest(x, 0);
    if Ctz(x) >= n {
      BitAbove(x, n, Ctz(x));
    }
  }

  /** `x & (x - 1)` clears the lowest set bit of x. */
  lemma {:induction false} ClearLowest(x: nat)
    requires x > 0
    ensures And(x, x - 1) == Xor(x, Pow2(Ctz(x)))
    ensures And(x, x - 1) < x
    decreases x
  {
    if x % 2 == 1 {
      assert (x - 1) / 2 == x / 2 && (x - 1) % 2 == 0;
      AndUnfold(x, x - 1);
      AndSelf(x / 2);
      XorUnfold(x, 1);
      XorZero(x / 2);
      assert And(x, x - 1) == 2 * (x / 2);
    } else {
      var h := x / 2;
      assert (x - 1) / 2 == h - 1 && (x - 1) % 2 == 1;
      ClearLowest(h);
      AndUnfold(x, x - 1);
      XorUnfold(x, Pow2(Ctz(x)));
      assert Pow2(Ctz(x)) / 2 == Pow2(Ctz(h)) && Pow2(Ctz(x)) % 2 == 0;
    }
  }

  lemma AndSelf(a: nat)
    ensures And(a, a) == a
  {
    forall k: nat ensures Bit(And(a, a), k) == Bit(a, k) {
      BitAnd(a, a, k);
    }
    BitExt(And(a, a), a);
  }

  /** The C bit test `x & (1 << k)` is nonzero exactly when bit k is set. */
  lemma AndPow2(x: nat, k: nat)
    ensures And(x, Pow2(k)) != 0 <==> Bit(x, k)
  {
    BitAnd(x, Pow2(k), k);
    BitPow2(k, k);
    if Bit(x, k) {
      NonZeroFromBit(And(x, Pow2(k)), k);
    } else {
      forall j: nat ensures Bit(And(x, Pow2(k)), j) == Bit(0, j) {
        BitAnd(x, Pow2(k), j);
        BitPow2(k, j);
        ZeroHasNoBit(j);
      }
      BitExt(And(x, Pow2(k)), 0);
    }
  }

  /** `x << n`. */
  function Shl(x: nat, n: nat): nat {
    x * Pow2(n)
  }

  /** Bit k of `x << n` is bit k - n of x. */
  lemma {:induction false} BitShl(x: nat, n: nat, k: nat)
    ensures Bit(Shl(x, n), k) <==> n <= k && Bit(x, k - n)
    decreases n
  {
    if n > 0 {
      assert Shl(x, n) == 2 * Shl(x, n - 1);
      if k == 0 {
        assert Shr(Shl(x, n), 0) % 2 == 0;
      } else {
        BitSucc(Shl(x, n), k - 1);
        assert Shl(x, n) / 2 == Shl(x, n - 1);
        BitShl(x, n - 1, k - 1);
      }
    }
  }

  /** `(1 << w) - 1` has exactly the bits below w. */
  lemma {:induction false} BitMask(w: nat, k: nat)
    ensures Bit(Pow2(w) - 1, k) <==> k < w
    decreases w
  {
    if w == 0 {
      ZeroHasNoBit(k);
    } else if k == 0 {
      assert (Pow2(w) - 1) % 2 == 1;
    } else {
      BitSucc(Pow2(w) - 1, k - 1);
      assert (Pow2(w) - 1) / 2 == Pow2(w - 1) - 1;
      BitMask(w - 1, k - 1);
    }
  }

  // ---------------------------------------------------------------------
  // Popcount

  lemma {:induction false} PopcountBelow(x: nat, n: nat)
    requires x < Pow2(n)
    ensures Popcount(x) <= n
    decreases n
  {
    if n > 0 && x > 0 {
      PopcountBelow(x / 2, n - 1);
    }
  }

  /** Clearing the lowest set bit lowers the popcount by one. */
  lemma {:induction false} PopcountClear(x: nat)
    requires x > 0
    ensures Popcount(And(x, x - 1)) == Popcount(x) - 1
    decreases x
  {
    if x % 2 == 1 {
      assert (x - 1) / 2 == x / 2 && (x - 1) % 2 == 0;
      AndUnfold(x, x - 1);
      AndSelf(x / 2);
    } else {
      assert (x - 1) / 2 == x / 2 - 1 && (x - 1) % 2 == 1;
      AndUnfold(x, x - 1);
      PopcountClear(x / 2);
    }
  }

  /** The number of set bits among bits 0 .. w-1 of x. */
  function CountBits(x: nat, w: nat): nat {
    if w == 0 then 0 else CountBits(x, w - 1) + (if Bit(x, w - 1) then 1 else 0)
  }

  /** Counting from the top or peeling the low bit gives the same count. */
  lemma {:induction false} CountBitsShift(x: nat, w: nat)
    requires w > 0
    ensures CountBits(x, w) == x % 2 + CountBits(x / 2, w - 1)
    decreases w
  {
    if w > 1 {
      CountBitsShift(x, w - 1);
      BitSucc(x, w - 2);
    }
  }

  /** For a w-bit word, Popcount counts the set bits among the w positions. */
  lemma {:induction false} PopcountCountsBits(x: nat, w: nat)
    requires x < Pow2(w)
    ensures Popcount(x) == CountBits(x, w)
    decreases w
  {
    if w > 0 {
      PopcountCountsBits(x / 2, w - 1);
      CountBitsShift(x, w);
    }
  }

  // ---------------------------------------------------------------------
  // Byte strings

  /** `memcmp(a + i, b + i, n - i)` on unsigned bytes: the difference of the
      first pair of bytes that differ, or 0 when none does. */
  function MemCmpFrom(a: seq<nat>, b: seq<nat>, i: nat, n: nat): (r: int)
    requires i <= n <= |a| && n <= |b|
    ensures r == 0 <==> forall k :: i <= k < n ==> a[k] == b[k]
    ensures r != 0 ==> exists k :: i <= k < n && r == a[k] as int - b[k] as int && forall q :: i <= q < k ==> a[q] == b[q]
    decreases n - i
  {
    if i == n then 0
    else if a[i] != b[i] then a[i] as int - b[i] as int
    else
      var r := MemCmpFrom(a, b, i + 1, n);
      assert r != 0 ==> exists k :: i <= k < n && r == a[k] as int - b[k] as int && forall q :: i <= q < k ==> a[q] == b[q] by {
        if r != 0 {
          var k :| i + 1 <= k < n && r == a[k] as int - b[k] as int && forall q :: i + 1 <= q < k ==> a[q] == b[q];
          assert forall q :: i <= q < k ==> a[q] == b[q];
        }
      }
      r
  }

  /** `memcmp(a, b, n)`. */
  function MemCmp(a: seq<nat>, b: seq<nat>, n: nat): (r: int)
    requires n <= |a| && n <= |b|
    ensures r == 0 <==> a[..n] == b[..n]
  {
    var r := MemCmpFrom(a, b, 0, n);
    assert r == 0 ==> a[..n] == b[..n] by {
      if r == 0 {
        assert forall k :: 0 <= k < n ==> a[..n][k] == b[..n][k];
      }
    }
    r
  }
}
