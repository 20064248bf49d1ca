/**
 * Gauss-Jordan inversion of the 32x32 diffusion matrix over GF(2).
 *
 * The program has two forms.  The packed form stores row r of [A | I] in one
 * 64-bit word, `A[r] | (1 << (32 + r))`, stops with an error when a column
 * has no pivot, and reads the inverse off the high halves.  The split form
 * keeps `work` rows (starting as A) and `inverse` rows (starting as I) side by
 * side, and silently skips a column without pivot.
 *
 * Both keep the invariant "work row r == the combination of A's rows selected
 * by inverse row r" (Tracks), plus a ghost matrix g that undoes every row
 * operation so far (g·inverse == I).  From these: the packed form fails exactly
 * when A is singular and otherwise returns the two-sided inverse; the split
 * form returns the two-sided inverse exactly when A is not singular.
 */
module GaussJordan {
  import opened Bits
  import opened Gf2
  import opened Wrappers

  // ---------------------------------------------------------------------
  // The elimination invariant

  /**
   * work[r] is the combination of A's rows selected by inverse[r], and g
   * undoes the row operations: g·inverse == I.
   */
  ghost predicate Tracks(work: seq<nat>, inverse: seq<nat>, a: seq<nat>, g: seq<nat>)
  {
    |work| == 32 && IsMatrix(inverse) && IsMatrix(a) && IsMatrix(g) &&
    (forall r :: 0 <= r < 32 ==> work[r] == DotRow(inverse[r], a)) &&
    LeftInverse(g, inverse)
  }

  /** Columns 0..c-1 are reduced: row r has bit k (k < c) exactly when r == k. */
  predicate Echelon(w: seq<nat>, c: nat)
    requires |w| == 32
  {
    forall r, k :: 0 <= r < 32 && 0 <= k < c ==> (Bit(w[r], k) <==> r == k)
  }

  /** g with bit c toggled in every row that has bit r: undoes `row r ^= row c`. */
  function UndoAdd(g: seq<nat>, r: nat, c: nat): (g': seq<nat>)
    ensures |g'| == |g|
  {
    seq(|g|, i requires 0 <= i < |g| => Xor(g[i], Term(Bit(g[i], r), Pow2(c))))
  }

  /** g with bits c and p exchanged in every row: undoes swapping rows c and p. */
  function UndoSwap(g: seq<nat>, c: nat, p: nat): (g': seq<nat>)
    ensures |g'| == |g|
  {
    seq(|g|, i requires 0 <= i < |g| =>
      if Bit(g[i], c) == Bit(g[i], p) then g[i] else Xor(g[i], Xor(Pow2(c), Pow2(p))))
  }

  lemma Pow2U32(i: nat)
    requires i < 32
    ensures Pow2(i) < 0x1_0000_0000
  {
    Pow2Values();
    Pow2Mono(i + 1, 32);
  }

  // ---------------------------------------------------------------------
  // Row operations keep the invariant

  /** Adding entry c of h to entry r, and toggling bit c of g where bit r is
      set, leaves the combination selected by g unchanged. */
  lemma UndoAddRow(g: nat, h: seq<nat>, r: nat, c: nat)
    requires r < |h| && c < |h| && r != c
    ensures DotRow(Xor(g, Term(Bit(g, r), Pow2(c))), h[r := Xor(h[r], h[c])]) == DotRow(g, h)
  {
    var h' := h[r := Xor(h[r], h[c])];
    var t := Term(Bit(g, r), Pow2(c));
    var d := DotRow(g, h);
    DotRowUpdate(g, h, r, Xor(h[r], h[c]));
    XorAssoc(h[r], h[r], h[c]);
    XorSelf(h[r]);
    XorZero(h[c]);
    assert DotRow(g, h') == Xor(d, Term(Bit(g, r), h[c]));
    DotRowLinear(g, t, h');
    if Bit(g, r) {
      DotRowUnit(c, h');
      XorCancel(d, h[c]);
    } else {
      DotRowZero(0, h');
      XorZero(d);
      XorZero(DotRow(g, h'));
    }
  }

  /** Exchanging entries c and p of h, and bits c and p of g, keeps the
      combination selected by g. */
  lemma UndoSwapRow(g: nat, h: seq<nat>, c: nat, p: nat)
    requires c < |h| && p < |h| && c != p
    ensures DotRow(if Bit(g, c) == Bit(g, p) then g else Xor(g, Xor(Pow2(c), Pow2(p))),
                   h[c := h[p]][p := h[c]]) == DotRow(g, h)
  {
    var h1 := h[c := h[p]];
    var h2 := h1[p := h[c]];
    var x := Xor(h[c], h[p]);
    var d := DotRow(g, h);
    DotRowUpdate(g, h, c, h[p]);
    DotRowUpdate(g, h1, p, h[c]);
    XorComm(h[p], h[c]);
    assert DotRow(g, h2) == Xor(Xor(d, Term(Bit(g, c), x)), Term(Bit(g, p), x));
    XorAssoc(d, Term(Bit(g, c), x), Term(Bit(g, p), x));
    TermXor(Bit(g, c), Bit(g, p), x);
    if Bit(g, c) == Bit(g, p) {
      XorZero(d);
    } else {
      DotRowLinear(g, Xor(Pow2(c), Pow2(p)), h2);
      DotRowLinear(Pow2(c), Pow2(p), h2);
      DotRowUnit(c, h2);
      DotRowUnit(p, h2);
      XorCancel(d, x);
    }
  }

  /** `work[r] ^= work[c]; inverse[r] ^= inverse[c]` keeps Tracks. */
  lemma TracksAdd(w: seq<nat>, h: seq<nat>, a: seq<nat>, g: seq<nat>, r: nat, c: nat)
    requires Tracks(w, h, a, g) && r < 32 && c < 32 && r != c
    ensures Tracks(w[r := Xor(w[r], w[c])], h[r := Xor(h[r], h[c])], a, UndoAdd(g, r, c))
  {
    var h' := h[r := Xor(h[r], h[c])];
    var g' := UndoAdd(g, r, c);
    XorU32(h[r], h[c]);
    DotRowLinear(h[r], h[c], a);
    Pow2U32(c);
    forall i | 0 <= i < 32
      ensures g'[i] < 0x1_0000_0000 && DotRow(g'[i], h') == Pow2(i)
    {
      XorU32(g[i], Term(Bit(g[i], r), Pow2(c)));
      UndoAddRow(g[i], h, r, c);
    }
  }

  /** Swapping rows c and p of both work and inverse keeps Tracks. */
  lemma TracksSwap(w: seq<nat>, h: seq<nat>, a: seq<nat>, g: seq<nat>, c: nat, p: nat)
    requires Tracks(w, h, a, g) && c < 32 && p < 32 && c != p
    ensures Tracks(w[c := w[p]][p := w[c]], h[c := h[p]][p := h[c]], a, UndoSwap(g, c, p))
  {
    var h' := h[c := h[p]][p := h[c]];
    var g' := UndoSwap(g, c, p);
    Pow2U32(c);
    Pow2U32(p);
    XorU32(Pow2(c), Pow2(p));
    forall i | 0 <= i < 32
      ensures g'[i] < 0x1_0000_0000 && DotRow(g'[i], h') == Pow2(i)
    {
      XorU32(g[i], Xor(Pow2(c), Pow2(p)));
      UndoSwapRow(g[i], h, c, p);
    }
  }

  /** Eliminating column c from row r keeps columns below c reduced and
      clears bit c of row r. */
  lemma EchelonAdd(w: seq<nat>, c: nat, r: nat)
    requires |w| == 32 && c < 32 && r < 32 && r != c
    requires Echelon(w, c) && Bit(w[c], c) && Bit(w[r], c)
    ensures Echelon(w[r := Xor(w[r], w[c])], c)
    ensures !Bit(Xor(w[r], w[c]), c)
  {
    BitXor(w[r], w[c], c);
    forall k | 0 <= k < c ensures Bit(Xor(w[r], w[c]), k) == Bit(w[r], k) {
      BitXor(w[r], w[c], k);
    }
  }

  /** Swapping row c with a row at or below it keeps columns below c reduced. */
  lemma EchelonSwap(w: seq<nat>, c: nat, p: nat)
    requires |w| == 32 && c <= p < 32 && Echelon(w, c)
    ensures Echelon(w[c := w[p]][p := w[c]], c)
  {
  }

  // ---------------------------------------------------------------------
  // What the invariant gives at the end

  /** Fully reduced rows are the unit rows, so inverse·A == I; with g this
      makes inverse the two-sided inverse. */
  lemma TracksToInverse(w: seq<nat>, h: seq<nat>, a: seq<nat>, g: seq<nat>)
    requires Tracks(w, h, a, g) && Echelon(w, 32)
    ensures IsInverse(h, a) && !Singular(a)
  {
    Pow2Values();
    forall r | 0 <= r < 32 ensures DotRow(h[r], a) == Pow2(r) {
      DotRowU32(h[r], a);
      forall k: nat ensures Bit(w[r], k) == Bit(Pow2(r), k) {
        BitPow2(r, k);
        if k >= 32 {
          BitAbove(w[r], 32, k);
        }
      }
      BitExt(w[r], Pow2(r));
    }
    InverseFromBothSides(g, h, a);
    if Singular(a) {
      SingularHasNoLeftInverse(a, h);
      assert false;
    }
  }

  /** g·work == A: the undo matrix recovers A from the reduced rows. */
  lemma TracksRecoversA(w: seq<nat>, h: seq<nat>, a: seq<nat>, g: seq<nat>)
    requires Tracks(w, h, a, g)
    ensures Mul(g, w) == a
  {
    assert w == Mul(h, a);
    forall i | 0 <= i < 32 ensures DotRow(g[i], w) == a[i] {
      DotRowCompose(g[i], h, a);
      DotRowUnit(i, a);
    }
  }

  lemma {:induction false} DotRowTailZero(g: nat, v: seq<nat>, n: nat, m: nat)
    requires n <= m <= |v|
    requires forall k :: n <= k < |v| ==> v[k] == 0
    ensures DotRowUpTo(g, v, m) == DotRowUpTo(g, v, n)
    decreases m
  {
    if m > n {
      DotRowTailZero(g, v, n, m - 1);
      XorZero(DotRowUpTo(g, v, m - 1));
    }
  }

  lemma {:induction false} DotRowNoBits(g: nat, v: seq<nat>, n: nat)
    requires n <= |v|
    requires forall k :: 0 <= k < n ==> !Bit(g, k)
    ensures DotRowUpTo(g, v, n) == 0
  {
    if n > 0 {
      DotRowNoBits(g, v, n - 1);
    }
  }

  lemma {:induction false} DotRowOneBit(g: nat, v: seq<nat>, n: nat, r: nat)
    requires r < n <= |v|
    requires forall k :: 0 <= k < n ==> (Bit(g, k) <==> k == r)
    ensures DotRowUpTo(g, v, n) == v[r]
  {
    if n - 1 == r {
      DotRowNoBits(g, v, n - 1);
    } else {
      DotRowOneBit(g, v, n - 1, r);
      XorZero(v[r]);
    }
  }

  /** The state killed by rows reduced up to column c that have no pivot in
      column c: entry c is 1, entry k < c is bit c of row k, the rest 0. */
  function Kernel(w: seq<nat>, c: nat): (s: seq<nat>)
    requires |w| == 32 && c < 32
    ensures IsState(s) && s != Zeros()
  {
    var s := seq(32, k requires 0 <= k < 32 =>
      if k == c then 1 else if k < c && Bit(w[k], c) then 1 else 0);
    assert s[c] != Zeros()[c];
    s
  }

  lemma KernelOfReduced(w: seq<nat>, c: nat)
    requires |w| == 32 && c < 32 && Echelon(w, c)
    requires forall q :: c <= q < 32 ==> !Bit(w[q], c)
    ensures Mul(w, Kernel(w, c)) == Zeros()
  {
    var s := Kernel(w, c);
    forall r | 0 <= r < 32
      ensures DotRow(w[r], s) == 0
    {
      DotRowTailZero(w[r], s, c + 1, 32);
      if r < c {
        DotRowOneBit(w[r], s, c, r);
        XorSelf(s[r]);
      } else {
        DotRowNoBits(w[r], s, c);
        XorZero(0);
      }
    }
  }

  /** A column without pivot at or below the diagonal, after the columns
      before it were reduced, makes A singular. */
  lemma NoPivotSingular(w: seq<nat>, h: seq<nat>, a: seq<nat>, g: seq<nat>, c: nat)
    requires Tracks(w, h, a, g) && c < 32 && Echelon(w, c)
    requires forall q :: c <= q < 32 ==> !Bit(w[q], c)
    ensures Singular(a)
  {
    var s := Kernel(w, c);
    KernelOfReduced(w, c);
    TracksRecoversA(w, h, a, g);
    MulAssoc(g, w, s);
    forall i | 0 <= i < 32 ensures Mul(g, Zeros())[i] == 0 {
      DotRowZero(g[i], Zeros());
    }
    assert Mul(a, s) == Zeros();
  }

  lemma IdentityTracks(a: seq<nat>)
    requires IsMatrix(a)
    ensures Tracks(a, Identity(), a, Identity())
  {
    IdentityIsMatrix();
    forall i | 0 <= i < 32 ensures DotRow(Identity()[i], a) == a[i] {
      DotRowUnit(i, a);
    }
    forall i | 0 <= i < 32 ensures DotRow(Identity()[i], Identity()) == Pow2(i) {
      DotRowUnit(i, Identity());
    }
  }

  // ---------------------------------------------------------------------
  // The packed 64-bit form

  /** The A half of a packed row: its low 32 bits. */
  function Lo(x: nat): nat {
    LowBits(x, 32)
  }

  /** The inverse half of a packed row: `x >> 32`. */
  function Hi(x: nat): nat {
    Shr(x, 32)
  }

  function Los(s: seq<nat>): (w: seq<nat>)
    ensures |w| == |s|
  {
    seq(|s|, r requires 0 <= r < |s| => Lo(s[r]))
  }

  function His(s: seq<nat>): (h: seq<nat>)
    ensures |h| == |s|
  {
    seq(|s|, r requires 0 <= r < |s| => Hi(s[r]))
  }

  /** Packed rows: 64 bits wide, with the halves tracking each other. */
  ghost predicate Packed(s: seq<nat>, a: seq<nat>, g: seq<nat>) {
    |s| == 32 && (forall r :: 0 <= r < 32 ==> s[r] < 0x1_0000_0000_0000_0000) &&
    Tracks(Los(s), His(s), a, g)
  }

  lemma LoBit(x: nat, k: nat)
    requires k < 32
    ensures Bit(Lo(x), k) <==> Bit(x, k)
  {
    BitLow(x, 32, k);
  }

  lemma LoXor(a: nat, b: nat)
    ensures Lo(Xor(a, b)) == Xor(Lo(a), Lo(b))
  {
    forall k: nat ensures Bit(Lo(Xor(a, b)), k) == Bit(Xor(Lo(a), Lo(b)), k) {
      BitLow(Xor(a, b), 32, k);
      BitXor(a, b, k);
      BitXor(Lo(a), Lo(b), k);
      BitLow(a, 32, k);
      BitLow(b, 32, k);
    }
    BitExt(Lo(Xor(a, b)), Xor(Lo(a), Lo(b)));
  }

  lemma HiXor(a: nat, b: nat)
    ensures Hi(Xor(a, b)) == Xor(Hi(a), Hi(b))
  {
    forall k: nat ensures Bit(Hi(Xor(a, b)), k) == Bit(Xor(Hi(a), Hi(b)), k) {
      BitShr(Xor(a, b), 32, k);
      BitXor(a, b, k + 32);
      BitXor(Hi(a), Hi(b), k);
      BitShr(a, 32, k);
      BitShr(b, 32, k);
    }
    BitExt(Hi(Xor(a, b)), Xor(Hi(a), Hi(b)));
  }

  /** `A[r] | (1 << (32 + r))` has A[r] in the low half and unit row r high. */
  lemma PackInit(x: nat, r: nat)
    requires x < 0x1_0000_0000 && r < 32
    ensures Lo(Or(x, Pow2(32 + r))) == x
    ensures Hi(Or(x, Pow2(32 + r))) == Pow2(r)
    ensures Or(x, Pow2(32 + r)) < 0x1_0000_0000_0000_0000
  {
    PackInitLo(x, r);
    PackInitHi(x, r);
    Pow2Values();
    Pow2Mono(32 + r + 1, 64);
    Pow2Mono(32, 64);
    OrBelow(x, Pow2(32 + r), 64);
  }

  /** The low half of x | (1 << (32 + r)) is x. */
  lemma PackInitLo(x: nat, r: nat)
    requires x < 0x1_0000_0000 && r < 32
    ensures Lo(Or(x, Pow2(32 + r))) == x
  {
    Pow2Values();
    var y := Or(x, Pow2(32 + r));
    forall k: nat ensures Bit(Lo(y), k) == Bit(x, k) {
      BitLow(y, 32, k);
      BitOr(x, Pow2(32 + r), k);
      BitPow2(32 + r, k);
      if k >= 32 {
        BitAbove(x, 32, k);
      }
    }
    BitExt(Lo(y), x);
  }

  /** The high half of x | (1 << (32 + r)) is 1 << r. */
  lemma PackInitHi(x: nat, r: nat)
    requires x < 0x1_0000_0000 && r < 32
    ensures Hi(Or(x, Pow2(32 + r))) == Pow2(r)
  {
    Pow2Values();
    var y := Or(x, Pow2(32 + r));
    forall k: nat ensures Bit(Hi(y), k) == Bit(Pow2(r), k) {
      BitShr(y, 32, k);
      BitOr(x, Pow2(32 + r), k + 32);
      BitPow2(32 + r, k + 32);
      BitPow2(r, k);
      BitAbove(x, 32, k + 32);
    }
    BitExt(Hi(y), Pow2(r));
  }

  lemma PackedInit(s: seq<nat>, a: seq<nat>)
    requires IsMatrix(a) && |s| == 32
    requires forall r :: 0 <= r < 32 ==> s[r] == Or(a[r], Pow2(32 + r))
    ensures Packed(s, a, Identity())
  {
    forall r | 0 <= r < 32 ensures Lo(s[r]) == a[r] && Hi(s[r]) == Pow2(r) && s[r] < 0x1_0000_0000_0000_0000 {
      PackInit(a[r], r);
    }
    assert Los(s) == a;
    assert His(s) == Identity();
    IdentityTracks(a);
  }

  lemma PackedAdd(s: seq<nat>, a: seq<nat>, g: seq<nat>, r: nat, c: nat)
    requires Packed(s, a, g) && r < 32 && c < 32 && r != c
    ensures Packed(s[r := Xor(s[r], s[c])], a, UndoAdd(g, r, c))
  {
    var s' := s[r := Xor(s[r], s[c])];
    XorU64(s[r], s[c]);
    LoXor(s[r], s[c]);
    HiXor(s[r], s[c]);
    assert Los(s') == Los(s)[r := Xor(Los(s)[r], Los(s)[c])];
    assert His(s') == His(s)[r := Xor(His(s)[r], His(s)[c])];
    TracksAdd(Los(s), His(s), a, g, r, c);
  }

  lemma PackedSwap(s: seq<nat>, a: seq<nat>, g: seq<nat>, c: nat, p: nat)
    requires Packed(s, a, g) && c < 32 && p < 32 && c != p
    ensures Packed(s[c := s[p]][p := s[c]], a, UndoSwap(g, c, p))
  {
    var s' := s[c := s[p]][p := s[c]];
    assert Los(s') == Los(s)[c := Los(s)[p]][p := Los(s)[c]];
    assert His(s') == His(s)[c := His(s)[p]][p := His(s)[c]];
    TracksSwap(Los(s), His(s), a, g, c, p);
  }

  /** Bits below 32 of a packed row are those of its A half. */
  lemma EchelonLos(s: seq<nat>, c: nat)
    requires |s| == 32 && c <= 32
    ensures Echelon(s, c) <==> Echelon(Los(s), c)
  {
    forall r, k | 0 <= r < 32 && 0 <= k < c ensures Bit(s[r], k) == Bit(Los(s)[r], k) {
      LoBit(s[r], k);
    }
  }

  /** The first row at or after c whose bit c is set, or 32 when none is. */
  method PackedPivot(s: seq<nat>, c: nat) returns (piv: nat)
    requires |s| == 32 && c < 32
    ensures c <= piv <= 32
    ensures piv < 32 ==> Bit(s[piv], c)
    ensures forall q :: c <= q < piv ==> !Bit(s[q], c)
  {
    piv := c;
    while piv < 32 && !Bit(s[piv], c)
      invariant c <= piv <= 32
      invariant forall q :: c <= q < piv ==> !Bit(s[q], c)
    {
      piv := piv + 1;
    }
  }

  lemma PackedNoPivot(s: seq<nat>, a: seq<nat>, g: seq<nat>, c: nat)
    requires Packed(s, a, g) && c < 32 && Echelon(s, c)
    requires forall q :: c <= q < 32 ==> !Bit(s[q], c)
    ensures Singular(a)
  {
    EchelonLos(s, c);
    forall q | c <= q < 32 ensures !Bit(Los(s)[q], c) {
      LoBit(s[q], c);
    }
    NoPivotSingular(Los(s), His(s), a, g, c);
  }

  /** Clears bit c from every row but the pivot row c; returns the undo
      matrix updated for the row operations done. */
  method EliminatePacked(aug: array<nat>, a: seq<nat>, ghost g: seq<nat>, c: nat) returns (ghost g': seq<nat>)
    requires aug.Length == 32 && c < 32
    requires Packed(aug[..], a, g) && Echelon(aug[..], c) && Bit(aug[c], c)
    modifies aug
    ensures Packed(aug[..], a, g') && Echelon(aug[..], c + 1)
  {
    g' := g;
    for r := 0 to 32
      invariant Packed(aug[..], a, g')
      invariant Echelon(aug[..], c)
      invariant Bit(aug[c], c)
      invariant forall q :: 0 <= q < r && q != c ==> !Bit(aug[q], c)
    {
      if r != c && Bit(aug[r], c) {
        PackedAdd(aug[..], a, g', r, c);
        EchelonAdd(aug[..], c, r);
        g' := UndoAdd(g', r, c);
        aug[r] := Xor(aug[r], aug[c]);
      }
    }
  }

  /**
   * Gauss-Jordan on the packed rows `A[r] | (1 << (32 + r))`.  Returns None
   * when a column has no pivot at or below the diagonal, otherwise the high
   * halves of the reduced rows.
   */
  method InvertPacked(a: seq<nat>) returns (result: Option<seq<nat>>)
    requires IsMatrix(a)
    ensures result.None? <==> Singular(a)
    ensures result.Some? ==> IsMatrix(result.value) && IsInverse(result.value, a)
  {
    var aug := new nat[32];
    for r := 0 to 32
      invariant forall q :: 0 <= q < r ==> aug[q] == Or(a[q], Pow2(32 + q))
    {
      aug[r] := Or(a[r], Pow2(32 + r));
    }
    ghost var g := Identity();
    PackedInit(aug[..], a);

    for c := 0 to 32
      invariant Packed(aug[..], a, g)
      invariant Echelon(aug[..], c)
    {
      var piv := PackedPivot(aug[..], c);
      if piv == 32 {
        PackedNoPivot(aug[..], a, g, c);
        return None;
      }
      if piv != c {
        PackedSwap(aug[..], a, g, c, piv);
        EchelonSwap(aug[..], c, piv);
        g := UndoSwap(g, c, piv);
        aug[c], aug[piv] := aug[piv], aug[c];
      }
      g := EliminatePacked(aug, a, g, c);
    }

    EchelonLos(aug[..], 32);
    TracksToInverse(Los(aug[..]), His(aug[..]), a, g);
    return Some(His(aug[..]));
  }

  /**
   * The C form: writes the inverse into `ainv` and returns 0, or returns -1
   * (leaving `ainv` untouched) when A is singular.
   */
  method Invert32(a: seq<nat>, ainv: array<nat>) returns (status: int)
    requires IsMatrix(a) && ainv.Length == 32
    modifies ainv
    ensures status == 0 || status == -1
    ensures status == -1 <==> Singular(a)
    ensures status == -1 ==> ainv[..] == old(ainv[..])
    ensures status == 0 ==> IsMatrix(ainv[..]) && IsInverse(ainv[..], a)
  {
    var result := InvertPacked(a);
    if result.None? {
      return -1;
    }
    var inv := result.value;
    for r := 0 to 32
      invariant forall q :: 0 <= q < r ==> ainv[q] == inv[q]
    {
      ainv[r] := inv[r];
    }
    assert ainv[..] == inv;
    return 0;
  }

  // ---------------------------------------------------------------------
  // The split form that skips a column without pivot

  /** The first row at or after col whose `row & (1 << col)` is nonzero,
      or -1 when there is none. */
  method FindPivot(work: seq<nat>, col: nat) returns (pivot: int)
    requires |work| == 32 && col < 32
    ensures pivot == -1 || (col <= pivot < 32 && Bit(work[pivot], col))
    ensures pivot == -1 ==> forall q :: col <= q < 32 ==> !Bit(work[q], col)
    ensures pivot != -1 ==> forall q :: col <= q < pivot ==> !Bit(work[q], col)
  {
    pivot := -1;
    for row := col to 32
      invariant forall q :: col <= q < row ==> !Bit(work[q], col)
    {
      AndPow2(work[row], col);
      if And(work[row], Pow2(col)) != 0 {
        pivot := row;
        return;
      }
    }
  }

  /** Clears bit col from every work row but row col, applying the same row
      operations to inverse; returns the updated undo matrix. */
  method Eliminate(work: array<nat>, inverse: array<nat>, a: seq<nat>, ghost g: seq<nat>,
                   col: nat, ghost skipped: bool) returns (ghost g': seq<nat>)
    requires work.Length == 32 && inverse.Length == 32 && work != inverse && col < 32
    requires Tracks(work[..], inverse[..], a, g) && Bit(work[col], col)
    requires !skipped ==> Echelon(work[..], col)
    modifies work, inverse
    ensures Tracks(work[..], inverse[..], a, g')
    ensures !skipped ==> Echelon(work[..], col + 1)
  {
    g' := g;
    for r := 0 to 32
      invariant Tracks(work[..], inverse[..], a, g')
      invariant !skipped ==> Echelon(work[..], col)
      invariant Bit(work[col], col)
      invariant forall q :: 0 <= q < r && q != col ==> !Bit(work[q], col)
    {
      AndPow2(work[r], col);
      if r != col && And(work[r], Pow2(col)) != 0 {
        TracksAdd(work[..], inverse[..], a, g', r, col);
        if !skipped {
          EchelonAdd(work[..], col, r);
        } else {
          BitXor(work[r], work[col], col);
        }
        g' := UndoAdd(g', r, col);
        work[r] := Xor(work[r], work[col]);
        inverse[r] := Xor(inverse[r], inverse[col]);
      }
    }
  }

  /** Exchanges rows col and pivot of both work and inverse through a
      temporary; returns the updated undo matrix. */
  method SwapRows(work: array<nat>, inverse: array<nat>, a: seq<nat>, ghost g: seq<nat>,
                  col: nat, pivot: nat, ghost skipped: bool) returns (ghost g': seq<nat>)
    requires work.Length == 32 && inverse.Length == 32 && work != inverse
    requires col < pivot < 32
    requires Tracks(work[..], inverse[..], a, g)
    requires !skipped ==> Echelon(work[..], col)
    modifies work, inverse
    ensures work[..] == old(work[..])[col := old(work[pivot])][pivot := old(work[col])]
    ensures inverse[..] == old(inverse[..])[col := old(inverse[pivot])][pivot := old(inverse[col])]
    ensures Tracks(work[..], inverse[..], a, g')
    ensures !skipped ==> Echelon(work[..], col)
  {
    TracksSwap(work[..], inverse[..], a, g, col, pivot);
    if !skipped {
      EchelonSwap(work[..], col, pivot);
    }
    g' := UndoSwap(g, col, pivot);
    var temp := work[col];
    work[col] := work[pivot];
    work[pivot] := temp;
    temp := inverse[col];
    inverse[col] := inverse[pivot];
    inverse[pivot] := temp;
  }

  /** At the end of the split elimination: either every column was reduced,
      or a column was skipped and A is singular. */
  lemma SplitOutcome(w: seq<nat>, h: seq<nat>, a: seq<nat>, g: seq<nat>, skipped: bool)
    requires Tracks(w, h, a, g)
    requires !skipped ==> Echelon(w, 32)
    requires skipped ==> Singular(a)
    ensures IsMatrix(h)
    ensures IsInverse(h, a) <==> !Singular(a)
  {
    if !skipped {
      TracksToInverse(w, h, a, g);
    } else {
      SingularHasNoLeftInverse(a, h);
    }
  }

  /** One column of the split elimination: find a pivot, skip the column
      when there is none, otherwise swap it into place and eliminate. */
  method ReduceColumn(work: array<nat>, inverse: array<nat>, a: seq<nat>, ghost g: seq<nat>,
                      col: nat, ghost skipped: bool) returns (ghost g': seq<nat>, ghost skipped': bool)
    requires work.Length == 32 && inverse.Length == 32 && work != inverse && col < 32
    requires Tracks(work[..], inverse[..], a, g)
    requires !skipped ==> Echelon(work[..], col)
    requires skipped ==> Singular(a)
    modifies work, inverse
    ensures Tracks(work[..], inverse[..], a, g')
    ensures !skipped' ==> Echelon(work[..], col + 1)
    ensures skipped' ==> Singular(a)
  {
    g', skipped' := g, skipped;
    var pivot := FindPivot(work[..], col);
    if pivot == -1 {
      if !skipped {
        NoPivotSingular(work[..], inverse[..], a, g, col);
      }
      skipped' := true;
      return;
    }
    if pivot != col {
      g' := SwapRows(work, inverse, a, g', col, pivot, skipped);
    }
    g' := Eliminate(work, inverse, a, g', col, skipped);
  }

  /**
   * `work` starts as A and `inverse` as I; a column without pivot is
   * skipped.  The result is a 32-bit matrix, and it is the two-sided inverse
   * of A exactly when A is not singular.
   */
  method InvertInto(a: seq<nat>, inverse: array<nat>)
    requires IsMatrix(a) && inverse.Length == 32
    modifies inverse
    ensures IsMatrix(inverse[..])
    ensures IsInverse(inverse[..], a) <==> !Singular(a)
  {
    for i := 0 to 32
      invariant forall q :: 0 <= q < i ==> inverse[q] == Pow2(q)
    {
      inverse[i] := Pow2(i);
    }
    var work := new nat[32];
    for i := 0 to 32
      invariant forall q :: 0 <= q < i ==> work[q] == a[q]
      invariant forall q :: 0 <= q < 32 ==> inverse[q] == Pow2(q)
    {
      work[i] := a[i];
    }
    assert inverse[..] == Identity();
    assert work[..] == a;
    IdentityTracks(a);
    ghost var g := Identity();
    ghost var skipped := false;

    for col := 0 to 32
      invariant Tracks(work[..], inverse[..], a, g)
      invariant !skipped ==> Echelon(work[..], col)
      invariant skipped ==> Singular(a)
    {
      g, skipped := ReduceColumn(work, inverse, a, g, col, skipped);
    }

    SplitOutcome(work[..], inverse[..], a, g, skipped);
  }

  /** The list-returning form of the split elimination. */
  method InvertSkipping(a: seq<nat>) returns (inverse: seq<nat>)
    requires IsMatrix(a)
    ensures IsMatrix(inverse)
    ensures IsInverse(inverse, a) <==> !Singular(a)
  {
    var rows := new nat[32];
    InvertInto(a, rows);
    inverse := rows[..];
  }

  // ---------------------------------------------------------------------
  // Checking a computed inverse

  /**
   * Multiplies original by inverse row by row (row i of the product is the
   * combination of inverse's rows selected by original[i]) and reports
   * whether the product is the identity.
   */
  method TestMatrixInversion(original: seq<nat>, inverse: seq<nat>) returns (passed: bool)
    requires IsMatrix(original) && IsMatrix(inverse)
    ensures passed <==> LeftInverse(original, inverse)
  {
    var result := new nat[32];
    for i := 0 to 32
      invariant forall q :: 0 <= q < i ==> result[q] == DotRow(original[q], inverse)
    {
      result[i] := 0;
      for j := 0 to 32
        invariant forall q :: 0 <= q < i ==> result[q] == DotRow(original[q], inverse)
        invariant result[i] == DotRowUpTo(original[i], inverse, j)
      {
        AndPow2(original[i], j);
        if And(original[i], Pow2(j)) != 0 {
          result[i] := Xor(result[i], inverse[j]);
        } else {
          XorZero(result[i]);
        }
      }
    }
    passed := true;
    for i := 0 to 32
      invariant passed <==> forall q :: 0 <= q < i ==> result[q] == Pow2(q)
    {
      if result[i] != Pow2(i) {
        passed := false;
      }
    }
  }
}
