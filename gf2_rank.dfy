/**
 * Rank over GF(2) of a list of words, by the Gauss-Jordan pass of
 * missing_values_rank.py.
 *
 * The script stores word x as the row of its bits, least significant bit
 * first, so entry (row, col) of its 0/1 matrix is bit col of word row.  Here
 * each row is kept packed as the word itself: testing `m[row, col] == 1` is
 * Bit(m[row], col), and adding two rows mod 2 is Xor.
 *
 * The elimination runs on a copy (an array filled from the input).  Two
 * ghost selector lists show that the copy and the input always span the
 * same space, so the rank it returns is the dimension of the span:
 * |Span(rows)| == 2^rank.
 */
module Gf2Rank {
  import opened Bits
  import opened Gf2
  import opened XorSpan
  import GaussJordan

  // ---------------------------------------------------------------------
  // Invariants of the elimination

  /** Row r of m is the combination of the input rows selected by g[r], and
      input row i is the combination of the rows of m selected by h[i]. */
  ghost predicate Tracks(m: seq<nat>, rows: seq<nat>, g: seq<nat>, h: seq<nat>) {
    |m| == |rows| && |g| == |m| && |h| == |rows| &&
    (forall r :: 0 <= r < |m| ==> m[r] == DotRow(g[r], rows)) &&
    (forall i :: 0 <= i < |rows| ==> rows[i] == DotRow(h[i], m))
  }

  /**
   * Columns below col are done.  piv[k] is the pivot column of row k; a
   * pivot column is set in its own row and in no other; the rows from
   * |piv| on have no bit below col.
   */
  predicate Reduced(m: seq<nat>, piv: seq<nat>, col: nat) {
    |piv| <= |m| && |piv| <= col &&
    (forall k :: 0 <= k < |piv| ==> piv[k] < col) &&
    (forall r, c :: |piv| <= r < |m| && 0 <= c < col ==> !Bit(m[r], c)) &&
    (forall k, r :: 0 <= k < |piv| && 0 <= r < |m| ==> (Bit(m[r], piv[k]) <==> r == k))
  }

  /** Every row is a word of cols bits. */
  predicate Width(m: seq<nat>, cols: nat) {
    forall r :: 0 <= r < |m| ==> m[r] < Pow2(cols)
  }

  /** The unit selectors: row r selects input row r. */
  function Units(n: nat): (u: seq<nat>)
    ensures |u| == n
  {
    seq(n, r requires 0 <= r < n => Pow2(r))
  }

  lemma TracksStart(rows: seq<nat>)
    ensures Tracks(rows, rows, Units(|rows|), Units(|rows|))
  {
    forall r | 0 <= r < |rows| ensures rows[r] == DotRow(Pow2(r), rows) {
      DotRowUnit(r, rows);
    }
  }

  /** `m[row] = (m[row] + m[rank]) % 2` keeps both invariants and clears
      bit col of the row. */
  lemma AddKeeps(m: seq<nat>, rows: seq<nat>, g: seq<nat>, h: seq<nat>, piv: seq<nat>, col: nat, r: nat, cols: nat)
    requires Tracks(m, rows, g, h) && Reduced(m, piv, col) && Width(m, cols)
    requires |piv| < |m| && r < |m| && r != |piv|
    requires Bit(m[|piv|], col) && Bit(m[r], col)
    ensures Tracks(m[r := Xor(m[r], m[|piv|])], rows, g[r := Xor(g[r], g[|piv|])], GaussJordan.UndoAdd(h, r, |piv|))
    ensures Reduced(m[r := Xor(m[r], m[|piv|])], piv, col)
    ensures Width(m[r := Xor(m[r], m[|piv|])], cols)
    ensures !Bit(Xor(m[r], m[|piv|]), col)
  {
    var c := |piv|;
    var x := Xor(m[r], m[c]);
    var m' := m[r := x];
    var h' := GaussJordan.UndoAdd(h, r, c);
    DotRowLinear(g[r], g[c], rows);
    forall i | 0 <= i < |rows| ensures rows[i] == DotRow(h'[i], m') {
      GaussJordan.UndoAddRow(h[i], m, r, c);
    }
    forall k | 0 <= k < |piv| ensures (Bit(x, piv[k]) <==> r == k) {
      BitXor(m[r], m[c], piv[k]);
    }
    forall q, d | c <= q < |m'| && 0 <= d < col ensures !Bit(m'[q], d) {
      BitXor(m[r], m[c], d);
    }
    BitXor(m[r], m[c], col);
    XorBelow(m[r], m[c], cols);
  }

  /** Exchanging rows rank and p (both at or below rank) keeps both
      invariants. */
  lemma SwapKeeps(m: seq<nat>, rows: seq<nat>, g: seq<nat>, h: seq<nat>, piv: seq<nat>, col: nat, p: nat, cols: nat)
    requires Tracks(m, rows, g, h) && Reduced(m, piv, col) && Width(m, cols)
    requires |piv| < p < |m|
    ensures Tracks(m[|piv| := m[p]][p := m[|piv|]], rows, g[|piv| := g[p]][p := g[|piv|]], GaussJordan.UndoSwap(h, |piv|, p))
    ensures Reduced(m[|piv| := m[p]][p := m[|piv|]], piv, col)
    ensures Width(m[|piv| := m[p]][p := m[|piv|]], cols)
  {
    var c := |piv|;
    var m' := m[c := m[p]][p := m[c]];
    var h' := GaussJordan.UndoSwap(h, c, p);
    forall i | 0 <= i < |rows| ensures rows[i] == DotRow(h'[i], m') {
      GaussJordan.UndoSwapRow(h[i], m, c, p);
    }
  }

  /** A column with no set bit at or below rank is done with no pivot. */
  lemma SkipKeeps(m: seq<nat>, piv: seq<nat>, col: nat)
    requires Reduced(m, piv, col)
    requires forall r :: |piv| <= r < |m| ==> !Bit(m[r], col)
    ensures Reduced(m, piv, col + 1)
  {
  }

  /** After the pivot row has cleared column col from every other row, the
      column becomes the next pivot. */
  lemma PivotKeeps(m: seq<nat>, piv: seq<nat>, col: nat)
    requires Reduced(m, piv, col) && |piv| < |m|
    requires forall r :: 0 <= r < |m| ==> (Bit(m[r], col) <==> r == |piv|)
    ensures Reduced(m, piv + [col], col + 1)
  {
  }

  // ---------------------------------------------------------------------
  // The steps of one column

  /** The first row at or after `from` whose bit col is set, or |m|. */
  function FirstWithBit(m: seq<nat>, col: nat, from: nat): (p: nat)
    requires from <= |m|
    ensures from <= p <= |m|
    ensures p < |m| ==> Bit(m[p], col)
    ensures forall r :: from <= r < p ==> !Bit(m[r], col)
    decreases |m| - from
  {
    if from == |m| then |m|
    else if Bit(m[from], col) then from
    else FirstWithBit(m, col, from + 1)
  }

  /** The pivot search `for row in range(rank, rows): if m[row, col] == 1:
      pivot_row = row; break`, with |m| standing for None. */
  method FindPivot(m: seq<nat>, rank: nat, col: nat) returns (p: nat)
    requires rank <= |m|
    ensures p == FirstWithBit(m, col, rank)
  {
    p := rank;
    while p < |m| && !Bit(m[p], col)
      invariant rank <= p <= |m|
      invariant FirstWithBit(m, col, p) == FirstWithBit(m, col, rank)
    {
      p := p + 1;
    }
  }

  /** `m[[pivot_row, rank]] = m[[rank, pivot_row]]`. */
  method SwapRows(m: array<nat>, rows: seq<nat>, ghost g: seq<nat>, ghost h: seq<nat>, ghost piv: seq<nat>, col: nat, rank: nat, p: nat, cols: nat)
      returns (ghost g': seq<nat>, ghost h': seq<nat>)
    requires Tracks(m[..], rows, g, h) && Reduced(m[..], piv, col) && Width(m[..], cols)
    requires rank == |piv| < p < m.Length && Bit(m[p], col)
    modifies m
    ensures Tracks(m[..], rows, g', h') && Reduced(m[..], piv, col) && Width(m[..], cols)
    ensures Bit(m[|piv|], col)
  {
    var c := rank;
    SwapKeeps(m[..], rows, g, h, piv, col, p, cols);
    g' := g[c := g[p]][p := g[c]];
    h' := GaussJordan.UndoSwap(h, c, p);
    ghost var before := m[..];
    m[c], m[p] := m[p], m[c];
    assert m[..] == before[c := before[p]][p := before[c]];
  }

  /** The elimination loop: `for row in range(rows): if row != rank and
      m[row, col] == 1: m[row] = (m[row] + m[rank]) % 2`. */
  method EliminateColumn(m: array<nat>, rows: seq<nat>, ghost g: seq<nat>, ghost h: seq<nat>, ghost piv: seq<nat>, col: nat, rank: nat, cols: nat)
      returns (ghost g': seq<nat>, ghost h': seq<nat>)
    requires Tracks(m[..], rows, g, h) && Reduced(m[..], piv, col) && Width(m[..], cols)
    requires rank == |piv| < m.Length && Bit(m[rank], col)
    modifies m
    ensures Tracks(m[..], rows, g', h') && Reduced(m[..], piv + [col], col + 1) && Width(m[..], cols)
  {
    g', h' := g, h;
    for row := 0 to m.Length
      invariant Tracks(m[..], rows, g', h') && Reduced(m[..], piv, col) && Width(m[..], cols)
      invariant Bit(m[rank], col)
      invariant forall r :: 0 <= r < row && r != rank ==> !Bit(m[r], col)
    {
      if row != rank && Bit(m[row], col) {
        AddKeeps(m[..], rows, g', h', piv, col, row, cols);
        g' := g'[row := Xor(g'[row], g'[rank])];
        h' := GaussJordan.UndoAdd(h', row, rank);
        ghost var before := m[..];
        m[row] := Xor(m[row], m[rank]);
        assert m[..] == before[row := Xor(before[row], before[rank])];
      }
    }
    PivotKeeps(m[..], piv, col);
  }

  // ---------------------------------------------------------------------
  // What the finished elimination gives

  /** No bit below cols and fewer than cols bits: the word is 0. */
  lemma NoBitsIsZero(x: nat, cols: nat)
    requires x < Pow2(cols)
    requires forall c :: 0 <= c < cols ==> !Bit(x, c)
    ensures x == 0
  {
    forall k: nat ensures Bit(x, k) == Bit(0, k) {
      ZeroHasNoBit(k);
      if k >= cols {
        BitAbove(x, cols, k);
      }
    }
    BitExt(x, 0);
  }

  lemma {:induction false} PivotBitUpTo(b: seq<nat>, piv: seq<nat>, g: nat, k: nat, n: nat)
    requires |piv| == |b| && k < |b| && n <= |b|
    requires forall r :: 0 <= r < |b| ==> (Bit(b[r], piv[k]) <==> r == k)
    ensures Bit(DotRowUpTo(g, b, n), piv[k]) <==> k < n && Bit(g, k)
    decreases n
  {
    if n > 0 {
      PivotBitUpTo(b, piv, g, k, n - 1);
      BitXor(DotRowUpTo(g, b, n - 1), Term(Bit(g, n - 1), b[n - 1]), piv[k]);
      if !Bit(g, n - 1) {
        ZeroHasNoBit(piv[k]);
      }
    }
  }

  /** Rows with private pivot columns are independent: the combination
      selected by g has pivot bit k exactly when g has bit k. */
  lemma PivotsIndependent(b: seq<nat>, piv: seq<nat>)
    requires |piv| == |b|
    requires forall k, r :: 0 <= k < |b| && 0 <= r < |b| ==> (Bit(b[r], piv[k]) <==> r == k)
    ensures Independent(b)
  {
    forall g: nat | 0 < g < Pow2(|b|) ensures DotRow(g, b) != 0 {
      if forall k :: 0 <= k < |b| ==> !Bit(g, k) {
        NoBitsIsZero(g, |b|);
      } else {
        var k :| 0 <= k < |b| && Bit(g, k);
        PivotBitUpTo(b, piv, g, k, |b|);
        NonZeroFromBit(DotRow(g, b), piv[k]);
      }
    }
  }

  /** Each list is inside the span of the other, so the spans agree. */
  lemma SameSpan(m: seq<nat>, rows: seq<nat>, g: seq<nat>, h: seq<nat>, rank: nat)
    requires Tracks(m, rows, g, h) && rank <= |m|
    requires forall r :: rank <= r < |m| ==> m[r] == 0
    ensures Span(m[..rank]) == Span(rows)
  {
    var b := m[..rank];
    SpanZero(rows);
    SpanZero(b);
    forall x, i | x in Span(rows) && 0 <= i < |b| ensures Xor(x, b[i]) in Span(rows) {
      SpanAnySelector(rows, g[i]);
      SpanXor(rows, x, b[i]);
    }
    SpanWithin(b, Span(rows));
    forall x, i | x in Span(b) && 0 <= i < |rows| ensures Xor(x, rows[i]) in Span(b) {
      DotRowPrefix(h[i], m, rank);
      SpanAnySelector(b, h[i]);
      SpanXor(b, x, rows[i]);
    }
    SpanWithin(rows, Span(b));
  }

  /** Rows below rank are non-zero (each has its pivot bit), the rest are 0. */
  lemma Shape(m: seq<nat>, piv: seq<nat>, cols: nat)
    requires Reduced(m, piv, cols) && Width(m, cols)
    ensures forall r :: 0 <= r < |piv| ==> m[r] != 0
    ensures forall r :: |piv| <= r < |m| ==> m[r] == 0
  {
    forall r | 0 <= r < |piv| ensures m[r] != 0 {
      NonZeroFromBit(m[r], piv[r]);
    }
    forall r | |piv| <= r < |m| ensures m[r] == 0 {
      NoBitsIsZero(m[r], cols);
    }
  }

  // ---------------------------------------------------------------------
  // The elimination

  /**
   * The Gauss-Jordan pass of gf2_rank and of the row-echelon printout:
   * for each column, find a pivot at or below rank, swap it up, clear the
   * column from every other row, and count it.  It runs on a copy of the
   * rows.  The first rank rows that come out are independent and span the
   * same space as the input, and the remaining rows are 0.
   */
  method Echelon(rows: seq<nat>, cols: nat) returns (m: seq<nat>, rank: nat)
    requires forall i :: 0 <= i < |rows| ==> rows[i] < Pow2(cols)
    ensures |m| == |rows| && rank <= |rows| && rank <= cols
    ensures forall r :: 0 <= r < rank ==> m[r] != 0
    ensures forall r :: rank <= r < |m| ==> m[r] == 0
    ensures Independent(m[..rank])
    ensures Span(m[..rank]) == Span(rows)
  {
    var a := new nat[|rows|](i requires 0 <= i < |rows| => rows[i]);
    assert a[..] == rows;
    ghost var piv, g, h;
    rank, piv, g, h := EliminateAll(a, rows, cols);
    m := a[..];
    Shape(m, piv, cols);
    PivotsIndependent(m[..rank], piv);
    SameSpan(m, rows, g, h, rank);
  }

  /** The column loop, on the copy a of rows. */
  method EliminateAll(a: array<nat>, rows: seq<nat>, cols: nat)
      returns (rank: nat, ghost piv: seq<nat>, ghost g: seq<nat>, ghost h: seq<nat>)
    requires a[..] == rows && Width(rows, cols)
    modifies a
    ensures Tracks(a[..], rows, g, h) && Reduced(a[..], piv, cols) && Width(a[..], cols)
    ensures rank == |piv|
  {
    g := Units(|rows|);
    h := Units(|rows|);
    piv := [];
    TracksStart(rows);
    rank := 0;
    for col := 0 to cols
      invariant Tracks(a[..], rows, g, h) && Reduced(a[..], piv, col) && Width(a[..], cols)
      invariant rank == |piv|
    {
      var p := FindPivot(a[..], rank, col);
      if p == a.Length {
        SkipKeeps(a[..], piv, col);
        continue;
      }
      if p != rank {
        g, h := SwapRows(a, rows, g, h, piv, col, rank, p, cols);
      }
      g, h := EliminateColumn(a, rows, g, h, piv, col, rank, cols);
      piv := piv + [col];
      rank := rank + 1;
    }
  }

  /** gf2_rank: the number of pivot columns.  It is at most the number of
      rows and of columns, and 2^rank is the size of the span of the rows. */
  method Gf2Rank(rows: seq<nat>, cols: nat) returns (rank: nat)
    requires forall i :: 0 <= i < |rows| ==> rows[i] < Pow2(cols)
    ensures rank <= |rows| && rank <= cols
    ensures |Span(rows)| == Pow2(rank)
  {
    var m;
    m, rank := Echelon(rows, cols);
    SpanCard(m[..rank]);
  }

  /** The exponent of a power of two is unique. */
  lemma {:induction false} Pow2Injective(a: nat, b: nat)
    requires Pow2(a) == Pow2(b)
    ensures a == b
    decreases a + b
  {
    if a > 0 && b > 0 {
      Pow2Injective(a - 1, b - 1);
    }
  }

  /** `sum(1 for row in m if any(row))`. */
  function NonZeroRows(m: seq<nat>): (n: nat)
    ensures n <= |m|
  {
    if m == [] then 0 else NonZeroRows(m[..|m| - 1]) + (if m[|m| - 1] != 0 then 1 else 0)
  }

  lemma {:induction false} NonZeroRowsShape(m: seq<nat>, rank: nat)
    requires rank <= |m|
    requires forall r :: 0 <= r < rank ==> m[r] != 0
    requires forall r :: rank <= r < |m| ==> m[r] == 0
    ensures NonZeroRows(m) == rank
    decreases |m|
  {
    if |m| > 0 {
      var m' := m[..|m| - 1];
      if rank == |m| {
        NonZeroRowsShape(m', rank - 1);
      } else {
        NonZeroRowsShape(m', rank);
      }
    }
  }

  /**
   * The rank part of missing_values_rank.py: gf2_rank, then the separate
   * echelon pass and its count of non-zero rows, then the XOR closure.  The
   * two passes agree (the non-zero count is the rank), and for a non-empty
   * list the closure has 2^rank elements, as the script reports.
   */
  method RankReport(values: seq<nat>, w: nat) returns (rank: nat, nonZero: nat, closure: set<nat>)
    requires forall i :: 0 <= i < |values| ==> values[i] < Pow2(w)
    ensures rank <= |values| && rank <= w
    ensures nonZero == rank
    ensures |values| > 0 ==> |closure| == Pow2(rank)
    ensures |values| == 0 ==> closure == {}
  {
    rank := Gf2Rank(values, w);
    var m, current := Echelon(values, w);
    nonZero := NonZeroRows(m);
    NonZeroRowsShape(m, current);
    SpanCard(m[..current]);
    Pow2Injective(rank, current);
    closure := RankClosure(values, w);
  }

  // ---------------------------------------------------------------------
  // The basis the script prints

  /** The rows the script's basis loop picks in columns 0..n-1: in each
      column, the first row at or after the number of rows picked so far
      that has the column's bit. */
  function Picks(A: seq<nat>, n: nat): (p: seq<nat>)
    ensures |p| <= |A|
    ensures forall k :: 0 <= k < |p| ==> p[k] < |A|
  {
    if n == 0 then []
    else
      var p := Picks(A, n - 1);
      var r := FirstWithBit(A, n - 1, |p|);
      if r < |A| then p + [r] else p
  }

  /** `list(dict.fromkeys(s))`: the first occurrence of each entry, in
      order. */
  function Dedupe(s: seq<nat>): (d: seq<nat>)
    ensures forall x :: x in d <==> x in s
    ensures forall i, j :: 0 <= i < j < |d| ==> d[i] != d[j]
  {
    if s == [] then []
    else
      var d := Dedupe(s[..|s| - 1]);
      if s[|s| - 1] in d then d else d + [s[|s| - 1]]
  }

  /** `s[:n]`. */
  function Take(s: seq<nat>, n: nat): (t: seq<nat>)
    ensures |t| <= n && |t| <= |s|
    ensures t == s[..|t|]
  {
    if n <= |s| then s[..n] else s
  }

  /** The values at the listed indices. */
  function Select(A: seq<nat>, idx: seq<nat>): (v: seq<nat>)
    requires forall k :: 0 <= k < |idx| ==> idx[k] < |A|
    ensures |v| == |idx|
  {
    seq(|idx|, k requires 0 <= k < |idx| => A[idx[k]])
  }

  /**
   * The basis loop of missing_values_rank.py as written: for each column,
   * the first row of the original matrix at or after current_row with that
   * bit is appended and current_row goes up by one; duplicates are then
   * dropped and the list is cut to rank entries.  The result is a list of
   * distinct row indices, at most rank of them, but it need not be a basis
   * (see BasisAsWrittenDependent).
   */
  method BasisIndicesAsWritten(A: seq<nat>, cols: nat, rank: nat) returns (basis: seq<nat>)
    ensures basis == Take(Dedupe(Picks(A, cols)), rank)
    ensures |basis| <= rank
    ensures forall k :: 0 <= k < |basis| ==> basis[k] < |A|
    ensures forall i, j :: 0 <= i < j < |basis| ==> basis[i] != basis[j]
  {
    var picks: seq<nat> := [];
    var current := 0;
    for col := 0 to cols
      invariant picks == Picks(A, col) && current == |picks|
    {
      var row := FindPivot(A, current, col);
      if row < |A| {
        picks := picks + [row];
        current := current + 1;
      }
    }
    basis := Take(Dedupe(picks), rank);
    TakeDedupe(picks, rank, |A|);
  }

  /** A prefix of the duplicate-free list keeps its entries below n and distinct. */
  lemma TakeDedupe(s: seq<nat>, count: nat, n: nat)
    requires forall k :: 0 <= k < |s| ==> s[k] < n
    ensures forall k :: 0 <= k < |Take(Dedupe(s), count)| ==> Take(Dedupe(s), count)[k] < n
    ensures forall i, j :: 0 <= i < j < |Take(Dedupe(s), count)| ==>
      Take(Dedupe(s), count)[i] != Take(Dedupe(s), count)[j]
  {
    var d := Dedupe(s);
    var t := Take(d, count);
    forall k | 0 <= k < |t| ensures t[k] < n {
      assert t[k] == d[k];
      assert d[k] in s;
    }
  }

  /** On the values 1, 6, 7, 8 (rank 3) the script's basis is rows 0, 1, 2,
      and those values are not independent: 1 ^ 6 == 7. */
  lemma BasisAsWrittenDependent(A: seq<nat>)
    requires A == [1, 6, 7, 8]
    ensures |Span(A)| == Pow2(3)
    ensures Take(Dedupe(Picks(A, 8)), 3) == [0, 1, 2]
    ensures !Independent(Select(A, [0, 1, 2]))
  {
    CounterSpan(A);
    CounterBasis(A);
    CounterSelected(A);
  }

  lemma CounterSpan(A: seq<nat>)
    requires A == [1, 6, 7, 8]
    ensures |Span(A)| == Pow2(3)
  {
    XorValues();
    CounterIndependent([1, 6, 8]);
    XorOfFirstTwoSpan(1, 6, 8);
  }

  lemma CounterBasis(A: seq<nat>)
    requires A == [1, 6, 7, 8]
    ensures Take(Dedupe(Picks(A, 8)), 3) == [0, 1, 2]
  {
    CounterPicks(A);
    DedupeDistinct([0, 1, 2, 3]);
  }

  lemma CounterSelected(A: seq<nat>)
    requires A == [1, 6, 7, 8]
    ensures !Independent(Select(A, [0, 1, 2]))
  {
    XorValues();
    XorOfFirstTwo(1, 6);
    assert Select(A, [0, 1, 2]) == [1, 6, Xor(1, 6)];
  }

  lemma CounterPicks(A: seq<nat>)
    requires A == [1, 6, 7, 8]
    ensures Picks(A, 8) == [0, 1, 2, 3]
  {
    BitValues();
    assert Picks(A, 1) == [0];
    assert Picks(A, 2) == [0, 1];
    assert Picks(A, 3) == [0, 1, 2];
    assert Picks(A, 4) == [0, 1, 2, 3];
    assert Picks(A, 5) == [0, 1, 2, 3];
    assert Picks(A, 6) == [0, 1, 2, 3];
    assert Picks(A, 7) == [0, 1, 2, 3];
  }

  /** 1, 6 and 8 have private pivot bits 0, 1 and 3. */
  lemma CounterIndependent(B: seq<nat>)
    requires B == [1, 6, 8]
    ensures Independent(B)
  {
    BitValues();
    PivotsIndependent(B, [0, 1, 3]);
  }

  /** Dropping duplicates changes nothing in a list without any. */
  lemma {:induction false} DedupeDistinct(s: seq<nat>)
    requires forall i, j :: 0 <= i < j < |s| ==> s[i] != s[j]
    ensures Dedupe(s) == s
    decreases |s|
  {
    if s != [] {
      var t := s[..|s| - 1];
      DedupeDistinct(t);
      assert s[|s| - 1] !in t by {
        forall i | 0 <= i < |t| ensures t[i] != s[|s| - 1] {
          assert t[i] == s[i];
        }
      }
      assert t + [s[|s| - 1]] == s;
    }
  }

  /** The third of a, b, a ^ b is the XOR of the other two. */
  lemma XorOfFirstTwo(a: nat, b: nat)
    ensures !Independent([a, b, Xor(a, b)])
  {
    var S := [a, b, Xor(a, b)];
    BitValues();
    Pow2Values();
    XorZero(a);
    XorSelf(Xor(a, b));
    assert DotRowUpTo(7, S, 1) == a;
    assert DotRowUpTo(7, S, 2) == Xor(a, b);
    assert DotRow(7, S) == 0;
  }

  /** Adding the XOR of two entries of an independent list of three does
      not enlarge its span of 2^3 words. */
  lemma XorOfFirstTwoSpan(a: nat, b: nat, d: nat)
    requires Independent([a, b, d])
    ensures |Span([a, b, Xor(a, b), d])| == Pow2(3)
  {
    var B := [a, b, d];
    var A := [a, b, Xor(a, b), d];
    SpanCard(B);
    SpanEntry(B, 0);
    SpanEntry(B, 1);
    SpanEntry(B, 2);
    SpanXor(B, a, b);
    SpanSub(A, B);
    SpanEntry(A, 0);
    SpanEntry(A, 1);
    SpanEntry(A, 3);
    SpanSub(B, A);
    assert Span(A) == Span(B);
  }

  /** The bits of the small numbers the counterexample uses. */
  lemma BitValues()
    ensures Bit(1, 0) && !Bit(1, 1) && !Bit(1, 2) && !Bit(1, 3)
    ensures !Bit(6, 0) && Bit(6, 1) && Bit(6, 2) && !Bit(6, 3)
    ensures Bit(7, 0) && Bit(7, 1) && Bit(7, 2) && !Bit(7, 3)
    ensures !Bit(8, 0) && !Bit(8, 1) && !Bit(8, 2) && Bit(8, 3)
  {
  }

  lemma XorValues()
    ensures Xor(1, 6) == 7
  {
  }

  /** Adding a value outside the span keeps a list independent. */
  lemma IndependentExtend(B: seq<nat>, x: nat)
    requires Independent(B) && x !in Span(B)
    ensures Independent(B + [x])
  {
    var C := B + [x];
    forall g: nat | 0 < g < Pow2(|C|) ensures DotRow(g, C) != 0 {
      var d := DotRowUpTo(g, C, |B|);
      PrefixUpTo(g, C, |B|, |B|);
      assert C[..|B|] == B;
      assert DotRow(g, C) == Xor(d, Term(Bit(g, |B|), x));
      LowSelectorUpTo(B, g, |B|);
      if Bit(g, |B|) {
        SpanAnySelector(B, g);
        XorZeroIff(d, x);
      } else {
        XorZero(d);
        var k := LowestBit(g, |C|);
        BitLow(g, |B|, k);
        NonZeroFromBit(LowBits(g, |B|), k);
        LowBitsBelow(g, |B|);
        assert DotRow(LowBits(g, |B|), B) != 0;
      }
    }
  }

  /** A non-zero number below 2^n has a set bit below n. */
  lemma LowestBit(g: nat, n: nat) returns (k: nat)
    requires 0 < g < Pow2(n)
    ensures k < n && Bit(g, k)
  {
    if forall j :: 0 <= j < n ==> !Bit(g, j) {
      NoBitsIsZero(g, n);
    } else {
      k :| 0 <= k < n && Bit(g, k);
    }
  }

  /**
   * A basis of original rows, as the basis loop evidently intends: keep
   * row i when it is outside the span of the rows kept so far.  The kept
   * rows are independent and span the same space as all rows, so there
   * are exactly rank of them.
   */
  method GreedyBasis(A: seq<nat>) returns (basis: seq<nat>)
    ensures forall k :: 0 <= k < |basis| ==> basis[k] < |A|
    ensures forall i, j :: 0 <= i < j < |basis| ==> basis[i] < basis[j]
    ensures Independent(Select(A, basis))
    ensures Span(Select(A, basis)) == Span(A)
    ensures |Span(A)| == Pow2(|basis|)
  {
    basis := [];
    assert Span(A[..0]) == Span(Select(A, basis));
    for i := 0 to |A|
      invariant forall k :: 0 <= k < |basis| ==> basis[k] < i
      invariant forall k, j :: 0 <= k < j < |basis| ==> basis[k] < basis[j]
      invariant Independent(Select(A, basis))
      invariant Span(Select(A, basis)) == Span(A[..i])
    {
      basis := KeepIfNew(A, basis, i);
    }
    assert A[..|A|] == A;
    SpanCard(Select(A, basis));
  }

  /** One step of GreedyBasis: row i is kept exactly when it is outside the
      span so far. */
  method KeepIfNew(A: seq<nat>, basis: seq<nat>, i: nat) returns (basis': seq<nat>)
    requires i < |A|
    requires forall k :: 0 <= k < |basis| ==> basis[k] < i
    requires Independent(Select(A, basis))
    requires Span(Select(A, basis)) == Span(A[..i])
    ensures basis' == if A[i] in Span(Select(A, basis)) then basis else basis + [i]
    ensures forall k :: 0 <= k < |basis'| ==> basis'[k] < i + 1
    ensures Independent(Select(A, basis'))
    ensures Span(Select(A, basis')) == Span(A[..i + 1])
  {
    var S := Select(A, basis);
    var P := A[..i + 1];
    assert P[..i] == A[..i];
    SpanPrefix(A[..i], A[i]);
    assert A[..i] + [A[i]] == P;
    SpanEntry(P, i);
    if A[i] in Span(S) {
      basis' := basis;
      forall j | 0 <= j < |P| ensures P[j] in Span(S) {
        if j < i {
          SpanEntry(A[..i], j);
        }
      }
      SpanSub(P, S);
    } else {
      basis' := basis + [i];
      var S' := Select(A, basis');
      assert S' == S + [A[i]];
      IndependentExtend(S, A[i]);
      SpanPrefix(S, A[i]);
      forall j | 0 <= j < |S'| ensures S'[j] in Span(P) {
        if j < |S| {
          SpanEntry(S, j);
        }
      }
      SpanSub(S', P);
      SpanEntry(S', |S|);
      forall j | 0 <= j < |P| ensures P[j] in Span(S') {
        if j < i {
          SpanEntry(A[..i], j);
        }
      }
      SpanSub(P, S');
    }
  }
}
