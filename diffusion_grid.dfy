/**
 * The inverse diffusion matrix seen as a grid of 0/1 entries, and the
 * per-row, per-column and per-pair statistics the matrix scripts print
 * about it (visualize_inv_diffusion.py, print_inv_diffusion.py,
 * analyze_block_structure.py, visualize_diffusion_properties.py).
 *
 * A matrix is a list of row masks m; the entry at row i, column j is
 * `(m[i] >> j) & 1`.  Counts over rows are lengths of Tally.Where lists,
 * so each count comes with the list of the rows it counts.  The scripts
 * fix the size at 32; here the number of rows is |m| and the number of
 * columns a parameter w.
 */
module DiffusionGrid {
  import opened Bits
  import opened Tally
  import ByteOps

  /** `(m[i] >> j) & 1`, and 0 outside the rows. */
  function Entry(m: seq<nat>, i: nat, j: nat): (e: nat)
    ensures e <= 1
  {
    if i < |m| && Bit(m[i], j) then 1 else 0
  }

  // ---------------------------------------------------------------------
  // The grid

  /** The w low bits of x as a row of 0/1 entries, bit 0 first. */
  function GridRow(x: nat, w: nat): (r: seq<nat>)
    ensures |r| == w
  {
    seq(w, j requires 0 <= j => if Bit(x, j) then 1 else 0)
  }

  /** The number whose bit j is bits[j]: the inverse of GridRow. */
  function RowValue(bits: seq<nat>): nat {
    if bits == [] then 0 else bits[0] + 2 * RowValue(bits[1..])
  }

  /** Reading a row of the grid back gives the row mask: the grid of a
      w-bit row loses nothing. */
  lemma {:induction false} GridRoundTrip(x: nat, w: nat)
    requires x < Pow2(w)
    ensures RowValue(GridRow(x, w)) == x
    decreases w
  {
    if w > 0 {
      var r := GridRow(x, w);
      forall j | 0 <= j < w - 1 ensures r[1..][j] == GridRow(x / 2, w - 1)[j] {
        BitSucc(x, j);
      }
      assert r[1..] == GridRow(x / 2, w - 1);
      assert r[0] == x % 2;
      GridRoundTrip(x / 2, w - 1);
    }
  }

  /**
   * `matrix[i][j] = (diffusion_inv[i] >> j) & 1` over a zeroed grid: row i
   * of the grid is the 0/1 expansion of row mask i.
   */
  method ToGrid(m: seq<nat>, w: nat) returns (grid: seq<seq<nat>>)
    ensures |grid| == |m|
    ensures forall i :: 0 <= i < |m| ==> |grid[i]| == w && grid[i] == GridRow(m[i], w)
    ensures forall i, j :: 0 <= i < |m| && 0 <= j < w ==> grid[i][j] == Entry(m, i, j)
  {
    grid := seq(|m|, _ => seq(w, _ => 0));
    for i := 0 to |m|
      invariant |grid| == |m|
      invariant forall q :: 0 <= q < |m| ==> |grid[q]| == w
      invariant forall q :: 0 <= q < i ==> grid[q] == GridRow(m[q], w)
    {
      var row := FillRow(m[i], w, grid[i]);
      grid := grid[i := row];
    }
  }

  /** The inner loop: write bit j of x into entry j for every column. */
  method FillRow(x: nat, w: nat, row: seq<nat>) returns (row': seq<nat>)
    requires |row| == w
    ensures row' == GridRow(x, w)
  {
    row' := row;
    for j := 0 to w
      invariant |row'| == w
      invariant forall q :: 0 <= q < j ==> row'[q] == GridRow(x, w)[q]
    {
      row' := row'[j := if Bit(x, j) then 1 else 0];
    }
  }

  // ---------------------------------------------------------------------
  // Rows and columns

  /** Row i has a one in column c. */
  function InColumn(m: seq<nat>, c: nat): nat -> bool {
    (i: nat) => i < |m| && Bit(m[i], c)
  }

  /** Row i has a one on the diagonal. */
  function OnDiagonal(m: seq<nat>): nat -> bool {
    (i: nat) => i < |m| && Bit(m[i], i)
  }

  /** The number of ones in column c among the first n rows. */
  function ColCount(m: seq<nat>, c: nat, n: nat): nat {
    |Where(n, InColumn(m, c))|
  }

  /** The sum of the first n entries of counts. */
  function SumTo(counts: seq<nat>, n: nat): nat
    requires n <= |counts|
  {
    if n == 0 then 0 else SumTo(counts, n - 1) + counts[n - 1]
  }

  /** The column counts of the first n rows, summed over the first w columns. */
  function SumCols(m: seq<nat>, n: nat, w: nat): nat {
    if w == 0 then 0 else SumCols(m, n, w - 1) + ColCount(m, w - 1, n)
  }

  /** `sum(bin(row).count('1') for row in ...)` over the first n rows. */
  function TotalOnes(m: seq<nat>, n: nat): nat
    requires n <= |m|
  {
    if n == 0 then 0 else TotalOnes(m, n - 1) + Popcount(m[n - 1])
  }

  /** Every row mask has w bits. */
  predicate Fits(m: seq<nat>, w: nat) {
    forall i :: 0 <= i < |m| ==> m[i] < Pow2(w)
  }

  /** Adding row n adds its set bits to the column sums. */
  lemma {:induction false} SumColsStep(m: seq<nat>, n: nat, w: nat)
    requires n < |m|
    ensures SumCols(m, n + 1, w) == SumCols(m, n, w) + CountBits(m[n], w)
    decreases w
  {
    if w > 0 {
      SumColsStep(m, n, w - 1);
    }
  }

  /** Counting the ones by columns or by rows gives the same total. */
  lemma {:induction false} DoubleCount(m: seq<nat>, n: nat, w: nat)
    requires n <= |m| && Fits(m, w)
    ensures SumCols(m, n, w) == TotalOnes(m, n)
    decreases n
  {
    if n == 0 {
      ColumnsOfNoRows(m, w);
    } else {
      DoubleCount(m, n - 1, w);
      SumColsStep(m, n - 1, w);
      PopcountCountsBits(m[n - 1], w);
    }
  }

  lemma {:induction false} ColumnsOfNoRows(m: seq<nat>, w: nat)
    ensures SumCols(m, 0, w) == 0
    decreases w
  {
    if w > 0 {
      ColumnsOfNoRows(m, w - 1);
    }
  }

  /** `[bin(row).count('1') for row in diffusion_inv]`: each entry is the
      number of ones in its row, and they add up to the total. */
  function RowCounts(m: seq<nat>, w: nat): (r: seq<nat>)
    requires Fits(m, w)
    ensures |r| == |m|
    ensures forall i :: 0 <= i < |m| ==> r[i] == CountBits(m[i], w) <= w
    ensures SumTo(r, |m|) == TotalOnes(m, |m|)
  {
    var r := seq(|m|, i requires 0 <= i < |m| => Popcount(m[i]));
    forall i | 0 <= i < |m| ensures r[i] == CountBits(m[i], w) <= w {
      PopcountCountsBits(m[i], w);
      PopcountBelow(m[i], w);
    }
    RowSums(m, r, |m|);
    r
  }

  lemma {:induction false} RowSums(m: seq<nat>, r: seq<nat>, n: nat)
    requires n <= |m| == |r|
    requires forall i :: 0 <= i < |m| ==> r[i] == Popcount(m[i])
    ensures SumTo(r, n) == TotalOnes(m, n)
    decreases n
  {
    if n > 0 {
      RowSums(m, r, n - 1);
    }
  }

  /**
   * The column-count loop: for every row and every column with a one,
   * increment that column's counter.  Each counter ends as the column count,
   * and the counters add up to the total number of ones.
   */
  method ColumnCounts(m: seq<nat>, w: nat) returns (counts: seq<nat>)
    ensures |counts| == w
    ensures forall c :: 0 <= c < w ==> counts[c] == ColCount(m, c, |m|)
    ensures Fits(m, w) ==> SumTo(counts, w) == TotalOnes(m, |m|)
  {
    counts := seq(w, _ => 0);
    for i := 0 to |m|
      invariant |counts| == w
      invariant forall c :: 0 <= c < w ==> counts[c] == ColCount(m, c, i)
    {
      counts := AddRow(m, i, w, counts);
    }
    CountsSum(m, counts, w);
    if Fits(m, w) {
      DoubleCount(m, |m|, w);
    }
  }

  /** The inner loop over the columns of row i. */
  method AddRow(m: seq<nat>, i: nat, w: nat, counts: seq<nat>) returns (counts': seq<nat>)
    requires i < |m| && |counts| == w
    requires forall c :: 0 <= c < w ==> counts[c] == ColCount(m, c, i)
    ensures |counts'| == w
    ensures forall c :: 0 <= c < w ==> counts'[c] == ColCount(m, c, i + 1)
  {
    counts' := counts;
    for c := 0 to w
      invariant |counts'| == w
      invariant forall q :: 0 <= q < c ==> counts'[q] == ColCount(m, q, i + 1)
      invariant forall q :: c <= q < w ==> counts'[q] == ColCount(m, q, i)
    {
      if Bit(m[i], c) {
        counts' := counts'[c := counts'[c] + 1];
      }
    }
  }

  lemma {:induction false} CountsSum(m: seq<nat>, counts: seq<nat>, w: nat)
    requires |counts| == w
    requires forall c :: 0 <= c < w ==> counts[c] == ColCount(m, c, |m|)
    ensures SumTo(counts, w) == SumCols(m, |m|, w)
    decreases w
  {
    if w > 0 {
      CountsSum(m, counts[..w - 1], w - 1);
      SumToPrefix(counts, w - 1);
    }
  }

  lemma {:induction false} SumToPrefix(counts: seq<nat>, n: nat)
    requires n <= |counts|
    ensures SumTo(counts[..n], n) == SumTo(counts, n)
    decreases n
  {
    if n > 0 {
      SumToPrefix(counts, n - 1);
      assert counts[..n][..n - 1] == counts[..n - 1];
      SumToPrefixes(counts[..n], counts, n - 1);
    }
  }

  lemma {:induction false} SumToPrefixes(a: seq<nat>, b: seq<nat>, n: nat)
    requires n <= |a| && n <= |b| && a[..n] == b[..n]
    ensures SumTo(a, n) == SumTo(b, n)
    decreases n
  {
    if n > 0 {
      assert a[n - 1] == a[..n][n - 1];
      assert a[..n - 1] == a[..n][..n - 1];
      assert b[..n - 1] == b[..n][..n - 1];
      SumToPrefixes(a, b, n - 1);
    }
  }

  /**
   * `sum(1 for i in range(32) if (diffusion_inv[i] >> i) & 1)`: the number
   * of rows whose diagonal entry is one.
   */
  method DiagonalOnes(m: seq<nat>) returns (count: nat)
    ensures count == |Where(|m|, OnDiagonal(m))|
    ensures count <= |m|
  {
    count := 0;
    for i := 0 to |m|
      invariant count == |Where(i, OnDiagonal(m))|
    {
      if Bit(m[i], i) {
        count := count + 1;
      }
    }
  }

  /**
   * `affected_by_bit0`: the rows with a one in column c (0 in the script),
   * ascending.  Its length is the avalanche count of input bit c, the sum of
   * column c.
   */
  method AffectedBy(m: seq<nat>, c: nat) returns (rows: seq<nat>)
    ensures forall i: nat :: i in rows <==> i < |m| && Bit(m[i], c)
    ensures forall p, q :: 0 <= p < q < |rows| ==> rows[p] < rows[q]
    ensures |rows| == ColCount(m, c, |m|)
  {
    rows := Collect(|m|, InColumn(m, c));
    WhereAscending(|m|, InColumn(m, c));
  }

  /**
   * The avalanche count of input bit c: `sum(matrix[i][c] for i in
   * range(32))`, the number of rows that input bit c reaches.
   */
  method Avalanche(m: seq<nat>, c: nat) returns (affected: nat)
    ensures affected == ColCount(m, c, |m|) <= |m|
  {
    affected := 0;
    for i := 0 to |m|
      invariant affected == ColCount(m, c, i)
    {
      affected := affected + Entry(m, i, c);
    }
  }

  // ---------------------------------------------------------------------
  // Symmetry

  /** Entries (p, q) and (q, p) agree for every p < i and every q > p. */
  predicate SymRows(m: seq<nat>, i: nat) {
    forall p, q :: 0 <= p < i && p < q < |m| ==> (Bit(m[p], q) <==> Bit(m[q], p))
  }

  /** Entries (i, q) and (q, i) agree for i < q < k. */
  predicate SymCols(m: seq<nat>, i: nat, k: nat)
    requires i < |m| && k <= |m|
  {
    forall q :: i < q < k ==> (Bit(m[i], q) <==> Bit(m[q], i))
  }

  /** No pair (p, q), p < i and q > p, has both entries set. */
  predicate AntiRows(m: seq<nat>, i: nat) {
    forall p, q :: 0 <= p < i && p < q < |m| ==> !(Bit(m[p], q) && Bit(m[q], p))
  }

  predicate AntiCols(m: seq<nat>, i: nat, k: nat)
    requires i < |m| && k <= |m|
  {
    forall q :: i < q < k ==> !(Bit(m[i], q) && Bit(m[q], i))
  }

  /** The whole matrix is symmetric: (i, j) and (j, i) agree for all i < j. */
  predicate Symmetric(m: seq<nat>) {
    SymRows(m, |m|)
  }

  /** No pair i < j has both (i, j) and (j, i) set. */
  predicate Antisymmetric(m: seq<nat>) {
    AntiRows(m, |m|)
  }

  lemma RowsStep(m: seq<nat>, i: nat)
    requires i < |m|
    ensures SymRows(m, i + 1) <==> SymRows(m, i) && SymCols(m, i, |m|)
    ensures AntiRows(m, i + 1) <==> AntiRows(m, i) && AntiCols(m, i, |m|)
  {
  }

  /**
   * The symmetry loop over all pairs i < j: is_symmetric is cleared by a
   * pair that differs, is_antisymmetric by a pair of ones.
   */
  method Symmetry(m: seq<nat>) returns (symmetric: bool, antisymmetric: bool)
    ensures symmetric <==> Symmetric(m)
    ensures antisymmetric <==> Antisymmetric(m)
  {
    symmetric, antisymmetric := true, true;
    for i := 0 to |m|
      invariant symmetric <==> SymRows(m, i)
      invariant antisymmetric <==> AntiRows(m, i)
    {
      symmetric, antisymmetric := SymmetryRow(m, i, symmetric, antisymmetric);
    }
  }

  /** The inner loop over j > i. */
  method SymmetryRow(m: seq<nat>, i: nat, symmetric: bool, antisymmetric: bool) returns (symmetric': bool, antisymmetric': bool)
    requires i < |m|
    requires symmetric <==> SymRows(m, i)
    requires antisymmetric <==> AntiRows(m, i)
    ensures symmetric' <==> SymRows(m, i + 1)
    ensures antisymmetric' <==> AntiRows(m, i + 1)
  {
    symmetric', antisymmetric' := symmetric, antisymmetric;
    for j := i + 1 to |m|
      invariant symmetric' <==> SymRows(m, i) && SymCols(m, i, j)
      invariant antisymmetric' <==> AntiRows(m, i) && AntiCols(m, i, j)
    {
      if Bit(m[i], j) != Bit(m[j], i) {
        symmetric' := false;
      }
      if Bit(m[i], j) == Bit(m[j], i) && Bit(m[i], j) {
        antisymmetric' := false;
      }
    }
    RowsStep(m, i);
  }

  // ---------------------------------------------------------------------
  // Rotations

  /**
   * `get_rotation_distance`: the first shift s < w with
   * `row1 == ((row2 << s) | (row2 >> (w - s))) & mask`, or -1 when no
   * shift matches (w is 32 in the script).
   */
  method RotationDistance(row1: nat, row2: nat, w: nat) returns (d: int)
    ensures -1 <= d < w
    ensures d == -1 <==> forall s :: 0 <= s < w ==> row1 != ByteOps.Rotl(row2, s, w)
    ensures d >= 0 ==> row1 == ByteOps.Rotl(row2, d, w)
    ensures d >= 0 ==> forall s :: 0 <= s < d ==> row1 != ByteOps.Rotl(row2, s, w)
  {
    for shift := 0 to w
      invariant forall s :: 0 <= s < shift ==> row1 != ByteOps.Rotl(row2, s, w)
    {
      if row1 == ByteOps.Rotl(row2, shift, w) {
        return shift;
      }
    }
    return -1;
  }

  /** A rotation distance found from row2 to row1 leads back from row1 to
      row2 by the rest of the word. */
  lemma RotationBack(row1: nat, row2: nat, d: nat, w: nat)
    requires row2 < Pow2(w) && d < w && row1 == ByteOps.Rotl(row2, d, w)
    ensures row2 == ByteOps.Rotl(row1, (w - d) % w, w)
  {
    ByteOps.RotlInverse(row2, d, w);
  }
}
