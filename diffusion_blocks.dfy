/**
 * Block statistics of the inverse diffusion matrix
 * (analyze_block_structure.py, visualize_inv_diffusion.py,
 * visualize_diffusion_properties.py): the ones in each b×b block, the ones
 * on each block's own diagonal, the split into ones inside and across the
 * diagonal blocks, and the anti-diagonal comparison.
 *
 * The scripts use k = 4 blocks of b = 8 rows and columns; here k and b are
 * parameters.  Sums over index ranges are `Sum(n, f)`, with f built by
 * named functions so that the same summand is the same value everywhere.
 */
module DiffusionBlocks {
  import opened Bits
  import opened DiffusionGrid

  // ---------------------------------------------------------------------
  // Finite sums

  /** f(0) + ... + f(n - 1). */
  function Sum(n: nat, f: nat -> nat): nat {
    if n == 0 then 0 else Sum(n - 1, f) + f(n - 1)
  }

  /** `x => f(a + x)`. */
  function Shift(f: nat -> nat, a: nat): nat -> nat {
    (x: nat) => f(a + x)
  }

  /** `c => g(a, c)`: row a of a two-argument summand. */
  function RowOfG(g: (nat, nat) -> nat, a: nat): nat -> nat {
    (c: nat) => g(a, c)
  }

  /** `a => g(a, c)`: column c of a two-argument summand. */
  function ColOfG(g: (nat, nat) -> nat, c: nat): nat -> nat {
    (a: nat) => g(a, c)
  }

  function RowTotals(g: (nat, nat) -> nat, q: nat): nat -> nat {
    (a: nat) => Sum(q, RowOfG(g, a))
  }

  function ColTotals(g: (nat, nat) -> nat, p: nat): nat -> nat {
    (c: nat) => Sum(p, ColOfG(g, c))
  }

  lemma {:induction false} SumAgree(n: nat, f: nat -> nat, g: nat -> nat)
    requires forall x :: 0 <= x < n ==> f(x) == g(x)
    ensures Sum(n, f) == Sum(n, g)
    decreases n
  {
    if n > 0 {
      SumAgree(n - 1, f, g);
    }
  }

  lemma {:induction false} SumAdd(n: nat, f: nat -> nat, g: nat -> nat, h: nat -> nat)
    requires forall x :: 0 <= x < n ==> h(x) == f(x) + g(x)
    ensures Sum(n, h) == Sum(n, f) + Sum(n, g)
    decreases n
  {
    if n > 0 {
      SumAdd(n - 1, f, g, h);
    }
  }

  lemma {:induction false} SumMono(n: nat, f: nat -> nat, g: nat -> nat)
    requires forall x :: 0 <= x < n ==> f(x) <= g(x)
    ensures Sum(n, f) <= Sum(n, g)
    decreases n
  {
    if n > 0 {
      SumMono(n - 1, f, g);
    }
  }

  lemma {:induction false} SumBound(n: nat, f: nat -> nat, c: nat)
    requires forall x :: 0 <= x < n ==> f(x) <= c
    ensures Sum(n, f) <= n * c
    decreases n
  {
    if n > 0 {
      SumBound(n - 1, f, c);
      assert n * c == (n - 1) * c + c;
    }
  }

  /** One term is at most the whole sum. */
  lemma {:induction false} TermBelowSum(n: nat, f: nat -> nat, x: nat)
    requires x < n
    ensures f(x) <= Sum(n, f)
    decreases n
  {
    if x < n - 1 {
      TermBelowSum(n - 1, f, x);
    }
  }

  /** Splitting a range at a. */
  lemma {:induction false} SumSplit(a: nat, n: nat, f: nat -> nat)
    ensures Sum(a + n, f) == Sum(a, f) + Sum(n, Shift(f, a))
    decreases n
  {
    if n > 0 {
      SumSplit(a, n - 1, f);
    }
  }

  /** A range of k·b indices cut into k chunks of b. */
  lemma {:induction false} SumChunks(k: nat, b: nat, f: nat -> nat, g: nat -> nat)
    requires forall c :: 0 <= c < k ==> g(c) == Sum(b, Shift(f, c * b))
    ensures Sum(k * b, f) == Sum(k, g)
    decreases k
  {
    if k > 0 {
      SumChunks(k - 1, b, f, g);
      assert k * b == (k - 1) * b + b;
      SumSplit((k - 1) * b, b, f);
    }
  }

  /** Exchanging the order of a double sum. */
  lemma {:induction false} SumSwap(p: nat, q: nat, g: (nat, nat) -> nat)
    ensures Sum(p, RowTotals(g, q)) == Sum(q, ColTotals(g, p))
    decreases p
  {
    if p == 0 {
      SumZeros(q, ColTotals(g, 0));
    } else {
      SumSwap(p - 1, q, g);
      SumAdd(q, ColTotals(g, p - 1), RowOfG(g, p - 1), ColTotals(g, p));
    }
  }

  lemma {:induction false} SumZeros(n: nat, f: nat -> nat)
    requires forall x :: 0 <= x < n ==> f(x) == 0
    ensures Sum(n, f) == 0
    decreases n
  {
    if n > 0 {
      SumZeros(n - 1, f);
    }
  }

  // ---------------------------------------------------------------------
  // Rows of the grid

  /** `j => matrix[i][j]`. */
  function RowOf(m: seq<nat>, i: nat): nat -> nat {
    (j: nat) => Entry(m, i, j)
  }

  /** `i => sum(matrix[i][j] for j in range(w))`. */
  function RowSums(m: seq<nat>, w: nat): nat -> nat {
    (i: nat) => Sum(w, RowOf(m, i))
  }

  /** The ones of the grid: rows |m|, columns w. */
  function GridOnes(m: seq<nat>, w: nat): nat {
    Sum(|m|, RowSums(m, w))
  }

  lemma {:induction false} RowOnes(m: seq<nat>, i: nat, w: nat)
    requires i < |m|
    ensures Sum(w, RowOf(m, i)) == CountBits(m[i], w)
    decreases w
  {
    if w > 0 {
      RowOnes(m, i, w - 1);
    }
  }

  /** The grid holds as many ones as the row masks have set bits. */
  lemma GridOnesTotal(m: seq<nat>, w: nat)
    requires Fits(m, w)
    ensures GridOnes(m, w) == TotalOnes(m, |m|)
  {
    GridOnesUpTo(m, w, |m|);
  }

  lemma {:induction false} GridOnesUpTo(m: seq<nat>, w: nat, n: nat)
    requires Fits(m, w) && n <= |m|
    ensures Sum(n, RowSums(m, w)) == TotalOnes(m, n)
    decreases n
  {
    if n > 0 {
      GridOnesUpTo(m, w, n - 1);
      RowOnes(m, n - 1, w);
      PopcountCountsBits(m[n - 1], w);
    }
  }

  // ---------------------------------------------------------------------
  // Blocks

  /** Row i of block (br, bc): `j => matrix[br*b + i][bc*b + j]`. */
  function BlockCell(m: seq<nat>, br: nat, bc: nat, b: nat, i: nat): nat -> nat {
    Shift(RowOf(m, br * b + i), bc * b)
  }

  /** The ones of each row of block (br, bc). */
  function BlockRows(m: seq<nat>, br: nat, bc: nat, b: nat): nat -> nat {
    (i: nat) => Sum(b, BlockCell(m, br, bc, b, i))
  }

  /** The diagonal of block (br, bc): `i => matrix[br*b + i][bc*b + i]`. */
  function DiagCell(m: seq<nat>, br: nat, bc: nat, b: nat): nat -> nat {
    (i: nat) => Entry(m, br * b + i, bc * b + i)
  }

  /** The ones in block (br, bc). */
  function BlockTotal(m: seq<nat>, br: nat, bc: nat, b: nat): nat {
    Sum(b, BlockRows(m, br, bc, b))
  }

  /** The ones on the diagonal of block (br, bc) (local i == j). */
  function BlockDiagonal(m: seq<nat>, br: nat, bc: nat, b: nat): nat {
    Sum(b, DiagCell(m, br, bc, b))
  }

  /**
   * The inner loops over one b×b block: count its ones, and those with
   * i == j.  A block holds at most b·b ones, its diagonal at most b, and the
   * diagonal ones are among the block's ones.
   */
  method BlockOnes(m: seq<nat>, br: nat, bc: nat, b: nat) returns (total: nat, diagonal: nat)
    ensures total == BlockTotal(m, br, bc, b)
    ensures diagonal == BlockDiagonal(m, br, bc, b)
    ensures total <= b * b && diagonal <= b && diagonal <= total
  {
    total, diagonal := 0, 0;
    for i := 0 to b
      invariant total == Sum(i, BlockRows(m, br, bc, b))
      invariant diagonal == Sum(i, DiagCell(m, br, bc, b))
    {
      total, diagonal := BlockRowOnes(m, br, bc, b, i, total, diagonal);
    }
    BlockBounds(m, br, bc, b);
  }

  /** Row i of the block, and its diagonal entry, added to the counts. */
  method BlockRowOnes(m: seq<nat>, br: nat, bc: nat, b: nat, i: nat, total: nat, diagonal: nat)
    returns (total': nat, diagonal': nat)
    requires i < b
    requires total == Sum(i, BlockRows(m, br, bc, b)) && diagonal == Sum(i, DiagCell(m, br, bc, b))
    ensures total' == Sum(i + 1, BlockRows(m, br, bc, b))
    ensures diagonal' == Sum(i + 1, DiagCell(m, br, bc, b))
  {
    var cell := BlockCell(m, br, bc, b, i);
    CellBits(m, br, bc, b, i);
    var ones, hit := CountCells(cell, b, i);
    assert cell(i) == DiagCell(m, br, bc, b)(i);
    total', diagonal' := total + ones, diagonal + hit;
  }

  lemma CellBits(m: seq<nat>, br: nat, bc: nat, b: nat, i: nat)
    ensures forall j: nat :: BlockCell(m, br, bc, b, i)(j) <= 1
  {
    forall j: nat ensures BlockCell(m, br, bc, b, i)(j) <= 1 {
      var e := Entry(m, br * b + i, bc * b + j);
    }
  }

  /**
   * The loop over j: `if matrix[..][..]: total += 1` and, when also i == j,
   * `diagonal += 1`.
   */
  method CountCells(cell: nat -> nat, n: nat, i: nat) returns (ones: nat, hit: nat)
    requires forall j :: 0 <= j < n ==> cell(j) <= 1
    ensures ones == Sum(n, cell)
    ensures hit == if i < n then cell(i) else 0
  {
    ones, hit := 0, 0;
    for j := 0 to n
      invariant ones == Sum(j, cell)
      invariant hit == if i < j then cell(i) else 0
    {
      if cell(j) == 1 {
        ones := ones + 1;
        if i == j {
          hit := hit + 1;
        }
      }
    }
  }

  lemma BlockBounds(m: seq<nat>, br: nat, bc: nat, b: nat)
    ensures BlockTotal(m, br, bc, b) <= b * b
    ensures BlockDiagonal(m, br, bc, b) <= b
    ensures BlockDiagonal(m, br, bc, b) <= BlockTotal(m, br, bc, b)
  {
    TotalBound(m, br, bc, b);
    DiagonalBound(m, br, bc, b);
    DiagonalBelowTotal(m, br, bc, b);
  }

  lemma TotalBound(m: seq<nat>, br: nat, bc: nat, b: nat)
    ensures BlockTotal(m, br, bc, b) <= b * b
  {
    forall i | 0 <= i < b ensures BlockRows(m, br, bc, b)(i) <= b {
      SumBound(b, BlockCell(m, br, bc, b, i), 1);
    }
    SumBound(b, BlockRows(m, br, bc, b), b);
  }

  lemma DiagonalBound(m: seq<nat>, br: nat, bc: nat, b: nat)
    ensures BlockDiagonal(m, br, bc, b) <= b
  {
    forall i | 0 <= i < b ensures DiagCell(m, br, bc, b)(i) <= 1 {
      var e := Entry(m, br * b + i, bc * b + i);
      assert DiagCell(m, br, bc, b)(i) == e;
    }
    SumBound(b, DiagCell(m, br, bc, b), 1);
  }

  lemma DiagonalBelowTotal(m: seq<nat>, br: nat, bc: nat, b: nat)
    ensures BlockDiagonal(m, br, bc, b) <= BlockTotal(m, br, bc, b)
  {
    forall i | 0 <= i < b ensures DiagCell(m, br, bc, b)(i) <= BlockRows(m, br, bc, b)(i) {
      DiagInRow(m, br, bc, b, i);
    }
    SumMono(b, DiagCell(m, br, bc, b), BlockRows(m, br, bc, b));
  }

  /** The diagonal entry of row i of a block is one of that row's terms. */
  lemma DiagInRow(m: seq<nat>, br: nat, bc: nat, b: nat, i: nat)
    requires i < b
    ensures DiagCell(m, br, bc, b)(i) <= BlockRows(m, br, bc, b)(i)
  {
    var cell := BlockCell(m, br, bc, b, i);
    assert cell(i) == Entry(m, br * b + i, bc * b + i);
    TermBelowSum(b, cell, i);
  }

  /** `block_data`: row br holds the (total, diagonal) pairs of its k blocks. */
  method BlockData(m: seq<nat>, k: nat, b: nat) returns (blocks: seq<seq<(nat, nat)>>)
    ensures |blocks| == k
    ensures forall br :: 0 <= br < k ==> |blocks[br]| == k
    ensures forall br, bc :: 0 <= br < k && 0 <= bc < k ==>
      blocks[br][bc] == (BlockTotal(m, br, bc, b), BlockDiagonal(m, br, bc, b))
  {
    blocks := [];
    for br := 0 to k
      invariant |blocks| == br
      invariant forall p :: 0 <= p < br ==> |blocks[p]| == k
      invariant forall p, bc :: 0 <= p < br && 0 <= bc < k ==>
        blocks[p][bc] == (BlockTotal(m, p, bc, b), BlockDiagonal(m, p, bc, b))
    {
      var rowData := [];
      for bc := 0 to k
        invariant |rowData| == bc
        invariant forall q :: 0 <= q < bc ==> rowData[q] == (BlockTotal(m, br, q, b), BlockDiagonal(m, br, q, b))
      {
        var total, diagonal := BlockOnes(m, br, bc, b);
        rowData := rowData + [(total, diagonal)];
      }
      blocks := blocks + [rowData];
    }
  }

  // ---------------------------------------------------------------------
  // The blocks cover the grid

  /** The block totals along block row br. */
  function BlockLine(m: seq<nat>, k: nat, b: nat, br: nat): nat -> nat {
    (bc: nat) => BlockTotal(m, br, bc, b)
  }

  /** The block-row sums. */
  function LineTotals(m: seq<nat>, k: nat, b: nat): nat -> nat {
    (br: nat) => Sum(k, BlockLine(m, k, b, br))
  }

  /** `(i, bc) => ones of row i of block (br, bc)`. */
  function Cells(m: seq<nat>, b: nat, br: nat): (nat, nat) -> nat {
    (i: nat, bc: nat) => Sum(b, BlockCell(m, br, bc, b, i))
  }

  /** Row br·b + i, cut into k chunks of b columns, has its full count. */
  lemma RowChunks(m: seq<nat>, k: nat, b: nat, br: nat, i: nat)
    ensures Sum(k, RowOfG(Cells(m, b, br), i)) == RowSums(m, k * b)(br * b + i)
  {
    SumChunks(k, b, RowOf(m, br * b + i), RowOfG(Cells(m, b, br), i));
  }

  /** A block total is the column-wise sum of `Cells`. */
  lemma BlockAsColumn(m: seq<nat>, b: nat, br: nat, bc: nat)
    ensures BlockTotal(m, br, bc, b) == ColTotals(Cells(m, b, br), b)(bc)
  {
    var g := Cells(m, b, br);
    forall i | 0 <= i < b ensures BlockRows(m, br, bc, b)(i) == ColOfG(g, bc)(i) {
    }
    SumAgree(b, BlockRows(m, br, bc, b), ColOfG(g, bc));
  }

  /** The blocks of block row br hold the ones of rows br·b .. br·b + b - 1. */
  lemma LineIsRows(m: seq<nat>, k: nat, b: nat, br: nat)
    ensures LineTotals(m, k, b)(br) == Sum(b, Shift(RowSums(m, k * b), br * b))
  {
    var g := Cells(m, b, br);
    forall bc | 0 <= bc < k ensures BlockLine(m, k, b, br)(bc) == ColTotals(g, b)(bc) {
      BlockAsColumn(m, b, br, bc);
    }
    SumAgree(k, BlockLine(m, k, b, br), ColTotals(g, b));
    SumSwap(b, k, g);
    RowsAsChunks(m, k, b, br);
  }

  lemma RowsAsChunks(m: seq<nat>, k: nat, b: nat, br: nat)
    ensures Sum(b, RowTotals(Cells(m, b, br), k)) == Sum(b, Shift(RowSums(m, k * b), br * b))
  {
    var g := Cells(m, b, br);
    forall i | 0 <= i < b ensures RowTotals(g, k)(i) == Shift(RowSums(m, k * b), br * b)(i) {
      RowChunks(m, k, b, br, i);
    }
    SumAgree(b, RowTotals(g, k), Shift(RowSums(m, k * b), br * b));
  }

  /**
   * The k×k block totals add up to the number of ones in the matrix
   * (k·b rows of k·b bits each).
   */
  lemma BlocksSumToTotal(m: seq<nat>, k: nat, b: nat)
    requires |m| == k * b && Fits(m, k * b)
    ensures Sum(k, LineTotals(m, k, b)) == TotalOnes(m, |m|)
  {
    forall br | 0 <= br < k ensures LineTotals(m, k, b)(br) == Sum(b, Shift(RowSums(m, k * b), br * b)) {
      LineIsRows(m, k, b, br);
    }
    SumChunks(k, b, RowSums(m, k * b), LineTotals(m, k, b));
    GridOnesTotal(m, k * b);
  }

  // ---------------------------------------------------------------------
  // Connections inside and across the diagonal blocks

  /** `j => matrix[i][j]` when i and j fall in the same block of b. */
  function Inside(m: seq<nat>, b: nat, i: nat): nat -> nat
    requires b > 0
  {
    (j: nat) => if i / b == j / b then Entry(m, i, j) else 0
  }

  /** `j => matrix[i][j]` when i and j fall in different blocks. */
  function Across(m: seq<nat>, b: nat, i: nat): nat -> nat
    requires b > 0
  {
    (j: nat) => if i / b != j / b then Entry(m, i, j) else 0
  }

  function InsideRows(m: seq<nat>, b: nat, n: nat): nat -> nat
    requires b > 0
  {
    (i: nat) => Sum(n, Inside(m, b, i))
  }

  function AcrossRows(m: seq<nat>, b: nat, n: nat): nat -> nat
    requires b > 0
  {
    (i: nat) => Sum(n, Across(m, b, i))
  }

  /**
   * The connectivity loop: every one of the n×n grid is counted as internal
   * (row and column in the same block of b) or cross-block, so the two
   * counts add up to the number of ones.
   */
  method Connections(m: seq<nat>, n: nat, b: nat) returns (internal: nat, cross: nat)
    requires b > 0
    ensures internal == Sum(|m|, InsideRows(m, b, n))
    ensures cross == Sum(|m|, AcrossRows(m, b, n))
    ensures internal + cross == GridOnes(m, n)
    ensures |m| == n && Fits(m, n) ==> internal + cross == TotalOnes(m, n)
  {
    internal, cross := 0, 0;
    for i := 0 to |m|
      invariant internal == Sum(i, InsideRows(m, b, n))
      invariant cross == Sum(i, AcrossRows(m, b, n))
    {
      internal, cross := ConnectionsRow(m, n, b, i, internal, cross);
    }
    InsideAndAcross(m, n, b);
    if |m| == n && Fits(m, n) {
      GridOnesTotal(m, n);
    }
  }

  /** Every one is either inside a diagonal block or across blocks. */
  lemma InsideAndAcross(m: seq<nat>, n: nat, b: nat)
    requires b > 0
    ensures Sum(|m|, InsideRows(m, b, n)) + Sum(|m|, AcrossRows(m, b, n)) == GridOnes(m, n)
  {
    forall i | 0 <= i < |m| ensures RowSums(m, n)(i) == InsideRows(m, b, n)(i) + AcrossRows(m, b, n)(i) {
      SumAdd(n, Inside(m, b, i), Across(m, b, i), RowOf(m, i));
    }
    SumAdd(|m|, InsideRows(m, b, n), AcrossRows(m, b, n), RowSums(m, n));
  }

  method ConnectionsRow(m: seq<nat>, n: nat, b: nat, i: nat, internal: nat, cross: nat)
    returns (internal': nat, cross': nat)
    requires b > 0
    requires internal == Sum(i, InsideRows(m, b, n)) && cross == Sum(i, AcrossRows(m, b, n))
    ensures internal' == Sum(i + 1, InsideRows(m, b, n))
    ensures cross' == Sum(i + 1, AcrossRows(m, b, n))
  {
    internal', cross' := internal, cross;
    for j := 0 to n
      invariant internal' == internal + Sum(j, Inside(m, b, i))
      invariant cross' == cross + Sum(j, Across(m, b, i))
    {
      if Entry(m, i, j) == 1 {
        if i / b == j / b {
          internal' := internal' + 1;
        } else {
          cross' := cross' + 1;
        }
      }
    }
  }

  // ---------------------------------------------------------------------
  // The anti-diagonal comparison

  /**
   * `anti_diag_match`: the loop compares the total of block (i, k-1-i) with
   * that of block (0, k-1) and stops at the first difference.
   */
  method AntiDiagonalMatch(blocks: seq<seq<(nat, nat)>>) returns (matches: bool)
    requires |blocks| > 0
    requires forall i :: 0 <= i < |blocks| ==> |blocks[i]| == |blocks|
    ensures matches <==> forall i :: 0 <= i < |blocks| ==>
      blocks[i][|blocks| - 1 - i].0 == blocks[0][|blocks| - 1].0
  {
    var k := |blocks|;
    matches := true;
    for i := 0 to k
      invariant matches <==> forall q :: 0 <= q < i ==> blocks[q][k - 1 - q].0 == blocks[0][k - 1].0
    {
      if blocks[i][k - 1 - i].0 != blocks[0][k - 1].0 {
        matches := false;
        return;
      }
    }
  }
}
