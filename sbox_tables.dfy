/**
 * The square tables and walks the S_low scripts compute: the difference
 * distribution table, the linear approximation table, the search for their
 * largest off-origin entry, the cycle walk and the rotation test.
 *
 * The width is a parameter: a table of 2^w entries (w = 8 in the scripts),
 * so that no proof unrolls over 256 concrete values.
 */
module SboxTables {
  import opened Bits
  import opened Wrappers
  import opened Network
  import opened Preimage
  import opened Tally
  import SboxStats
  import ByteOps

  // ---------------------------------------------------------------------
  // Difference distribution table

  lemma XorBelowAll(dx: nat, w: nat)
    requires dx < Pow2(w)
    ensures forall x :: 0 <= x < Pow2(w) ==> Xor(x, dx) < Pow2(w)
  {
    forall x | 0 <= x < Pow2(w) ensures Xor(x, dx) < Pow2(w) {
      XorBelow(x, dx, w);
    }
  }

  /** x ↦ s[x] ^ s[x ^ dx]: the output difference of each input pair with
      input difference dx. */
  function Derivative(s: seq<nat>, dx: nat, w: nat): (d: seq<nat>)
    requires |s| == Pow2(w) && dx < Pow2(w)
    ensures |d| == |s|
    ensures forall x :: 0 <= x < |s| ==> Xor(x, dx) < |s| && d[x] == Xor(s[x], s[Xor(x, dx)])
  {
    XorBelowAll(dx, w);
    seq(|s|, x requires 0 <= x < |s| => Xor(s[x], s[Xor(x, dx)]))
  }

  /** The shape of a 2^w × 2^w table. */
  predicate Square(t: seq<seq<nat>>, n: nat) {
    |t| == n && forall d :: 0 <= d < n ==> |t[d]| == n
  }

  /** Rows of the table after the pairs with x1 < done have been counted. */
  predicate DdtAfter(s: seq<nat>, w: nat, t: seq<seq<nat>>, done: nat)
    requires |s| == Pow2(w) && done <= |s|
  {
    Square(t, |s|) &&
    forall d, e :: 0 <= d < |s| && 0 <= e < |s| ==> t[d][e] == |Preimages(Derivative(s, d, w), e, done)|
  }

  /** The same, part way through the pairs with first element x1. */
  predicate DdtPartial(s: seq<nat>, w: nat, t: seq<seq<nat>>, x1: nat, x2: nat)
    requires |s| == Pow2(w) && x1 < |s|
  {
    Square(t, |s|) &&
    forall d, e :: 0 <= d < |s| && 0 <= e < |s| ==>
      t[d][e] == |Preimages(Derivative(s, d, w), e, x1)| +
        (if Xor(x1, d) < x2 && Derivative(s, d, w)[x1] == e then 1 else 0)
  }

  /** `diff_table[dx][dy] += 1`. */
  function Bump(t: seq<seq<nat>>, d: nat, e: nat): (t': seq<seq<nat>>)
    requires d < |t| && e < |t[d]|
    ensures |t'| == |t| && forall i :: 0 <= i < |t| ==> |t'[i]| == |t[i]|
    ensures forall i, j :: 0 <= i < |t| && 0 <= j < |t[i]| ==>
      t'[i][j] == t[i][j] + (if i == d && j == e then 1 else 0)
  {
    var row: seq<nat> := t[d][e := t[d][e] + 1];
    t[d := row]
  }

  /** The pair (x1, x2) lands in row x1 ^ x2 only. */
  lemma PairRow(x1: nat, x2: nat, d: nat)
    ensures Xor(x1, d) == x2 <==> d == Xor(x1, x2)
  {
    XorCancel(d, x1);
    XorComm(d, x1);
    XorComm(Xor(x1, d), x1);
    XorCancel(x2, x1);
    XorComm(x2, x1);
    XorComm(Xor(x1, x2), x1);
  }

  /** The inner loop over x2 for one x1. */
  method DiffRow(s: seq<nat>, w: nat, t: seq<seq<nat>>, x1: nat) returns (t': seq<seq<nat>>)
    requires |s| == Pow2(w) && x1 < |s| && forall x :: 0 <= x < |s| ==> s[x] < |s|
    requires DdtAfter(s, w, t, x1)
    ensures DdtAfter(s, w, t', x1 + 1)
  {
    t' := t;
    for x2 := 0 to |s|
      invariant DdtPartial(s, w, t', x1, x2)
    {
      XorBelow(x1, x2, w);
      XorBelow(s[x1], s[x2], w);
      var dx := Xor(x1, x2);
      var dy := Xor(s[x1], s[x2]);
      ghost var before := t';
      t' := Bump(t', dx, dy);
      forall d, e | 0 <= d < |s| && 0 <= e < |s|
        ensures t'[d][e] == |Preimages(Derivative(s, d, w), e, x1)| +
          (if Xor(x1, d) < x2 + 1 && Derivative(s, d, w)[x1] == e then 1 else 0)
      {
        PairRow(x1, x2, d);
      }
    }
    forall d, e | 0 <= d < |s| && 0 <= e < |s|
      ensures t'[d][e] == |Preimages(Derivative(s, d, w), e, x1 + 1)|
    {
      PreimagesNext(Derivative(s, d, w), e, x1);
    }
  }

  /**
   * The difference table: for each pair (x1, x2),
   * `diff_table[x1 ^ x2][s[x1] ^ s[x2]] += 1`.  Entry (dx, dy) ends up as
   * the number of x with s[x] ^ s[x ^ dx] == dy.
   */
  method DiffTable(s: seq<nat>, w: nat) returns (t: seq<seq<nat>>)
    requires |s| == Pow2(w) && forall x :: 0 <= x < |s| ==> s[x] < |s|
    ensures Square(t, |s|)
    ensures forall d, e :: 0 <= d < |s| && 0 <= e < |s| ==> t[d][e] == |Preimages(Derivative(s, d, w), e, |s|)|
  {
    t := seq(|s|, d => seq(|s|, e => 0));
    for x1 := 0 to |s|
      invariant DdtAfter(s, w, t, x1)
    {
      t := DiffRow(s, w, t, x1);
    }
  }

  /** Every input pair has one output difference: each row adds up to the
      number of inputs. */
  lemma DiffRowSum(s: seq<nat>, w: nat, t: seq<seq<nat>>, dx: nat)
    requires |s| == Pow2(w) && forall x :: 0 <= x < |s| ==> s[x] < |s|
    requires Square(t, |s|)
    requires forall d, e :: 0 <= d < |s| && 0 <= e < |s| ==> t[d][e] == |Preimages(Derivative(s, d, w), e, |s|)|
    requires dx < |s|
    ensures SboxStats.Sum(t[dx], |s|) == |s|
  {
    var der := Derivative(s, dx, w);
    forall x | 0 <= x < |der| ensures der[x] < |s| {
      XorBelow(s[x], s[Xor(x, dx)], w);
    }
    SboxStats.SumOfCounts(der, t[dx], |s|);
    CountsBelow(der, |s|, |s|);
  }

  /** Input difference 0 always gives output difference 0: in the table
      DiffTable builds, row 0 is all zeros except diff_table[0][0], which
      counts every input. */
  lemma DiffRowZero(s: seq<nat>, w: nat, e: nat)
    requires |s| == Pow2(w)
    ensures |Preimages(Derivative(s, 0, w), e, |s|)| == if e == 0 then |s| else 0
  {
    var der := Derivative(s, 0, w);
    DerivativeZero(s, w);
    PreimagesFull(der, 0, |s|);
    if e != 0 {
      PreimagesAbsent(der, e, |s|);
    }
  }

  lemma DerivativeZero(s: seq<nat>, w: nat)
    requires |s| == Pow2(w)
    ensures forall x :: 0 <= x < |s| ==> Derivative(s, 0, w)[x] == 0
  {
    forall x | 0 <= x < |s| ensures Derivative(s, 0, w)[x] == 0 {
      XorZero(x);
      XorSelf(s[x]);
    }
  }

  // ---------------------------------------------------------------------
  // Largest entry off row 0

  /**
   * The scan for the most biased entry: over rows from `from` on, in row
   * order, keep an entry whose score beats the best so far strictly.  The
   * result is the first entry of the largest score, or none when every
   * score is 0.
   */
  method FirstPeak(t: seq<seq<int>>, from: nat, absolute: bool) returns (best: nat, at: Option<(nat, nat)>)
    ensures forall a, b :: from <= a < |t| && 0 <= b < |t[a]| ==> Score(t[a][b], absolute) <= best
    ensures at.None? ==> best == 0
    ensures at.Some? ==> var (a, b) := at.value;
      from <= a < |t| && b < |t[a]| && Score(t[a][b], absolute) == best > 0 &&
      forall a', b' :: from <= a' < |t| && 0 <= b' < |t[a']| && (a' < a || (a' == a && b' < b)) ==>
        Score(t[a'][b'], absolute) < best
  {
    best, at := 0, None;
    var a := from;
    while a < |t|
      invariant from <= a && (a <= |t| || a == from)
      invariant forall a', b' :: from <= a' < a && 0 <= b' < |t[a']| ==> Score(t[a'][b'], absolute) <= best
      invariant at.None? ==> best == 0
      invariant at.Some? ==> var (a0, b0) := at.value;
        from <= a0 < a && b0 < |t[a0]| && Score(t[a0][b0], absolute) == best > 0 &&
        forall a', b' :: from <= a' < |t| && 0 <= b' < |t[a']| && (a' < a0 || (a' == a0 && b' < b0)) ==>
          Score(t[a'][b'], absolute) < best
    {
      for b := 0 to |t[a]|
        invariant forall a', b' :: from <= a' < |t| && 0 <= b' < |t[a']| && (a' < a || (a' == a && b' < b)) ==>
          Score(t[a'][b'], absolute) <= best
        invariant at.None? ==> best == 0
        invariant at.Some? ==> var (a0, b0) := at.value;
          from <= a0 <= a && b0 < |t[a0]| && (a0 < a || b0 < b) && Score(t[a0][b0], absolute) == best > 0 &&
          forall a', b' :: from <= a' < |t| && 0 <= b' < |t[a']| && (a' < a0 || (a' == a0 && b' < b0)) ==>
            Score(t[a'][b'], absolute) < best
      {
        var score := Score(t[a][b], absolute);
        if score > best {
          best, at := score, Some((a, b));
        }
      }
      a := a + 1;
    }
  }

  /** `abs(v)` for the linear table, v itself for the difference table. */
  function Score(v: int, absolute: bool): nat {
    if v < 0 then (if absolute then -v else 0) else v
  }

  /** The table DiffTable builds: entry (dx, dy) counts the x with
      s[x] ^ s[x ^ dx] == dy. */
  predicate Ddt(s: seq<nat>, w: nat, t: seq<seq<nat>>)
    requires |s| == Pow2(w)
  {
    Square(t, |s|) &&
    forall d, e :: 0 <= d < |s| && 0 <= e < |s| ==> t[d][e] == |Preimages(Derivative(s, d, w), e, |s|)|
  }

  /**
   * The order `for dy in diff_table[dx]` visits a row in: the defaultdict
   * holds a key dy only once some pair with difference dx produced it, and
   * keeps the keys in insertion order.  Row dx gains its pairs as x1 rises,
   * one per x1, with dy = d[x1] for d = Derivative(s, dx, w).  So the keys
   * are the values of d in the order of their first occurrence, and b is
   * visited before every other key whose count reaches best when b occurs
   * in d before any occurrence of that key.
   */
  predicate FirstKeyOfPeak(row: seq<nat>, d: seq<nat>, b: nat, best: nat) {
    forall x :: 0 <= x < |d| && d[x] < |row| && d[x] != b && row[d[x]] >= best ==> b in d[..x]
  }

  /**
   * `max_prob` over dx != 0: rows in ascending dx (every dx is inserted
   * while x1 == 0, in ascending order), keys of a row in insertion order,
   * keeping an entry whose count beats the best so far strictly.  The
   * result is the largest count off row 0, in the first row that holds it,
   * at the key of that row inserted first among those of that count; or
   * none when every count off row 0 is 0.
   */
  method MaxDifferential(s: seq<nat>, w: nat, t: seq<seq<nat>>) returns (best: nat, at: Option<(nat, nat)>)
    requires |s| == Pow2(w) && forall x :: 0 <= x < |s| ==> s[x] < |s|
    requires Ddt(s, w, t)
    ensures forall a, b :: 1 <= a < |t| && 0 <= b < |t[a]| ==> t[a][b] <= best
    ensures at.None? ==> best == 0
    ensures at.Some? ==> 1 <= at.value.0 < |t| && at.value.1 < |t[at.value.0]| && t[at.value.0][at.value.1] == best > 0
    ensures at.Some? ==> forall a, b :: 1 <= a < at.value.0 && 0 <= b < |t[a]| ==> t[a][b] < best
    ensures at.Some? ==> FirstKeyOfPeak(t[at.value.0], Derivative(s, at.value.0, w), at.value.1, best)
  {
    best, at := 0, None;
    for a := 1 to |t|
      invariant forall a', b :: 1 <= a' < a && 0 <= b < |t[a']| ==> t[a'][b] <= best
      invariant at.None? ==> best == 0
      invariant at.Some? ==> 1 <= at.value.0 < a && at.value.1 < |t[at.value.0]| && t[at.value.0][at.value.1] == best > 0
      invariant at.Some? ==> forall a', b :: 1 <= a' < at.value.0 && 0 <= b < |t[a']| ==> t[a'][b] < best
      invariant at.Some? ==> FirstKeyOfPeak(t[at.value.0], Derivative(s, at.value.0, w), at.value.1, best)
    {
      var d := Derivative(s, a, w);
      DerivativeBelow(s, w, a);
      best, at := RowPeak(t[a], d, a, best, at);
      forall b | 0 <= b < |t[a]| ensures t[a][b] <= best {
        KeysOfRow(d, b);
      }
    }
  }

  /** The output differences of a table of values below 2^w stay below 2^w. */
  lemma DerivativeBelow(s: seq<nat>, w: nat, dx: nat)
    requires |s| == Pow2(w) && forall x :: 0 <= x < |s| ==> s[x] < |s|
    requires dx < |s|
    ensures forall x :: 0 <= x < |s| ==> Derivative(s, dx, w)[x] < |s|
  {
    forall x | 0 <= x < |s| ensures Derivative(s, dx, w)[x] < |s| {
      XorBelow(x, dx, w);
      XorBelow(s[x], s[Xor(x, dx)], w);
    }
  }

  /** A dy that no x produces is not a key: its count is 0. */
  lemma KeysOfRow(d: seq<nat>, b: nat)
    ensures b !in d ==> |Preimages(d, b, |d|)| == 0
  {
    var p := Preimages(d, b, |d|);
    if |p| > 0 {
      PreimagesMember(d, b, |d|, p[0]);
      assert p[0] in p;
    }
  }

  /**
   * The key loop of one row: visit the keys of row a in insertion order,
   * the x whose d[x] is new, and keep a key whose count beats the best so
   * far strictly.  An unchanged best leaves the entry found so far.
   */
  method RowPeak(row: seq<nat>, d: seq<nat>, a: nat, best0: nat, at0: Option<(nat, nat)>)
    returns (best: nat, at: Option<(nat, nat)>)
    requires forall x :: 0 <= x < |d| ==> d[x] < |row|
    ensures best0 <= best
    ensures forall x :: 0 <= x < |d| ==> row[d[x]] <= best
    ensures best == best0 ==> at == at0
    ensures best > best0 ==> (at.Some? && at.value.0 == a && at.value.1 in d && row[at.value.1] == best &&
      FirstKeyOfPeak(row, d, at.value.1, best))
  {
    best, at := best0, at0;
    for x := 0 to |d|
      invariant best0 <= best
      invariant forall x' :: 0 <= x' < x ==> row[d[x']] <= best
      invariant best == best0 ==> at == at0
      invariant best > best0 ==> (at.Some? && at.value.0 == a && at.value.1 in d[..x] && row[at.value.1] == best &&
        forall x' :: 0 <= x' < x && d[x'] != at.value.1 && row[d[x']] >= best ==> at.value.1 in d[..x'])
    {
      var dy := d[x];
      assert d[..x + 1] == d[..x] + [dy];
      if dy !in d[..x] && row[dy] > best {
        best, at := row[dy], Some((a, dy));
      } else if best > best0 && dy != at.value.1 && row[dy] >= best {
        KeyBefore(d, x, at.value.1);
      }
    }
    assert d[..|d|] == d;
  }

  /** When d[x] is not new, or b was inserted earlier, b occurs before x. */
  lemma KeyBefore(d: seq<nat>, x: nat, b: nat)
    requires x < |d| && b in d[..x]
    ensures forall x' :: 0 <= x' <= x && b in d[..x'] ==> b in d[..x]
    ensures d[x] in d[..x] ==> exists x' :: 0 <= x' < x && d[x'] == d[x]
  {
    forall x' | 0 <= x' <= x && b in d[..x'] ensures b in d[..x] {
      var k :| 0 <= k < x' && d[k] == b;
      assert d[..x][k] == b;
    }
    if d[x] in d[..x] {
      var k :| 0 <= k < x && d[..x][k] == d[x];
    }
  }

  // ---------------------------------------------------------------------
  // Linear approximation table

  /** `bin(v).count('1') % 2`. */
  function Parity(v: nat): nat {
    Popcount(v) % 2
  }

  /** The number of x < n with parity(a & x) == parity(b & s[x]). */
  function Agreements(s: seq<nat>, a: nat, b: nat, n: nat): (c: nat)
    requires n <= |s|
    ensures c <= n
  {
    if n == 0 then 0
    else Agreements(s, a, b, n - 1) + (if Parity(And(a, n - 1)) == Parity(And(b, s[n - 1])) then 1 else 0)
  }

  /** The count loop of one LAT entry. */
  method CountAgreements(s: seq<nat>, a: nat, b: nat) returns (count: nat)
    ensures count == Agreements(s, a, b, |s|)
  {
    count := 0;
    for x := 0 to |s|
      invariant count == Agreements(s, a, b, x)
    {
      if Parity(And(a, x)) == Parity(And(b, s[x])) {
        count := count + 1;
      }
    }
  }

  /** Entries (a, b) with a < a0, or a == a0 and b < b0, are in place. */
  predicate LatFilled(s: seq<nat>, m: nat, lat: seq<seq<int>>, a0: nat, b0: nat) {
    |lat| == m && (forall a :: 0 <= a < m ==> |lat[a]| == m) &&
    forall a, b :: 0 <= a < m && 0 <= b < m && (a < a0 || (a == a0 && b < b0)) ==>
      lat[a][b] == Agreements(s, a, b, |s|) - 128
  }

  /**
   * `lat[a][b] = count - 128` for a, b < m, where count is the number of
   * inputs on which the input mask a and the output mask b have equal
   * parity.
   */
  method LatTable(s: seq<nat>, m: nat) returns (lat: seq<seq<int>>)
    ensures |lat| == m && forall a :: 0 <= a < m ==> |lat[a]| == m
    ensures forall a, b :: 0 <= a < m && 0 <= b < m ==> lat[a][b] == Agreements(s, a, b, |s|) - 128
  {
    lat := seq(m, a => seq(m, b => 0));
    for a := 0 to m
      invariant LatFilled(s, m, lat, a, 0)
    {
      for b := 0 to m
        invariant LatFilled(s, m, lat, a, b)
      {
        var count := CountAgreements(s, a, b);
        var row: seq<int> := lat[a][b := count as int - 128];
        lat := lat[a := row];
      }
    }
  }

  /** For a 256-entry table every entry lies in [-128, 128], and the
      trivial approximation (a, b) = (0, 0) holds on every input. */
  lemma LatRange(s: seq<nat>, a: nat, b: nat)
    requires |s| == 256
    ensures -128 <= Agreements(s, a, b, |s|) - 128 <= 128
    ensures Agreements(s, 0, 0, |s|) - 128 == 128
  {
    AgreeAll(s, |s|);
  }

  lemma {:induction false} AgreeAll(s: seq<nat>, n: nat)
    requires n <= |s|
    ensures Agreements(s, 0, 0, n) == n
    decreases n
  {
    if n > 0 {
      AgreeAll(s, n - 1);
    }
  }

  /** `max_bias` over a != 0: the first entry of largest absolute value. */
  method MaxBias(lat: seq<seq<int>>) returns (best: nat, at: Option<(nat, nat)>)
    ensures forall a, b :: 1 <= a < |lat| && 0 <= b < |lat[a]| ==> Score(lat[a][b], true) <= best
    ensures at.None? ==> best == 0
    ensures at.Some? ==> (1 <= at.value.0 < |lat| && at.value.1 < |lat[at.value.0]| &&
      Score(lat[at.value.0][at.value.1], true) == best > 0)
    ensures at.Some? ==> forall a, b ::
      (1 <= a < |lat| && 0 <= b < |lat[a]| && (a < at.value.0 || (a == at.value.0 && b < at.value.1))) ==>
        Score(lat[a][b], true) < best
  {
    best, at := FirstPeak(lat, 1, true);
  }

  // ---------------------------------------------------------------------
  // Cycle walk

  /** No value occurs twice. */
  predicate Distinct(c: seq<nat>) {
    forall i, j :: 0 <= i < j < |c| ==> c[i] != c[j]
  }

  /** c is a cycle of s: each element maps to the next, the last to the first. */
  predicate IsCycle(s: seq<nat>, c: seq<nat>) {
    |c| > 0 && (forall i :: 0 <= i < |c| ==> c[i] < |s|) &&
    (forall i :: 0 <= i < |c| - 1 ==> s[c[i]] == c[i + 1]) &&
    s[c[|c| - 1]] == c[0] && Distinct(c)
  }

  /** The number of unvisited entries. */
  function CountFalse(v: seq<bool>): (c: nat)
    ensures c <= |v|
  {
    if |v| == 0 then 0 else CountFalse(v[..|v| - 1]) + (if v[|v| - 1] then 0 else 1)
  }

  lemma {:induction false} CountFalseMark(v: seq<bool>, i: nat)
    requires i < |v| && !v[i]
    ensures CountFalse(v[i := true]) == CountFalse(v) - 1
    decreases |v|
  {
    var u := v[i := true];
    if i < |v| - 1 {
      assert u[..|u| - 1] == v[..|v| - 1][i := true];
      CountFalseMark(v[..|v| - 1], i);
    } else {
      assert u[..|u| - 1] == v[..|v| - 1];
    }
  }

  lemma {:induction false} CountFalseAll(n: nat)
    ensures CountFalse(seq(n, i => false)) == n
  {
    if n > 0 {
      assert seq(n, i => false)[..n - 1] == seq(n - 1, i => false);
      CountFalseAll(n - 1);
    }
  }

  // Orbits of the walk rule

  /** The value after n steps of the walk rule: step from v to s[v] while v
      is an index, and stay at v once it is out of range. */
  function Iter(s: seq<nat>, x: nat, n: nat): nat
    decreases n
  {
    if n == 0 then x
    else
      var v := Iter(s, x, n - 1);
      if v < |s| then s[v] else v
  }

  lemma {:induction false} IterAdd(s: seq<nat>, x: nat, a: nat, b: nat)
    ensures Iter(s, x, a + b) == Iter(s, Iter(s, x, a), b)
    decreases b
  {
    if b > 0 {
      IterAdd(s, x, a, b - 1);
    }
  }

  lemma {:induction false} IterStuck(s: seq<nat>, x: nat, n: nat)
    requires x >= |s|
    ensures Iter(s, x, n) == x
    decreases n
  {
    if n > 0 {
      IterStuck(s, x, n - 1);
    }
  }

  /** The entries of c, as a set. */
  function Elems(c: seq<nat>): set<nat> {
    set v | v in c
  }

  /** The orbit of x meets E. */
  ghost predicate Enters(s: seq<nat>, x: nat, E: set<nat>) {
    exists n: nat :: Iter(s, x, n) in E
  }

  /** x is the least start whose orbit meets E. */
  ghost predicate LeastEntrant(s: seq<nat>, E: set<nat>, x: nat) {
    Enters(s, x, E) && forall x': nat :: x' < x ==> !Enters(s, x', E)
  }

  /** Some entry of cycles holds exactly the values of E. */
  ghost predicate Recorded(cycles: seq<seq<nat>>, E: set<nat>)
    decreases |cycles|
  {
    |cycles| > 0 && (Recorded(cycles[..|cycles| - 1], E) || Elems(cycles[|cycles| - 1]) == E)
  }

  lemma RecordedSnoc(cycles: seq<seq<nat>>, c: seq<nat>, E: set<nat>)
    ensures Recorded(cycles + [c], E) <==> Recorded(cycles, E) || Elems(c) == E
  {
    assert (cycles + [c])[..|cycles|] == cycles;
  }

  /** Along a cycle, i + n steps from entry i reach entry i + n. */
  lemma {:induction false} CycleForward(s: seq<nat>, c: seq<nat>, i: nat, n: nat)
    requires IsCycle(s, c) && i + n < |c|
    ensures Iter(s, c[i], n) == c[i + n]
    decreases n
  {
    if n > 0 {
      CycleForward(s, c, i, n - 1);
    }
  }

  /** From any entry of a cycle the walk reaches any other. */
  lemma CycleReach(s: seq<nat>, c: seq<nat>, i: nat, j: nat) returns (n: nat)
    requires IsCycle(s, c) && i < |c| && j < |c|
    ensures Iter(s, c[i], n) == c[j]
  {
    if i <= j {
      n := j - i;
      CycleForward(s, c, i, n);
    } else {
      CycleForward(s, c, i, |c| - 1 - i);
      IterAdd(s, c[i], |c| - 1 - i, 1);
      CycleForward(s, c, 0, j);
      IterAdd(s, c[i], |c| - i, j);
      n := |c| - i + j;
    }
  }

  /** A walk that starts on a cycle stays on it. */
  lemma {:induction false} CycleStays(s: seq<nat>, c: seq<nat>, x: nat, n: nat)
    requires IsCycle(s, c) && x in c
    ensures Iter(s, x, n) in c
    decreases n
  {
    if n > 0 {
      CycleStays(s, c, x, n - 1);
      var k :| 0 <= k < |c| && c[k] == Iter(s, x, n - 1);
      if k < |c| - 1 {
        assert s[c[k]] == c[k + 1];
      }
    }
  }

  /** On a cycle, s is one to one. */
  lemma CycleInjective(s: seq<nat>, c: seq<nat>, a: nat, b: nat)
    requires IsCycle(s, c) && a in c && b in c && s[a] == s[b]
    ensures a == b
  {
    var ia :| 0 <= ia < |c| && c[ia] == a;
    var ib :| 0 <= ib < |c| && c[ib] == b;
    var na := CycleNext(s, c, ia);
    var nb := CycleNext(s, c, ib);
  }

  /** The entry after entry i of a cycle, wrapping round to the first. */
  lemma CycleNext(s: seq<nat>, c: seq<nat>, i: nat) returns (k: nat)
    requires IsCycle(s, c) && i < |c|
    ensures k < |c| && s[c[i]] == c[k] && (k == 0 <==> i == |c| - 1) && (k > 0 ==> k == i + 1)
  {
    k := if i < |c| - 1 then i + 1 else 0;
  }

  /** Two cycles of s that share a value have the same values. */
  lemma CycleShare(s: seq<nat>, c: seq<nat>, d: seq<nat>, v: nat)
    requires IsCycle(s, c) && IsCycle(s, d) && v in c && v in d
    ensures Elems(c) == Elems(d)
  {
    forall u | u in c ensures u in d {
      var i :| 0 <= i < |c| && c[i] == v;
      var j :| 0 <= j < |c| && c[j] == u;
      var n := CycleReach(s, c, i, j);
      CycleStays(s, d, v, n);
    }
    forall u | u in d ensures u in c {
      var i :| 0 <= i < |d| && d[i] == v;
      var j :| 0 <= j < |d| && d[j] == u;
      var n := CycleReach(s, d, i, j);
      CycleStays(s, c, v, n);
    }
  }

  /** Three distinct values do not fit in a list of two. */
  lemma MoreThanTwo(c: seq<nat>, d: seq<nat>)
    requires Distinct(c) && |c| > 2 && Elems(c) <= Elems(d)
    ensures |d| > 2
  {
    assert c[0] in Elems(d) && c[1] in Elems(d) && c[2] in Elems(d);
    var a :| 0 <= a < |d| && d[a] == c[0];
    var b :| 0 <= b < |d| && d[b] == c[1];
    var e :| 0 <= e < |d| && d[e] == c[2];
  }

  /** Every cycle has a least start whose orbit meets it, at most its first entry. */
  lemma LeastEntrantExists(s: seq<nat>, c: seq<nat>) returns (x: nat)
    requires IsCycle(s, c)
    ensures LeastEntrant(s, Elems(c), x) && x < |s|
  {
    assert Iter(s, c[0], 0) in Elems(c);
    x := 0;
    while !Enters(s, x, Elems(c))
      invariant x <= c[0]
      invariant forall x': nat :: x' < x ==> !Enters(s, x', Elems(c))
      decreases c[0] - x
    {
      x := x + 1;
    }
  }

  /** A start whose orbit meets a set of indices is itself an index. */
  lemma EntrantBelow(s: seq<nat>, E: set<nat>, x: nat)
    requires Enters(s, x, E) && forall v :: v in E ==> v < |s|
    ensures x < |s|
  {
    var n: nat :| Iter(s, x, n) in E;
    if x >= |s| {
      IterStuck(s, x, n);
    }
  }

  // Walks

  /**
   * The walk from start: mark and append the current value while it is an
   * unvisited index, then step to s[current].  The appended values were
   * unvisited and are now the only newly visited ones; each step marks
   * one more entry.  Entry i is i steps of the walk rule from start, and
   * the walk stops out of range, at a value visited before, or at one of
   * its own values.
   */
  method Walk(s: seq<nat>, visited: array<bool>, start: nat) returns (cycle: seq<nat>, current: nat)
    requires visited.Length == |s| && start < |s| && !visited[start]
    modifies visited
    ensures WalkOf(s, old(visited[..]), start, cycle, current)
    ensures forall v :: 0 <= v < |s| ==> visited[v] == (old(visited[v]) || v in cycle)
    ensures CountFalse(visited[..]) + |cycle| == CountFalse(old(visited[..]))
  {
    ghost var V0 := visited[..];
    cycle, current := [], start;
    while current < |s| && !visited[current]
      invariant current == Iter(s, start, |cycle|)
      invariant WalkPrefix(s, V0, start, cycle)
      invariant forall v :: 0 <= v < |s| ==> visited[v] == (V0[v] || v in cycle)
      invariant CountFalse(visited[..]) + |cycle| == CountFalse(V0)
      decreases CountFalse(visited[..])
    {
      ghost var before := visited[..];
      CountFalseMark(before, current);
      WalkPrefixSnoc(s, V0, start, cycle, current);
      visited[current] := true;
      assert visited[..] == before[current := true];
      cycle := cycle + [current];
      current := s[current];
    }
  }

  /** The first |cycle| values of the walk from start, none marked in V0. */
  ghost predicate WalkPrefix(s: seq<nat>, V0: seq<bool>, start: nat, cycle: seq<nat>) {
    |V0| == |s| && Distinct(cycle) &&
    forall i :: 0 <= i < |cycle| ==> cycle[i] < |s| && !V0[cycle[i]] && cycle[i] == Iter(s, start, i)
  }

  lemma WalkPrefixSnoc(s: seq<nat>, V0: seq<bool>, start: nat, cycle: seq<nat>, current: nat)
    requires WalkPrefix(s, V0, start, cycle) && current == Iter(s, start, |cycle|)
    requires current < |s| && !V0[current] && current !in cycle
    ensures WalkPrefix(s, V0, start, cycle + [current]) && s[current] == Iter(s, start, |cycle| + 1)
  {
  }

  /** What one walk from start did, given the marks V0 before it. */
  ghost predicate WalkOf(s: seq<nat>, V0: seq<bool>, start: nat, cycle: seq<nat>, current: nat) {
    |cycle| > 0 && WalkPrefix(s, V0, start, cycle) &&
    current == Iter(s, start, |cycle|) &&
    (current >= |s| || V0[current] || current in cycle)
  }

  /** A walk's consecutive values are steps of s. */
  lemma WalkSteps(s: seq<nat>, V0: seq<bool>, start: nat, cycle: seq<nat>, current: nat)
    requires WalkOf(s, V0, start, cycle, current)
    ensures cycle[0] == start
    ensures forall i :: 0 <= i < |cycle| - 1 ==> s[cycle[i]] == cycle[i + 1]
    ensures current == s[cycle[|cycle| - 1]]
  {
    assert cycle[0] == Iter(s, start, 0);
  }

  /** The values reached, under the walk rule, from some start below k. */
  ghost predicate ReachedBefore(s: seq<nat>, k: nat, v: nat) {
    exists o: nat, n: nat :: o < k && Iter(s, o, n) == v
  }

  /**
   * The marks after the starts below k: exactly the indices on their
   * orbits.  A marked value was reached from a start below k, the marks
   * are closed under s, and every start below k is marked.
   */
  ghost predicate Explored(s: seq<nat>, V: seq<bool>, k: nat) {
    |V| == |s| &&
    (forall v :: 0 <= v < |s| && V[v] ==> ReachedBefore(s, k, v)) &&
    (forall v :: 0 <= v < |s| && V[v] && s[v] < |s| ==> V[s[v]]) &&
    (forall x :: 0 <= x < k && x < |s| ==> V[x])
  }

  /** Marks closed under s contain the whole orbit of a marked value. */
  lemma {:induction false} ReachClosed(s: seq<nat>, V: seq<bool>, k: nat, x: nat, n: nat)
    requires Explored(s, V, k) && x < |s| && V[x] && Iter(s, x, n) < |s|
    ensures V[Iter(s, x, n)]
    decreases n
  {
    if n > 0 {
      if Iter(s, x, n - 1) < |s| {
        ReachClosed(s, V, k, x, n - 1);
      }
    }
  }

  /** No start has been tried: nothing is marked. */
  lemma ExploredNone(s: seq<nat>)
    ensures Explored(s, seq(|s|, i => false), 0)
  {
  }

  /** A marked start adds nothing. */
  lemma ExploredSkip(s: seq<nat>, V: seq<bool>, start: nat)
    requires Explored(s, V, start) && start < |s| && V[start]
    ensures Explored(s, V, start + 1)
  {
    forall v | 0 <= v < |s| && V[v] ensures ReachedBefore(s, start + 1, v) {
      var o: nat, n: nat :| o < start && Iter(s, o, n) == v;
    }
  }

  /** A walk from an unmarked start marks exactly its orbit's new values. */
  lemma ExploredWalk(s: seq<nat>, V0: seq<bool>, V1: seq<bool>, start: nat, cycle: seq<nat>, current: nat)
    requires Explored(s, V0, start) && start < |s| && !V0[start]
    requires WalkOf(s, V0, start, cycle, current)
    requires |V1| == |s| && forall v :: 0 <= v < |s| ==> V1[v] == (V0[v] || v in cycle)
    ensures Explored(s, V1, start + 1)
  {
    WalkSteps(s, V0, start, cycle, current);
    forall v | 0 <= v < |s| && V1[v] ensures ReachedBefore(s, start + 1, v) {
      if V0[v] {
        var o: nat, n: nat :| o < start && Iter(s, o, n) == v;
      } else {
        var i :| 0 <= i < |cycle| && cycle[i] == v;
        assert Iter(s, start, i) == v;
      }
    }
    forall v | 0 <= v < |s| && V1[v] && s[v] < |s| ensures V1[s[v]] {
      if !V0[v] {
        var i :| 0 <= i < |cycle| && cycle[i] == v;
        if i < |cycle| - 1 {
          assert cycle[i + 1] in cycle;
        }
      }
    }
    assert cycle[0] in cycle;
  }

  /**
   * The key step of the walk: when start is the least start whose orbit
   * meets a cycle c of s, the walk runs into c and around it once.  It
   * stops at its own value cycle[j]; cycle[j..] is a cycle with the values
   * of c; and j == 0, so that the walk came back to start, exactly when
   * start lies on c.
   */
  lemma WalkMeetsCycle(s: seq<nat>, V0: seq<bool>, start: nat, cycle: seq<nat>, current: nat, c: seq<nat>)
      returns (j: nat)
    requires Explored(s, V0, start) && WalkOf(s, V0, start, cycle, current)
    requires IsCycle(s, c) && LeastEntrant(s, Elems(c), start)
    ensures j < |cycle| && cycle[j] == current
    ensures IsCycle(s, cycle[j..]) && Elems(cycle[j..]) == Elems(c)
    ensures j == 0 <==> start in c
  {
    UnmarkedCycle(s, V0, start, c);
    var n0: nat :| Iter(s, start, n0) in Elems(c);
    WalkReturns(s, V0, start, cycle, current, c, n0);
    j :| 0 <= j < |cycle| && cycle[j] == current;
    WalkTail(s, V0, start, cycle, current, j);
    WalkTailMeets(s, V0, start, cycle, current, j, c, n0);
    if start in c && j > 0 {
      WalkStartOnCycle(s, V0, start, cycle, current, j, c);
    }
    if j == 0 {
      WalkSteps(s, V0, start, cycle, current);
      assert start == cycle[j..][0];
      assert start in Elems(cycle[j..]);
    }
  }

  /** A walk whose orbit meets an unmarked cycle stops at one of its own values. */
  lemma WalkReturns(s: seq<nat>, V0: seq<bool>, start: nat, cycle: seq<nat>, current: nat, c: seq<nat>, n0: nat)
    requires Explored(s, V0, start) && WalkOf(s, V0, start, cycle, current)
    requires IsCycle(s, c) && (forall v :: v in c ==> v < |s| && !V0[v]) && Iter(s, start, n0) in Elems(c)
    ensures current in cycle
  {
    OrbitStaysUnmarked(s, V0, start, start, |cycle|, c, n0);
  }

  /** Along an orbit that meets an unmarked cycle, every value is an unmarked index. */
  lemma OrbitStaysUnmarked(s: seq<nat>, V0: seq<bool>, k: nat, x: nat, len: nat, c: seq<nat>, n0: nat)
    requires Explored(s, V0, k) && IsCycle(s, c) && (forall v :: v in c ==> v < |s| && !V0[v])
    requires Iter(s, x, n0) in Elems(c)
    ensures Iter(s, x, len) < |s| && !V0[Iter(s, x, len)]
  {
    var e := Iter(s, x, n0);
    var cur := Iter(s, x, len);
    if len >= n0 {
      IterAdd(s, x, n0, len - n0);
      CycleStays(s, c, e, len - n0);
    } else {
      IterAdd(s, x, len, n0 - len);
      if cur >= |s| {
        IterStuck(s, cur, n0 - len);
      } else if V0[cur] {
        ReachClosed(s, V0, k, cur, n0 - len);
      }
    }
  }

  /** From the value the walk stops at, its values form a cycle of s. */
  lemma WalkTail(s: seq<nat>, V0: seq<bool>, start: nat, cycle: seq<nat>, current: nat, j: nat)
    requires WalkOf(s, V0, start, cycle, current) && j < |cycle| && cycle[j] == current
    ensures IsCycle(s, cycle[j..])
  {
    WalkSteps(s, V0, start, cycle, current);
    var d := cycle[j..];
    forall i | 0 <= i < |d| - 1 ensures s[d[i]] == d[i + 1] {
      assert d[i] == cycle[j + i];
    }
  }

  /** That cycle has the values of any cycle the orbit meets. */
  lemma WalkTailMeets(s: seq<nat>, V0: seq<bool>, start: nat, cycle: seq<nat>, current: nat, j: nat, c: seq<nat>, n0: nat)
    requires WalkOf(s, V0, start, cycle, current) && j < |cycle| && cycle[j] == current
    requires IsCycle(s, cycle[j..]) && IsCycle(s, c) && Iter(s, start, n0) in Elems(c)
    ensures Elems(cycle[j..]) == Elems(c)
  {
    var d := cycle[j..];
    var m := if n0 <= j then j else n0;
    assert d[0] == Iter(s, start, j);
    IterAdd(s, start, j, m - j);
    CycleStays(s, d, d[0], m - j);
    IterAdd(s, start, n0, m - n0);
    CycleStays(s, c, Iter(s, start, n0), m - n0);
    CycleShare(s, c, d, Iter(s, start, m));
  }

  /** A walk that starts on a cycle comes back to its start. */
  lemma WalkStartOnCycle(s: seq<nat>, V0: seq<bool>, start: nat, cycle: seq<nat>, current: nat, j: nat, c: seq<nat>)
    requires WalkOf(s, V0, start, cycle, current) && j < |cycle| && cycle[j] == current
    requires IsCycle(s, c) && start in c
    ensures j == 0
  {
    WalkSteps(s, V0, start, cycle, current);
    var len := |cycle|;
    if j > 0 {
      assert cycle[j - 1] == Iter(s, start, j - 1);
      assert cycle[len - 1] == Iter(s, start, len - 1);
      CycleStays(s, c, start, j - 1);
      CycleStays(s, c, start, len - 1);
      CycleInjective(s, c, cycle[j - 1], cycle[len - 1]);
    }
  }

  /** Nothing on a cycle is marked before the least start whose orbit meets it. */
  lemma UnmarkedCycle(s: seq<nat>, V0: seq<bool>, start: nat, c: seq<nat>)
    requires Explored(s, V0, start) && IsCycle(s, c) && LeastEntrant(s, Elems(c), start)
    ensures forall v :: v in c ==> v < |s| && !V0[v]
  {
    forall v | v in c ensures v < |s| && !V0[v] {
      var i :| 0 <= i < |c| && c[i] == v;
      if V0[v] {
        var o: nat, n: nat :| o < start && Iter(s, o, n) == v;
        assert Iter(s, o, n) in Elems(c);
        assert Enters(s, o, Elems(c));
      }
    }
  }

  /** An orbit from a start below k that meets a cycle marks that cycle. */
  lemma EarlierEntrantMarks(s: seq<nat>, V0: seq<bool>, k: nat, c: seq<nat>, x: nat)
    requires Explored(s, V0, k) && IsCycle(s, c) && x < k && x < |s| && Enters(s, x, Elems(c))
    ensures forall v :: v in c ==> V0[v]
  {
    var n: nat :| Iter(s, x, n) in Elems(c);
    ReachClosed(s, V0, k, x, n);
    var i :| 0 <= i < |c| && c[i] == Iter(s, x, n);
    forall v | v in c ensures V0[v] {
      var j :| 0 <= j < |c| && c[j] == v;
      var m := CycleReach(s, c, i, j);
      ReachClosed(s, V0, k, c[i], m);
    }
  }

  /** Recorded cycles share no value. */
  predicate Disjoint(cycles: seq<seq<nat>>) {
    forall i, j, v :: 0 <= i < j < |cycles| && v in cycles[i] ==> v !in cycles[j]
  }

  /**
   * Which cycles the walk records after the starts below k: a cycle c of
   * more than two values is recorded exactly when the least start x whose
   * orbit meets it is below k and lies on c.  A cycle first reached through
   * a tail, from a start off the cycle, is never recorded.
   */
  ghost predicate Reports(s: seq<nat>, cycles: seq<seq<nat>>, k: nat) {
    forall c: seq<nat>, x: nat :: IsCycle(s, c) && |c| > 2 && LeastEntrant(s, Elems(c), x) ==>
      (Recorded(cycles, Elems(c)) <==> x < k && x in c)
  }

  /**
   * The cycle walk: from every unvisited start, walk until the value is
   * visited or out of range, and record the walk when it came back to
   * start with more than two values.  Every recorded walk is a cycle of s,
   * recorded cycles share no value, and the walks take at most |s| steps
   * in all, because each step marks a new entry.  A cycle of more than two
   * values is recorded exactly when the least start whose orbit meets it
   * lies on it.
   */
  method FindCycles(s: seq<nat>) returns (cycles: seq<seq<nat>>, ghost steps: nat)
    ensures forall i :: 0 <= i < |cycles| ==> |cycles[i]| > 2 && IsCycle(s, cycles[i])
    ensures Disjoint(cycles)
    ensures steps <= |s|
    ensures forall c: seq<nat>, x: nat :: IsCycle(s, c) && |c| > 2 && LeastEntrant(s, Elems(c), x) ==>
      (Recorded(cycles, Elems(c)) <==> x in c)
  {
    var visited := new bool[|s|](i => false);
    assert visited[..] == seq(|s|, i => false);
    CountFalseAll(|s|);
    ExploredNone(s);
    cycles, steps := [], 0;
    for start := 0 to |s|
      invariant visited.Length == |s|
      invariant steps + CountFalse(visited[..]) == |s|
      invariant forall i :: 0 <= i < |cycles| ==> |cycles[i]| > 2 && IsCycle(s, cycles[i])
      invariant forall i, v :: 0 <= i < |cycles| && v in cycles[i] ==> v < |s| && visited[v]
      invariant Disjoint(cycles)
      invariant Explored(s, visited[..], start)
      invariant Reports(s, cycles, start)
    {
      if !visited[start] {
        var cycle, current;
        cycles, cycle, current := WalkAndRecord(s, visited, start, cycles);
        steps := steps + |cycle|;
      } else {
        ReportsSkip(s, visited[..], start, cycles);
        ExploredSkip(s, visited[..], start);
      }
    }
    ReportsEnd(s, cycles);
  }

  /** After every start, each least entrant is below |s|. */
  lemma ReportsEnd(s: seq<nat>, cycles: seq<seq<nat>>)
    requires Reports(s, cycles, |s|)
    ensures forall c: seq<nat>, x: nat :: IsCycle(s, c) && |c| > 2 && LeastEntrant(s, Elems(c), x) ==>
      (Recorded(cycles, Elems(c)) <==> x in c)
  {
    forall c: seq<nat>, x: nat | IsCycle(s, c) && |c| > 2 && LeastEntrant(s, Elems(c), x)
      ensures Recorded(cycles, Elems(c)) <==> x in c
    {
      EntrantBelow(s, Elems(c), x);
    }
  }

  /** A marked start is nobody's least entrant, so the record is unchanged. */
  lemma ReportsSkip(s: seq<nat>, V: seq<bool>, start: nat, cycles: seq<seq<nat>>)
    requires Explored(s, V, start) && start < |s| && V[start]
    requires Reports(s, cycles, start)
    ensures Reports(s, cycles, start + 1)
  {
    forall c: seq<nat>, x: nat | IsCycle(s, c) && |c| > 2 && LeastEntrant(s, Elems(c), x)
      ensures Recorded(cycles, Elems(c)) <==> x < start + 1 && x in c
    {
      if x == start {
        var o: nat, m: nat :| o < start && Iter(s, o, m) == start;
        var n: nat :| Iter(s, start, n) in Elems(c);
        IterAdd(s, o, m, n);
        assert Enters(s, o, Elems(c));
      }
    }
  }

  /** One walk of the cycle walk, its values recorded when it closed a cycle of more than two. */
  method WalkAndRecord(s: seq<nat>, visited: array<bool>, start: nat, cycles0: seq<seq<nat>>)
    returns (cycles: seq<seq<nat>>, cycle: seq<nat>, current: nat)
    requires visited.Length == |s| && start < |s| && !visited[start]
    requires forall i :: 0 <= i < |cycles0| ==> |cycles0[i]| > 2 && IsCycle(s, cycles0[i])
    requires forall i, v :: 0 <= i < |cycles0| && v in cycles0[i] ==> v < |s| && visited[v]
    requires Disjoint(cycles0)
    requires Explored(s, visited[..], start) && Reports(s, cycles0, start)
    modifies visited
    ensures WalkOf(s, old(visited[..]), start, cycle, current)
    ensures forall v :: 0 <= v < |s| ==> visited[v] == (old(visited[v]) || v in cycle)
    ensures cycles == cycles0 + (if |cycle| > 2 && current == start then [cycle] else [])
    ensures CountFalse(visited[..]) + |cycle| == CountFalse(old(visited[..]))
    ensures forall i :: 0 <= i < |cycles| ==> |cycles[i]| > 2 && IsCycle(s, cycles[i])
    ensures forall i, v :: 0 <= i < |cycles| && v in cycles[i] ==> v < |s| && visited[v]
    ensures Disjoint(cycles)
    ensures Explored(s, visited[..], start + 1) && Reports(s, cycles, start + 1)
  {
    ghost var V0 := visited[..];
    cycle, current := Walk(s, visited, start);
    cycles := cycles0;
    if |cycle| > 2 && current == start {
      forall i, v | 0 <= i < |cycles0| && v in cycles0[i] ensures v !in cycle {
      }
      cycles := cycles0 + [cycle];
    }
    ExploredWalk(s, V0, visited[..], start, cycle, current);
    ReportsWalk(s, V0, start, cycle, current, cycles0, cycles);
  }

  /** The record after one walk, cycle by cycle. */
  lemma ReportsWalk(s: seq<nat>, V0: seq<bool>, start: nat, cycle: seq<nat>, current: nat,
                    cycles0: seq<seq<nat>>, cycles: seq<seq<nat>>)
    requires Explored(s, V0, start) && start < |s| && !V0[start]
    requires WalkOf(s, V0, start, cycle, current) && Reports(s, cycles0, start)
    requires cycles == cycles0 + (if |cycle| > 2 && current == start then [cycle] else [])
    ensures Reports(s, cycles, start + 1)
  {
    forall c: seq<nat>, x: nat | IsCycle(s, c) && |c| > 2 && LeastEntrant(s, Elems(c), x)
      ensures Recorded(cycles, Elems(c)) <==> x < start + 1 && x in c
    {
      ReportsWalkOne(s, V0, start, cycle, current, cycles0, cycles, c, x);
    }
  }

  lemma ReportsWalkOne(s: seq<nat>, V0: seq<bool>, start: nat, cycle: seq<nat>, current: nat,
                       cycles0: seq<seq<nat>>, cycles: seq<seq<nat>>, c: seq<nat>, x: nat)
    requires Explored(s, V0, start) && start < |s| && !V0[start]
    requires WalkOf(s, V0, start, cycle, current) && Reports(s, cycles0, start)
    requires cycles == cycles0 + (if |cycle| > 2 && current == start then [cycle] else [])
    requires IsCycle(s, c) && |c| > 2 && LeastEntrant(s, Elems(c), x)
    ensures Recorded(cycles, Elems(c)) <==> x < start + 1 && x in c
  {
    var E := Elems(c);
    WalkSteps(s, V0, start, cycle, current);
    var added := |cycle| > 2 && current == start;
    if added {
      RecordedSnoc(cycles0, cycle, E);
    } else {
      assert cycles == cycles0;
    }
    assert Recorded(cycles, E) <==> Recorded(cycles0, E) || (added && Elems(cycle) == E);
    if x < start {
      EntrantBelow(s, E, x);
      EarlierEntrantMarks(s, V0, start, c, x);
      if Elems(cycle) == E {
        assert start in E;
      }
    } else if x == start {
      var j := WalkMeetsCycle(s, V0, start, cycle, current, c);
      if start in c {
        assert cycle[0..] == cycle;
        MoreThanTwo(c, cycle);
      } else if Elems(cycle) == E {
        assert start in E;
      }
    } else {
      if Elems(cycle) == E {
        assert Iter(s, start, 0) == cycle[0];
        assert Enters(s, start, E);
      }
    }
  }

  /**
   * A map with a tail into a cycle: 0 steps to 1, and 1, 2, 3 form a
   * cycle of three values that the least start 0 reaches without lying
   * on it.  The cycle walk therefore never records it.
   */
  const TailExample: seq<nat> := [1, 2, 3, 1]

  lemma TailCycleMissed(cycles: seq<seq<nat>>)
    requires forall c: seq<nat>, x: nat :: IsCycle(TailExample, c) && |c| > 2 && LeastEntrant(TailExample, Elems(c), x) ==>
      (Recorded(cycles, Elems(c)) <==> x in c)
    ensures IsCycle(TailExample, [1, 2, 3]) && !Recorded(cycles, {1, 2, 3})
  {
    var c: seq<nat> := [1, 2, 3];
    assert Elems(c) == {1, 2, 3};
    assert Iter(TailExample, 0, 1) == 1;
    assert Enters(TailExample, 0, Elems(c));
    assert LeastEntrant(TailExample, Elems(c), 0);
  }

  /** The position of v in c. */
  function Position(c: seq<nat>, v: nat): (k: nat)
    requires v in c
    ensures k < |c| && c[k] == v && v !in c[..k]
  {
    if c[0] == v then 0
    else
      var k := 1 + Position(c[1..], v);
      assert c[..k] == [c[0]] + c[1..][..k - 1];
      k
  }

  /** The part of a walk that closed on itself: from the value it stopped at. */
  function ClosedTail(cycle: seq<nat>, current: nat): (tail: seq<nat>)
    ensures current in cycle ==> 0 < |tail| <= |cycle| && tail == cycle[|cycle| - |tail|..] && tail[0] == current
    ensures current !in cycle ==> tail == []
  {
    if current in cycle then cycle[Position(cycle, current)..] else []
  }

  /**
   * Which cycles the corrected walk records after the starts below k: a
   * cycle of more than two values is recorded exactly when the least start
   * whose orbit meets it is below k.
   */
  ghost predicate ReportsAll(s: seq<nat>, cycles: seq<seq<nat>>, k: nat) {
    forall c: seq<nat>, x: nat :: IsCycle(s, c) && |c| > 2 && LeastEntrant(s, Elems(c), x) ==>
      (Recorded(cycles, Elems(c)) <==> x < k)
  }

  /**
   * The cycle walk as its heading intends it: a walk that stops at one of
   * its own values records the values from there on, the cycle it ran
   * into, when there are more than two.  Every cycle of s with more than
   * two values is then recorded, once, and nothing else is.
   */
  method FindAllCycles(s: seq<nat>) returns (cycles: seq<seq<nat>>)
    ensures forall i :: 0 <= i < |cycles| ==> |cycles[i]| > 2 && IsCycle(s, cycles[i])
    ensures Disjoint(cycles)
    ensures forall c :: IsCycle(s, c) && |c| > 2 ==> Recorded(cycles, Elems(c))
  {
    var visited := new bool[|s|](i => false);
    assert visited[..] == seq(|s|, i => false);
    ExploredNone(s);
    cycles := [];
    for start := 0 to |s|
      invariant visited.Length == |s|
      invariant forall i :: 0 <= i < |cycles| ==> |cycles[i]| > 2 && IsCycle(s, cycles[i])
      invariant forall i, v :: 0 <= i < |cycles| && v in cycles[i] ==> v < |s| && visited[v]
      invariant Disjoint(cycles)
      invariant Explored(s, visited[..], start)
      invariant ReportsAll(s, cycles, start)
    {
      if !visited[start] {
        cycles := WalkAndRecordTail(s, visited, start, cycles);
      } else {
        ReportsAllSkip(s, visited[..], start, cycles);
        ExploredSkip(s, visited[..], start);
      }
    }
    forall c | IsCycle(s, c) && |c| > 2 ensures Recorded(cycles, Elems(c)) {
      var x := LeastEntrantExists(s, c);
    }
  }

  /** A marked start is nobody's least entrant, so the corrected record is unchanged. */
  lemma ReportsAllSkip(s: seq<nat>, V: seq<bool>, start: nat, cycles: seq<seq<nat>>)
    requires Explored(s, V, start) && start < |s| && V[start]
    requires ReportsAll(s, cycles, start)
    ensures ReportsAll(s, cycles, start + 1)
  {
    forall c: seq<nat>, x: nat | IsCycle(s, c) && |c| > 2 && LeastEntrant(s, Elems(c), x)
      ensures Recorded(cycles, Elems(c)) <==> x < start + 1
    {
      if x == start {
        var o: nat, m: nat :| o < start && Iter(s, o, m) == start;
        var n: nat :| Iter(s, start, n) in Elems(c);
        IterAdd(s, o, m, n);
        assert Enters(s, o, Elems(c));
      }
    }
  }

  /** One walk of the corrected cycle walk. */
  method WalkAndRecordTail(s: seq<nat>, visited: array<bool>, start: nat, cycles0: seq<seq<nat>>)
    returns (cycles: seq<seq<nat>>)
    requires visited.Length == |s| && start < |s| && !visited[start]
    requires forall i :: 0 <= i < |cycles0| ==> |cycles0[i]| > 2 && IsCycle(s, cycles0[i])
    requires forall i, v :: 0 <= i < |cycles0| && v in cycles0[i] ==> v < |s| && visited[v]
    requires Disjoint(cycles0)
    requires Explored(s, visited[..], start) && ReportsAll(s, cycles0, start)
    modifies visited
    ensures forall i :: 0 <= i < |cycles| ==> |cycles[i]| > 2 && IsCycle(s, cycles[i])
    ensures forall i, v :: 0 <= i < |cycles| && v in cycles[i] ==> v < |s| && visited[v]
    ensures Disjoint(cycles)
    ensures Explored(s, visited[..], start + 1) && ReportsAll(s, cycles, start + 1)
  {
    ghost var V0 := visited[..];
    var cycle, current := Walk(s, visited, start);
    var tail := ClosedTail(cycle, current);
    cycles := cycles0;
    if |tail| > 2 {
      cycles := cycles0 + [tail];
    }
    TailRecorded(s, V0, visited[..], start, cycle, current, tail, cycles0, cycles);
  }

  /** What one corrected walk leaves: the record and the marks, for the starts up to start. */
  lemma TailRecorded(s: seq<nat>, V0: seq<bool>, V1: seq<bool>, start: nat, cycle: seq<nat>, current: nat,
                     tail: seq<nat>, cycles0: seq<seq<nat>>, cycles: seq<seq<nat>>)
    requires Explored(s, V0, start) && start < |s| && !V0[start] && ReportsAll(s, cycles0, start)
    requires forall i :: 0 <= i < |cycles0| ==> |cycles0[i]| > 2 && IsCycle(s, cycles0[i])
    requires forall i, v :: 0 <= i < |cycles0| && v in cycles0[i] ==> v < |s| && V0[v]
    requires Disjoint(cycles0)
    requires WalkOf(s, V0, start, cycle, current)
    requires |V1| == |s| && forall v :: 0 <= v < |s| ==> V1[v] == (V0[v] || v in cycle)
    requires tail == ClosedTail(cycle, current)
    requires cycles == cycles0 + (if |tail| > 2 then [tail] else [])
    ensures forall i :: 0 <= i < |cycles| ==> |cycles[i]| > 2 && IsCycle(s, cycles[i])
    ensures forall i, v :: 0 <= i < |cycles| && v in cycles[i] ==> v < |s| && V1[v]
    ensures Disjoint(cycles)
    ensures Explored(s, V1, start + 1) && ReportsAll(s, cycles, start + 1)
  {
    if |tail| > 2 {
      TailIsNewCycle(s, V0, start, cycle, current, tail, cycles0);
    } else {
      assert cycles == cycles0;
    }
    ExploredWalk(s, V0, V1, start, cycle, current);
    ReportsAllWalk(s, V0, start, cycle, current, tail, cycles0, cycles);
  }

  /** A closed tail is a cycle of s that shares no value with the cycles recorded before. */
  lemma TailIsNewCycle(s: seq<nat>, V0: seq<bool>, start: nat, cycle: seq<nat>, current: nat, tail: seq<nat>,
                       cycles0: seq<seq<nat>>)
    requires WalkOf(s, V0, start, cycle, current) && tail == ClosedTail(cycle, current) && |tail| > 0
    requires forall i, v :: 0 <= i < |cycles0| && v in cycles0[i] ==> v < |s| && V0[v]
    ensures IsCycle(s, tail) && forall v :: v in tail ==> v in cycle
    ensures forall i, v :: 0 <= i < |cycles0| && v in cycles0[i] ==> v !in tail
  {
    WalkTail(s, V0, start, cycle, current, |cycle| - |tail|);
  }

  /** The corrected record after one walk. */
  lemma ReportsAllWalk(s: seq<nat>, V0: seq<bool>, start: nat, cycle: seq<nat>, current: nat, tail: seq<nat>,
                       cycles0: seq<seq<nat>>, cycles: seq<seq<nat>>)
    requires Explored(s, V0, start) && start < |s| && !V0[start]
    requires WalkOf(s, V0, start, cycle, current) && ReportsAll(s, cycles0, start)
    requires tail == ClosedTail(cycle, current)
    requires cycles == cycles0 + (if |tail| > 2 then [tail] else [])
    ensures ReportsAll(s, cycles, start + 1)
  {
    forall c: seq<nat>, x: nat | IsCycle(s, c) && |c| > 2 && LeastEntrant(s, Elems(c), x)
      ensures Recorded(cycles, Elems(c)) <==> x < start + 1
    {
      ReportsAllWalkOne(s, V0, start, cycle, current, tail, cycles0, cycles, c, x);
    }
  }

  lemma ReportsAllWalkOne(s: seq<nat>, V0: seq<bool>, start: nat, cycle: seq<nat>, current: nat, tail: seq<nat>,
                          cycles0: seq<seq<nat>>, cycles: seq<seq<nat>>, c: seq<nat>, x: nat)
    requires Explored(s, V0, start) && start < |s| && !V0[start]
    requires WalkOf(s, V0, start, cycle, current) && ReportsAll(s, cycles0, start)
    requires tail == ClosedTail(cycle, current)
    requires cycles == cycles0 + (if |tail| > 2 then [tail] else [])
    requires IsCycle(s, c) && |c| > 2 && LeastEntrant(s, Elems(c), x)
    ensures Recorded(cycles, Elems(c)) <==> x < start + 1
  {
    var E := Elems(c);
    if |tail| > 2 {
      RecordedSnoc(cycles0, tail, E);
    } else {
      assert cycles == cycles0;
    }
    if x == start {
      var j := WalkMeetsCycle(s, V0, start, cycle, current, c);
      var i := |cycle| - |tail|;
      assert cycle[i] == cycle[j];
      assert i == j;
      MoreThanTwo(c, tail);
      RecordedSnoc(cycles0, tail, E);
    } else if x > start && |tail| > 2 {
      TailEntered(s, V0, start, cycle, current, tail);
    }
  }

  /** The walk's own orbit meets its closed tail. */
  lemma TailEntered(s: seq<nat>, V0: seq<bool>, start: nat, cycle: seq<nat>, current: nat, tail: seq<nat>)
    requires WalkOf(s, V0, start, cycle, current) && tail == ClosedTail(cycle, current) && |tail| > 0
    ensures Enters(s, start, Elems(tail))
  {
    var j := |cycle| - |tail|;
    assert tail[0] == cycle[j] == Iter(s, start, j);
    assert tail[0] in Elems(tail);
  }

  // ---------------------------------------------------------------------
  // Rotation test

  /** How y relates to a rotation of x. */
  datatype RotationMatch = Rotated(rot: nat) | RotatedXor(rot: nat, mask: nat) | Unrelated

  /** The masks the script tries after no plain rotation fits. */
  predicate TestedMask(m: nat) {
    m == 0x00 || m == 0xFF || m == 0xAA || m == 0x55
  }

  /**
   * The rotation test for one pair: the first rot < 8 with y equal to the
   * 8-bit left rotation of x; failing that, the first rot whose rotation
   * differs from y by one of the tested masks.  A plain match is undone by
   * rotating back by 8 - rot.
   */
  method RotationTest(x: nat, y: nat) returns (r: RotationMatch)
    requires x < 256
    ensures r.Rotated? ==> (r.rot < 8 && y == ByteOps.Rotl(x, r.rot, 8) &&
      ByteOps.Rotl(y, (8 - r.rot) % 8, 8) == x &&
      forall q :: 0 <= q < r.rot ==> y != ByteOps.Rotl(x, q, 8))
    ensures r.RotatedXor? ==> (r.rot < 8 && TestedMask(r.mask) && Xor(y, ByteOps.Rotl(x, r.rot, 8)) == r.mask &&
      (forall q :: 0 <= q < 8 ==> y != ByteOps.Rotl(x, q, 8)) &&
      forall q :: 0 <= q < r.rot ==> !TestedMask(Xor(y, ByteOps.Rotl(x, q, 8))))
    ensures r.Unrelated? ==> (forall q :: 0 <= q < 8 ==>
      y != ByteOps.Rotl(x, q, 8) && !TestedMask(Xor(y, ByteOps.Rotl(x, q, 8))))
  {
    Pow2Values();
    var rot := FirstRotation(x, y, 8);
    if rot < 8 {
      ByteOps.RotlInverse(x, rot, 8);
      return Rotated(rot);
    }
    var rotX, diff := FirstMaskedRotation(x, y, 8);
    if rotX < 8 {
      return RotatedXor(rotX, diff);
    }
    return Unrelated;
  }

  /** The first loop: the least rot < w with y the rotation of x by rot, or w when there is none. */
  method FirstRotation(x: nat, y: nat, w: nat) returns (rot: nat)
    ensures rot <= w
    ensures rot < w ==> y == ByteOps.Rotl(x, rot, w)
    ensures forall q :: 0 <= q < rot ==> y != ByteOps.Rotl(x, q, w)
  {
    rot := 0;
    while rot < w && y != ByteOps.Rotl(x, rot, w)
      invariant rot <= w
      invariant forall q :: 0 <= q < rot ==> y != ByteOps.Rotl(x, q, w)
    {
      rot := rot + 1;
    }
  }

  /** The second loop: the least rot < w whose rotation differs from y by a tested mask, or w. */
  method FirstMaskedRotation(x: nat, y: nat, w: nat) returns (rot: nat, diff: nat)
    ensures rot <= w
    ensures rot < w ==> TestedMask(diff) && diff == Xor(y, ByteOps.Rotl(x, rot, w))
    ensures forall q :: 0 <= q < rot ==> !TestedMask(Xor(y, ByteOps.Rotl(x, q, w)))
  {
    rot, diff := 0, 0;
    while rot < w
      invariant rot <= w
      invariant forall q :: 0 <= q < rot ==> !TestedMask(Xor(y, ByteOps.Rotl(x, q, w)))
    {
      diff := Xor(y, ByteOps.Rotl(x, rot, w));
      if TestedMask(diff) {
        return;
      }
      rot := rot + 1;
    }
  }
}
