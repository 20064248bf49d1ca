/**
 * What every backward search of the solvers shares.
 *
 * From a state c at some round, a search computes v = invM·c
 * (InverseDiffusion), gives up on c when some v[j] has no S_low preimage,
 * and otherwise takes the preimage counts of the v[j] as the radices of a
 * mixed-radix number with position 0 least significant.  Each number
 * combo below the product of the radices decodes to one choice of
 * preimage per byte (Digits, ChildOf).
 *
 * Every decoded child is a backward child of c, so one forward round maps
 * it back onto c (DecodedChildRound); conversely every backward child is
 * decoded from exactly one combo (EveryChildIsDecoded, Digits is a
 * bijection onto the digit vectors).
 */
module SearchCore {
  import opened Bits
  import opened Gf2
  import opened Network
  import opened Preimage
  import opened FinalState
  import DotRowLoops
  import opened Wrappers

  /** The tables a search reads, tied to S_low and the diffusion matrix. */
  predicate SearchTables(t: ShapedTables, conf: seq<nat>, m: seq<nat>) {
    IsConfusion(conf) && IsMatrix(m) &&
    InverseTable(t.invLow, t.invLowCount, SLow(conf)) && LeftInverse(m, t.invM)
  }

  /** precompute's tables are fit for searching. */
  lemma ValidTablesSearch(t: Tables, conf: seq<nat>, m: seq<nat>, target: seq<nat>)
    requires IsConfusion(conf) && IsMatrix(m) && IsTarget(target) && ValidTables(t, conf, m, target)
    ensures Shaped(t) && SearchTables(t, conf, m)
  {
    ValidTablesShaped(t, conf, m, target);
  }

  /**
   * `v[j] = dot_row(invM[j], state)` for j = 0, 1, ..., stopping at the
   * first j with `inv_low_count[v[j]] == 0`.
   */
  method InverseDiffusion(t: ShapedTables, state: seq<nat>) returns (valid: bool, v: seq<nat>)
    requires IsState(state)
    ensures valid <==> InverseFeasible(t, state)
    ensures valid ==> v == Mul(t.invM, state) && IsState(v)
  {
    v := [];
    for j := 0 to 32
      invariant |v| == j
      invariant forall i :: 0 <= i < j ==> v[i] == DotRow(t.invM[i], state) && FeasibleByte(t, state, i)
    {
      var x;
      ghost var steps;
      x, steps := DotRowLoops.DotRowCtz(t.invM[j], state);
      v := v + [x];
      if t.invLowCount[x] == 0 {
        assert !FeasibleByte(t, state, j);
        return false, v;
      }
    }
    valid := true;
    assert forall i :: 0 <= i < 32 ==> v[i] == Mul(t.invM, state)[i];
  }

  // ---------------------------------------------------------------------
  // Mixed-radix numbers

  /** Every radix is positive. */
  predicate Positive(r: seq<nat>) {
    forall j :: 0 <= j < |r| ==> r[j] > 0
  }

  /** The product of the radices: the number of combos. */
  function Product(r: seq<nat>): nat {
    if |r| == 0 then 1 else r[0] * Product(r[1..])
  }

  /** The digits of combo, position 0 least significant:
      `choice_idx = temp_combo % r[j]; temp_combo /= r[j]`. */
  function Digits(combo: nat, r: seq<nat>): (d: seq<nat>)
    requires Positive(r)
    ensures |d| == |r|
    ensures forall j {:trigger d[j]} :: 0 <= j < |d| ==> d[j] < r[j]
    decreases |r|
  {
    if |r| == 0 then [] else [combo % r[0]] + Digits(combo / r[0], r[1..])
  }

  /** The number whose digits are d. */
  function Encode(d: seq<nat>, r: seq<nat>): nat
    requires |d| == |r|
  {
    if |d| == 0 then 0 else d[0] + r[0] * Encode(d[1..], r[1..])
  }

  /** Appending a radix multiplies the product by it. */
  lemma {:induction false} ProductSnoc(r: seq<nat>, x: nat)
    ensures Product(r + [x]) == Product(r) * x
    decreases |r|
  {
    if |r| > 0 {
      assert (r + [x])[1..] == r[1..] + [x];
      ProductSnoc(r[1..], x);
      assert Product(r + [x]) == r[0] * (Product(r[1..]) * x);
    }
  }

  /** A product of positive radices is positive. */
  lemma {:induction false} ProductPositive(r: seq<nat>)
    requires Positive(r)
    ensures Product(r) > 0
    decreases |r|
  {
    if |r| > 0 {
      ProductPositive(r[1..]);
    }
  }

  /** Digit vectors encode to numbers below the product. */
  lemma {:induction false} EncodeBelow(d: seq<nat>, r: seq<nat>)
    requires |d| == |r| && forall j :: 0 <= j < |d| ==> d[j] < r[j]
    ensures Encode(d, r) < Product(r)
    decreases |d|
  {
    if |d| > 0 {
      assert forall j :: 0 <= j < |d| - 1 ==> d[1..][j] == d[j + 1] && r[1..][j] == r[j + 1];
      EncodeBelow(d[1..], r[1..]);
      var d0, r0 := d[0], r[0];
      var e, p := Encode(d[1..], r[1..]), Product(r[1..]);
      assert Encode(d, r) == d0 + r0 * e;
      assert Product(r) == r0 * p;
      MulBelow(r0, e, p);
    }
  }

  lemma MulLe(a: nat, x: nat, y: nat)
    requires x <= y
    ensures a * x <= a * y
  {
  }

  /** With x < y, a * x stays a below a * y. */
  lemma MulBelow(a: nat, x: nat, y: nat)
    requires x < y
    ensures a * x + a <= a * y
  {
    MulLe(a, x + 1, y);
    assert a * (x + 1) == a * x + a;
  }

  /** Decoding then encoding gives back every combo below the product. */
  lemma {:induction false} DigitsEncode(combo: nat, r: seq<nat>)
    requires Positive(r) && combo < Product(r)
    ensures Encode(Digits(combo, r), r) == combo
    decreases |r|
  {
    if |r| > 0 {
      var q := combo / r[0];
      assert combo == r[0] * q + combo % r[0];
      if q >= Product(r[1..]) {
        MulLe(r[0], Product(r[1..]), q);
        assert false;
      }
      DigitsEncode(q, r[1..]);
      assert Digits(combo, r)[1..] == Digits(q, r[1..]);
    }
  }

  /** Encoding then decoding gives back every digit vector. */
  lemma {:induction false} EncodeDigits(d: seq<nat>, r: seq<nat>)
    requires Positive(r) && |d| == |r| && forall j :: 0 <= j < |d| ==> d[j] < r[j]
    ensures Digits(Encode(d, r), r) == d
    decreases |d|
  {
    if |d| > 0 {
      var e := Encode(d[1..], r[1..]);
      var n := d[0] + r[0] * e;
      DivModUnique(n, r[0], e, d[0]);
      EncodeDigits(d[1..], r[1..]);
      assert Digits(n, r) == [d[0]] + d[1..];
    }
  }

  /** Euclidean division is unique. */
  lemma DivModUnique(n: nat, b: nat, q: nat, rem: nat)
    requires b > 0 && rem < b && n == rem + b * q
    ensures n / b == q && n % b == rem
  {
    assert n == b * (n / b) + n % b;
    if n / b < q {
      MulLe(b, n / b + 1, q);
    } else if n / b > q {
      MulLe(b, q + 1, n / b);
    }
  }

  /** So distinct combos below the product have distinct digits. */
  lemma DigitsInjective(a: nat, b: nat, r: seq<nat>)
    requires Positive(r) && a < Product(r) && b < Product(r) && a != b
    ensures Digits(a, r) != Digits(b, r)
  {
    DigitsEncode(a, r);
    DigitsEncode(b, r);
  }

  // ---------------------------------------------------------------------
  // Children

  /** `choices_per_pos[j] = inv_low_count[v[j]]`. */
  function Choices(t: ShapedTables, v: seq<nat>): (r: seq<nat>)
    requires IsState(v)
    ensures |r| == 32
    ensures forall j :: 0 <= j < 32 ==> r[j] == t.invLowCount[v[j]] && r[j] < 256
  {
    seq(32, j requires 0 <= j < 32 => t.invLowCount[v[j]])
  }

  /** A feasible state has a positive count for every byte of invM·state. */
  lemma FeasibleChoices(t: ShapedTables, state: seq<nat>)
    requires IsState(state) && InverseFeasible(t, state)
    ensures IsState(Mul(t.invM, state))
    ensures Positive(Choices(t, Mul(t.invM, state)))
  {
    forall j | 0 <= j < 32
      ensures Mul(t.invM, state)[j] < 256 && t.invLowCount[Mul(t.invM, state)[j]] > 0
    {
      assert FeasibleByte(t, state, j);
    }
  }

  /** The state that picks preimage number d[j] of v[j] for every j:
      `new_state[j] = inv_low[v[j]][choice_idx]`. */
  function ChildOf(t: ShapedTables, v: seq<nat>, d: seq<nat>): (child: seq<nat>)
    requires IsState(v) && |d| == 32 && forall j :: 0 <= j < 32 ==> d[j] < 256
    ensures IsState(child)
  {
    seq(32, j requires 0 <= j < 32 => t.invLow[v[j]][d[j]])
  }

  /** The child that combo decodes to. */
  function Decoded(t: ShapedTables, v: seq<nat>, combo: nat): (child: seq<nat>)
    requires IsState(v) && Positive(Choices(t, v))
    ensures IsState(child)
  {
    var d := Digits(combo, Choices(t, v));
    assert forall j :: 0 <= j < 32 ==> d[j] < 256;
    ChildOf(t, v, d)
  }

  /** The value of temp_combo before digit j is taken. */
  function Quot(combo: nat, r: seq<nat>, j: nat): nat
    requires Positive(r) && j <= |r|
  {
    if j == 0 then combo else Quot(combo, r, j - 1) / r[j - 1]
  }

  /** Dividing by the first radix first. */
  lemma {:induction false} QuotShift(combo: nat, r: seq<nat>, j: nat)
    requires Positive(r) && 0 < j <= |r|
    ensures Quot(combo, r, j) == Quot(combo / r[0], r[1..], j - 1)
    decreases j
  {
    if j > 1 {
      QuotShift(combo, r, j - 1);
    }
  }

  /** Digit j is what the loop computes at step j. */
  lemma {:induction false} DigitAt(combo: nat, r: seq<nat>, j: nat)
    requires Positive(r) && j < |r|
    ensures Digits(combo, r)[j] == Quot(combo, r, j) % r[j]
    decreases j
  {
    if j > 0 {
      DigitAt(combo / r[0], r[1..], j - 1);
      QuotShift(combo, r, j);
    }
  }

  /** The decode loop of the searches. */
  method DecodeChild(t: ShapedTables, v: seq<nat>, choices: seq<nat>, combo: nat) returns (child: seq<nat>)
    requires IsState(v) && choices == Choices(t, v) && Positive(choices)
    ensures child == Decoded(t, v, combo)
  {
    var temp: int := combo;
    child := [];
    ghost var d := Digits(combo, choices);
    for j := 0 to 32
      invariant |child| == j
      invariant j < 32 ==> temp == Quot(combo, choices, j)
      invariant forall i :: 0 <= i < j ==> child[i] == t.invLow[v[i]][d[i]]
    {
      DigitAt(combo, choices, j);
      var idx := temp % choices[j];
      temp := temp / choices[j];
      child := child + [t.invLow[v[j]][idx]];
    }
    DecodedFromDigits(t, v, combo, child);
  }

  /** The byte-by-byte description of Decoded. */
  lemma DecodedFromDigits(t: ShapedTables, v: seq<nat>, combo: nat, child: seq<nat>)
    requires IsState(v) && Positive(Choices(t, v)) && |child| == 32
    requires forall i :: 0 <= i < 32 ==> child[i] == t.invLow[v[i]][Digits(combo, Choices(t, v))[i]]
    ensures child == Decoded(t, v, combo)
  {
    assert forall i :: 0 <= i < 32 ==> child[i] == Decoded(t, v, combo)[i];
  }

  /** Every generated child byte is an S_low preimage of its byte of
      v = invM·state, so the child is a backward child of state. */
  lemma ChildIsBackwardChild(t: ShapedTables, conf: seq<nat>, m: seq<nat>, state: seq<nat>, d: seq<nat>)
    requires SearchTables(t, conf, m) && IsState(state) && InverseFeasible(t, state)
    requires |d| == 32 && IsState(Mul(t.invM, state))
    requires forall j :: 0 <= j < 32 ==> d[j] < Choices(t, Mul(t.invM, state))[j] < 256
    ensures BackwardChild(SLow(conf), t.invM, state, ChildOf(t, Mul(t.invM, state), d))
  {
    var v := Mul(t.invM, state);
    forall j | 0 <= j < 32
      ensures SLow(conf)[ChildOf(t, v, d)[j]] == v[j]
    {
      TableEntryMapsBack(t.invLow, t.invLowCount, SLow(conf), v[j], d[j]);
    }
  }

  /** The decoded child of any combo is a backward child, so one forward
      round maps it back onto state. */
  lemma DecodedChildRound(t: ShapedTables, conf: seq<nat>, m: seq<nat>, state: seq<nat>, combo: nat)
    requires SearchTables(t, conf, m) && IsState(state) && InverseFeasible(t, state)
    ensures IsState(Mul(t.invM, state)) && Positive(Choices(t, Mul(t.invM, state)))
    ensures BackwardChild(SLow(conf), t.invM, state, Decoded(t, Mul(t.invM, state), combo))
    ensures Round(SLow(conf), m, Decoded(t, Mul(t.invM, state), combo)) == state
  {
    FeasibleChoices(t, state);
    var v := Mul(t.invM, state);
    ChildIsBackwardChild(t, conf, m, state, Digits(combo, Choices(t, v)));
    BackwardChildRound(SLow(conf), m, t.invM, state, Decoded(t, v, combo));
  }

  /** A solution found below a decoded child solves state with one more
      round. */
  lemma DecodedChildExtends(t: ShapedTables, conf: seq<nat>, m: seq<nat>, state: seq<nat>, combo: nat,
                            solution: seq<nat>, n: nat)
    requires SearchTables(t, conf, m) && IsState(state) && InverseFeasible(t, state)
    requires IsState(Mul(t.invM, state)) && Positive(Choices(t, Mul(t.invM, state)))
    requires IsState(solution) && Rounds(SLow(conf), m, solution, n) == Decoded(t, Mul(t.invM, state), combo)
    ensures Rounds(SLow(conf), m, solution, n + 1) == state
  {
    DecodedChildRound(t, conf, m, state, combo);
    RoundsSucc(SLow(conf), m, solution, n);
  }

  /** A row of inv_low holds distinct bytes below its count, because the
      preimage list is strictly ascending. */
  lemma RowDistinct(t: ShapedTables, conf: seq<nat>, m: seq<nat>, y: nat, a: nat, b: nat)
    requires SearchTables(t, conf, m) && y < 256
    requires a < t.invLowCount[y] && b < t.invLowCount[y] && a != b
    ensures t.invLow[y][a] != t.invLow[y][b]
  {
    TableEntry(t.invLow, t.invLowCount, SLow(conf), y, a);
    TableEntry(t.invLow, t.invLowCount, SLow(conf), y, b);
    PreimagesAscending(SLow(conf), y, 256);
  }

  /** Distinct digit vectors pick distinct children. */
  lemma ChildOfInjective(t: ShapedTables, conf: seq<nat>, m: seq<nat>, v: seq<nat>, d: seq<nat>, e: seq<nat>)
    requires SearchTables(t, conf, m) && IsState(v)
    requires |d| == 32 && |e| == 32 && d != e
    requires forall j :: 0 <= j < 32 ==> d[j] < Choices(t, v)[j] < 256 && e[j] < Choices(t, v)[j]
    ensures ChildOf(t, v, d) != ChildOf(t, v, e)
  {
    var j :| 0 <= j < 32 && d[j] != e[j];
    RowDistinct(t, conf, m, v[j], d[j], e[j]);
    assert ChildOf(t, v, d)[j] != ChildOf(t, v, e)[j];
  }

  /** Distinct combos below the product decode to distinct children: a
      search that tries every combo once tries every child once. */
  lemma DecodedInjective(t: ShapedTables, conf: seq<nat>, m: seq<nat>, state: seq<nat>, a: nat, b: nat)
    requires SearchTables(t, conf, m) && IsState(state) && InverseFeasible(t, state)
    requires IsState(Mul(t.invM, state)) && Positive(Choices(t, Mul(t.invM, state)))
    requires a < Product(Choices(t, Mul(t.invM, state))) && b < Product(Choices(t, Mul(t.invM, state))) && a != b
    ensures Decoded(t, Mul(t.invM, state), a) != Decoded(t, Mul(t.invM, state), b)
  {
    var r := Choices(t, Mul(t.invM, state));
    DigitsInjective(a, b, r);
    ChildOfInjective(t, conf, m, Mul(t.invM, state), Digits(a, r), Digits(b, r));
  }

  /** Conversely, every backward child of a feasible state is decoded from
      some combo below the product: the searches miss no child. */
  lemma EveryChildIsDecoded(t: ShapedTables, conf: seq<nat>, m: seq<nat>, state: seq<nat>, child: seq<nat>)
    returns (combo: nat)
    requires SearchTables(t, conf, m) && IsState(state) && InverseFeasible(t, state)
    requires BackwardChild(SLow(conf), t.invM, state, child)
    ensures IsState(Mul(t.invM, state)) && Positive(Choices(t, Mul(t.invM, state)))
    ensures combo < Product(Choices(t, Mul(t.invM, state)))
    ensures Decoded(t, Mul(t.invM, state), combo) == child
  {
    FeasibleChoices(t, state);
    var v := Mul(t.invM, state);
    var r := Choices(t, v);
    var d := seq(32, j requires 0 <= j < 32 => IndexIn(SLow(conf), v[j], child[j]));
    forall j | 0 <= j < 32
      ensures d[j] < r[j] && t.invLow[v[j]][d[j]] == child[j]
    {
      ChildIndex(t, conf, m, state, child, j);
    }
    combo := Encode(d, r);
    EncodeBelow(d, r);
    EncodeDigits(d, r);
    DecodedFromDigits(t, v, combo, child);
  }

  /** The index of each child byte in its row is below the count. */
  lemma ChildIndex(t: ShapedTables, conf: seq<nat>, m: seq<nat>, state: seq<nat>, child: seq<nat>, j: nat)
    requires SearchTables(t, conf, m) && IsState(state) && InverseFeasible(t, state)
    requires BackwardChild(SLow(conf), t.invM, state, child) && j < 32
    ensures Mul(t.invM, state)[j] < 256
    ensures IndexIn(SLow(conf), Mul(t.invM, state)[j], child[j]) < t.invLowCount[Mul(t.invM, state)[j]]
    ensures t.invLow[Mul(t.invM, state)[j]][IndexIn(SLow(conf), Mul(t.invM, state)[j], child[j])] == child[j]
  {
    var y := Mul(t.invM, state)[j];
    assert FeasibleByte(t, state, j);
    var p := PreimageList(SLow(conf), y);
    assert |p| % 256 == t.invLowCount[y] && |p| <= 256;
    var i := IndexIn(SLow(conf), y, child[j]);
    assert i < |p| && p[i] == child[j];
    assert t.invLow[y][i] == p[i];
  }

  /** The position of x in the ascending preimage list of y (0 when x is
      not a preimage). */
  ghost function IndexIn(s: seq<nat>, y: nat, x: nat): (i: nat)
    requires IsSBox(s)
    ensures x < 256 && s[x] == y ==> i < |PreimageList(s, y)| && PreimageList(s, y)[i] == x
  {
    if x < 256 && s[x] == y then
      PreimagesComplete(s, y, 256, x);
      var p := PreimageList(s, y);
      var i :| 0 <= i < |p| && p[i] == x;
      i
    else 0
  }

  // ---------------------------------------------------------------------
  // Counting the combos

  /** Extending a prefix by one radix multiplies its product by it. */
  lemma PrefixProductStep(r: seq<nat>, j: nat)
    requires j < |r|
    ensures Product(r[..j + 1]) == Product(r[..j]) * r[j]
  {
    assert r[..j + 1] == r[..j] + [r[j]];
    ProductSnoc(r[..j], r[j]);
  }

  /** With positive radices the running product never decreases. */
  lemma {:induction false} PrefixProductMono(r: seq<nat>, j: nat, k: nat)
    requires Positive(r) && j <= k <= |r|
    ensures Product(r[..j]) <= Product(r[..k])
    decreases k - j
  {
    if j < k {
      PrefixProductMono(r, j, k - 1);
      PrefixProductStep(r, k - 1);
      MulLe(Product(r[..k - 1]), 1, r[k - 1]);
    }
  }

  /**
   * The radix loop of the level-by-level searches with its cap made safe:
   * every radix is recorded, and the number of combos to enumerate stops
   * at cap.  A capped node is enumerated partially (combos 0..cap-1), not
   * pruned.
   */
  method ChoicesAndTotal(t: ShapedTables, v: seq<nat>, cap: nat) returns (choices: seq<nat>, total: nat)
    requires IsState(v) && Positive(Choices(t, v)) && cap > 0
    ensures choices == Choices(t, v)
    ensures Product(choices) <= cap ==> total == Product(choices)
    ensures Product(choices) > cap ==> total == cap
  {
    choices := [];
    total := 1;
    var capped := false;
    ghost var r := Choices(t, v);
    for j := 0 to 32
      invariant choices == r[..j]
      invariant !capped ==> total == Product(choices) <= cap
      invariant capped ==> total == cap < Product(choices)
    {
      var x := t.invLowCount[v[j]];
      PrefixProductStep(r, j);
      assert r[..j + 1] == choices + [x];
      choices := choices + [x];
      if !capped {
        total := total * x;
        if total > cap {
          total := cap;
          capped := true;
        }
      } else {
        MulLe(Product(r[..j]), 1, x);
      }
    }
    assert r[..32] == r;
  }

  /**
   * The radix loop of the depth-first searches: the node is given up as
   * soon as the running product exceeds limit, which happens exactly when
   * the whole product does.
   */
  method ChoicesWithinLimit(t: ShapedTables, v: seq<nat>, limit: nat) returns (within: bool, choices: seq<nat>, total: nat)
    requires IsState(v) && Positive(Choices(t, v)) && limit > 0
    ensures within <==> Product(Choices(t, v)) <= limit
    ensures within ==> choices == Choices(t, v) && total == Product(choices)
  {
    choices := [];
    total := 1;
    ghost var r := Choices(t, v);
    for j := 0 to 32
      invariant choices == r[..j] && total == Product(choices) <= limit
    {
      var x := t.invLowCount[v[j]];
      PrefixProductStep(r, j);
      assert r[..j + 1] == choices + [x];
      choices := choices + [x];
      total := total * x;
      if total > limit {
        PrefixProductMono(r, j + 1, 32);
        assert r[..32] == r;
        return false, choices, total;
      }
    }
    assert r[..32] == r;
    within := true;
  }

  /**
   * The radix loop as hireme2.c's BFS writes it (so do the heuristic DFS
   * and the all-paths BFS): it breaks out at the first radix that lifts
   * the running product above cap, and the entries after that one are
   * never written (None).
   */
  function ChoicesAsWritten(counts: seq<nat>, cap: nat, total: nat): (r: seq<Option<nat>>)
    ensures |r| == |counts|
    ensures |counts| > 0 ==> r[0] == Some(counts[0])
    decreases |counts|
  {
    if |counts| == 0 then []
    else if total * counts[0] > cap then [Some(counts[0])] + seq(|counts| - 1, _ => None)
    else [Some(counts[0])] + ChoicesAsWritten(counts[1..], cap, total * counts[0])
  }

  /** Below the cap the loop as written records every radix. */
  lemma {:induction false} AsWrittenBelowCap(counts: seq<nat>, cap: nat, total: nat)
    requires Positive(counts) && total * Product(counts) <= cap
    ensures forall j :: 0 <= j < |counts| ==> ChoicesAsWritten(counts, cap, total)[j] == Some(counts[j])
    decreases |counts|
  {
    if |counts| > 0 {
      var rest := Product(counts[1..]);
      ProductPositive(counts[1..]);
      MulLe(total * counts[0], 1, rest);
      assert total * Product(counts) == total * counts[0] * rest;
      AsWrittenBelowCap(counts[1..], cap, total * counts[0]);
      var r := ChoicesAsWritten(counts, cap, total);
      assert r[1..] == ChoicesAsWritten(counts[1..], cap, total * counts[0]);
      forall j | 1 <= j < |counts|
        ensures r[j] == Some(counts[j])
      {
        assert r[j] == r[1..][j - 1];
      }
    }
  }

  /**
   * With two preimages at every byte and Pow2(e) <= cap < Pow2(e + 1), the
   * loop as written, resumed at position j <= e with running product
   * 2^j, breaks out at position e and never writes the last entry.
   */
  lemma {:induction false} TwosBreak(cap: nat, e: nat, j: nat)
    requires e < 31 && Pow2(e) <= cap < Pow2(e + 1) && j <= e
    ensures ChoicesAsWritten(seq(32 - j, _ => 2), cap, Pow2(j))[31 - j].None?
    decreases e - j
  {
    var counts := seq(32 - j, _ => 2);
    if j == e {
      assert Pow2(j) * counts[0] > cap;
    } else {
      Pow2Mono(j + 1, e);
      assert Pow2(j) * counts[0] == Pow2(j + 1) <= cap;
      assert counts[1..] == seq(31 - j, _ => 2);
      TwosBreak(cap, e, j + 1);
    }
  }

  /**
   * The decode loop as written divides by each of the entries in turn; it
   * yields digits only when every entry was written and is positive.
   */
  function DigitsAsWritten(combo: nat, radices: seq<Option<nat>>): (d: Option<seq<nat>>)
    ensures d.Some? <==> forall j :: 0 <= j < |radices| ==> radices[j].Some? && radices[j].value > 0
    ensures d.Some? ==> |d.value| == |radices|
    decreases |radices|
  {
    if |radices| == 0 then Some([])
    else if radices[0].None? || radices[0].value == 0 then None
    else
      var rest := DigitsAsWritten(combo / radices[0].value, radices[1..]);
      assert rest.Some? <==> forall j :: 1 <= j < |radices| ==> radices[j].Some? && radices[j].value > 0 by {
        forall j | 1 <= j < |radices|
          ensures radices[1..][j - 1] == radices[j]
        {
        }
      }
      if rest.None? then None else Some([combo % radices[0].value] + rest.value)
  }

  // ---------------------------------------------------------------------
  // Rotated enumeration

  /** Rotating by start reaches every combo below total... */
  lemma RotationCovers(start: nat, total: nat, combo: nat) returns (offset: nat)
    requires start < total && combo < total
    ensures offset < total && (start + offset) % total == combo
  {
    if combo >= start {
      offset := combo - start;
    } else {
      offset := combo + total - start;
      DivModUnique(start + offset, total, 1, combo);
    }
  }

  /** ... and distinct offsets give distinct combos, so each combo below
      total is tried exactly once. */
  lemma RotationInjective(start: nat, total: nat, a: nat, b: nat)
    requires start < total && a < total && b < total && a != b
    ensures (start + a) % total != (start + b) % total
  {
    var qa := if start + a < total then 0 else 1;
    var qb := if start + b < total then 0 else 1;
    DivModUnique(start + a, total, qa, start + a - qa * total);
    DivModUnique(start + b, total, qb, start + b - qb * total);
  }

  // ---------------------------------------------------------------------
  // Lists of states

  function Min(a: int, b: int): int {
    if a < b then a else b
  }

  /** Every entry is a 32-byte state. */
  predicate AllStates(level: seq<seq<nat>>) {
    forall i :: 0 <= i < |level| ==> IsState(level[i])
  }

  /** The first n entries, or all of them when there are fewer. */
  function Take(level: seq<seq<nat>>, n: nat): (r: seq<seq<nat>>)
    ensures |r| <= n && r <= level
    ensures |level| <= n ==> r == level
  {
    if |level| <= n then level else level[..n]
  }

  /** Concatenation of state lists is associative. */
  lemma AppendAssoc(a: seq<seq<nat>>, b: seq<seq<nat>>, c: seq<seq<nat>>)
    ensures a + (b + c) == (a + b) + c
  {
  }

  /** Truncating twice to the same length is truncating once. */
  lemma TakeAppend(a: seq<seq<nat>>, b: seq<seq<nat>>, n: nat)
    ensures Take(Take(a, n) + b, n) == Take(a + b, n)
  {
    if |a| > n {
      assert Take(a + b, n) == a[..n];
      assert (a[..n] + b)[..n] == a[..n];
    } else {
      assert Take(a, n) == a;
    }
  }

  // ---------------------------------------------------------------------
  // Sums

  /** The sum of a list of counts. */
  function Sum(s: seq<nat>): nat {
    if |s| == 0 then 0 else Sum(s[..|s| - 1]) + s[|s| - 1]
  }

  /** A running sum grows by the next entry. */
  lemma SumStep(s: seq<nat>, j: nat)
    requires j < |s|
    ensures Sum(s[..j + 1]) == Sum(s[..j]) + s[j]
  {
    assert s[..j + 1][..j] == s[..j];
  }

  // ---------------------------------------------------------------------
  // Copying out

  /** memcpy(solution, state, 32). */
  method CopyState(state: seq<nat>, solution: array<nat>)
    requires IsState(state) && solution.Length == 32
    modifies solution
    ensures solution[..] == state
  {
    forall i | 0 <= i < 32 {
      solution[i] := state[i];
    }
  }
}
