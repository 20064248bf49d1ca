/**
 * What the table-analysis scripts compute about the preimage structure of
 * S_low: the inverse lists and their counts, the values with no preimage,
 * the classification of outputs by number of preimages, the table of
 * preferred choices, the per-choice analysis and the heuristic emitted from
 * it, the duplicate scan, fixed points, 2-cycles and the XOR and arithmetic
 * partitions.
 *
 * The tables are parameters: s is any table and k the number of output
 * values considered (256 in every script).
 */
module SboxStats {
  import opened Bits
  import opened Network
  import opened Preimage
  import opened Tally
  import SboxStructure

  /** The number of preimages of y. */
  function Count(s: seq<nat>, y: nat): nat {
    |Preimages(s, y, |s|)|
  }

  // ---------------------------------------------------------------------
  // Inverse lists

  /** c[0] + ... + c[j - 1]. */
  function Sum(c: seq<nat>, j: nat): nat
    requires j <= |c|
  {
    if j == 0 then 0 else Sum(c, j - 1) + c[j - 1]
  }

  /** A row of counts that agrees with the preimage lists adds up like them. */
  lemma {:induction false} SumOfCounts(s: seq<nat>, c: seq<nat>, j: nat)
    requires j <= |c|
    requires forall y :: 0 <= y < j ==> c[y] == Count(s, y)
    ensures Sum(c, j) == CountSum(s, |s|, j)
    decreases j
  {
    if j > 0 {
      SumOfCounts(s, c, j - 1);
    }
  }

  /** Rows inv[0..k) hold the preimage lists of 0..k-1 and count their lengths. */
  predicate InverseUpTo(s: seq<nat>, k: nat, inv: seq<seq<nat>>, count: seq<nat>, x: nat)
    requires x <= |s|
  {
    |inv| == k && |count| == k &&
    forall y :: 0 <= y < k ==> inv[y] == Preimages(s, y, x) && count[y] == |inv[y]|
  }

  /**
   * `inv_low[y].append(x); inv_low_count[y] += 1` for x in order.  Each list
   * is the ascending preimage list of its value, each count its length, and
   * the counts add up to the number of entries.
   */
  method InverseLists(s: seq<nat>, k: nat) returns (inv: seq<seq<nat>>, count: seq<nat>)
    requires forall x :: 0 <= x < |s| ==> s[x] < k
    ensures |inv| == k && |count| == k
    ensures forall y :: 0 <= y < k ==> inv[y] == Preimages(s, y, |s|) && count[y] == |inv[y]|
    ensures forall y :: 0 <= y < k ==> forall i, j :: 0 <= i < j < |inv[y]| ==> inv[y][i] < inv[y][j]
    ensures Sum(count, k) == |s|
  {
    inv := seq(k, y => []);
    count := seq(k, y => 0);
    for x := 0 to |s|
      invariant InverseUpTo(s, k, inv, count, x)
    {
      inv, count := AppendPreimage(s, k, inv, count, x);
    }
    InverseListsDone(s, k, inv, count);
  }

  /** One pass of the loop: x joins the list of s[x] and its count goes up by one. */
  method AppendPreimage(s: seq<nat>, k: nat, inv0: seq<seq<nat>>, count0: seq<nat>, x: nat)
      returns (inv: seq<seq<nat>>, count: seq<nat>)
    requires forall x :: 0 <= x < |s| ==> s[x] < k
    requires x < |s| && InverseUpTo(s, k, inv0, count0, x)
    ensures InverseUpTo(s, k, inv, count, x + 1)
  {
    var y := s[x];
    var row: seq<nat> := inv0[y] + [x];
    inv := inv0[y := row];
    count := count0[y := count0[y] + 1];
    forall y' | 0 <= y' < k ensures inv[y'] == Preimages(s, y', x + 1) && count[y'] == |inv[y']| {
      PreimagesNext(s, y', x);
    }
  }

  /** The lists after the loop are ascending and their counts add up to |s|. */
  lemma InverseListsDone(s: seq<nat>, k: nat, inv: seq<seq<nat>>, count: seq<nat>)
    requires forall x :: 0 <= x < |s| ==> s[x] < k
    requires InverseUpTo(s, k, inv, count, |s|)
    ensures forall y :: 0 <= y < k ==> forall i, j :: 0 <= i < j < |inv[y]| ==> inv[y][i] < inv[y][j]
    ensures Sum(count, k) == |s|
  {
    forall y | 0 <= y < k ensures forall i, j :: 0 <= i < j < |inv[y]| ==> inv[y][i] < inv[y][j] {
      PreimagesAscending(s, y, |s|);
    }
    SumOfCounts(s, count, k);
    CountsBelow(s, |s|, k);
  }

  // ---------------------------------------------------------------------
  // Values outside the image

  /** `sorted(set(range(k)) - set(s))`. */
  function MissingValues(s: seq<nat>, k: nat): (r: seq<nat>)
    ensures forall y: nat :: y in r <==> y < k && y !in SboxStructure.Values(s)
    ensures forall i, j :: 0 <= i < j < |r| ==> r[i] < r[j]
  {
    var keep := (y: nat) => y !in SboxStructure.Values(s);
    WhereMembers(k, keep);
    WhereAscending(k, keep);
    Where(k, keep)
  }

  /** A value is missing exactly when its preimage list is empty, the way
      the working-state script finds it. */
  lemma MissingIffNoPreimage(s: seq<nat>, k: nat, y: nat)
    ensures y in MissingValues(s, k) <==> y < k && Count(s, y) == 0
  {
    PreimagesSound(s, y, |s|);
    if Count(s, y) > 0 {
      var x := Preimages(s, y, |s|)[0];
      assert s[x] == y;
    }
    if y in SboxStructure.Values(s) {
      var x :| 0 <= x < |s| && s[x] == y;
      PreimagesMember(s, y, |s|, x);
    }
  }

  /** A byte table misses no value exactly when it is a permutation. */
  lemma MissingEmptyIff(s: seq<nat>)
    requires IsSBox(s)
    ensures |MissingValues(s, 256)| == 0 <==> SboxStructure.IsPermutation(s)
  {
    SboxStructure.PermutationIff(s);
    if |MissingValues(s, 256)| > 0 {
      MissingSomeValue(s);
    } else {
      MissingNoValue(s);
    }
  }

  lemma MissingSomeValue(s: seq<nat>)
    requires |MissingValues(s, 256)| > 0
    ensures exists y :: 0 <= y < 256 && y !in SboxStructure.Values(s)
  {
    var r := MissingValues(s, 256);
    assert r[0] in r;
  }

  lemma MissingNoValue(s: seq<nat>)
    requires |MissingValues(s, 256)| == 0
    ensures forall y :: 0 <= y < 256 ==> y in SboxStructure.Values(s)
  {
    var r := MissingValues(s, 256);
    forall y | 0 <= y < 256 ensures y in SboxStructure.Values(s) {
      assert y !in r;
    }
  }

  // ---------------------------------------------------------------------
  // Branching classification

  /** The test "y has exactly c preimages". */
  function WithCount(s: seq<nat>, c: nat): nat -> bool {
    (y: nat) => Count(s, y) == c
  }

  /** (y, its two preimages) for each y < k with exactly two, ascending. */
  function DoubleChoice(s: seq<nat>, k: nat): (r: seq<(nat, seq<nat>)>)
    ensures forall i :: 0 <= i < |r| ==> r[i].0 < k && r[i].1 == Preimages(s, r[i].0, |s|) && |r[i].1| == 2
    decreases k
  {
    if k == 0 then []
    else DoubleChoice(s, k - 1) + (if Count(s, k - 1) == 2 then [(k - 1, Preimages(s, k - 1, |s|))] else [])
  }

  /** The outputs of a list of (y, preimages) entries. */
  function Keys(d: seq<(nat, seq<nat>)>): (r: seq<nat>)
    ensures |r| == |d| && forall i :: 0 <= i < |d| ==> r[i] == d[i].0
  {
    seq(|d|, i requires 0 <= i < |d| => d[i].0)
  }

  lemma KeysAppend(d: seq<(nat, seq<nat>)>, e: seq<(nat, seq<nat>)>)
    ensures Keys(d + e) == Keys(d) + Keys(e)
  {
  }

  /** The outputs listed by DoubleChoice are exactly the y < k with two
      preimages. */
  lemma {:induction false} DoubleChoiceKey(s: seq<nat>, k: nat, y: nat)
    ensures y in Keys(DoubleChoice(s, k)) <==> y < k && Count(s, y) == 2
    decreases k
  {
    if k > 0 {
      DoubleChoiceKey(s, k - 1, y);
      var e: seq<(nat, seq<nat>)> := if Count(s, k - 1) == 2 then [(k - 1, Preimages(s, k - 1, |s|))] else [];
      assert DoubleChoice(s, k) == DoubleChoice(s, k - 1) + e;
      KeysAppend(DoubleChoice(s, k - 1), e);
      assert Keys(e) == if Count(s, k - 1) == 2 then [k - 1] else [];
    }
  }

  lemma DoubleChoiceKeys(s: seq<nat>, k: nat)
    ensures forall y: nat :: y in Keys(DoubleChoice(s, k)) <==> y < k && Count(s, y) == 2
  {
    forall y: nat {
      DoubleChoiceKey(s, k, y);
    }
  }

  /** The listed outputs ascend. */
  lemma {:induction false} DoubleChoiceAscending(s: seq<nat>, k: nat)
    ensures forall i, j :: 0 <= i < j < |DoubleChoice(s, k)| ==> DoubleChoice(s, k)[i].0 < DoubleChoice(s, k)[j].0
    decreases k
  {
    if k > 0 {
      DoubleChoiceAscending(s, k - 1);
    }
  }

  /** A listed entry: an ascending pair of preimages of its output. */
  predicate AscendingPair(s: seq<nat>, e: (nat, seq<nat>)) {
    |e.1| == 2 && e.1[0] < e.1[1] < |s| && s[e.1[0]] == e.0 && s[e.1[1]] == e.0
  }

  /** Each listed pair is ascending and both entries map to the output. */
  lemma DoubleChoicePairs(s: seq<nat>, k: nat)
    ensures forall i :: 0 <= i < |DoubleChoice(s, k)| ==> AscendingPair(s, DoubleChoice(s, k)[i])
  {
    forall i | 0 <= i < |DoubleChoice(s, k)|
      ensures AscendingPair(s, DoubleChoice(s, k)[i])
    {
      var y := DoubleChoice(s, k)[i].0;
      PreimagesAscending(s, y, |s|);
      PreimagesSound(s, y, |s|);
    }
  }

  /**
   * The classification loop: y < k goes to `no_choice`, `single_choice` or
   * `double_choice` by a preimage count of 0, 1 or 2; a value with three or
   * more preimages goes nowhere.
   */
  method Classify(s: seq<nat>, k: nat) returns (noChoice: seq<nat>, single: seq<nat>, double: seq<(nat, seq<nat>)>)
    ensures noChoice == Where(k, WithCount(s, 0)) && single == Where(k, WithCount(s, 1))
    ensures forall y: nat :: y in noChoice <==> y < k && Count(s, y) == 0
    ensures forall y: nat :: y in single <==> y < k && Count(s, y) == 1
    ensures forall i, j :: 0 <= i < j < |noChoice| ==> noChoice[i] < noChoice[j]
    ensures forall i, j :: 0 <= i < j < |single| ==> single[i] < single[j]
    ensures double == DoubleChoice(s, k)
    ensures forall y: nat :: y < k && Count(s, y) >= 3 ==> y !in noChoice && y !in single && y !in Keys(double)
  {
    noChoice, single, double := [], [], [];
    for y: nat := 0 to k
      invariant noChoice == Where(y, WithCount(s, 0))
      invariant single == Where(y, WithCount(s, 1))
      invariant double == DoubleChoice(s, y)
    {
      noChoice, single, double := ClassifyOne(s, y, noChoice, single, double);
    }
    ClassifyMeaning(s, k);
    WhereAscending(k, WithCount(s, 0));
    WhereAscending(k, WithCount(s, 1));
  }

  /** One pass of the classification loop, for y. */
  method ClassifyOne(s: seq<nat>, y: nat, noChoice0: seq<nat>, single0: seq<nat>, double0: seq<(nat, seq<nat>)>)
      returns (noChoice: seq<nat>, single: seq<nat>, double: seq<(nat, seq<nat>)>)
    requires noChoice0 == Where(y, WithCount(s, 0))
    requires single0 == Where(y, WithCount(s, 1))
    requires double0 == DoubleChoice(s, y)
    ensures noChoice == Where(y + 1, WithCount(s, 0))
    ensures single == Where(y + 1, WithCount(s, 1))
    ensures double == DoubleChoice(s, y + 1)
  {
    noChoice, single, double := noChoice0, single0, double0;
    var preimages := Preimages(s, y, |s|);
    if |preimages| == 0 {
      noChoice := noChoice + [y];
    } else if |preimages| == 1 {
      single := single + [y];
    } else if |preimages| == 2 {
      double := double + [(y, preimages)];
    }
  }

  /** What the three lists built by the classification loop hold. */
  lemma ClassifyMeaning(s: seq<nat>, k: nat)
    ensures forall y: nat :: y in Where(k, WithCount(s, 0)) <==> y < k && Count(s, y) == 0
    ensures forall y: nat :: y in Where(k, WithCount(s, 1)) <==> y < k && Count(s, y) == 1
    ensures forall y: nat :: y in Keys(DoubleChoice(s, k)) <==> y < k && Count(s, y) == 2
  {
    WhereMembers(k, WithCount(s, 0));
    WhereMembers(k, WithCount(s, 1));
    DoubleChoiceKeys(s, k);
  }

  /** `min` of a two-element list. */
  function Min2(p: seq<nat>): (r: nat)
    requires |p| == 2
    ensures r in p && r <= p[0] && r <= p[1]
  {
    if p[0] <= p[1] then p[0] else p[1]
  }

  /** The smaller preimage of y when it has exactly two, else 0. */
  function PreferredChoice(s: seq<nat>, y: nat): nat {
    if Count(s, y) == 2 then Preimages(s, y, |s|)[0] else 0
  }

  /**
   * `choices[y] = min(preimages)` for each two-preimage y, starting from
   * zeros: the entry is the smaller preimage, which is the first of the
   * ascending pair, and 0 for every other y.
   */
  method ChoiceTable(s: seq<nat>, k: nat, double: seq<(nat, seq<nat>)>) returns (choices: seq<nat>)
    requires double == DoubleChoice(s, k)
    ensures |choices| == k
    ensures forall y :: 0 <= y < k ==> choices[y] == PreferredChoice(s, y)
  {
    DoubleChoiceKeys(s, k);
    DoubleChoicePairs(s, k);
    var ks := Keys(double);
    choices := seq(k, y => 0);
    for i := 0 to |double|
      invariant |choices| == k
      invariant forall y :: 0 <= y < k ==> choices[y] == if y in ks[..i] then PreferredChoice(s, y) else 0
    {
      var (y, preimages) := double[i];
      assert y in ks;
      assert ks[..i + 1] == ks[..i] + [y];
      choices := choices[y := Min2(preimages)];
    }
    assert ks[..|double|] == ks;
  }

  /** `abs(p[0] - p[1])` for each branching pair. */
  function Differences(double: seq<(nat, seq<nat>)>): (r: seq<nat>)
    requires forall i :: 0 <= i < |double| ==> |double[i].1| == 2
    ensures |r| == |double|
  {
    seq(|double|, i requires 0 <= i < |double| && |double[i].1| == 2 =>
      var p := double[i].1;
      if p[0] >= p[1] then p[0] - p[1] else p[1] - p[0])
  }

  /** `p[0] ^ p[1]` for each branching pair. */
  function XorDiffs(double: seq<(nat, seq<nat>)>): (r: seq<nat>)
    requires forall i :: 0 <= i < |double| ==> |double[i].1| == 2
    ensures |r| == |double|
  {
    seq(|double|, i requires 0 <= i < |double| && |double[i].1| == 2 =>
      Xor(double[i].1[0], double[i].1[1]))
  }

  /** Over the classified pairs, each distance is the larger preimage minus
      the smaller and is positive; each XOR difference is non-zero and
      turns one preimage into the other. */
  lemma BranchDifferences(s: seq<nat>, k: nat)
    ensures var d := DoubleChoice(s, k);
      forall i :: 0 <= i < |d| ==>
        d[i].1[0] < d[i].1[1] && Differences(d)[i] + d[i].1[0] == d[i].1[1] &&
        XorDiffs(d)[i] != 0 && Xor(d[i].1[0], XorDiffs(d)[i]) == d[i].1[1]
  {
    DoubleChoicePairs(s, k);
    var d := DoubleChoice(s, k);
    forall i | 0 <= i < |d|
      ensures Xor(d[i].1[0], XorDiffs(d)[i]) == d[i].1[1] && XorDiffs(d)[i] != 0
    {
      var a, b := d[i].1[0], d[i].1[1];
      XorZeroIff(a, b);
      XorComm(a, b);
      XorCancel(b, a);
      XorComm(Xor(b, a), a);
      assert Xor(a, Xor(a, b)) == Xor(a, Xor(b, a));
    }
  }

  // ---------------------------------------------------------------------
  // Per-choice analysis and the emitted heuristic

  /** The analysis record of one choice point. */
  datatype ChoiceInfo = ChoiceInfo(
    output: nat,
    choices: seq<nat>,
    diff: nat,
    xorDiff: nat,
    bitsDiff: nat,
    futureOutputs: seq<nat>,
    futureChoices: seq<nat>,
    parity: seq<nat>,
    highNibble: seq<nat>,
    lowNibble: seq<nat>)

  /** The record built for a y with two preimages x1 < x2, from the tables
      `inv_low` and `inv_low_count`. */
  function Analyze(s: seq<nat>, inv: seq<seq<nat>>, count: seq<nat>, y: nat): (r: ChoiceInfo)
    requires y < |inv| && |inv[y]| == 2
    requires forall j :: 0 <= j < 2 ==> inv[y][j] < |s| && s[inv[y][j]] < |count|
  {
    var x1, x2 := inv[y][0], inv[y][1];
    ChoiceInfo(
      y,
      [x1, x2],
      if x1 >= x2 then x1 - x2 else x2 - x1,
      Xor(x1, x2),
      Popcount(Xor(x1, x2)),
      [s[x1], s[x2]],
      [count[s[x1]], count[s[x2]]],
      [x1 % 2, x2 % 2],
      [Shr(x1, 4), Shr(x2, 4)],
      [And(x1, 0xF), And(x2, 0xF)])
  }

  lemma {:induction false} PopcountPositive(x: nat)
    requires x > 0
    ensures Popcount(x) > 0
    decreases x
  {
    if x % 2 == 0 {
      PopcountPositive(x / 2);
    }
  }

  /**
   * With the tables InverseLists builds, both "future outputs" of a choice
   * point are y itself, so the two "future choices" are equal; the choices
   * differ, so the XOR differs from zero and has a positive bit count.
   */
  lemma AnalysisFacts(s: seq<nat>, k: nat, inv: seq<seq<nat>>, count: seq<nat>, y: nat)
    requires forall x :: 0 <= x < |s| ==> s[x] < k
    requires |inv| == k && |count| == k
    requires forall y' :: 0 <= y' < k ==> inv[y'] == Preimages(s, y', |s|) && count[y'] == |inv[y']|
    requires y < k && count[y] == 2
    ensures inv[y][0] < |s| && inv[y][1] < |s| && s[inv[y][0]] < k && s[inv[y][1]] < k
    ensures Analyze(s, inv, count, y).futureOutputs == [y, y]
    ensures Analyze(s, inv, count, y).futureChoices == [2, 2]
    ensures inv[y][0] < inv[y][1] && Analyze(s, inv, count, y).diff + inv[y][0] == inv[y][1]
    ensures Analyze(s, inv, count, y).bitsDiff > 0
  {
    PreimagesSound(s, y, |s|);
    PreimagesAscending(s, y, |s|);
    XorZeroIff(inv[y][0], inv[y][1]);
    PopcountPositive(Xor(inv[y][0], inv[y][1]));
  }

  /** The y < k with `inv_low_count[y] == 2`. */
  function ChoiceOutputs(count: seq<nat>, k: nat): (r: seq<nat>)
    requires k <= |count|
    ensures forall y: nat :: y in r <==> y < k && count[y] == 2
  {
    var keep := (y: nat) => y < |count| && count[y] == 2;
    WhereMembers(k, keep);
    Where(k, keep)
  }

  /**
   * The emitted `choose_statistically_optimal`: no choice gives the single
   * preimage or 0; otherwise prefer more future choices, then the even
   * value, then the smaller one.
   */
  function ChooseStatistically(s: seq<nat>, inv: seq<seq<nat>>, count: seq<nat>, y: nat): nat
    requires y < |inv| && y < |count| && |inv[y]| >= count[y]
    requires count[y] >= 2 ==> inv[y][0] < |s| && inv[y][1] < |s| && s[inv[y][0]] < |count| && s[inv[y][1]] < |count|
  {
    if count[y] <= 1 then
      (if count[y] == 1 then inv[y][0] else 0)
    else
      var c1, c2 := inv[y][0], inv[y][1];
      var f1, f2 := count[s[c1]], count[s[c2]];
      if f1 != f2 then (if f1 > f2 then c1 else c2)
      else if c1 % 2 != c2 % 2 then (if c1 % 2 == 0 then c1 else c2)
      else if c1 < c2 then c1 else c2
  }

  /** The first test of the emitted heuristic never decides: with real
      tables the two future counts are equal, so a choice point resolves by
      parity and then by size alone. */
  lemma FutureTestNeverDecides(s: seq<nat>, k: nat, inv: seq<seq<nat>>, count: seq<nat>, y: nat)
    requires forall x :: 0 <= x < |s| ==> s[x] < k
    requires |inv| == k && |count| == k
    requires forall y' :: 0 <= y' < k ==> inv[y'] == Preimages(s, y', |s|) && count[y'] == |inv[y']|
    requires y < k && count[y] >= 2
    ensures inv[y][0] < |s| && inv[y][1] < |s| && s[inv[y][0]] < k && s[inv[y][1]] < k
    ensures ChooseStatistically(s, inv, count, y) ==
      if inv[y][0] % 2 != inv[y][1] % 2 then (if inv[y][0] % 2 == 0 then inv[y][0] else inv[y][1])
      else inv[y][0]
  {
    PreimagesSound(s, y, |s|);
    PreimagesAscending(s, y, |s|);
  }

  // ---------------------------------------------------------------------
  // Duplicate scan

  /** f is the first x with s[x] == y. */
  predicate IsFirst(s: seq<nat>, f: nat, y: nat) {
    f < |s| && s[f] == y && forall x :: 0 <= x < f ==> s[x] != y
  }

  /** Everything the scan has seen below x: each value seen maps to its first
      preimage, and the reports are the later preimages, in order. */
  predicate Scanned(s: seq<nat>, seen: map<nat, nat>, dups: seq<(nat, nat)>, x: nat)
    requires x <= |s|
  {
    (forall x' :: 0 <= x' < x ==> s[x'] in seen) &&
    (forall y :: y in seen ==> seen[y] < x && IsFirst(s, seen[y], y)) &&
    (forall i :: 0 <= i < |dups| ==> dups[i].0 < dups[i].1 < x && IsFirst(s, dups[i].0, s[dups[i].1])) &&
    (forall i, j :: 0 <= i < j < |dups| ==> dups[i].1 < dups[j].1) &&
    |seen| + |dups| == x
  }

  /**
   * The duplicate scan: `seen[y]` keeps the first x with s[x] == y, and
   * every later x with an already seen value is reported as
   * (seen[y], x).  The map and the reports account for every entry once.
   */
  method DuplicateScan(s: seq<nat>) returns (seen: map<nat, nat>, dups: seq<(nat, nat)>)
    ensures forall x :: 0 <= x < |s| ==> s[x] in seen
    ensures forall y :: y in seen ==> IsFirst(s, seen[y], y)
    ensures forall i :: 0 <= i < |dups| ==> dups[i].0 < dups[i].1 < |s| && IsFirst(s, dups[i].0, s[dups[i].1])
    ensures forall i, j :: 0 <= i < j < |dups| ==> dups[i].1 < dups[j].1
    ensures |seen| + |dups| == |s|
  {
    seen, dups := map[], [];
    for x := 0 to |s|
      invariant Scanned(s, seen, dups, x)
    {
      seen, dups := ScanOne(s, seen, dups, x);
    }
  }

  /** One step of the scan. */
  method ScanOne(s: seq<nat>, seen: map<nat, nat>, dups: seq<(nat, nat)>, x: nat)
    returns (seen': map<nat, nat>, dups': seq<(nat, nat)>)
    requires x < |s| && Scanned(s, seen, dups, x)
    ensures Scanned(s, seen', dups', x + 1)
  {
    var y := s[x];
    if y in seen {
      seen', dups' := seen, dups + [(seen[y], x)];
    } else {
      seen', dups' := seen[y := x], dups;
      assert |seen'| == |seen| + 1;
    }
  }

  // ---------------------------------------------------------------------
  // Fixed points, 2-cycles and partitions

  /** The x with s[x] == x, ascending. */
  function FixedPoints(s: seq<nat>): (r: seq<nat>)
    ensures forall x: nat :: x in r <==> x < |s| && s[x] == x
    ensures forall i, j :: 0 <= i < j < |r| ==> r[i] < r[j]
  {
    var keep := (x: nat) => x < |s| && s[x] == x;
    WhereMembers(|s|, keep);
    WhereAscending(|s|, keep);
    Where(|s|, keep)
  }

  /** x starts a 2-cycle: y = s[x] is a valid index, x < y and s[y] == x. */
  predicate StartsTwoCycle(s: seq<nat>, x: nat) {
    x < |s| && s[x] < |s| && x < s[x] && s[s[x]] == x
  }

  /** The 2-cycles (x, s[x]) with x < n, each once, ascending. */
  function TwoCycles(s: seq<nat>, n: nat): (r: seq<(nat, nat)>)
    decreases n
  {
    if n == 0 then []
    else TwoCycles(s, n - 1) + (if StartsTwoCycle(s, n - 1) then [(n - 1, s[n - 1])] else [])
  }

  lemma {:induction false} TwoCyclesMember(s: seq<nat>, n: nat, x: nat, y: nat)
    ensures (x, y) in TwoCycles(s, n) <==> x < n && StartsTwoCycle(s, x) && y == s[x]
    decreases n
  {
    if n > 0 {
      TwoCyclesMember(s, n - 1, x, y);
    }
  }

  /** The comprehension-built list of 2-cycles: each pair (x, y) with
      x < y, s[x] == y and s[y] == x, once. */
  function Involutions(s: seq<nat>): (r: seq<(nat, nat)>)
    ensures forall x: nat, y: nat :: (x, y) in r <==> x < y < |s| && s[x] == y && s[y] == x
  {
    forall x: nat, y: nat ensures (x, y) in TwoCycles(s, |s|) <==> x < y < |s| && s[x] == y && s[y] == x {
      TwoCyclesMember(s, |s|, x, y);
    }
    TwoCycles(s, |s|)
  }

  /**
   * The append-loop version, which first skips the fixed points: a fixed
   * point never starts a 2-cycle, so it keeps the same pairs as the
   * comprehension.
   */
  method CollectInvolutions(s: seq<nat>) returns (r: seq<(nat, nat)>)
    ensures r == Involutions(s)
  {
    var fixed := FixedPoints(s);
    r := [];
    for x: nat := 0 to |s|
      invariant r == TwoCycles(s, x)
    {
      if x !in fixed && s[x] < |s| {
        if s[s[x]] == x && x < s[x] {
          r := r + [(x, s[x])];
        }
      }
    }
  }

  /** `s[x] ^ x` for every x. */
  function XorKeys(s: seq<nat>): (r: seq<nat>)
    ensures |r| == |s| && forall x :: 0 <= x < |s| ==> r[x] == Xor(s[x], x)
  {
    seq(|s|, x requires 0 <= x < |s| => Xor(s[x], x))
  }

  /** `(s[x] - x) mod 256` for every x, with Python's non-negative remainder. */
  function ArithKeys(s: seq<nat>): (r: seq<nat>)
    ensures |r| == |s| && forall x :: 0 <= x < |s| ==> r[x] < 256 && r[x] == ((s[x] as int - x) % 256) as nat
  {
    seq(|s|, x requires 0 <= x < |s| => ((s[x] as int - x) % 256) as nat)
  }

  /** `xor_patterns`: 0..|s|-1 grouped by s[x] ^ x. */
  method XorPatterns(s: seq<nat>) returns (m: map<nat, seq<nat>>)
    ensures Grouped(XorKeys(s), m, |s|)
    ensures forall k :: k in m ==> forall i :: 0 <= i < |m[k]| ==> m[k][i] < |s| && Xor(s[m[k][i]], m[k][i]) == k
  {
    m := GroupBy(XorKeys(s));
  }

  /** `arithmetic_patterns`: 0..|s|-1 grouped by (s[x] - x) mod 256. */
  method ArithPatterns(s: seq<nat>) returns (m: map<nat, seq<nat>>)
    ensures Grouped(ArithKeys(s), m, |s|)
    ensures forall k :: k in m ==> k < 256 && forall i :: 0 <= i < |m[k]| ==> m[k][i] < |s| && ArithKeys(s)[m[k][i]] == k
  {
    m := GroupBy(ArithKeys(s));
    forall k | k in m ensures k < 256 {
      assert ArithKeys(s)[m[k][0]] == k;
    }
  }

  /** A class of the XOR partition holds every x exactly when s is
      x ↦ x ^ k, the structure `check_xor_structure` looks for. */
  lemma XorClassFull(s: seq<nat>, k: nat)
    ensures |Preimages(XorKeys(s), k, |s|)| == |s| <==> SboxStructure.XorWith(s, k)
  {
    PreimagesFull(XorKeys(s), k, |s|);
    forall x | 0 <= x < |s| ensures XorKeys(s)[x] == k <==> s[x] == Xor(x, k) {
      XorCancel(s[x], x);
      XorCancel(x, k);
      XorComm(x, k);
      XorComm(s[x], x);
      if s[x] == Xor(x, k) {
        XorCancel(k, x);
        assert Xor(s[x], x) == Xor(Xor(k, x), x);
      }
      if Xor(s[x], x) == k {
        assert Xor(Xor(s[x], x), x) == s[x];
      }
    }
  }

  /** A class of the arithmetic partition holds every x of a table of bytes
      exactly when s is x ↦ x + k mod 256. */
  lemma ArithClassFull(s: seq<nat>, k: nat)
    requires (forall x :: 0 <= x < |s| ==> s[x] < 256) && k < 256
    ensures |Preimages(ArithKeys(s), k, |s|)| == |s| <==> SboxStructure.AffineWith(s, 1, k)
  {
    PreimagesFull(ArithKeys(s), k, |s|);
    forall x | 0 <= x < |s| ensures ArithKeys(s)[x] == k <==> s[x] == (1 * x + k) % 256 {
      ModShift(s[x], x, k);
    }
  }

  /** For a byte v: (v - x) mod 256 == k exactly when v == (x + k) mod 256. */
  lemma ModShift(v: nat, x: nat, k: nat)
    requires v < 256 && k < 256
    ensures (v as int - x) % 256 == k <==> v == (x + k) % 256
  {
    var q := (x + k) / 256;
    assert x + k == 256 * q + (x + k) % 256;
    if (v as int - x) % 256 == k {
      var p := (v as int - x) / 256;
      assert v as int - x == 256 * p + k;
      assert v == 256 * (p + q) + (x + k) % 256;
      assert p + q == 0;
    }
  }
}
