/**
 * dfs_recursive_optimized: the depth-first backward search of
 * hireme2_heuristic.c.
 *
 * A node whose product of radices passes MAX_COMBO_LIMIT is not given up
 * but enumerated partially: only the combos below the limit are tried.  A
 * node with at most SORT_LIMIT combos scores every combo, sorts them by
 * descending score (qsort with compare_branching_desc) and tries them in
 * that order; the scratch array comes from malloc, and a node whose
 * allocation fails is left unexplored.  A larger node tries its combos in
 * rotated order from a random start, as dfs_recursive does.
 *
 * The score as written looks up, for each position with more than one
 * preimage, the preimage count of S_low applied to the picked preimage,
 * which is the byte v[j] itself: every combo of a node gets the same
 * score and the sort orders nothing (ScoreConstant).  The search here
 * scores a combo by the radices its child would have one round further
 * back (ChildScore), the branching the comments describe.
 */
module Heuristic {
  import opened Bits
  import opened Gf2
  import opened Network
  import opened Preimage
  import opened FinalState
  import opened SearchCore
  import opened Wrappers
  import opened SearchTree

  /** Nodes with more combos are enumerated only below this many. */
  const MAX_COMBO_LIMIT: nat := 50000

  /** Nodes with at most this many combos are tried best first. */
  const SORT_LIMIT: nat := 1000

  /** The policy of dfs_recursive_optimized: nodes over the limit are
      truncated. */
  const POLICY := Truncate(MAX_COMBO_LIMIT)

  // ---------------------------------------------------------------------
  // Scores

  /** A sum of n positive counts is at least n. */
  lemma {:induction false} SumPositive(s: seq<nat>)
    requires Positive(s)
    ensures Sum(s) >= |s|
  {
    if |s| > 0 {
      SumPositive(s[..|s| - 1]);
    }
  }

  /**
   * score_combination_optimally as written: for each position with more
   * than one choice, the preimage count of S_low applied to the preimage
   * the combo picks.
   */
  function ScoreAsWritten(t: ShapedTables, sLow: seq<nat>, v: seq<nat>, combo: nat): nat
    requires IsSBox(sLow) && IsState(v) && Positive(Choices(t, v))
  {
    var r := Choices(t, v);
    var d := Digits(combo, r);
    Sum(seq(32, j requires 0 <= j < 32 =>
      if r[j] > 1 then t.invLowCount[sLow[t.invLow[v[j]][d[j]]]] else 0))
  }

  /** The score every combo of a node gets as written: the counts of the
      node's own bytes. */
  function NodeScore(t: ShapedTables, v: seq<nat>): nat
    requires IsState(v)
  {
    var r := Choices(t, v);
    Sum(seq(32, j requires 0 <= j < 32 => if r[j] > 1 then t.invLowCount[v[j]] else 0))
  }

  /** The preimage a combo picks maps back onto v[j] under S_low... */
  lemma PickedMapsBack(t: ShapedTables, conf: seq<nat>, m: seq<nat>, v: seq<nat>, combo: nat, j: nat)
    requires SearchTables(t, conf, m) && IsState(v) && Positive(Choices(t, v)) && j < 32
    ensures SLow(conf)[t.invLow[v[j]][Digits(combo, Choices(t, v))[j]]] == v[j]
  {
    var d := Digits(combo, Choices(t, v));
    TableEntryMapsBack(t.invLow, t.invLowCount, SLow(conf), v[j], d[j]);
  }

  /** ... so each term of the score as written is the count of v[j]. */
  lemma ScoreOfPreimages(t: ShapedTables, s: seq<nat>, v: seq<nat>, combo: nat)
    requires IsSBox(s) && IsState(v) && Positive(Choices(t, v))
    requires forall j :: 0 <= j < 32 ==> s[t.invLow[v[j]][Digits(combo, Choices(t, v))[j]]] == v[j]
    ensures ScoreAsWritten(t, s, v, combo) == NodeScore(t, v)
  {
    var r := Choices(t, v);
    var d := Digits(combo, r);
    assert seq(32, j requires 0 <= j < 32 => if r[j] > 1 then t.invLowCount[s[t.invLow[v[j]][d[j]]]] else 0)
        == seq(32, j requires 0 <= j < 32 => if r[j] > 1 then t.invLowCount[v[j]] else 0);
  }

  /** The score as written does not depend on the combo. */
  lemma ScoreAsWrittenIsNodeScore(t: ShapedTables, conf: seq<nat>, m: seq<nat>, v: seq<nat>, combo: nat)
    requires SearchTables(t, conf, m) && IsState(v) && Positive(Choices(t, v))
    ensures ScoreAsWritten(t, SLow(conf), v, combo) == NodeScore(t, v)
  {
    forall j | 0 <= j < 32
      ensures SLow(conf)[t.invLow[v[j]][Digits(combo, Choices(t, v))[j]]] == v[j]
    {
      PickedMapsBack(t, conf, m, v, combo, j);
    }
    ScoreOfPreimages(t, SLow(conf), v, combo);
  }

  /** ... and any two combos of a node tie. */
  lemma ScoreConstant(t: ShapedTables, conf: seq<nat>, m: seq<nat>, v: seq<nat>, a: nat, b: nat)
    requires SearchTables(t, conf, m) && IsState(v) && Positive(Choices(t, v))
    ensures ScoreAsWritten(t, SLow(conf), v, a) == ScoreAsWritten(t, SLow(conf), v, b)
  {
    ScoreAsWrittenIsNodeScore(t, conf, m, v, a);
    ScoreAsWrittenIsNodeScore(t, conf, m, v, b);
  }

  /** The score of a combo: the sum of the radices its child would have
      one round further back. */
  function ChildScore(t: ShapedTables, v: seq<nat>, combo: nat): nat
    requires IsState(v) && Positive(Choices(t, v))
  {
    var child := Decoded(t, v, combo);
    MulState(t.invM, child);
    Sum(Choices(t, Mul(t.invM, child)))
  }

  /** A combo scoring below 32 leads to a dead end: some byte of the
      child's inverse diffusion has no preimage. */
  lemma LowScoreDeadEnd(t: ShapedTables, v: seq<nat>, combo: nat)
    requires IsState(v) && Positive(Choices(t, v))
    requires ChildScore(t, v, combo) < 32
    ensures !InverseFeasible(t, Decoded(t, v, combo))
    ensures NoWalk(t, POLICY, Decoded(t, v, combo), 1)
  {
    var child := Decoded(t, v, combo);
    if InverseFeasible(t, child) {
      FeasibleChoices(t, child);
      SumPositive(Choices(t, Mul(t.invM, child)));
    }
    NoBranchNoWalk(t, POLICY, child, 1);
  }

  /** score_combination_optimally, scoring the child. */
  method ScoreCombination(t: ShapedTables, v: seq<nat>, choices: seq<nat>, combo: nat) returns (score: nat)
    requires IsState(v) && choices == Choices(t, v) && Positive(choices)
    ensures score == ChildScore(t, v, combo)
  {
    var child := DecodeChild(t, v, choices, combo);
    MulState(t.invM, child);
    var w := Mul(t.invM, child);
    ghost var r := Choices(t, w);
    score := 0;
    for j := 0 to 32
      invariant score == Sum(r[..j])
    {
      SumStep(r, j);
      score := score + t.invLowCount[w[j]];
    }
    assert r[..32] == r;
  }

  // ---------------------------------------------------------------------
  // Sorting by score

  /** ScoredCombo. */
  datatype ScoredCombo = ScoredCombo(combo: nat, score: int)

  /** compare_branching_desc: negative when a goes first. */
  function CompareBranchingDesc(a: ScoredCombo, b: ScoredCombo): int {
    b.score - a.score
  }

  /** No entry compares after a later one. */
  predicate SortedDesc(s: seq<ScoredCombo>) {
    forall i, j :: 0 <= i < j < |s| ==> CompareBranchingDesc(s[i], s[j]) <= 0
  }

  /** x inserted before the first entry that does not score higher. */
  function InsertDesc(x: ScoredCombo, s: seq<ScoredCombo>): (r: seq<ScoredCombo>)
    ensures multiset(r) == multiset(s) + multiset{x}
  {
    if |s| == 0 || CompareBranchingDesc(x, s[0]) <= 0 then [x] + s
    else
      assert s == [s[0]] + s[1..];
      [s[0]] + InsertDesc(x, s[1..])
  }

  /** The order qsort produces, up to the order of equal scores. */
  function SortDesc(s: seq<ScoredCombo>): (r: seq<ScoredCombo>)
    ensures multiset(r) == multiset(s)
  {
    if |s| == 0 then []
    else
      assert s == [s[0]] + s[1..];
      InsertDesc(s[0], SortDesc(s[1..]))
  }

  /** Inserting into a sorted list keeps it sorted. */
  lemma {:induction false} InsertSorted(x: ScoredCombo, s: seq<ScoredCombo>)
    requires SortedDesc(s)
    ensures SortedDesc(InsertDesc(x, s))
  {
    if |s| > 0 && CompareBranchingDesc(x, s[0]) > 0 {
      var rest := InsertDesc(x, s[1..]);
      InsertSorted(x, s[1..]);
      forall i | 0 <= i < |rest|
        ensures rest[i].score <= s[0].score
      {
        assert rest[i] in multiset(rest);
        if rest[i] != x {
          assert rest[i] in multiset(s[1..]);
          var k :| 0 <= k < |s[1..]| && s[1..][k] == rest[i];
          assert CompareBranchingDesc(s[0], s[k + 1]) <= 0;
        }
      }
      assert InsertDesc(x, s) == [s[0]] + rest;
    }
  }

  /** SortDesc sorts by compare_branching_desc. */
  lemma {:induction false} SortDescSorted(s: seq<ScoredCombo>)
    ensures SortedDesc(SortDesc(s))
  {
    if |s| > 0 {
      SortDescSorted(s[1..]);
      InsertSorted(s[0], SortDesc(s[1..]));
    }
  }

  /** qsort(a, n, sizeof(ScoredCombo), compare_branching_desc): a
      permutation of the entries, sorted by descending score. */
  method QSort(a: array<ScoredCombo>)
    modifies a
    ensures SortedDesc(a[..]) && multiset(a[..]) == multiset(old(a[..]))
  {
    var s := SortDesc(a[..]);
    SortDescSorted(a[..]);
    assert |s| == |multiset(s)| == a.Length;
    forall i | 0 <= i < a.Length {
      a[i] := s[i];
    }
    assert a[..] == s;
  }

  /** The array the scoring loop fills: combo c with its score, at c. */
  function ScoredCombos(t: ShapedTables, v: seq<nat>, total: nat): (r: seq<ScoredCombo>)
    requires IsState(v) && Positive(Choices(t, v))
    ensures |r| == total
  {
    seq(total, c requires 0 <= c < total => ScoredCombo(c, ChildScore(t, v, c)))
  }

  /** The scoring loop. */
  method ScoreAll(t: ShapedTables, v: seq<nat>, choices: seq<nat>, total: nat) returns (scored: array<ScoredCombo>)
    requires IsState(v) && choices == Choices(t, v) && Positive(choices)
    ensures fresh(scored) && scored[..] == ScoredCombos(t, v, total)
  {
    scored := new ScoredCombo[total];
    for combo := 0 to total
      invariant forall c :: 0 <= c < combo ==> scored[c] == ScoredCombo(c, ChildScore(t, v, c))
    {
      var score := ScoreCombination(t, v, choices, combo);
      scored[combo] := ScoredCombo(combo, score);
    }
  }

  /** A permutation of the scored combos below total holds every combo
      below total... */
  lemma OrderCovers(t: ShapedTables, v: seq<nat>, total: nat, order: seq<ScoredCombo>, c: nat) returns (i: nat)
    requires IsState(v) && Positive(Choices(t, v))
    requires multiset(order) == multiset(ScoredCombos(t, v, total)) && c < total
    ensures i < |order| && order[i].combo == c
  {
    var list := ScoredCombos(t, v, total);
    assert list[c] in multiset(list);
    assert list[c] in order;
    i :| 0 <= i < |order| && order[i] == list[c];
  }

  /** ... and nothing else. */
  lemma OrderBelow(t: ShapedTables, v: seq<nat>, total: nat, order: seq<ScoredCombo>, i: nat)
    requires IsState(v) && Positive(Choices(t, v))
    requires multiset(order) == multiset(ScoredCombos(t, v, total)) && i < |order|
    ensures order[i].combo < total
  {
    var list := ScoredCombos(t, v, total);
    assert order[i] in multiset(order);
    assert order[i] in list;
  }

  /** When the child of every combo in a permutation of the scored
      combos misses, no walk of k + 1 combos leaves state. */
  lemma NoWalkInOrder(t: ShapedTables, state: seq<nat>, v: seq<nat>, total: nat, order: seq<ScoredCombo>, k: nat)
    requires IsState(state) && InverseFeasible(t, state)
    requires v == Mul(t.invM, state) && IsState(v) && Positive(Choices(t, v))
    requires total == Product(Choices(t, v)) <= SORT_LIMIT
    requires |order| == total && multiset(order) == multiset(ScoredCombos(t, v, total))
    requires forall i :: 0 <= i < total ==> NoWalk(t, POLICY, Decoded(t, v, order[i].combo), k)
    ensures NoWalk(t, POLICY, state, k + 1)
  {
    forall c | 0 <= c < total
      ensures NoWalk(t, POLICY, Child(t, state, c), k)
    {
      var i := OrderCovers(t, v, total, order, c);
    }
    NoWalkAbove(t, POLICY, state, total, k);
  }

  // ---------------------------------------------------------------------
  // The search

  class HeuristicSearch {
    /** The precomputed tables: inverse S-box table and inverse matrix. */
    const t: ShapedTables
    /** rand(): the value of each call, by call index. */
    const rand: nat -> nat
    /** malloc(): whether each call returns memory, by call index. */
    const allocates: nat -> bool
    /** preallocated_state: one child row per recursion depth. */
    const buffers: array<seq<nat>>
    /** recursion_depth. */
    var depth: nat
    /** The index of the next rand() call. */
    var calls: nat
    /** The index of the next malloc() call. */
    var allocations: nat

    ghost predicate Valid() {
      buffers.Length == ROUNDS
    }

    /** Every malloc() call from index from up to index to succeeds. */
    predicate Allocated(from: nat, to: nat) {
      forall i :: from <= i < to ==> allocates(i)
    }

    constructor (t: ShapedTables, rand: nat -> nat, allocates: nat -> bool)
      ensures Valid() && fresh(buffers)
      ensures this.t == t && this.rand == rand && this.allocates == allocates
      ensures depth == 0 && calls == 0 && allocations == 0
    {
      this.t := t;
      this.rand := rand;
      this.allocates := allocates;
      calls := 0;
      allocations := 0;
      depth := 0;
      buffers := new seq<nat>[ROUNDS];
    }

    /**
     * main's call: reset recursion_depth and search from round 0.  A
     * solution found maps onto initial under the 256 forward rounds; when
     * no allocation failed, a miss means the truncated tree has no walk.
     */
    method InverseRounds(ghost conf: seq<nat>, ghost m: seq<nat>, initial: seq<nat>, solution: array<nat>)
      returns (found: bool)
      requires Valid() && SearchTables(t, conf, m) && IsState(initial) && solution.Length == 32
      modifies this, buffers, solution
      ensures depth == 0 && old(calls) <= calls && old(allocations) <= allocations
      ensures found ==> !NoWalk(t, POLICY, initial, ROUNDS)
      ensures !found && Allocated(old(allocations), allocations) ==> NoWalk(t, POLICY, initial, ROUNDS)
      ensures found ==> IsState(solution[..]) && Rounds(SLow(conf), m, solution[..], ROUNDS) == initial
      ensures !found ==> solution[..] == old(solution[..])
    {
      depth := 0;
      ghost var path;
      found, path := Search(initial, 0, solution);
      if found {
        SolutionSolves(t, conf, m, POLICY, initial, path, solution[..]);
      }
    }

    /**
     * dfs_recursive_optimized(state, round, solution): on success path is
     * the walk that led to the solution.
     */
    method Search(state: seq<nat>, round: nat, solution: array<nat>) returns (found: bool, ghost path: seq<nat>)
      requires Valid() && IsState(state) && round <= ROUNDS && depth == round && solution.Length == 32
      modifies this, buffers, solution
      ensures depth == old(depth) && old(calls) <= calls && old(allocations) <= allocations
      ensures forall i :: 0 <= i < round ==> buffers[i] == old(buffers[i])
      ensures found ==> |path| == ROUNDS - round && Walk(t, POLICY, state, path) == Some(solution[..])
      ensures !found && Allocated(old(allocations), allocations) ==> NoWalk(t, POLICY, state, ROUNDS - round)
      ensures !found ==> solution[..] == old(solution[..])
      decreases ROUNDS - round, 4
    {
      path := [];
      if round == ROUNDS {
        CopyState(state, solution);
        return true, path;
      }
      var valid, v := InverseDiffusion(t, state);
      if !valid {
        NoBranchNoWalk(t, POLICY, state, ROUNDS - round);
        return false, path;
      }
      FeasibleChoices(t, state);
      var choices, total := ChoicesAndTotal(t, v, MAX_COMBO_LIMIT);
      ProductPositive(choices);
      depth := depth + 1;
      if total <= SORT_LIMIT {
        found, path := SortedChildren(state, v, choices, total, round, solution);
      } else {
        var start := rand(calls) % total;
        calls := calls + 1;
        found, path := RotatedChildren(state, v, choices, total, start, round, solution);
      }
      depth := depth - 1;
    }

    /**
     * The scored branch: every combo is scored, the scores are sorted
     * best first and the combos are tried in that order.  A failed
     * allocation leaves the node unexplored.
     */
    method SortedChildren(state: seq<nat>, v: seq<nat>, choices: seq<nat>, total: nat, round: nat,
                          solution: array<nat>) returns (found: bool, ghost path: seq<nat>)
      requires Valid() && IsState(state) && InverseFeasible(t, state) && round < ROUNDS && depth == round + 1
      requires v == Mul(t.invM, state) && IsState(v) && Positive(Choices(t, v)) && choices == Choices(t, v)
      requires total == Product(choices) <= SORT_LIMIT && solution.Length == 32
      modifies this, buffers, solution
      ensures depth == old(depth) && old(calls) <= calls && old(allocations) <= allocations
      ensures forall i :: 0 <= i < round ==> buffers[i] == old(buffers[i])
      ensures found ==> |path| == ROUNDS - round && Walk(t, POLICY, state, path) == Some(solution[..])
      ensures !found && Allocated(old(allocations), allocations) ==> NoWalk(t, POLICY, state, ROUNDS - round)
      ensures !found ==> solution[..] == old(solution[..])
      decreases ROUNDS - round, 3
    {
      found, path := false, [];
      var ok := allocates(allocations);
      allocations := allocations + 1;
      if !ok {
        return false, path;
      }
      var scored := ScoreAll(t, v, choices, total);
      QSort(scored);
      found, path := TryInOrder(state, v, choices, total, scored, round, solution);
    }

    /** The combos in the order of the sorted array, until one leads to a
        solution. */
    method TryInOrder(state: seq<nat>, v: seq<nat>, choices: seq<nat>, total: nat, scored: array<ScoredCombo>,
                      round: nat, solution: array<nat>) returns (found: bool, ghost path: seq<nat>)
      requires Valid() && IsState(state) && InverseFeasible(t, state) && round < ROUNDS && depth == round + 1
      requires v == Mul(t.invM, state) && IsState(v) && Positive(Choices(t, v)) && choices == Choices(t, v)
      requires total == Product(choices) <= SORT_LIMIT && solution.Length == 32
      requires scored.Length == total && multiset(scored[..]) == multiset(ScoredCombos(t, v, total))
      modifies this, buffers, solution
      ensures depth == old(depth) && old(calls) <= calls && old(allocations) <= allocations
      ensures forall i :: 0 <= i < round ==> buffers[i] == old(buffers[i])
      ensures found ==> |path| == ROUNDS - round && Walk(t, POLICY, state, path) == Some(solution[..])
      ensures !found && Allocated(old(allocations), allocations) ==> NoWalk(t, POLICY, state, ROUNDS - round)
      ensures !found ==> solution[..] == old(solution[..])
      decreases ROUNDS - round, 2
    {
      ghost var k := ROUNDS - round - 1;
      ghost var order := scored[..];
      found, path := false, [];
      var idx := 0;
      while idx < total
        invariant idx <= total && depth == round + 1 && scored[..] == order
        invariant old(calls) <= calls && old(allocations) <= allocations
        invariant forall i :: 0 <= i < round ==> buffers[i] == old(buffers[i])
        invariant solution[..] == old(solution[..])
        invariant Allocated(old(allocations), allocations) ==>
          forall i :: 0 <= i < idx ==> NoWalk(t, POLICY, Decoded(t, v, order[i].combo), k)
      {
        var result; ghost var sub;
        result, sub := TryScored(state, v, choices, total, scored, idx, round, solution);
        if result {
          return true, sub;
        }
        idx := idx + 1;
      }
      if Allocated(old(allocations), allocations) {
        NoWalkInOrder(t, state, v, total, order, k);
      }
    }

    /** The child of the combo at position idx of the sorted array. */
    method TryScored(state: seq<nat>, v: seq<nat>, choices: seq<nat>, total: nat, scored: array<ScoredCombo>, idx: nat,
                     round: nat, solution: array<nat>) returns (found: bool, ghost path: seq<nat>)
      requires Valid() && IsState(state) && InverseFeasible(t, state) && round < ROUNDS && depth == round + 1
      requires v == Mul(t.invM, state) && IsState(v) && Positive(Choices(t, v)) && choices == Choices(t, v)
      requires total == Product(choices) <= SORT_LIMIT && solution.Length == 32
      requires scored.Length == total && multiset(scored[..]) == multiset(ScoredCombos(t, v, total)) && idx < total
      modifies this, buffers, solution
      ensures depth == old(depth) && old(calls) <= calls && old(allocations) <= allocations
      ensures forall i :: 0 <= i < round ==> buffers[i] == old(buffers[i])
      ensures found ==> |path| == ROUNDS - round && Walk(t, POLICY, state, path) == Some(solution[..])
      ensures !found && Allocated(old(allocations), allocations) ==>
        NoWalk(t, POLICY, Decoded(t, v, scored[idx].combo), ROUNDS - round - 1)
      ensures !found ==> solution[..] == old(solution[..])
      decreases ROUNDS - round, 1
    {
      OrderBelow(t, v, total, scored[..], idx);
      var combo := scored[idx].combo;
      found, path := TryChild(state, v, choices, combo, round, solution);
    }

    /** The fallback branch: combos start, start + 1, ... modulo total. */
    method RotatedChildren(state: seq<nat>, v: seq<nat>, choices: seq<nat>, total: nat, start: nat, round: nat,
                           solution: array<nat>) returns (found: bool, ghost path: seq<nat>)
      requires Valid() && IsState(state) && InverseFeasible(t, state) && round < ROUNDS && depth == round + 1
      requires v == Mul(t.invM, state) && IsState(v) && Positive(Choices(t, v)) && choices == Choices(t, v)
      requires total == Width(POLICY, Product(choices)) && start < total && solution.Length == 32
      modifies this, buffers, solution
      ensures depth == old(depth) && old(calls) <= calls && old(allocations) <= allocations
      ensures forall i :: 0 <= i < round ==> buffers[i] == old(buffers[i])
      ensures found ==> |path| == ROUNDS - round && Walk(t, POLICY, state, path) == Some(solution[..])
      ensures !found && Allocated(old(allocations), allocations) ==> NoWalk(t, POLICY, state, ROUNDS - round)
      ensures !found ==> solution[..] == old(solution[..])
      decreases ROUNDS - round, 2
    {
      ghost var k := ROUNDS - round - 1;
      path := [];
      var offset := 0;
      while offset < total
        invariant offset <= total && depth == round + 1
        invariant old(calls) <= calls && old(allocations) <= allocations
        invariant forall i :: 0 <= i < round ==> buffers[i] == old(buffers[i])
        invariant solution[..] == old(solution[..])
        invariant Allocated(old(allocations), allocations) ==>
          forall o :: 0 <= o < offset ==> MissAt(t, POLICY, v, start, total, o, k)
      {
        var combo := (start + offset) % total;
        var result; ghost var sub;
        result, sub := TryChild(state, v, choices, combo, round, solution);
        if result {
          return true, sub;
        }
        offset := offset + 1;
      }
      if Allocated(old(allocations), allocations) {
        NoWalkRotated(t, POLICY, state, v, start, total, k);
      }
      return false, path;
    }

    /** One child: decoded into the buffer row of this depth and searched
        from the next round. */
    method TryChild(state: seq<nat>, v: seq<nat>, choices: seq<nat>, combo: nat, round: nat,
                    solution: array<nat>) returns (found: bool, ghost path: seq<nat>)
      requires Valid() && IsState(state) && InverseFeasible(t, state) && round < ROUNDS && depth == round + 1
      requires v == Mul(t.invM, state) && IsState(v) && Positive(Choices(t, v)) && choices == Choices(t, v)
      requires combo < Width(POLICY, Product(choices)) && solution.Length == 32
      modifies this, buffers, solution
      ensures depth == old(depth) && old(calls) <= calls && old(allocations) <= allocations
      ensures forall i :: 0 <= i < round ==> buffers[i] == old(buffers[i])
      ensures found ==> |path| == ROUNDS - round && Walk(t, POLICY, state, path) == Some(solution[..])
      ensures !found && Allocated(old(allocations), allocations) ==>
        NoWalk(t, POLICY, Child(t, state, combo), ROUNDS - round - 1)
      ensures !found ==> solution[..] == old(solution[..])
      decreases ROUNDS - round, 0
    {
      var child := DecodeChild(t, v, choices, combo);
      buffers[round] := child;
      ghost var sub;
      found, sub := Search(child, round + 1, solution);
      path := [combo] + sub;
      if found {
        WalkStep(t, POLICY, state, combo, sub);
      }
    }
  }

  // ---------------------------------------------------------------------
  // The radix loop as written

  /**
   * The heuristic DFS breaks out of its radix loop once the running
   * product passes MAX_COMBO_LIMIT.  With two preimages at every byte that
   * happens at position 15 (2^16 > 50000 >= 2^15), so positions 16..31 of
   * choices_per_pos are never written, and the rotated enumeration that
   * follows (the product is above SORT_LIMIT) decodes them.
   */
  lemma UnsetRadixRead()
    ensures ChoicesAsWritten(seq(32, _ => 2), MAX_COMBO_LIMIT, 1)[31].None?
    ensures DigitsAsWritten(0, ChoicesAsWritten(seq(32, _ => 2), MAX_COMBO_LIMIT, 1)).None?
    ensures Pow2(16) > SORT_LIMIT
  {
    Pow2Small();
    assert Pow2(16) == 2 * Pow2(15);
    TwosBreak(MAX_COMBO_LIMIT, 15, 0);
  }
}
