/**
 * The two depth-first searches of the solver in hireme_sat_solver.cpp.
 *
 * Both try the combos of a node in ascending order, with no random start,
 * so what they find is a function of the start state alone: the leaves
 * at round 256 in the order SearchTree.Leaves lists them.
 * dfs_find_all_recursive gives up on nodes whose product of radices
 * passes 10^9, visits every leaf, counts them in total_solutions_found
 * and keeps the first STORE_CAPACITY of them in all_solutions.
 * dfs_first_solution_recursive gives up on nodes over 10^8 and stops at
 * the first leaf.
 */
module SatSearch {
  import opened Gf2
  import opened Network
  import opened Preimage
  import opened FinalState
  import opened SearchCore
  import opened SearchTree

  /** Nodes with more combos than this are skipped by the full search. */
  const ALL_LIMIT: nat := 1000000000
  /** ... and by the first-solution search. */
  const FIRST_LIMIT: nat := 100000000
  /** Rows of all_solutions. */
  const STORE_CAPACITY: nat := 1000000

  /** The trees the two searches walk. */
  const ALL_POLICY := Prune(ALL_LIMIT)
  const FIRST_POLICY := Prune(FIRST_LIMIT)

  /** all_solutions and total_solutions_found. */
  class SolutionStore {
    const t: ShapedTables
    /** all_solutions: the first STORE_CAPACITY leaves found. */
    const rows: array<seq<nat>>
    /** total_solutions_found. */
    var count: nat

    ghost predicate Valid() {
      rows.Length == STORE_CAPACITY
    }

    /** The rows written so far. */
    ghost function Stored(): seq<seq<nat>>
      requires Valid()
      reads this, rows
    {
      rows[..Min(count, STORE_CAPACITY)]
    }

    constructor (t: ShapedTables)
      ensures Valid() && fresh(rows) && this.t == t && count == 0
    {
      this.t := t;
      rows := new seq<nat>[STORE_CAPACITY];
      count := 0;
    }

    /**
     * find_all_solutions_dfs: resets the counter and visits every leaf
     * below initial; returns how many there are and keeps the first
     * STORE_CAPACITY in search order.
     */
    method FindAllSolutions(initial: seq<nat>) returns (total: nat)
      requires Valid() && IsState(initial)
      modifies this, rows
      ensures total == count == |Leaves(t, ALL_POLICY, initial, ROUNDS)|
      ensures Stored() == Take(Leaves(t, ALL_POLICY, initial, ROUNDS), STORE_CAPACITY)
    {
      count := 0;
      FindAll(initial, 0);
      total := count;
    }

    /** dfs_find_all_recursive(state, round). */
    method FindAll(state: seq<nat>, round: nat)
      requires Valid() && IsState(state) && round <= ROUNDS
      modifies this, rows
      ensures count == old(count) + |Leaves(t, ALL_POLICY, state, ROUNDS - round)|
      ensures Stored() == Take(old(Stored()) + Leaves(t, ALL_POLICY, state, ROUNDS - round), STORE_CAPACITY)
      decreases ROUNDS - round, 2
    {
      if round == ROUNDS {
        if count < STORE_CAPACITY {
          rows[count] := state;
        }
        count := count + 1;
        return;
      }
      var valid, v := InverseDiffusion(t, state);
      if !valid {
        return;
      }
      FeasibleChoices(t, state);
      var within, choices, total := ChoicesWithinLimit(t, v, ALL_LIMIT);
      if !within {
        return;
      }
      FindAllChildren(state, v, choices, total, round);
    }

    /** The combo loop of dfs_find_all_recursive: every combo in
        ascending order. */
    method FindAllChildren(state: seq<nat>, v: seq<nat>, choices: seq<nat>, total: nat, round: nat)
      requires Valid() && IsState(state) && round < ROUNDS
      requires v == Mul(t.invM, state) && IsState(v) && choices == Choices(t, v) && Positive(choices)
      requires InverseFeasible(t, state) && total == Product(choices) <= ALL_LIMIT
      modifies this, rows
      ensures count == old(count) + |Leaves(t, ALL_POLICY, state, ROUNDS - round)|
      ensures Stored() == Take(old(Stored()) + Leaves(t, ALL_POLICY, state, ROUNDS - round), STORE_CAPACITY)
      decreases ROUNDS - round, 1
    {
      ghost var k := ROUNDS - round;
      ghost var seen: seq<seq<nat>> := [];
      AllExpanded(t, state, v, total, k);
      var combo := 0;
      while combo < total
        invariant combo <= total
        invariant LeavesFrom(t, ALL_POLICY, state, k, 0) == seen + LeavesFrom(t, ALL_POLICY, state, k, combo)
        invariant count == old(count) + |seen|
        invariant Stored() == Take(old(Stored()) + seen, STORE_CAPACITY)
      {
        ghost var below := FindAllChild(state, v, choices, combo, round, old(Stored()), seen);
        seen := seen + below;
        combo := combo + 1;
      }
    }

    /** One pass of the combo loop: the leaves below the child of combo
        are counted and stored after those already seen. */
    method FindAllChild(state: seq<nat>, v: seq<nat>, choices: seq<nat>, combo: nat, round: nat,
                        ghost base: seq<seq<nat>>, ghost seen: seq<seq<nat>>) returns (ghost below: seq<seq<nat>>)
      requires Valid() && IsState(state) && round < ROUNDS
      requires v == Mul(t.invM, state) && IsState(v) && choices == Choices(t, v) && Positive(choices)
      requires Expanded(t, ALL_POLICY, state) && combo < Fanout(t, ALL_POLICY, state)
      requires LeavesFrom(t, ALL_POLICY, state, ROUNDS - round, 0) == seen + LeavesFrom(t, ALL_POLICY, state, ROUNDS - round, combo)
      requires Stored() == Take(base + seen, STORE_CAPACITY)
      modifies this, rows
      ensures below == Leaves(t, ALL_POLICY, Child(t, state, combo), ROUNDS - round - 1)
      ensures LeavesFrom(t, ALL_POLICY, state, ROUNDS - round, 0) == (seen + below) + LeavesFrom(t, ALL_POLICY, state, ROUNDS - round, combo + 1)
      ensures count == old(count) + |below|
      ensures Stored() == Take(base + (seen + below), STORE_CAPACITY)
      decreases ROUNDS - round, 0
    {
      var child := DecodeChild(t, v, choices, combo);
      FindAll(child, round + 1);
      below := Leaves(t, ALL_POLICY, child, ROUNDS - (round + 1));
      StoreStep(base, seen, below);
      SeenStep(t, ALL_POLICY, state, ROUNDS - round, combo, seen, below);
    }
  }

  /** Under ALL_POLICY a feasible node within the limit is expanded on all
      its combos. */
  lemma AllExpanded(t: ShapedTables, state: seq<nat>, v: seq<nat>, total: nat, k: nat)
    requires IsState(state) && InverseFeasible(t, state) && k > 0
    requires v == Mul(t.invM, state) && IsState(v) && Positive(Choices(t, v)) && total == Product(Choices(t, v)) <= ALL_LIMIT
    ensures Expanded(t, ALL_POLICY, state) && Fanout(t, ALL_POLICY, state) == total
    ensures Leaves(t, ALL_POLICY, state, k) == LeavesFrom(t, ALL_POLICY, state, k, 0)
    ensures LeavesFrom(t, ALL_POLICY, state, k, total) == []
  {
    ExpandedAll(t, ALL_POLICY, state, v, total, k);
  }

  /** Appending the leaves of one more child to the stored prefix. */
  lemma StoreStep(stored: seq<seq<nat>>, seen: seq<seq<nat>>, below: seq<seq<nat>>)
    ensures Take(Take(stored + seen, STORE_CAPACITY) + below, STORE_CAPACITY) == Take(stored + (seen + below), STORE_CAPACITY)
  {
    TakeAppend(stored + seen, below, STORE_CAPACITY);
    assert stored + seen + below == stored + (seen + below);
  }

  /**
   * dfs_first_solution_recursive(state, round, solution): the first leaf
   * in ascending-combo order, if there is one.
   */
  method FirstSolution(t: ShapedTables, state: seq<nat>, round: nat, solution: array<nat>) returns (found: bool)
    requires IsState(state) && round <= ROUNDS && solution.Length == 32
    modifies solution
    ensures found <==> |Leaves(t, FIRST_POLICY, state, ROUNDS - round)| > 0
    ensures found ==> solution[..] == Leaves(t, FIRST_POLICY, state, ROUNDS - round)[0]
    ensures !found ==> solution[..] == old(solution[..])
    decreases ROUNDS - round, 1
  {
    if round == ROUNDS {
      CopyState(state, solution);
      return true;
    }
    var valid, v := InverseDiffusion(t, state);
    if !valid {
      return false;
    }
    FeasibleChoices(t, state);
    var within, choices, total := ChoicesWithinLimit(t, v, FIRST_LIMIT);
    if !within {
      return false;
    }
    found := FirstSolutionChildren(t, state, v, choices, total, round, solution);
  }

  /** The combo loop of dfs_first_solution_recursive. */
  method FirstSolutionChildren(t: ShapedTables, state: seq<nat>, v: seq<nat>, choices: seq<nat>, total: nat,
                               round: nat, solution: array<nat>) returns (found: bool)
    requires IsState(state) && round < ROUNDS && solution.Length == 32
    requires v == Mul(t.invM, state) && IsState(v) && choices == Choices(t, v) && Positive(choices)
    requires InverseFeasible(t, state) && total == Product(choices) <= FIRST_LIMIT
    modifies solution
    ensures found <==> |Leaves(t, FIRST_POLICY, state, ROUNDS - round)| > 0
    ensures found ==> solution[..] == Leaves(t, FIRST_POLICY, state, ROUNDS - round)[0]
    ensures !found ==> solution[..] == old(solution[..])
    decreases ROUNDS - round, 0
  {
    ghost var k := ROUNDS - round;
    ExpandedAll(t, FIRST_POLICY, state, v, total, k);
    var combo := 0;
    while combo < total
      invariant combo <= total
      invariant LeavesFrom(t, FIRST_POLICY, state, k, 0) == LeavesFrom(t, FIRST_POLICY, state, k, combo)
      invariant solution[..] == old(solution[..])
    {
      var child := DecodeChild(t, v, choices, combo);
      FirstLeafStep(t, FIRST_POLICY, state, k, combo);
      found := FirstSolution(t, child, round + 1, solution);
      if found {
        return;
      }
      combo := combo + 1;
    }
    return false;
  }

  /** inverse_256_rounds_dfs: the first solution below initial; it solves
      initial under the 256 forward rounds. */
  method InverseRoundsFirst(ghost conf: seq<nat>, ghost m: seq<nat>, t: ShapedTables, initial: seq<nat>,
                            solution: array<nat>) returns (found: bool)
    requires SearchTables(t, conf, m) && IsState(initial) && solution.Length == 32
    modifies solution
    ensures found <==> |Leaves(t, FIRST_POLICY, initial, ROUNDS)| > 0
    ensures found <==> !NoWalk(t, FIRST_POLICY, initial, ROUNDS)
    ensures found ==> solution[..] == Leaves(t, FIRST_POLICY, initial, ROUNDS)[0]
    ensures found ==> Rounds(SLow(conf), m, solution[..], ROUNDS) == initial
  {
    found := FirstSolution(t, initial, 0, solution);
    NoLeavesNoWalk(t, FIRST_POLICY, initial, ROUNDS);
    if found {
      var path := LeafWalk(t, FIRST_POLICY, initial, ROUNDS, 0);
      SolutionSolves(t, conf, m, FIRST_POLICY, initial, path, solution[..]);
    }
  }

  /** Every row find_all_solutions_dfs keeps solves initial. */
  lemma StoredRowsSolve(t: ShapedTables, conf: seq<nat>, m: seq<nat>, initial: seq<nat>, stored: seq<seq<nat>>)
    requires SearchTables(t, conf, m) && IsState(initial)
    requires stored == Take(Leaves(t, ALL_POLICY, initial, ROUNDS), STORE_CAPACITY)
    ensures forall i :: 0 <= i < |stored| ==> Rounds(SLow(conf), m, stored[i], ROUNDS) == initial
  {
    forall i | 0 <= i < |stored|
      ensures Rounds(SLow(conf), m, stored[i], ROUNDS) == initial
    {
      LeavesSolve(t, conf, m, ALL_POLICY, initial, ROUNDS, i);
    }
  }
}
