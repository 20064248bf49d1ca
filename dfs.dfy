/**
 * dfs_recursive: the recursive depth-first backward search of hireme2.c.
 *
 * A call at round r (rounds count up from 0 at the final state to 256 at
 * the input) gives up on its state when some byte of invM·state has no
 * preimage, or when the running product of the radices passes
 * MAX_COMBO_LIMIT.  Otherwise it takes a random start combo, writes each
 * child in turn into the buffer row of its recursion depth and recurses,
 * trying every combo below the product once, in rotated order.  At round
 * 256 the state is the solution.
 *
 * The search is an object: preallocated_state is the array of buffer rows,
 * recursion_depth a field, and rand() the oracle `rand` with the index of
 * the next call in a field.  The searched tree is described by Walk: a
 * path of combos is followed from a state as long as each node on it is a
 * branching node.  The search succeeds exactly when some path of the
 * remaining length can be walked, it returns such a path, and the state it
 * copies out maps onto the start state under the remaining forward rounds.
 */
module Dfs {
  import opened Gf2
  import opened Network
  import opened Preimage
  import opened FinalState
  import opened SearchCore
  import opened Wrappers
  import opened SearchTree

  /** Nodes with more combos than this are given up. */
  const MAX_COMBO_LIMIT: nat := 1000000

  /** The policy of dfs_recursive: nodes over the limit are given up. */
  const POLICY := Prune(MAX_COMBO_LIMIT)

  class RecursiveSearch {
    /** The precomputed tables: inverse S-box table and inverse matrix. */
    const t: ShapedTables
    /** rand(): the value of each call, by call index. */
    const rand: nat -> nat
    /** preallocated_state: one child row per recursion depth. */
    const buffers: array<seq<nat>>
    /** recursion_depth. */
    var depth: nat
    /** The index of the next rand() call. */
    var calls: nat

    ghost predicate Valid() {
      buffers.Length == ROUNDS
    }

    constructor (t: ShapedTables, rand: nat -> nat, calls: nat)
      ensures Valid() && fresh(buffers)
      ensures this.t == t && this.rand == rand
      ensures depth == 0 && this.calls == calls
    {
      this.t := t;
      this.rand := rand;
      this.calls := calls;
      depth := 0;
      buffers := new seq<nat>[ROUNDS];
    }

    /**
     * inverse_256_rounds_dfs: reset the depth and search from round 0.  A
     * solution it finds maps onto initial under the 256 forward rounds.
     */
    method InverseRoundsDfs(ghost conf: seq<nat>, ghost m: seq<nat>, initial: seq<nat>, solution: array<nat>)
      returns (found: bool)
      requires Valid() && SearchTables(t, conf, m) && IsState(initial) && solution.Length == 32
      modifies this, buffers, solution
      ensures depth == 0 && old(calls) <= calls
      ensures found <==> !NoWalk(t, POLICY, initial, ROUNDS)
      ensures found ==> IsState(solution[..]) && Rounds(SLow(conf), m, solution[..], ROUNDS) == initial
      ensures !found ==> solution[..] == old(solution[..])
    {
      depth := 0;
      ghost var path;
      found, path := Search(initial, 0, solution);
      if found {
        SolutionSolves(t, conf, m, POLICY, initial, path, solution[..]);
      }
    }

    /**
     * dfs_recursive(state, round, solution): on success path is the walk
     * that led to the solution.
     */
    method Search(state: seq<nat>, round: nat, solution: array<nat>) returns (found: bool, ghost path: seq<nat>)
      requires Valid() && IsState(state) && round <= ROUNDS && depth == round && solution.Length == 32
      modifies this, buffers, solution
      ensures depth == old(depth) && old(calls) <= calls
      ensures forall i :: 0 <= i < round ==> buffers[i] == old(buffers[i])
      ensures found ==> |path| == ROUNDS - round && Walk(t, POLICY, state, path) == Some(solution[..])
      ensures !found ==> NoWalk(t, POLICY, state, ROUNDS - round)
      ensures !found ==> solution[..] == old(solution[..])
      decreases ROUNDS - round, 3
    {
      path := [];
      if round == ROUNDS {
        CopyState(state, solution);
        return true, path;
      }
      var valid, v := InverseDiffusion(t, state);
      if !valid {
        NoBranchNoWalk(t, POLICY, state, ROUNDS - round);
        return false, path;
      }
      FeasibleChoices(t, state);
      var within, choices, total := ChoicesWithinLimit(t, v, MAX_COMBO_LIMIT);
      if !within {
        NoBranchNoWalk(t, POLICY, state, ROUNDS - round);
        return false, path;
      }
      ProductPositive(choices);
      depth := depth + 1;
      var start := rand(calls) % total;
      calls := calls + 1;
      found, path := TryChildren(state, v, choices, total, start, round, solution);
      depth := depth - 1;
    }

    /**
     * The combo loop of dfs_recursive: combos start, start + 1, ...
     * modulo total, until one leads to a solution.
     */
    method TryChildren(state: seq<nat>, v: seq<nat>, choices: seq<nat>, total: nat, start: nat, round: nat,
                       solution: array<nat>) returns (found: bool, ghost path: seq<nat>)
      requires Valid() && IsState(state) && InverseFeasible(t, state) && round < ROUNDS && depth == round + 1
      requires v == Mul(t.invM, state) && IsState(v) && Positive(Choices(t, v)) && choices == Choices(t, v)
      requires total == Product(choices) <= MAX_COMBO_LIMIT && start < total && solution.Length == 32
      modifies this, buffers, solution
      ensures depth == old(depth) && old(calls) <= calls
      ensures forall i :: 0 <= i < round ==> buffers[i] == old(buffers[i])
      ensures found ==> |path| == ROUNDS - round && Walk(t, POLICY, state, path) == Some(solution[..])
      ensures !found ==> NoWalk(t, POLICY, state, ROUNDS - round)
      ensures !found ==> solution[..] == old(solution[..])
      decreases ROUNDS - round, 2
    {
      ghost var k := ROUNDS - round - 1;
      path := [];
      var offset := 0;
      while offset < total
        invariant offset <= total && depth == round + 1
        invariant old(calls) <= calls
        invariant forall i :: 0 <= i < round ==> buffers[i] == old(buffers[i])
        invariant solution[..] == old(solution[..])
        invariant forall o :: 0 <= o < offset ==> MissAt(t, POLICY, v, start, total, o, k)
      {
        var result; ghost var sub;
        result, sub := TryRotated(state, v, choices, total, start, offset, round, solution);
        if result {
          return true, sub;
        }
        offset := offset + 1;
      }
      NoWalkRotated(t, POLICY, state, v, start, total, k);
      return false, path;
    }

    /** Pass `offset` of the combo loop: combo (start + offset) % total. */
    method TryRotated(state: seq<nat>, v: seq<nat>, choices: seq<nat>, total: nat, start: nat, offset: nat, round: nat,
                      solution: array<nat>) returns (found: bool, ghost path: seq<nat>)
      requires Valid() && IsState(state) && InverseFeasible(t, state) && round < ROUNDS && depth == round + 1
      requires v == Mul(t.invM, state) && IsState(v) && Positive(Choices(t, v)) && choices == Choices(t, v)
      requires total == Product(choices) <= MAX_COMBO_LIMIT && total > 0 && solution.Length == 32
      modifies this, buffers, solution
      ensures depth == old(depth) && old(calls) <= calls
      ensures forall i :: 0 <= i < round ==> buffers[i] == old(buffers[i])
      ensures found ==> |path| == ROUNDS - round && Walk(t, POLICY, state, path) == Some(solution[..])
      ensures !found ==> MissAt(t, POLICY, v, start, total, offset, ROUNDS - round - 1)
      ensures !found ==> solution[..] == old(solution[..])
      decreases ROUNDS - round, 1
    {
      var combo := (start + offset) % total;
      found, path := TryChild(state, v, choices, combo, round, solution);
      if !found {
        ChildMisses(t, POLICY, state, v, start, total, offset, ROUNDS - round - 1);
      }
    }

    /**
     * One pass of the combo loop: the child of combo is decoded into the
     * buffer row of this depth and searched from the next round.
     */
    method TryChild(state: seq<nat>, v: seq<nat>, choices: seq<nat>, combo: nat, round: nat,
                    solution: array<nat>) returns (found: bool, ghost path: seq<nat>)
      requires Valid() && IsState(state) && InverseFeasible(t, state) && round < ROUNDS && depth == round + 1
      requires v == Mul(t.invM, state) && IsState(v) && Positive(Choices(t, v)) && choices == Choices(t, v)
      requires Product(choices) <= MAX_COMBO_LIMIT && combo < Product(choices) && solution.Length == 32
      modifies this, buffers, solution
      ensures depth == old(depth) && old(calls) <= calls
      ensures forall i :: 0 <= i < round ==> buffers[i] == old(buffers[i])
      ensures found ==> |path| == ROUNDS - round && Walk(t, POLICY, state, path) == Some(solution[..])
      ensures !found ==> NoWalk(t, POLICY, Child(t, state, combo), ROUNDS - round - 1)
      ensures !found ==> solution[..] == old(solution[..])
      decreases ROUNDS - round, 0
    {
      var child := DecodeChild(t, v, choices, combo);
      buffers[round] := child;
      ghost var sub;
      found, sub := Search(child, round + 1, solution);
      path := [combo] + sub;
      if found {
        WalkStep(t, POLICY, state, combo, sub);
      }
    }
  }
}
