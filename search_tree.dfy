/**
 * The backward search tree the depth-first engines walk.
 *
 * A node is a state at some round.  An engine expands a feasible node
 * (every byte of invM·state has a preimage) into the decoded children of
 * the combos its policy allows: every combo below the product of the
 * radices (Unbounded), none at all once the product passes a limit
 * (Prune), or only the combos below a cap (Truncate).  A path is the list
 * of combos taken, one per backward round; Walk follows it and yields
 * the state reached, or None when some combo on it is not a branch.
 */
module SearchTree {
  import opened Gf2
  import opened Network
  import opened Preimage
  import opened FinalState
  import opened SearchCore
  import opened Wrappers

  /** Which combos of a node with a given product an engine tries. */
  datatype Policy = Unbounded | Prune(limit: nat) | Truncate(cap: nat)

  /** The engine expands a node with product n at all. */
  predicate Expands(p: Policy, n: nat) {
    !p.Prune? || n <= p.limit
  }

  /** The number of combos the engine tries at an expanded node. */
  function Width(p: Policy, n: nat): (w: nat)
    ensures w <= n
    ensures p.Truncate? ==> w <= p.cap && (n <= p.cap ==> w == n)
    ensures !p.Truncate? ==> w == n
  {
    if p.Truncate? && p.cap < n then p.cap else n
  }

  /** The engine expands state: every byte of invM·state has a preimage
      and the policy accepts the product of the radices. */
  predicate Expanded(t: ShapedTables, p: Policy, state: seq<nat>)
    requires IsState(state)
  {
    var v := Mul(t.invM, state);
    InverseFeasible(t, state) && IsState(v) && Positive(Choices(t, v)) && Expands(p, Product(Choices(t, v)))
  }

  /** The number of combos the engine tries at an expanded node. */
  function Fanout(t: ShapedTables, p: Policy, state: seq<nat>): nat
    requires IsState(state) && Expanded(t, p, state)
  {
    Width(p, Product(Choices(t, Mul(t.invM, state))))
  }

  /** The engine expands state, and combo is one of the combos it tries
      there. */
  predicate Branch(t: ShapedTables, p: Policy, state: seq<nat>, combo: nat)
    requires IsState(state)
  {
    Expanded(t, p, state) && combo < Fanout(t, p, state)
  }

  /** The child a branch leads to. */
  function Child(t: ShapedTables, state: seq<nat>, combo: nat): (child: seq<nat>)
    requires IsState(state) && IsState(Mul(t.invM, state))
    requires Positive(Choices(t, Mul(t.invM, state)))
    ensures IsState(child)
  {
    Decoded(t, Mul(t.invM, state), combo)
  }

  /**
   * Follows path from state, one combo per backward round; None when some
   * combo on the way is not a branch of its node, else the state reached.
   */
  function Walk(t: ShapedTables, p: Policy, state: seq<nat>, path: seq<nat>): (end: Option<seq<nat>>)
    requires IsState(state)
    ensures end.Some? ==> IsState(end.value)
    ensures |path| == 0 ==> end == Some(state)
    decreases |path|
  {
    if |path| == 0 then Some(state)
    else if !Branch(t, p, state, path[0]) then None
    else Walk(t, p, Child(t, state, path[0]), path[1..])
  }

  /** No path of k combos can be walked from state. */
  ghost predicate NoWalk(t: ShapedTables, p: Policy, state: seq<nat>, k: nat)
    requires IsState(state)
  {
    forall path {:trigger Walk(t, p, state, path)} :: |path| == k ==> Walk(t, p, state, path).None?
  }

  /** A walk that starts with a branch continues from its child. */
  lemma WalkStep(t: ShapedTables, p: Policy, state: seq<nat>, combo: nat, rest: seq<nat>)
    requires IsState(state) && Branch(t, p, state, combo)
    ensures Walk(t, p, state, [combo] + rest) == Walk(t, p, Child(t, state, combo), rest)
  {
    assert ([combo] + rest)[1..] == rest;
  }

  /** A walk of positive length leaves through a branch of its start. */
  lemma WalkFirst(t: ShapedTables, p: Policy, state: seq<nat>, path: seq<nat>)
    requires IsState(state) && |path| > 0 && Walk(t, p, state, path).Some?
    ensures Branch(t, p, state, path[0])
    ensures Walk(t, p, Child(t, state, path[0]), path[1..]) == Walk(t, p, state, path)
  {
  }

  /** A node the engine does not expand has no walk of positive length. */
  lemma NoBranchNoWalk(t: ShapedTables, p: Policy, state: seq<nat>, k: nat)
    requires IsState(state) && k > 0
    requires !InverseFeasible(t, state) ||
             (IsState(Mul(t.invM, state)) && Positive(Choices(t, Mul(t.invM, state))) &&
              !Expands(p, Product(Choices(t, Mul(t.invM, state)))))
    ensures NoWalk(t, p, state, k)
  {
    forall path | |path| == k
      ensures Walk(t, p, state, path).None?
    {
      assert !Branch(t, p, state, path[0]);
    }
  }

  /**
   * When no combo below n leads to a walk of k more combos, and n is the
   * number of combos the engine tries, no walk of k + 1 combos leaves
   * state.
   */
  lemma NoWalkAbove(t: ShapedTables, p: Policy, state: seq<nat>, n: nat, k: nat)
    requires IsState(state) && InverseFeasible(t, state)
    requires IsState(Mul(t.invM, state)) && Positive(Choices(t, Mul(t.invM, state)))
    requires n == Width(p, Product(Choices(t, Mul(t.invM, state))))
    requires forall c :: 0 <= c < n ==> NoWalk(t, p, Child(t, state, c), k)
    ensures NoWalk(t, p, state, k + 1)
  {
    forall path | |path| == k + 1
      ensures Walk(t, p, state, path).None?
    {
      if Branch(t, p, state, path[0]) {
        assert NoWalk(t, p, Child(t, state, path[0]), k);
        WalkStep(t, p, state, path[0], path[1..]);
        assert [path[0]] + path[1..] == path;
      }
    }
  }

  /** No walk of k combos leaves the child of the rotated combo
      (start + o) % total. */
  ghost predicate MissAt(t: ShapedTables, p: Policy, v: seq<nat>, start: nat, total: nat, o: nat, k: nat)
    requires IsState(v) && Positive(Choices(t, v)) && total > 0
  {
    NoWalk(t, p, Decoded(t, v, (start + o) % total), k)
  }

  /** A child without a walk is a miss at its rotated offset. */
  lemma ChildMisses(t: ShapedTables, p: Policy, state: seq<nat>, v: seq<nat>, start: nat, total: nat, o: nat, k: nat)
    requires IsState(state) && v == Mul(t.invM, state) && IsState(v) && Positive(Choices(t, v)) && total > 0
    requires NoWalk(t, p, Child(t, state, (start + o) % total), k)
    ensures MissAt(t, p, v, start, total, o, k)
  {
  }

  /** When every rotated combo below the fanout misses, no walk of k + 1
      combos leaves state. */
  lemma NoWalkRotated(t: ShapedTables, p: Policy, state: seq<nat>, v: seq<nat>, start: nat, total: nat, k: nat)
    requires IsState(state) && InverseFeasible(t, state)
    requires v == Mul(t.invM, state) && IsState(v) && Positive(Choices(t, v))
    requires total == Width(p, Product(Choices(t, v))) && start < total
    requires forall o :: 0 <= o < total ==> MissAt(t, p, v, start, total, o, k)
    ensures NoWalk(t, p, state, k + 1)
  {
    forall c | 0 <= c < total
      ensures NoWalk(t, p, Child(t, state, c), k)
    {
      var o := RotationCovers(start, total, c);
      assert MissAt(t, p, v, start, total, o, k);
    }
    NoWalkAbove(t, p, state, total, k);
  }

  /** Every child an engine decodes maps back onto its parent under one
      forward round. */
  ghost predicate RoundTrips(t: ShapedTables, conf: seq<nat>, m: seq<nat>, p: Policy)
    requires IsConfusion(conf) && |m| == 32
  {
    forall s, c :: IsState(s) && Branch(t, p, s, c) ==> Round(SLow(conf), m, Child(t, s, c)) == s
  }

  /** precompute's tables make every decoded child round-trip. */
  lemma TablesRoundTrip(t: ShapedTables, conf: seq<nat>, m: seq<nat>, p: Policy)
    requires SearchTables(t, conf, m)
    ensures RoundTrips(t, conf, m, p)
  {
    forall s, c | IsState(s) && Branch(t, p, s, c)
      ensures Round(SLow(conf), m, Child(t, s, c)) == s
    {
      DecodedChildRound(t, conf, m, s, c);
    }
  }

  /**
   * The state a walk of n combos reaches maps back onto its start under n
   * forward rounds: every solution an engine copies out is a preimage.
   */
  lemma {:induction false} WalkReaches(t: ShapedTables, conf: seq<nat>, m: seq<nat>, p: Policy,
                                       state: seq<nat>, path: seq<nat>, sol: seq<nat>)
    requires IsConfusion(conf) && |m| == 32 && RoundTrips(t, conf, m, p)
    requires IsState(state) && Walk(t, p, state, path) == Some(sol)
    ensures IsState(sol) && Rounds(SLow(conf), m, sol, |path|) == state
    decreases |path|
  {
    if |path| > 0 {
      var rest := path[1..];
      WalkFirst(t, p, state, path);
      WalkReaches(t, conf, m, p, Child(t, state, path[0]), rest, sol);
      RoundsSucc(SLow(conf), m, sol, |rest|);
    }
  }

  /** The solution of a successful search solves its start state. */
  lemma SolutionSolves(t: ShapedTables, conf: seq<nat>, m: seq<nat>, p: Policy,
                       state: seq<nat>, path: seq<nat>, sol: seq<nat>)
    requires SearchTables(t, conf, m) && IsState(state) && Walk(t, p, state, path) == Some(sol)
    ensures IsState(sol) && Rounds(SLow(conf), m, sol, |path|) == state
  {
    TablesRoundTrip(t, conf, m, p);
    WalkReaches(t, conf, m, p, state, path, sol);
  }

  // ---------------------------------------------------------------------
  // The leaves in search order

  /**
   * The states at depth k below state, in the order a depth-first search
   * that tries combos in ascending order reaches them.
   */
  ghost function Leaves(t: ShapedTables, p: Policy, state: seq<nat>, k: nat): (r: seq<seq<nat>>)
    requires IsState(state)
    ensures AllStates(r)
    decreases k, 1, 0
  {
    if k == 0 then [state]
    else if !Expanded(t, p, state) then []
    else LeavesFrom(t, p, state, k, 0)
  }

  /** The leaves below the children of combos c, c + 1, ... of state. */
  ghost function LeavesFrom(t: ShapedTables, p: Policy, state: seq<nat>, k: nat, c: nat): (r: seq<seq<nat>>)
    requires IsState(state) && Expanded(t, p, state) && k > 0
    ensures AllStates(r)
    decreases k, 0, Fanout(t, p, state) - c
  {
    if c >= Fanout(t, p, state) then []
    else Leaves(t, p, Child(t, state, c), k - 1) + LeavesFrom(t, p, state, k, c + 1)
  }

  /** The leaves below combo c come before those below the later combos. */
  lemma LeavesFromStep(t: ShapedTables, p: Policy, state: seq<nat>, k: nat, c: nat)
    requires IsState(state) && Expanded(t, p, state) && k > 0 && c < Fanout(t, p, state)
    ensures LeavesFrom(t, p, state, k, c) == Leaves(t, p, Child(t, state, c), k - 1) + LeavesFrom(t, p, state, k, c + 1)
  {
  }

  /** A feasible node that the policy expands on all of its combos: its
      leaves are those below its combos 0 .. total - 1. */
  lemma ExpandedAll(t: ShapedTables, p: Policy, state: seq<nat>, v: seq<nat>, total: nat, k: nat)
    requires IsState(state) && InverseFeasible(t, state) && k > 0
    requires v == Mul(t.invM, state) && IsState(v) && Positive(Choices(t, v)) && total == Product(Choices(t, v))
    requires Expands(p, total) && Width(p, total) == total
    ensures Expanded(t, p, state) && Fanout(t, p, state) == total
    ensures Leaves(t, p, state, k) == LeavesFrom(t, p, state, k, 0)
    ensures LeavesFrom(t, p, state, k, total) == []
  {
  }

  /** Scanning for the first leaf: a combo without leaves is skipped, and
      the first combo with leaves gives the first leaf. */
  lemma FirstLeafStep(t: ShapedTables, p: Policy, state: seq<nat>, k: nat, c: nat)
    requires IsState(state) && Expanded(t, p, state) && k > 0 && c < Fanout(t, p, state)
    requires LeavesFrom(t, p, state, k, 0) == LeavesFrom(t, p, state, k, c)
    ensures |Leaves(t, p, Child(t, state, c), k - 1)| == 0 ==> LeavesFrom(t, p, state, k, 0) == LeavesFrom(t, p, state, k, c + 1)
    ensures |Leaves(t, p, Child(t, state, c), k - 1)| > 0 ==>
      |LeavesFrom(t, p, state, k, 0)| > 0 && LeavesFrom(t, p, state, k, 0)[0] == Leaves(t, p, Child(t, state, c), k - 1)[0]
  {
    LeavesFromStep(t, p, state, k, c);
  }

  /** The leaves seen before combo c, followed by those below c, are the
      leaves seen before combo c + 1. */
  lemma SeenStep(t: ShapedTables, p: Policy, state: seq<nat>, k: nat, c: nat, seen: seq<seq<nat>>, below: seq<seq<nat>>)
    requires IsState(state) && Expanded(t, p, state) && k > 0 && c < Fanout(t, p, state)
    requires LeavesFrom(t, p, state, k, 0) == seen + LeavesFrom(t, p, state, k, c)
    requires below == Leaves(t, p, Child(t, state, c), k - 1)
    ensures LeavesFrom(t, p, state, k, 0) == (seen + below) + LeavesFrom(t, p, state, k, c + 1)
  {
    LeavesFromStep(t, p, state, k, c);
    AppendAssoc(seen, below, LeavesFrom(t, p, state, k, c + 1));
  }

  /** Entry i of LeavesFrom(c) is a leaf below one child of combo c' >= c. */
  lemma {:induction false} LeavesFromIndex(t: ShapedTables, p: Policy, state: seq<nat>, k: nat, c: nat, i: nat)
    returns (c': nat, j: nat)
    requires IsState(state) && Expanded(t, p, state) && k > 0
    requires i < |LeavesFrom(t, p, state, k, c)|
    ensures c <= c' < Fanout(t, p, state)
    ensures j < |Leaves(t, p, Child(t, state, c'), k - 1)|
    ensures LeavesFrom(t, p, state, k, c)[i] == Leaves(t, p, Child(t, state, c'), k - 1)[j]
    decreases Fanout(t, p, state) - c
  {
    var here := Leaves(t, p, Child(t, state, c), k - 1);
    if i < |here| {
      c', j := c, i;
    } else {
      c', j := LeavesFromIndex(t, p, state, k, c + 1, i - |here|);
    }
  }

  /** Leaf i below state, k > 0 rounds down, is leaf j below the child of
      one of its branches c. */
  lemma LeafChild(t: ShapedTables, p: Policy, state: seq<nat>, k: nat, i: nat) returns (c: nat, j: nat)
    requires IsState(state) && k > 0 && i < |Leaves(t, p, state, k)|
    ensures Branch(t, p, state, c) && j < |Leaves(t, p, Child(t, state, c), k - 1)|
    ensures Leaves(t, p, state, k)[i] == Leaves(t, p, Child(t, state, c), k - 1)[j]
  {
    c, j := LeavesFromIndex(t, p, state, k, 0, i);
  }

  /** Every leaf is the end of a walk of k combos. */
  lemma {:induction false} LeafWalk(t: ShapedTables, p: Policy, state: seq<nat>, k: nat, i: nat) returns (path: seq<nat>)
    requires IsState(state) && i < |Leaves(t, p, state, k)|
    ensures |path| == k && Walk(t, p, state, path) == Some(Leaves(t, p, state, k)[i])
    decreases k
  {
    if k == 0 {
      path := [];
    } else {
      var c, j := LeafChild(t, p, state, k, i);
      var rest := LeafWalk(t, p, Child(t, state, c), k - 1, j);
      path := [c] + rest;
      WalkStep(t, p, state, c, rest);
    }
  }

  /** The leaves below the child of a combo c >= c0 are among LeavesFrom(c0). */
  lemma {:induction false} LeavesFromContains(t: ShapedTables, p: Policy, state: seq<nat>, k: nat, c0: nat, c: nat, x: seq<nat>)
    requires IsState(state) && Expanded(t, p, state) && k > 0
    requires c0 <= c < Fanout(t, p, state) && x in Leaves(t, p, Child(t, state, c), k - 1)
    ensures x in LeavesFrom(t, p, state, k, c0)
    decreases c - c0
  {
    LeavesFromStep(t, p, state, k, c0);
    if c0 < c {
      LeavesFromContains(t, p, state, k, c0 + 1, c, x);
    }
  }

  /** The end of every walk of k combos is a leaf. */
  lemma {:induction false} WalkLeaf(t: ShapedTables, p: Policy, state: seq<nat>, path: seq<nat>)
    requires IsState(state) && Walk(t, p, state, path).Some?
    ensures Walk(t, p, state, path).value in Leaves(t, p, state, |path|)
    decreases |path|
  {
    if |path| > 0 {
      WalkFirst(t, p, state, path);
      WalkLeaf(t, p, Child(t, state, path[0]), path[1..]);
      LeavesFromContains(t, p, state, |path|, 0, path[0], Walk(t, p, state, path).value);
    }
  }

  /** A search that finds no leaf has proved that no walk exists, and
      conversely. */
  lemma NoLeavesNoWalk(t: ShapedTables, p: Policy, state: seq<nat>, k: nat)
    requires IsState(state)
    ensures |Leaves(t, p, state, k)| == 0 <==> NoWalk(t, p, state, k)
  {
    if |Leaves(t, p, state, k)| > 0 {
      var path := LeafWalk(t, p, state, k, 0);
    } else {
      forall path | |path| == k
        ensures Walk(t, p, state, path).None?
      {
        if Walk(t, p, state, path).Some? {
          WalkLeaf(t, p, state, path);
        }
      }
    }
  }

  /** Every leaf maps onto its start under k forward rounds. */
  lemma LeavesSolve(t: ShapedTables, conf: seq<nat>, m: seq<nat>, p: Policy, state: seq<nat>, k: nat, i: nat)
    requires SearchTables(t, conf, m) && IsState(state) && i < |Leaves(t, p, state, k)|
    ensures Rounds(SLow(conf), m, Leaves(t, p, state, k)[i], k) == state
  {
    var path := LeafWalk(t, p, state, k, i);
    SolutionSolves(t, conf, m, p, state, path, Leaves(t, p, state, k)[i]);
  }
}
