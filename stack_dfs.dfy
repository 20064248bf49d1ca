/**
 * inverse_256_rounds_stack: the explicit-stack depth-first search of
 * hireme2_optimized.c.
 *
 * The stack is an array of MAX_STACK_SIZE nodes (state, round), with the
 * final state at round 0 in slot 0.  Each pass looks at the top node: at
 * round 256 its state is the solution; otherwise the node is popped, and
 * when every byte of invM·state has a preimage and the product of the
 * preimage counts (taken in ascending order of the counts, with an
 * overflow-safe guard) is at most MAX_COMBO_LIMIT, its children are pushed
 * in rotated order from a start derived from the round and the seed.  The
 * push loop stops when the stack is full, dropping the remaining children.
 *
 * In the C, the popped node's slot is reused by the first child while the
 * pointer `current` still addresses it, so every later sibling reads the
 * already incremented round and gets the parent's round plus two
 * (PushChildrenAsWritten, InverseRoundsStackAsWritten).  The search with
 * each child at its parent's round plus one is InverseRoundsStack.
 */
module StackDfs {
  import opened Bits
  import opened Gf2
  import opened Network
  import opened FinalState
  import opened SearchCore
  import opened SearchTree
  import opened Orders

  /** Slots of the node stack. */
  const MAX_STACK_SIZE: nat := 257
  /** Nodes with more combos than this are skipped. */
  const MAX_COMBO_LIMIT: nat := 1000000
  /** The policy of the search: nodes over the limit are given up. */
  const POLICY := Prune(MAX_COMBO_LIMIT)
  /** The multiplier of deterministic_random. */
  const GOLDEN: nat := 0x9E3779B9

  /** A DFSNode. */
  datatype Node = Node(state: seq<nat>, round: nat)

  /**
   * deterministic_random: `((round * 0x9E3779B9u) ^ seed) % total` in
   * 32-bit unsigned arithmetic, so the product wraps modulo 2^32.
   */
  function DeterministicRandom(round: nat, seed: u32, total: nat): (r: nat)
    requires total > 0
    ensures r < total
  {
    Xor((round * GOLDEN) % 0x1_0000_0000, seed) % total
  }

  /** From that start, the rotated offsets reach every combo below total. */
  lemma StartCovers(round: nat, seed: u32, total: nat, combo: nat) returns (offset: nat)
    requires combo < total
    ensures offset < total && (DeterministicRandom(round, seed, total) + offset) % total == combo
  {
    offset := RotationCovers(DeterministicRandom(round, seed, total), total, combo);
  }

  // ---------------------------------------------------------------------
  // The guarded product

  /** `total > LIMIT / c` holds exactly when total * c exceeds LIMIT. */
  lemma DivGuard(total: nat, c: nat, limit: nat)
    requires c > 0
    ensures total > limit / c <==> total * c > limit
  {
    var q := limit / c;
    assert limit == q * c + limit % c;
    if total > q {
      MulLe(c, q + 1, total);
      assert total * c >= (q + 1) * c;
    } else {
      MulLe(c, total, q);
      assert total * c <= q * c;
    }
  }

  /**
   * The product of the preimage counts, read in the sorted order, with the
   * early exit that sets LIMIT + 1 instead of overflowing: the result is
   * the product when that is at most the limit, and LIMIT + 1 exactly when
   * the product exceeds it, whatever the order.
   */
  method GuardedTotal(choices: seq<nat>, order: seq<nat>) returns (total: nat)
    requires |choices| == 32 && Positive(choices) && IsOrder(order, 32)
    ensures Product(choices) <= MAX_COMBO_LIMIT ==> total == Product(choices)
    ensures Product(choices) > MAX_COMBO_LIMIT ==> total == MAX_COMBO_LIMIT + 1
  {
    ProductInOrder(choices, order);
    ghost var picked := Pick(choices, order);
    assert Positive(picked);
    total := 1;
    for idx := 0 to 32
      invariant |order| == |picked| == 32 && forall i :: 0 <= i < 32 ==> order[i] < 32 && picked[i] == choices[order[i]]
      invariant total == Product(picked[..idx]) <= MAX_COMBO_LIMIT
    {
      var c := choices[order[idx]];
      DivGuard(total, c, MAX_COMBO_LIMIT);
      PrefixProductStep(picked, idx);
      if total > MAX_COMBO_LIMIT / c {
        PrefixProductMono(picked, idx + 1, 32);
        assert picked[..32] == picked;
        return MAX_COMBO_LIMIT + 1;
      }
      total := total * c;
    }
    assert picked[..32] == picked;
  }

  // ---------------------------------------------------------------------
  // Expanding the popped node

  /**
   * Everything the pass computes from the popped node before it pushes:
   * v and the counts, the sort, the guarded product and the start combo.
   * ok says the node is expanded; its combos are then 0 .. total - 1.
   */
  method Prepare(t: ShapedTables, node: Node, seed: u32)
    returns (ok: bool, v: seq<nat>, choices: seq<nat>, total: nat, start: nat)
    requires IsState(node.state)
    ensures ok <==> Expanded(t, POLICY, node.state)
    ensures ok ==> v == Mul(t.invM, node.state) && IsState(v) && choices == Choices(t, v) && Positive(choices)
    ensures ok ==> total == Fanout(t, POLICY, node.state) == Product(choices) > 0
    ensures ok ==> start == DeterministicRandom(node.round, seed, total)
  {
    var valid;
    valid, v := InverseDiffusion(t, node.state);
    choices, total, start := [], 0, 0;
    if !valid {
      return false, v, choices, total, start;
    }
    FeasibleChoices(t, node.state);
    choices := Choices(t, v);
    var order := SortByChoices(choices);
    total := GuardedTotal(choices, order);
    if total > MAX_COMBO_LIMIT {
      return false, v, choices, total, start;
    }
    ProductPositive(choices);
    start := DeterministicRandom(node.round, seed, total);
    ok := true;
  }

  /**
   * The push loop with the parent's round read once: children of combos
   * start, start + 1, ... (mod total) go to slots current, current + 1,
   * ... at round + 1, until total children are pushed or the top slot is
   * filled; the rest are dropped.
   */
  method PushChildren(t: ShapedTables, stack: array<Node>, current: nat, node: Node,
                      v: seq<nat>, choices: seq<nat>, total: nat, start: nat) returns (top: int)
    requires current < stack.Length == MAX_STACK_SIZE
    requires IsState(node.state) && v == Mul(t.invM, node.state) && IsState(v)
    requires choices == Choices(t, v) && Positive(choices) && start < total
    modifies stack
    ensures top == current - 1 + Min(total, MAX_STACK_SIZE - current)
    ensures forall i :: 0 <= i < current ==> stack[i] == old(stack[i])
    ensures forall i :: current <= i <= top ==>
      stack[i] == Node(Child(t, node.state, (start + (i - current)) % total), node.round + 1)
  {
    var parentRound := node.round;
    top := current - 1;
    var offset := 0;
    while offset < total && top < MAX_STACK_SIZE - 1
      invariant offset <= total && top == current - 1 + offset < MAX_STACK_SIZE
      invariant forall i :: 0 <= i < current ==> stack[i] == old(stack[i])
      invariant forall i :: current <= i <= top ==>
        stack[i] == Node(Child(t, node.state, (start + (i - current)) % total), parentRound + 1)
    {
      var combo := (start + offset) % total;
      var child := DecodeChild(t, v, choices, combo);
      top := top + 1;
      stack[top] := Node(child, parentRound + 1);
      offset := offset + 1;
    }
  }

  /**
   * The push loop as written: `new_node->round = current->round + 1` where
   * current is the popped slot, which the first child overwrites.  The
   * first child gets round + 1, every later sibling round + 2.
   */
  method PushChildrenAsWritten(t: ShapedTables, stack: array<Node>, current: nat, node: Node,
                               v: seq<nat>, choices: seq<nat>, total: nat, start: nat) returns (top: int)
    requires current < stack.Length == MAX_STACK_SIZE && stack[current] == node
    requires IsState(node.state) && v == Mul(t.invM, node.state) && IsState(v)
    requires choices == Choices(t, v) && Positive(choices) && start < total
    modifies stack
    ensures top == current - 1 + Min(total, MAX_STACK_SIZE - current)
    ensures forall i :: 0 <= i < current ==> stack[i] == old(stack[i])
    ensures forall i :: current <= i <= top ==>
      stack[i] == Node(Child(t, node.state, (start + (i - current)) % total), SiblingRound(node.round, i - current))
  {
    top := current - 1;
    var offset := 0;
    while offset < total && top < MAX_STACK_SIZE - 1
      invariant offset <= total && top == current - 1 + offset < MAX_STACK_SIZE
      invariant forall i :: 0 <= i < current ==> stack[i] == old(stack[i])
      invariant top < current ==> stack[current] == node
      invariant forall i :: current <= i <= top ==>
        stack[i] == Node(Child(t, node.state, (start + (i - current)) % total), SiblingRound(node.round, i - current))
    {
      var combo := (start + offset) % total;
      var child := DecodeChild(t, v, choices, combo);
      top := top + 1;
      stack[top] := Node(child, stack[current].round + 1);
      offset := offset + 1;
    }
  }

  /** The round the as-written loop gives the child pushed k-th after
      popping a node at round r. */
  function SiblingRound(r: nat, k: nat): nat {
    if k == 0 then r + 1 else r + 2
  }

  // ---------------------------------------------------------------------
  // The search with children at round + 1

  /** A node on the path back to initial: its state maps onto initial
      under as many forward rounds as its round says. */
  ghost predicate Reaches(conf: seq<nat>, m: seq<nat>, initial: seq<nat>, node: Node)
    requires IsConfusion(conf) && |m| == 32
  {
    IsState(node.state) && node.round <= ROUNDS && Rounds(SLow(conf), m, node.state, node.round) == initial
  }

  /** Every node in slots 0 .. sp is on a path back to initial. */
  ghost predicate Live(conf: seq<nat>, m: seq<nat>, initial: seq<nat>, stack: seq<Node>, sp: int)
    requires IsConfusion(conf) && |m| == 32
  {
    sp < |stack| && forall i :: 0 <= i <= sp ==> Reaches(conf, m, initial, stack[i])
  }

  /** A child one round further than its parent stays on the path. */
  lemma ChildReaches(t: ShapedTables, conf: seq<nat>, m: seq<nat>, initial: seq<nat>, node: Node, combo: nat)
    requires IsConfusion(conf) && |m| == 32 && RoundTrips(t, conf, m, POLICY)
    requires Reaches(conf, m, initial, node) && node.round < ROUNDS
    requires Branch(t, POLICY, node.state, combo)
    ensures Reaches(conf, m, initial, Node(Child(t, node.state, combo), node.round + 1))
  {
    var child := Child(t, node.state, combo);
    assert Round(SLow(conf), m, child) == node.state;
  }

  /** After the pushes, the stack is live up to the new top. */
  lemma PushedLive(t: ShapedTables, conf: seq<nat>, m: seq<nat>, initial: seq<nat>,
                   before: seq<Node>, after: seq<Node>, current: nat, top: int, node: Node, start: nat)
    requires IsConfusion(conf) && |m| == 32 && RoundTrips(t, conf, m, POLICY)
    requires current < |before| == |after| && top < |after|
    requires Live(conf, m, initial, before, current) && before[current] == node && node.round < ROUNDS
    requires Expanded(t, POLICY, node.state) && start < Fanout(t, POLICY, node.state)
    requires forall i :: 0 <= i < current ==> after[i] == before[i]
    requires forall i :: current <= i <= top ==>
      after[i] == Node(Child(t, node.state, (start + (i - current)) % Fanout(t, POLICY, node.state)), node.round + 1)
    ensures Live(conf, m, initial, after, top)
  {
    var total := Fanout(t, POLICY, node.state);
    forall i | current <= i <= top
      ensures Reaches(conf, m, initial, after[i])
    {
      ChildReaches(t, conf, m, initial, node, (start + (i - current)) % total);
    }
    forall i | 0 <= i < current
      ensures Reaches(conf, m, initial, after[i])
    {
      assert Reaches(conf, m, initial, before[i]);
    }
  }

  /** One pass over a node below round 256: pop it and push its children. */
  method Expand(t: ShapedTables, ghost conf: seq<nat>, ghost m: seq<nat>, ghost initial: seq<nat>,
                seed: u32, stack: array<Node>, sp: nat) returns (top: int)
    requires IsConfusion(conf) && |m| == 32 && RoundTrips(t, conf, m, POLICY)
    requires sp < stack.Length == MAX_STACK_SIZE
    requires Live(conf, m, initial, stack[..], sp) && stack[sp].round < ROUNDS
    modifies stack
    ensures -1 <= top < MAX_STACK_SIZE
    ensures Live(conf, m, initial, stack[..], top)
  {
    var node := stack[sp];
    assert Reaches(conf, m, initial, stack[..][sp]);
    var ok, v, choices, total, start := Prepare(t, node, seed);
    if !ok {
      assert Live(conf, m, initial, stack[..], sp - 1);
      return sp - 1;
    }
    ghost var before := stack[..];
    top := PushChildren(t, stack, sp, node, v, choices, total, start);
    PushedLive(t, conf, m, initial, before, stack[..], sp, top, node, start);
  }

  /**
   * The search with each child at its parent's round plus one.  A found
   * solution maps onto initial under the 256 forward rounds.  The stack
   * never holds more than MAX_STACK_SIZE nodes; fuel bounds the number of
   * passes.
   */
  method InverseRoundsStack(t: ShapedTables, ghost conf: seq<nat>, ghost m: seq<nat>, initial: seq<nat>,
                            seed: u32, fuel: nat, solution: array<nat>) returns (found: bool)
    requires SearchTables(t, conf, m) && IsState(initial) && solution.Length == 32
    modifies solution
    ensures found ==> IsState(solution[..]) && Rounds(SLow(conf), m, solution[..], ROUNDS) == initial
    ensures !found ==> solution[..] == old(solution[..])
  {
    TablesRoundTrip(t, conf, m, POLICY);
    var stack := new Node[MAX_STACK_SIZE](_ => Node(initial, 0));
    var sp: int := 0;
    var passes := 0;
    while sp >= 0 && passes < fuel
      invariant -1 <= sp < MAX_STACK_SIZE == stack.Length
      invariant Live(conf, m, initial, stack[..], sp)
      invariant solution[..] == old(solution[..])
      decreases fuel - passes
    {
      var node := stack[sp];
      assert Reaches(conf, m, initial, stack[..][sp]);
      if node.round == ROUNDS {
        CopyState(node.state, solution);
        return true;
      }
      sp := Expand(t, conf, m, initial, seed, stack, sp);
      passes := passes + 1;
    }
    found := false;
  }

  // ---------------------------------------------------------------------
  // The search as written

  /**
   * What the as-written search keeps of the path property: each node's
   * state maps onto initial under depth[i] forward rounds, where depth[i]
   * (the true number of backward steps) is at most the recorded round.
   */
  ghost predicate LiveAsWritten(conf: seq<nat>, m: seq<nat>, initial: seq<nat>, stack: seq<Node>,
                                depth: seq<nat>, sp: int)
    requires IsConfusion(conf) && |m| == 32
  {
    sp < |stack| && |depth| == |stack| &&
    forall i :: 0 <= i <= sp ==>
      IsState(stack[i].state) && depth[i] <= stack[i].round &&
      Rounds(SLow(conf), m, stack[i].state, depth[i]) == initial
  }

  /** The true depths after a push: d from slot `from` on. */
  function Deepen(depth: seq<nat>, from: nat, d: nat): (r: seq<nat>)
    ensures |r| == |depth|
    ensures forall i :: 0 <= i < |r| ==> r[i] == if from <= i then d else depth[i]
  {
    seq(|depth|, i requires 0 <= i < |depth| => if from <= i then d else depth[i])
  }

  /** After the as-written pushes, every child is one true step below the
      popped node, whatever round it was given. */
  lemma PushedLiveAsWritten(t: ShapedTables, conf: seq<nat>, m: seq<nat>, initial: seq<nat>,
                            before: seq<Node>, after: seq<Node>, depth: seq<nat>,
                            current: nat, top: int, node: Node, start: nat)
    requires IsConfusion(conf) && |m| == 32 && RoundTrips(t, conf, m, POLICY)
    requires current < |before| == |after| && top < |after|
    requires LiveAsWritten(conf, m, initial, before, depth, current) && before[current] == node
    requires Expanded(t, POLICY, node.state) && start < Fanout(t, POLICY, node.state)
    requires forall i :: 0 <= i < current ==> after[i] == before[i]
    requires forall i :: current <= i <= top ==>
      after[i].state == Child(t, node.state, (start + (i - current)) % Fanout(t, POLICY, node.state)) &&
      after[i].round >= node.round + 1
    ensures LiveAsWritten(conf, m, initial, after, Deepen(depth, current, depth[current] + 1), top)
  {
    var total := Fanout(t, POLICY, node.state);
    var d := depth[current];
    var depth' := Deepen(depth, current, d + 1);
    forall i | 0 <= i <= top
      ensures IsState(after[i].state) && depth'[i] <= after[i].round
      ensures Rounds(SLow(conf), m, after[i].state, depth'[i]) == initial
    {
      if i < current {
        assert after[i] == before[i] && depth'[i] == depth[i];
      } else {
        ChildDeeper(t, conf, m, initial, node.state, d, (start + (i - current)) % total);
        assert depth'[i] == d + 1;
      }
    }
  }

  /** A child lies one forward round further from initial than its parent. */
  lemma ChildDeeper(t: ShapedTables, conf: seq<nat>, m: seq<nat>, initial: seq<nat>,
                    parent: seq<nat>, d: nat, combo: nat)
    requires IsConfusion(conf) && |m| == 32 && RoundTrips(t, conf, m, POLICY)
    requires IsState(parent) && Rounds(SLow(conf), m, parent, d) == initial
    requires Expanded(t, POLICY, parent) && combo < Fanout(t, POLICY, parent)
    ensures IsState(Child(t, parent, combo))
    ensures Rounds(SLow(conf), m, Child(t, parent, combo), d + 1) == initial
  {
    var child := Child(t, parent, combo);
    assert Round(SLow(conf), m, child) == parent;
  }

  /** One as-written pass: pop the node, push its children with the
      aliased rounds; the true depth of every child is the parent's plus
      one. */
  method ExpandAsWritten(t: ShapedTables, ghost conf: seq<nat>, ghost m: seq<nat>, ghost initial: seq<nat>,
                         seed: u32, stack: array<Node>, sp: nat, ghost depth: seq<nat>)
    returns (top: int, ghost depth': seq<nat>)
    requires IsConfusion(conf) && |m| == 32 && RoundTrips(t, conf, m, POLICY)
    requires sp < stack.Length == MAX_STACK_SIZE
    requires LiveAsWritten(conf, m, initial, stack[..], depth, sp) && stack[sp].round != ROUNDS
    modifies stack
    ensures -1 <= top < MAX_STACK_SIZE
    ensures LiveAsWritten(conf, m, initial, stack[..], depth', top)
  {
    var node := stack[sp];
    depth' := depth;
    var ok, v, choices, total, start := Prepare(t, node, seed);
    if !ok {
      return sp - 1, depth';
    }
    ghost var before := stack[..];
    top := PushChildrenAsWritten(t, stack, sp, node, v, choices, total, start);
    depth' := Deepen(depth, sp, depth[sp] + 1);
    PushedLiveAsWritten(t, conf, m, initial, before, stack[..], depth, sp, top, node, start);
  }

  /**
   * The search as hireme2_optimized.c runs it.  A node reported at round
   * 256 may have been reached in fewer backward steps, so all that is
   * known of the solution is that some number depth <= 256 of forward
   * rounds maps it onto initial.
   */
  method InverseRoundsStackAsWritten(t: ShapedTables, ghost conf: seq<nat>, ghost m: seq<nat>, initial: seq<nat>,
                                     seed: u32, fuel: nat, solution: array<nat>)
    returns (found: bool, ghost depth: nat)
    requires SearchTables(t, conf, m) && IsState(initial) && solution.Length == 32
    modifies solution
    ensures found ==> IsState(solution[..]) && depth <= ROUNDS && Rounds(SLow(conf), m, solution[..], depth) == initial
    ensures !found ==> solution[..] == old(solution[..])
  {
    TablesRoundTrip(t, conf, m, POLICY);
    var stack := new Node[MAX_STACK_SIZE](_ => Node(initial, 0));
    ghost var depths: seq<nat> := seq(MAX_STACK_SIZE, _ => 0);
    var sp: int := 0;
    var passes := 0;
    depth := 0;
    while sp >= 0 && passes < fuel
      invariant -1 <= sp < MAX_STACK_SIZE == stack.Length
      invariant LiveAsWritten(conf, m, initial, stack[..], depths, sp)
      invariant solution[..] == old(solution[..])
      decreases fuel - passes
    {
      var node := stack[sp];
      if node.round == ROUNDS {
        CopyState(node.state, solution);
        return true, depths[sp];
      }
      sp, depths := ExpandAsWritten(t, conf, m, initial, seed, stack, sp, depths);
      passes := passes + 1;
    }
    found := false;
  }
}
