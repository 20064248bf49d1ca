/**
 * inverse_256_rounds_bfs: the level-by-level backward search of hireme2.c.
 *
 * Level 0 is the final state.  Level n+1 lists, state by state and combo
 * by combo, the decoded children of the states of level n, stopping when
 * the buffer of MAX_STATES entries is full; a state contributes at most
 * MAX_STATES combos; a level is then cut to its first MAX_STATES / 10
 * states.  An empty level ends the search with no solution.
 *
 * The functions Children, NextLevel and Level say what each level holds;
 * the methods fill the two swapped level buffers and are proved to hold
 * exactly those levels.  Every state of level n reaches the final state
 * in n forward rounds (LevelReaches), so every returned solution maps onto
 * the final state under the 256 rounds.
 */
module Bfs {
  import opened Bits
  import opened Gf2
  import opened Network
  import opened Preimage
  import opened FinalState
  import opened SearchCore
  import opened Wrappers

  /** Capacity of each level buffer. */
  const MAX_STATES: nat := 1000000

  // ---------------------------------------------------------------------
  // What the levels hold

  /** The decoded children of combos 0 .. count - 1, in order. */
  function DecodedChildren(t: ShapedTables, v: seq<nat>, count: nat): (kids: seq<seq<nat>>)
    requires IsState(v) && Positive(Choices(t, v))
    ensures |kids| == count
    decreases count
  {
    if count == 0 then [] else DecodedChildren(t, v, count - 1) + [Decoded(t, v, count - 1)]
  }

  /** Entry i of the list is the child decoded from combo i. */
  lemma {:induction false} DecodedChildrenIndex(t: ShapedTables, v: seq<nat>, count: nat, i: nat)
    requires IsState(v) && Positive(Choices(t, v)) && i < count
    ensures DecodedChildren(t, v, count)[i] == Decoded(t, v, i)
    decreases count
  {
    if i < count - 1 {
      DecodedChildrenIndex(t, v, count - 1, i);
    }
  }

  /** Every entry of the list is a state. */
  lemma DecodedChildrenStates(t: ShapedTables, v: seq<nat>, count: nat)
    requires IsState(v) && Positive(Choices(t, v))
    ensures AllStates(DecodedChildren(t, v, count))
  {
    forall i | 0 <= i < count
      ensures IsState(DecodedChildren(t, v, count)[i])
    {
      DecodedChildrenIndex(t, v, count, i);
    }
  }

  /** The children a state contributes: none when some byte of invM·state
      has no preimage, else the decoded children of combos 0, 1, ... up to
      the product of the radices capped at MAX_STATES. */
  function Children(t: ShapedTables, state: seq<nat>): (kids: seq<seq<nat>>)
    requires IsState(state)
    ensures |kids| <= MAX_STATES && AllStates(kids)
  {
    if !InverseFeasible(t, state) then []
    else
      FeasibleChoices(t, state);
      var v := Mul(t.invM, state);
      var p := Product(Choices(t, v));
      DecodedChildrenStates(t, v, Min(p, MAX_STATES));
      DecodedChildren(t, v, Min(p, MAX_STATES))
  }

  /** Entry i of the children of a feasible state is the child decoded
      from combo i. */
  lemma ChildrenIndex(t: ShapedTables, state: seq<nat>, i: nat)
    requires IsState(state) && InverseFeasible(t, state) && i < |Children(t, state)|
    ensures IsState(Mul(t.invM, state)) && Positive(Choices(t, Mul(t.invM, state)))
    ensures |Children(t, state)| == Min(Product(Choices(t, Mul(t.invM, state))), MAX_STATES)
    ensures Children(t, state)[i] == Decoded(t, Mul(t.invM, state), i)
  {
    FeasibleChoices(t, state);
    var v := Mul(t.invM, state);
    DecodedChildrenIndex(t, v, Min(Product(Choices(t, v)), MAX_STATES), i);
  }

  /** The next level of a level: its states' children in order, as many
      as fit in the buffer. */
  function NextLevel(t: ShapedTables, level: seq<seq<nat>>): (next: seq<seq<nat>>)
    requires AllStates(level)
    ensures |next| <= MAX_STATES && AllStates(next)
    decreases |level|
  {
    if |level| == 0 then []
    else Take(NextLevel(t, level[..|level| - 1]) + Children(t, level[|level| - 1]), MAX_STATES)
  }

  /** Expanding one more state of a level. */
  lemma NextLevelStep(t: ShapedTables, level: seq<seq<nat>>, i: nat)
    requires AllStates(level) && i < |level|
    ensures AllStates(level[..i]) && IsState(level[i])
    ensures NextLevel(t, level[..i + 1]) == Take(NextLevel(t, level[..i]) + Children(t, level[i]), MAX_STATES)
  {
    assert level[..i + 1][..i] == level[..i];
  }

  /** Level n of the search, cut to MAX_STATES / 10 states after each
      expansion. */
  function Level(t: ShapedTables, initial: seq<nat>, n: nat): (level: seq<seq<nat>>)
    requires IsState(initial)
    ensures AllStates(level)
    ensures n > 0 ==> |level| <= MAX_STATES / 10
  {
    if n == 0 then [initial] else Take(NextLevel(t, Level(t, initial, n - 1)), MAX_STATES / 10)
  }

  // ---------------------------------------------------------------------
  // What the levels mean

  /** Every child maps back onto its parent in one forward round. */
  lemma ChildrenRound(t: ShapedTables, conf: seq<nat>, m: seq<nat>, state: seq<nat>, i: nat)
    requires SearchTables(t, conf, m) && IsState(state) && i < |Children(t, state)|
    ensures BackwardChild(SLow(conf), t.invM, state, Children(t, state)[i])
    ensures Round(SLow(conf), m, Children(t, state)[i]) == state
  {
    ChildrenIndex(t, state, i);
    DecodedChildRound(t, conf, m, state, i);
  }

  /** When the radices multiply to at most MAX_STATES, every backward child
      of the state is among its children. */
  lemma ChildrenComplete(t: ShapedTables, conf: seq<nat>, m: seq<nat>, state: seq<nat>, child: seq<nat>)
    requires SearchTables(t, conf, m) && IsState(state) && InverseFeasible(t, state)
    requires BackwardChild(SLow(conf), t.invM, state, child)
    requires IsState(Mul(t.invM, state)) && Product(Choices(t, Mul(t.invM, state))) <= MAX_STATES
    ensures child in Children(t, state)
  {
    var combo := EveryChildIsDecoded(t, conf, m, state, child);
    ChildrenIndex(t, state, combo);
  }

  /** The states of level n all reach `initial` after n forward rounds. */
  predicate AllReach(conf: seq<nat>, m: seq<nat>, level: seq<seq<nat>>, n: nat, initial: seq<nat>)
    requires IsConfusion(conf) && |m| == 32 && AllStates(level)
  {
    forall i :: 0 <= i < |level| ==> Rounds(SLow(conf), m, level[i], n) == initial
  }

  /** The children of a state that reaches `initial` after n rounds reach
      it after n + 1. */
  lemma ChildrenReach(t: ShapedTables, conf: seq<nat>, m: seq<nat>, state: seq<nat>, n: nat, initial: seq<nat>)
    requires SearchTables(t, conf, m) && IsState(state) && Rounds(SLow(conf), m, state, n) == initial
    ensures AllReach(conf, m, Children(t, state), n + 1, initial)
  {
    forall i | 0 <= i < |Children(t, state)|
      ensures Rounds(SLow(conf), m, Children(t, state)[i], n + 1) == initial
    {
      ChildrenRound(t, conf, m, state, i);
    }
  }

  /** Keeping a prefix of two lists of reaching states keeps reaching
      states. */
  lemma AppendReach(conf: seq<nat>, m: seq<nat>, a: seq<seq<nat>>, b: seq<seq<nat>>, n: nat, initial: seq<nat>)
    requires IsConfusion(conf) && |m| == 32 && AllStates(a) && AllStates(b)
    requires AllReach(conf, m, a, n, initial) && AllReach(conf, m, b, n, initial)
    ensures AllStates(a + b) && AllReach(conf, m, Take(a + b, MAX_STATES), n, initial)
  {
    assert forall i :: 0 <= i < |a + b| ==> (a + b)[i] == if i < |a| then a[i] else b[i - |a|];
  }

  /** So does any prefix of a list of reaching states. */
  lemma TakeReach(conf: seq<nat>, m: seq<nat>, a: seq<seq<nat>>, k: nat, n: nat, initial: seq<nat>)
    requires IsConfusion(conf) && |m| == 32 && AllStates(a) && AllReach(conf, m, a, n, initial)
    ensures AllStates(Take(a, k)) && AllReach(conf, m, Take(a, k), n, initial)
  {
  }

  /** Appending the children of a state that reaches `initial` after n
      rounds to a list reaching it after n + 1 rounds keeps that property. */
  lemma ExtendReach(t: ShapedTables, conf: seq<nat>, m: seq<nat>, prefix: seq<seq<nat>>, state: seq<nat>,
                    n: nat, initial: seq<nat>)
    requires SearchTables(t, conf, m) && AllStates(prefix) && AllReach(conf, m, prefix, n + 1, initial)
    requires IsState(state) && Rounds(SLow(conf), m, state, n) == initial
    ensures AllStates(prefix + Children(t, state))
    ensures AllReach(conf, m, Take(prefix + Children(t, state), MAX_STATES), n + 1, initial)
  {
    ChildrenReach(t, conf, m, state, n, initial);
    AppendReach(conf, m, prefix, Children(t, state), n + 1, initial);
  }

  /** Expanding a level whose states reach `initial` after n rounds gives
      states that reach it after n + 1. */
  lemma {:induction false} NextLevelReaches(t: ShapedTables, conf: seq<nat>, m: seq<nat>, level: seq<seq<nat>>,
                                            n: nat, initial: seq<nat>)
    requires SearchTables(t, conf, m) && AllStates(level) && AllReach(conf, m, level, n, initial)
    ensures AllReach(conf, m, NextLevel(t, level), n + 1, initial)
    decreases |level|
  {
    if |level| > 0 {
      var front := level[..|level| - 1];
      assert AllReach(conf, m, front, n, initial) by {
        forall i | 0 <= i < |front| ensures front[i] == level[i] { }
      }
      NextLevelReaches(t, conf, m, front, n, initial);
      ExtendReach(t, conf, m, NextLevel(t, front), level[|level| - 1], n, initial);
    }
  }

  /** Every state of level n reaches `initial` after n forward rounds. */
  lemma {:induction false} LevelReaches(t: ShapedTables, conf: seq<nat>, m: seq<nat>, initial: seq<nat>, n: nat)
    requires SearchTables(t, conf, m) && IsState(initial)
    ensures AllReach(conf, m, Level(t, initial, n), n, initial)
    decreases n
  {
    if n > 0 {
      var prev := Level(t, initial, n - 1);
      LevelReaches(t, conf, m, initial, n - 1);
      NextLevelReaches(t, conf, m, prev, n - 1, initial);
      TakeReach(conf, m, NextLevel(t, prev), MAX_STATES / 10, n, initial);
    }
  }

  // ---------------------------------------------------------------------
  // The search

  /** A feasible state has as many children as its radices multiply to,
      up to MAX_STATES. */
  lemma ChildrenCount(t: ShapedTables, state: seq<nat>)
    requires IsState(state) && InverseFeasible(t, state)
    ensures IsState(Mul(t.invM, state)) && Positive(Choices(t, Mul(t.invM, state)))
    ensures |Children(t, state)| == Min(Product(Choices(t, Mul(t.invM, state))), MAX_STATES)
  {
    FeasibleChoices(t, state);
  }

  /** Copying kids after prev until either kids or the buffer runs out
      leaves the buffer's prefix of prev + kids. */
  lemma TakeFilled(prev: seq<seq<nat>>, kids: seq<seq<nat>>, combo: nat)
    requires combo <= |kids| && |prev| + combo <= MAX_STATES
    requires combo == |kids| || |prev| + combo == MAX_STATES
    ensures Take(prev + kids, MAX_STATES) == prev + kids[..combo]
  {
    if combo == |kids| {
      assert kids[..combo] == kids;
    } else {
      assert (prev + kids)[..MAX_STATES] == prev + kids[..combo];
    }
  }

  /** Decodes combo number `combo` of a feasible state: entry `combo` of
      its children. */
  method ChildAt(t: ShapedTables, state: seq<nat>, v: seq<nat>, choices: seq<nat>, combo: nat) returns (child: seq<nat>)
    requires IsState(state) && InverseFeasible(t, state) && combo < |Children(t, state)|
    requires v == Mul(t.invM, state) && IsState(v) && choices == Choices(t, v)
    ensures child == Children(t, state)[combo]
  {
    FeasibleChoices(t, state);
    child := DecodeChild(t, v, choices, combo);
    ChildrenIndex(t, state, combo);
  }

  /**
   * Appends the children of state to next[..nextCount], combo by combo,
   * while next has room.
   */
  method ExpandState(t: ShapedTables, state: seq<nat>, next: array<seq<nat>>, nextCount: nat) returns (newCount: nat)
    requires IsState(state)
    requires next.Length == MAX_STATES && nextCount <= MAX_STATES
    modifies next
    ensures newCount <= MAX_STATES
    ensures next[..newCount] == Take(old(next[..nextCount]) + Children(t, state), MAX_STATES)
  {
    ghost var prev := next[..nextCount];
    var valid, v := InverseDiffusion(t, state);
    if !valid {
      assert prev + Children(t, state) == prev;
      return nextCount;
    }
    FeasibleChoices(t, state);
    var choices, total := ChoicesAndTotal(t, v, MAX_STATES);
    ChildrenCount(t, state);
    newCount := CopyChildren(t, state, v, choices, total, next, nextCount);
  }

  /** The combo loop: decodes combos 0, 1, ... into next while there are
      combos left and next has room. */
  method CopyChildren(t: ShapedTables, state: seq<nat>, v: seq<nat>, choices: seq<nat>, total: nat,
                      next: array<seq<nat>>, nextCount: nat) returns (newCount: nat)
    requires IsState(state) && InverseFeasible(t, state)
    requires v == Mul(t.invM, state) && IsState(v) && choices == Choices(t, v)
    requires total == |Children(t, state)|
    requires next.Length == MAX_STATES && nextCount <= MAX_STATES
    modifies next
    ensures newCount <= MAX_STATES
    ensures next[..newCount] == Take(old(next[..nextCount]) + Children(t, state), MAX_STATES)
  {
    ghost var prev := next[..nextCount];
    ghost var kids := Children(t, state);
    newCount := nextCount;
    var combo := 0;
    while combo < total && newCount < MAX_STATES
      invariant combo <= total && newCount == nextCount + combo <= MAX_STATES
      invariant next[..newCount] == prev + kids[..combo]
    {
      var child := ChildAt(t, state, v, choices, combo);
      next[newCount] := child;
      assert next[..newCount + 1] == next[..newCount] + [child];
      newCount := newCount + 1;
      combo := combo + 1;
      assert kids[..combo] == kids[..combo - 1] + [child];
    }
    TakeFilled(prev, kids, combo);
  }

  /** Fills next with the next level of current[..currentCount]. */
  method ExpandLevel(t: ShapedTables, current: array<seq<nat>>, currentCount: nat, next: array<seq<nat>>)
    returns (nextCount: nat)
    requires current != next
    requires current.Length == MAX_STATES && next.Length == MAX_STATES && currentCount <= MAX_STATES
    requires AllStates(current[..currentCount])
    modifies next
    ensures nextCount <= MAX_STATES
    ensures next[..nextCount] == NextLevel(t, current[..currentCount])
  {
    ghost var level := current[..currentCount];
    nextCount := 0;
    for i := 0 to currentCount
      invariant current[..currentCount] == level
      invariant nextCount <= MAX_STATES
      invariant next[..nextCount] == NextLevel(t, level[..i])
    {
      NextLevelStep(t, level, i);
      nextCount := ExpandState(t, current[i], next, nextCount);
    }
    assert level[..currentCount] == level;
  }

  /** One round of the search: expands level `round`, held in current,
      into next and cuts it to MAX_STATES / 10 states. */
  method NextLevelInto(t: ShapedTables, initial: seq<nat>, round: nat, current: array<seq<nat>>, currentCount: nat,
                       next: array<seq<nat>>) returns (nextCount: nat)
    requires IsState(initial) && current != next
    requires current.Length == MAX_STATES && next.Length == MAX_STATES && currentCount <= MAX_STATES
    requires current[..currentCount] == Level(t, initial, round)
    modifies next
    ensures nextCount <= MAX_STATES / 10
    ensures next[..nextCount] == Level(t, initial, round + 1)
  {
    nextCount := ExpandLevel(t, current, currentCount, next);
    if nextCount > MAX_STATES / 10 {
      nextCount := MAX_STATES / 10;
    }
  }

  /**
   * The search: `rounds` expansions from the final state (ROUNDS in the
   * solver), then as many states of the last level as the caller asked
   * for (none when maxSolutions is not positive).
   */
  method InverseRoundsBfs(t: ShapedTables, rounds: nat, maxSolutions: int, initial: seq<nat>)
    returns (count: nat, solutions: seq<seq<nat>>)
    requires IsState(initial)
    ensures count == |solutions|
    ensures count == if maxSolutions <= 0 then 0 else Min(|Level(t, initial, rounds)|, maxSolutions)
    ensures solutions == Level(t, initial, rounds)[..count]
  {
    var current := new seq<nat>[MAX_STATES];
    var next := new seq<nat>[MAX_STATES];
    current[0] := initial;
    var currentCount: nat := 1;
    assert current[..currentCount] == Level(t, initial, 0);
    for round := 0 to rounds
      invariant fresh(current) && fresh(next)
      invariant current != next && current.Length == MAX_STATES && next.Length == MAX_STATES
      invariant currentCount <= MAX_STATES
      invariant current[..currentCount] == Level(t, initial, round)
    {
      var nextCount := NextLevelInto(t, initial, round, current, currentCount, next);
      if nextCount == 0 {
        EmptyStaysEmpty(t, initial, round + 1, rounds);
        return 0, [];
      }
      current, next := next, current;
      currentCount := nextCount;
    }
    count := if maxSolutions <= 0 then 0 else Min(currentCount, maxSolutions);
    solutions := current[..count];
  }

  /** Once a level is empty, so are all later ones. */
  lemma {:induction false} EmptyStaysEmpty(t: ShapedTables, initial: seq<nat>, n: nat, k: nat)
    requires IsState(initial) && n <= k && Level(t, initial, n) == []
    ensures Level(t, initial, k) == []
    decreases k - n
  {
    if n < k {
      EmptyNextLevel(t, initial, n);
      EmptyStaysEmpty(t, initial, n + 1, k);
    }
  }

  /** The level after an empty level is empty. */
  lemma EmptyNextLevel(t: ShapedTables, initial: seq<nat>, n: nat)
    requires IsState(initial) && Level(t, initial, n) == []
    ensures Level(t, initial, n + 1) == []
  {
    var prev := Level(t, initial, n);
    assert NextLevel(t, prev) == [];
  }

  /** Every solution the search returns maps onto the final state under
      the forward rounds. */
  lemma SolutionsReach(t: ShapedTables, conf: seq<nat>, m: seq<nat>, rounds: nat, initial: seq<nat>,
                       solutions: seq<seq<nat>>)
    requires SearchTables(t, conf, m) && IsState(initial)
    requires solutions <= Level(t, initial, rounds)
    ensures AllStates(solutions)
    ensures forall i :: 0 <= i < |solutions| ==> Rounds(SLow(conf), m, solutions[i], rounds) == initial
  {
    LevelReaches(t, conf, m, initial, rounds);
  }

  // ---------------------------------------------------------------------
  // The radix loop as written

  /**
   * With two preimages at every one of the 32 bytes, the running product
   * passes MAX_STATES at position 19 (2^20 > 1000000 >= 2^19): the loop as
   * written leaves positions 20..31 of choices_per_pos unwritten, and the
   * decode loop that follows reads them.
   */
  lemma UnsetRadixRead()
    ensures ChoicesAsWritten(seq(32, _ => 2), MAX_STATES, 1)[31].None?
    ensures DigitsAsWritten(0, ChoicesAsWritten(seq(32, _ => 2), MAX_STATES, 1)).None?
  {
    Pow2Twenty();
    TwosBreak(MAX_STATES, 19, 0);
  }

  lemma Pow2Twenty()
    ensures Pow2(19) == 524288 && Pow2(20) == 1048576
  {
    Pow2Values();
    Pow2Add(16, 4);
    assert Pow2(20) == 2 * Pow2(19);
  }
}
