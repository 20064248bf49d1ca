/**
 * find_all_paths_bfs: the parent-pointer search of analyze_all_paths.c,
 * which keeps every state of every level in one node buffer so that each
 * complete path can be traced back and its choices counted.
 *
 * Node 0 is the final state at round 0.  Each round expands the nodes of
 * the current level, [currentStart, currentEnd), appending the decoded
 * children of combos 0, 1, ... of every feasible node (at most COMBO_CAP
 * per node) after the level, each with its parent's index, its round, the
 * preimage index chosen at each byte and the v they were chosen for.  An
 * empty level ends the search.  The nodes of the last level that reached
 * round 256 are traced back through their parents, their choices are
 * stored as a path (at most PATH_CAPACITY paths), and every choice made at
 * a tracked two-preimage output is counted per output.
 *
 * Every appended node is linked to an earlier node one round below it
 * (Linked), so replaying a traced path from the final state rebuilds the
 * leaf (ReplayPath) and a leaf at round 256 maps onto the final state under
 * the 256 forward rounds (LeafReaches).
 *
 * The C guards its combo loop with `state_count < 10000000`, but
 * state_count is never incremented; once the buffer is full every further
 * feasible node still writes one entry past its end (CombosAsWritten,
 * OverflowWrite).  The model guards the loop with the buffer index instead
 * (ExpandNode).
 */
module AllPaths {
  import opened Bits
  import opened Gf2
  import opened Network
  import opened Preimage
  import opened FinalState
  import opened SearchCore
  import opened Wrappers

  /** Entries of the node buffer. */
  const NODE_LIMIT: nat := 10000000
  /** Combos enumerated per node. */
  const COMBO_CAP: nat := 100000
  /** Entries of the path buffer. */
  const PATH_CAPACITY: nat := 10000
  /** The S_low outputs whose choices are counted. */
  const MULTI_OUTPUTS: seq<nat> := [0x02, 0x1c, 0x2d, 0x33, 0x49, 0x57, 0x66, 0x78,
                                    0x8d, 0x93, 0xa2, 0xbc, 0xc6, 0xd8, 0xe9, 0xf7]

  /** A StateNode: the state, its parent's index (-1 for the final state),
      its round, the preimage index chosen at each byte and the vector v
      the choices were made for. */
  datatype Node = Node(state: seq<nat>, parent: int, round: nat, choice: seq<nat>, v: seq<nat>)

  /** The part of a node a traced path keeps for one round. */
  datatype RoundData = RoundData(v: seq<nat>, choice: seq<nat>)

  /** A choice_stats entry. */
  datatype ChoiceStats = ChoiceStats(total: nat, zero: nat, one: nat)

  // ---------------------------------------------------------------------
  // Links

  /** d picks one preimage index below inv_low_count[v[j]] at every byte. */
  predicate ChoiceFor(t: ShapedTables, v: seq<nat>, d: seq<nat>) {
    IsState(v) && |d| == 32 && forall j :: 0 <= j < 32 ==> d[j] < Choices(t, v)[j]
  }

  /** child was generated from parent: v is invM·parent, and the child
      takes preimage number choice[j] of v[j] at every byte. */
  predicate ChildLinks(t: ShapedTables, parent: Node, child: Node) {
    IsState(parent.state) && InverseFeasible(t, parent.state) &&
    child.round == parent.round + 1 && child.v == Mul(t.invM, parent.state) &&
    ChoiceFor(t, child.v, child.choice) && child.state == ChildOf(t, child.v, child.choice)
  }

  /** Node i is the final state at round 0 when i is 0, and otherwise a
      child of an earlier node. */
  predicate LinkedAt(t: ShapedTables, nodes: seq<Node>, i: nat)
    requires i < |nodes|
  {
    if i == 0 then IsState(nodes[0].state) && nodes[0].parent == -1 && nodes[0].round == 0
    else 0 <= nodes[i].parent < i && ChildLinks(t, nodes[nodes[i].parent], nodes[i])
  }

  predicate Linked(t: ShapedTables, nodes: seq<Node>) {
    |nodes| > 0 && forall i :: 0 <= i < |nodes| ==> LinkedAt(t, nodes, i)
  }

  /** Every node of a linked buffer holds a state. */
  lemma LinkedStates(t: ShapedTables, nodes: seq<Node>, i: nat)
    requires Linked(t, nodes) && i < |nodes|
    ensures IsState(nodes[i].state)
    ensures i > 0 <==> nodes[i].round > 0
  {
    assert LinkedAt(t, nodes, i);
    if i > 0 {
      assert ChildLinks(t, nodes[nodes[i].parent], nodes[i]);
    }
  }

  // ---------------------------------------------------------------------
  // Replaying a path

  /** One recorded round applied to s: the child it names, when v is
      invM·s and every choice is a valid preimage index. */
  function Step(t: ShapedTables, s: seq<nat>, rd: RoundData): (r: Option<seq<nat>>)
    requires IsState(s)
    ensures r.Some? <==> rd.v == Mul(t.invM, s) && ChoiceFor(t, rd.v, rd.choice)
    ensures r.Some? ==> r.value == ChildOf(t, rd.v, rd.choice)
  {
    if rd.v == Mul(t.invM, s) && ChoiceFor(t, rd.v, rd.choice) then Some(ChildOf(t, rd.v, rd.choice)) else None
  }

  /** The recorded rounds applied one after the other from s. */
  function Replay(t: ShapedTables, s: seq<nat>, data: seq<RoundData>): (r: Option<seq<nat>>)
    requires IsState(s)
    ensures r.Some? ==> IsState(r.value)
    decreases |data|
  {
    if |data| == 0 then Some(s)
    else
      var prev := Replay(t, s, data[..|data| - 1]);
      if prev.None? then None else Step(t, prev.value, data[|data| - 1])
  }

  /** A replay that succeeds is a backward path: the 256-round forward
      network, run for as many rounds as were replayed, maps its end back
      onto the start. */
  lemma {:induction false} ReplayReaches(t: ShapedTables, conf: seq<nat>, m: seq<nat>, s: seq<nat>, data: seq<RoundData>)
    requires SearchTables(t, conf, m) && IsState(s) && Replay(t, s, data).Some?
    ensures Rounds(SLow(conf), m, Replay(t, s, data).value, |data|) == s
    decreases |data|
  {
    if |data| > 0 {
      var init := data[..|data| - 1];
      var prev := Replay(t, s, init).value;
      var rd := data[|data| - 1];
      ReplayReaches(t, conf, m, s, init);
      StepIsBackwardChild(t, conf, m, prev, rd);
      BackwardChildRound(SLow(conf), m, t.invM, prev, Replay(t, s, data).value);
    }
  }

  /** A successful step yields a backward child. */
  lemma StepIsBackwardChild(t: ShapedTables, conf: seq<nat>, m: seq<nat>, s: seq<nat>, rd: RoundData)
    requires SearchTables(t, conf, m) && IsState(s) && Step(t, s, rd).Some?
    ensures BackwardChild(SLow(conf), t.invM, s, Step(t, s, rd).value)
  {
    ChoiceFeasible(t, s, rd.choice);
    ChildIsBackwardChild(t, conf, m, s, rd.choice);
  }

  /** Valid choices for invM·s exist only when s is feasible. */
  lemma ChoiceFeasible(t: ShapedTables, s: seq<nat>, d: seq<nat>)
    requires IsState(s) && ChoiceFor(t, Mul(t.invM, s), d)
    ensures InverseFeasible(t, s)
  {
    forall j | 0 <= j < 32
      ensures FeasibleByte(t, s, j)
    {
      assert d[j] < Choices(t, Mul(t.invM, s))[j];
    }
  }

  /** The rounds recorded along the parent links from node i back to the
      final state, lowest round first. */
  ghost function PathData(t: ShapedTables, nodes: seq<Node>, i: nat): (r: seq<RoundData>)
    requires Linked(t, nodes) && i < |nodes|
    ensures |r| == nodes[i].round
    decreases i
  {
    assert LinkedAt(t, nodes, i);
    if i == 0 then []
    else PathData(t, nodes, nodes[i].parent) + [RoundData(nodes[i].v, nodes[i].choice)]
  }

  /** Replaying the path traced from node i rebuilds node i. */
  lemma {:induction false} ReplayPath(t: ShapedTables, nodes: seq<Node>, i: nat)
    requires Linked(t, nodes) && i < |nodes|
    ensures IsState(nodes[0].state)
    ensures Replay(t, nodes[0].state, PathData(t, nodes, i)) == Some(nodes[i].state)
    decreases i
  {
    assert LinkedAt(t, nodes, 0);
    if i > 0 {
      assert LinkedAt(t, nodes, i);
      var p := nodes[i].parent;
      ReplayPath(t, nodes, p);
      ReplaySnoc(t, nodes[0].state, PathData(t, nodes, p), RoundData(nodes[i].v, nodes[i].choice));
      StepOfLink(t, nodes[p], nodes[i]);
    }
  }

  /** Replaying one more round is one more step. */
  lemma ReplaySnoc(t: ShapedTables, s: seq<nat>, data: seq<RoundData>, rd: RoundData)
    requires IsState(s)
    ensures Replay(t, s, data + [rd]) ==
            if Replay(t, s, data).None? then None else Step(t, Replay(t, s, data).value, rd)
  {
    assert (data + [rd])[..|data|] == data;
  }

  /** A child's recorded round, applied to its parent, gives the child. */
  lemma StepOfLink(t: ShapedTables, parent: Node, child: Node)
    requires ChildLinks(t, parent, child)
    ensures Step(t, parent.state, RoundData(child.v, child.choice)) == Some(child.state)
  {
  }

  /** Every node of a linked buffer maps onto the final state under as many
      forward rounds as its round. */
  lemma LeafReaches(t: ShapedTables, conf: seq<nat>, m: seq<nat>, nodes: seq<Node>, i: nat)
    requires SearchTables(t, conf, m) && Linked(t, nodes) && i < |nodes|
    ensures IsState(nodes[i].state) && IsState(nodes[0].state)
    ensures Rounds(SLow(conf), m, nodes[i].state, nodes[i].round) == nodes[0].state
  {
    ReplayPath(t, nodes, i);
    ReplayReaches(t, conf, m, nodes[0].state, PathData(t, nodes, i));
  }

  /** Every recorded round of a traced path has 32 bytes of v and of
      choices. */
  predicate WellShaped(data: seq<RoundData>) {
    forall r :: 0 <= r < |data| ==> |data[r].v| == 32 && |data[r].choice| == 32
  }

  lemma {:induction false} PathDataShaped(t: ShapedTables, nodes: seq<Node>, i: nat)
    requires Linked(t, nodes) && i < |nodes|
    ensures WellShaped(PathData(t, nodes, i))
    decreases i
  {
    assert LinkedAt(t, nodes, i);
    if i > 0 {
      PathDataShaped(t, nodes, nodes[i].parent);
    }
  }

  // ---------------------------------------------------------------------
  // Expanding a node

  /** The child node of combo number combo of a feasible node at index p. */
  function ChildNode(t: ShapedTables, parent: Node, p: nat, combo: nat): (child: Node)
    requires IsState(parent.state) && InverseFeasible(t, parent.state)
    ensures ChildLinks(t, parent, child) && child.parent == p
  {
    FeasibleChoices(t, parent.state);
    var v := Mul(t.invM, parent.state);
    var d := Digits(combo, Choices(t, v));
    Node(ChildOf(t, v, d), p, parent.round + 1, d, v)
  }

  /** How many children a node appends when room entries are left: none
      for an infeasible node, else its combos capped at COMBO_CAP and at
      room. */
  function Added(t: ShapedTables, state: seq<nat>, room: nat): (n: nat)
    requires IsState(state)
    ensures n <= room && n <= COMBO_CAP
    ensures n > 0 ==> InverseFeasible(t, state)
  {
    if !InverseFeasible(t, state) then 0
    else
      FeasibleChoices(t, state);
      Min(Min(Product(Choices(t, Mul(t.invM, state))), COMBO_CAP), room)
  }

  /** The decode loop of the combo loop: the child and the preimage index
      chosen at each byte. */
  method DecodeChoices(t: ShapedTables, v: seq<nat>, choices: seq<nat>, combo: nat) returns (child: seq<nat>, d: seq<nat>)
    requires IsState(v) && choices == Choices(t, v) && Positive(choices)
    ensures d == Digits(combo, choices) && child == ChildOf(t, v, d)
  {
    var temp: int := combo;
    child, d := [], [];
    ghost var digits := Digits(combo, choices);
    for j := 0 to 32
      invariant |child| == j && d == digits[..j]
      invariant j < 32 ==> temp == Quot(combo, choices, j)
      invariant forall i :: 0 <= i < j ==> child[i] == t.invLow[v[i]][digits[i]]
    {
      DigitAt(combo, choices, j);
      var idx := temp % choices[j];
      temp := temp / choices[j];
      child := child + [t.invLow[v[j]][idx]];
      d := d + [idx];
    }
    assert digits[..32] == digits;
  }

  /**
   * Appends the children of node idx after states[..count]: combos 0, 1,
   * ... while there are combos below the cap and the buffer has room.
   */
  method ExpandNode(t: ShapedTables, states: array<Node>, idx: nat, count: nat) returns (newCount: nat)
    requires states.Length == NODE_LIMIT && idx < count <= NODE_LIMIT && IsState(states[idx].state)
    modifies states
    ensures states[..count] == old(states[..count])
    ensures newCount == count + Added(t, states[idx].state, NODE_LIMIT - count)
    ensures forall k :: count <= k < newCount ==>
              InverseFeasible(t, states[idx].state) && states[k] == ChildNode(t, states[idx], idx, k - count)
  {
    var node := states[idx];
    var valid, v := InverseDiffusion(t, node.state);
    if !valid {
      return count;
    }
    FeasibleChoices(t, node.state);
    var choices, total := ChoicesAndTotal(t, v, COMBO_CAP);
    newCount := count;
    var combo := 0;
    while combo < total && newCount < NODE_LIMIT
      invariant combo <= total && newCount == count + combo <= NODE_LIMIT
      invariant states[..count] == old(states[..count]) && states[idx] == node
      invariant forall k :: count <= k < newCount ==> states[k] == ChildNode(t, node, idx, k - count)
    {
      var child, d := DecodeChoices(t, v, choices, combo);
      states[newCount] := Node(child, idx, node.round + 1, d, v);
      newCount := newCount + 1;
      combo := combo + 1;
    }
  }

  /** Appending the children of a node of a linked buffer keeps it linked,
      one round above their parent. */
  lemma AppendLinked(t: ShapedTables, before: seq<Node>, after: seq<Node>, idx: nat)
    requires Linked(t, before) && idx < |before| && before <= after
    requires forall k :: |before| <= k < |after| ==>
               IsState(before[idx].state) && InverseFeasible(t, before[idx].state) &&
               after[k] == ChildNode(t, before[idx], idx, k - |before|)
    ensures Linked(t, after)
    ensures forall k :: |before| <= k < |after| ==> after[k].round == before[idx].round + 1
  {
    forall i | 0 <= i < |after|
      ensures LinkedAt(t, after, i)
    {
      if i < |before| {
        assert LinkedAt(t, before, i);
        if i > 0 {
          assert after[after[i].parent] == before[before[i].parent];
        }
      } else {
        assert after[idx] == before[idx];
      }
    }
  }

  // ---------------------------------------------------------------------
  // The levels

  /** Expands the level [currentStart, currentEnd) after the buffer's
      linked prefix. */
  method ExpandLevel(t: ShapedTables, states: array<Node>, currentStart: nat, currentEnd: nat, round: nat)
    returns (nextEnd: nat)
    requires states.Length == NODE_LIMIT && currentStart <= currentEnd <= NODE_LIMIT
    requires Linked(t, states[..currentEnd])
    requires forall i :: currentStart <= i < currentEnd ==> states[i].round == round
    modifies states
    ensures currentEnd <= nextEnd <= NODE_LIMIT
    ensures states[..currentEnd] == old(states[..currentEnd])
    ensures Linked(t, states[..nextEnd])
    ensures forall i :: currentEnd <= i < nextEnd ==> states[i].round == round + 1
  {
    ghost var level := states[..currentEnd];
    nextEnd := currentEnd;
    for idx := currentStart to currentEnd
      invariant currentEnd <= nextEnd <= NODE_LIMIT
      invariant states[..currentEnd] == level
      invariant Linked(t, states[..nextEnd])
      invariant forall i :: currentEnd <= i < nextEnd ==> states[i].round == round + 1
    {
      assert states[idx] == level[idx];
      ghost var prefix := states[..nextEnd];
      nextEnd := ExpandLinked(t, states, idx, nextEnd, round, currentEnd);
      assert states[..currentEnd] == prefix[..currentEnd];
    }
  }

  /** The loop body of ExpandLevel: node idx's children, appended and
      linked. */
  method ExpandLinked(t: ShapedTables, states: array<Node>, idx: nat, nextEnd: nat, round: nat, ghost currentEnd: nat)
    returns (newEnd: nat)
    requires states.Length == NODE_LIMIT && idx < currentEnd <= nextEnd <= NODE_LIMIT
    requires Linked(t, states[..nextEnd]) && states[idx].round == round
    requires forall i :: currentEnd <= i < nextEnd ==> states[i].round == round + 1
    modifies states
    ensures nextEnd <= newEnd <= NODE_LIMIT
    ensures states[..nextEnd] == old(states[..nextEnd])
    ensures Linked(t, states[..newEnd])
    ensures forall i :: currentEnd <= i < newEnd ==> states[i].round == round + 1
  {
    ghost var before := states[..nextEnd];
    LinkedStates(t, before, idx);
    newEnd := ExpandNode(t, states, idx, nextEnd);
    AppendLinked(t, before, states[..newEnd], idx);
  }

  /**
   * The 256 rounds of expansion from the final state.  On return the last
   * level is [start, end): the nodes of round 256, or empty when some
   * level ran out of states.
   */
  method BuildLevels(t: ShapedTables, initial: seq<nat>, states: array<Node>) returns (start: nat, end: nat)
    requires IsState(initial) && states.Length == NODE_LIMIT
    modifies states
    ensures start <= end <= NODE_LIMIT
    ensures Linked(t, states[..end]) && states[0].state == initial
    ensures forall i :: start <= i < end ==> states[i].round == ROUNDS
  {
    states[0] := Node(initial, -1, 0, [], []);
    var currentStart, currentEnd := 0, 1;
    assert LinkedAt(t, states[..1], 0);
    for round := 0 to ROUNDS
      invariant currentStart < currentEnd <= NODE_LIMIT
      invariant Linked(t, states[..currentEnd]) && states[0].state == initial
      invariant forall i :: currentStart <= i < currentEnd ==> states[i].round == round
    {
      ghost var prefix := states[..currentEnd];
      var nextEnd := ExpandLevel(t, states, currentStart, currentEnd, round);
      assert states[0] == prefix[0];
      currentStart, currentEnd := currentEnd, nextEnd;
      if currentStart == currentEnd {
        return currentStart, currentEnd;
      }
    }
    start, end := currentStart, currentEnd;
  }

  // ---------------------------------------------------------------------
  // Tracing a path back

  /**
   * Follows the parent links from leaf idx, a node of round ROUNDS, down
   * to the final state, writing the v and the choices of the node of round
   * r + 1 into entry r.  The loop ends because parent indices strictly
   * decrease; every round is written exactly once, so the guard
   * `rounds_recorded < 256` never fails.
   */
  method TracePath(t: ShapedTables, states: array<Node>, count: nat, idx: nat) returns (data: array<RoundData>)
    requires count <= states.Length && Linked(t, states[..count]) && idx < count && states[idx].round == ROUNDS
    ensures fresh(data) && data.Length == ROUNDS
    ensures data[..] == PathData(t, states[..count], idx)
  {
    ghost var nodes := states[..count];
    ghost var full := PathData(t, nodes, idx);
    data := new RoundData[ROUNDS](_ => RoundData([], []));
    var curr: int := idx;
    var recorded := 0;
    while curr >= 0 && states[curr].round > 0
      invariant 0 <= curr < count && nodes[curr] == states[curr]
      invariant recorded == ROUNDS - nodes[curr].round
      invariant PathData(t, nodes, curr) == full[..nodes[curr].round]
      invariant forall r :: nodes[curr].round <= r < ROUNDS ==> data[r] == full[r]
      decreases curr
    {
      ghost var c: nat := curr;
      var round := states[curr].round - 1;
      assert LinkedAt(t, nodes, c);
      var p := states[curr].parent;
      assert PathData(t, nodes, c) == PathData(t, nodes, p) + [RoundData(nodes[c].v, nodes[c].choice)];
      assert full[..nodes[c].round][round] == full[round];
      assert full[..round] == full[..nodes[c].round][..round];
      if recorded < ROUNDS {
        data[round] := RoundData(states[curr].v, states[curr].choice);
        recorded := recorded + 1;
      }
      curr := p;
    }
    LinkedStates(t, nodes, curr);
  }

  /** The choices of a traced path, round by round: a Path. */
  function PathChoices(data: seq<RoundData>): (path: seq<seq<nat>>)
    ensures |path| == |data| && forall r :: 0 <= r < |data| ==> path[r] == data[r].choice
  {
    seq(|data|, r requires 0 <= r < |data| => data[r].choice)
  }

  // ---------------------------------------------------------------------
  // Choice statistics

  /** Outputs whose choices are counted: listed, and with more than one
      preimage. */
  predicate Tracked(t: ShapedTables, y: nat) {
    y < 256 && y in MULTI_OUTPUTS && t.invLowCount[y] > 1
  }

  /** One more occurrence, counted under preimage index 0 or under the
      other index. */
  function Record(st: ChoiceStats, choice: nat): (r: ChoiceStats)
    ensures r.total == st.total + 1
    ensures r.zero + r.one == st.zero + st.one + 1
    ensures choice == 0 ==> r.zero == st.zero + 1 && r.one == st.one
    ensures choice != 0 ==> r.one == st.one + 1 && r.zero == st.zero
  {
    if choice == 0 then ChoiceStats(st.total + 1, st.zero + 1, st.one)
    else ChoiceStats(st.total + 1, st.zero, st.one + 1)
  }

  /** Counting the choice made at output y. */
  function Bump(t: ShapedTables, stats: seq<ChoiceStats>, y: nat, choice: nat): (r: seq<ChoiceStats>)
    requires |stats| == 256
    ensures |r| == 256
  {
    if Tracked(t, y) then stats[y := Record(stats[y], choice)] else stats
  }

  /** Counting the choices at the first |vs| bytes of a round. */
  function TallyRound(t: ShapedTables, stats: seq<ChoiceStats>, vs: seq<nat>, cs: seq<nat>): (r: seq<ChoiceStats>)
    requires |stats| == 256 && |vs| == |cs|
    ensures |r| == 256
    decreases |vs|
  {
    if |vs| == 0 then stats
    else Bump(t, TallyRound(t, stats, vs[..|vs| - 1], cs[..|cs| - 1]), vs[|vs| - 1], cs[|cs| - 1])
  }

  /** Counting the choices of every round of a path. */
  function TallyPath(t: ShapedTables, stats: seq<ChoiceStats>, data: seq<RoundData>): (r: seq<ChoiceStats>)
    requires |stats| == 256 && WellShaped(data)
    ensures |r| == 256
    decreases |data|
  {
    if |data| == 0 then stats
    else
      var last := data[|data| - 1];
      TallyRound(t, TallyPath(t, stats, data[..|data| - 1]), last.v, last.choice)
  }

  /** Every entry has as many occurrences as choices counted. */
  predicate Balanced(stats: seq<ChoiceStats>) {
    forall y :: 0 <= y < |stats| ==> stats[y].total == stats[y].zero + stats[y].one
  }

  /** Counting one choice keeps the entries balanced and touches only a
      tracked output's entry. */
  lemma BumpBalanced(t: ShapedTables, stats: seq<ChoiceStats>, y: nat, choice: nat)
    requires |stats| == 256 && Balanced(stats)
    ensures Balanced(Bump(t, stats, y, choice))
    ensures forall z :: 0 <= z < 256 && !Tracked(t, z) ==> Bump(t, stats, y, choice)[z] == stats[z]
  {
  }

  /** Counting a round keeps the entries balanced and leaves untracked
      outputs alone. */
  lemma {:induction false} TallyRoundBalanced(t: ShapedTables, stats: seq<ChoiceStats>, vs: seq<nat>, cs: seq<nat>)
    requires |stats| == 256 && |vs| == |cs| && Balanced(stats)
    ensures Balanced(TallyRound(t, stats, vs, cs))
    ensures forall z :: 0 <= z < 256 && !Tracked(t, z) ==> TallyRound(t, stats, vs, cs)[z] == stats[z]
    decreases |vs|
  {
    if |vs| > 0 {
      var prev := TallyRound(t, stats, vs[..|vs| - 1], cs[..|cs| - 1]);
      TallyRoundBalanced(t, stats, vs[..|vs| - 1], cs[..|cs| - 1]);
      BumpBalanced(t, prev, vs[|vs| - 1], cs[|cs| - 1]);
    }
  }

  /** For each output, total_occurrences == choice_0_count +
      choice_1_count stays true over a whole path, and outputs that are
      not tracked keep their entries. */
  lemma {:induction false} TallyPathBalanced(t: ShapedTables, stats: seq<ChoiceStats>, data: seq<RoundData>)
    requires |stats| == 256 && WellShaped(data) && Balanced(stats)
    ensures Balanced(TallyPath(t, stats, data))
    ensures forall z :: 0 <= z < 256 && !Tracked(t, z) ==> TallyPath(t, stats, data)[z] == stats[z]
    decreases |data|
  {
    if |data| > 0 {
      var init := data[..|data| - 1];
      var last := data[|data| - 1];
      TallyPathBalanced(t, stats, init);
      TallyRoundBalanced(t, TallyPath(t, stats, init), last.v, last.choice);
    }
  }

  /** The scan of the 16 tracked outputs for one byte of one round. */
  method CountChoice(t: ShapedTables, stats: array<ChoiceStats>, y: nat, choice: nat)
    requires stats.Length == 256
    modifies stats
    ensures stats[..] == Bump(t, old(stats[..]), y, choice)
  {
    for i := 0 to 16
      invariant stats[..] == old(stats[..])
      invariant forall k :: 0 <= k < i ==> MULTI_OUTPUTS[k] != y || t.invLowCount[y] <= 1
    {
      if y == MULTI_OUTPUTS[i] && t.invLowCount[y] > 1 {
        stats[y] := Record(stats[y], choice);
        return;
      }
    }
  }

  /** The statistics pass over the 256 rounds and 32 bytes of a traced
      path. */
  method TallyData(t: ShapedTables, stats: array<ChoiceStats>, data: array<RoundData>)
    requires stats.Length == 256 && WellShaped(data[..])
    modifies stats
    ensures stats[..] == TallyPath(t, old(stats[..]), data[..])
  {
    ghost var s0 := stats[..];
    for round := 0 to data.Length
      invariant WellShaped(data[..round])
      invariant stats[..] == TallyPath(t, s0, data[..round])
    {
      var rd := data[round];
      assert data[..round + 1][..round] == data[..round];
      ghost var before := stats[..];
      for j := 0 to 32
        invariant stats[..] == TallyRound(t, before, rd.v[..j], rd.choice[..j])
      {
        assert rd.v[..j + 1][..j] == rd.v[..j] && rd.choice[..j + 1][..j] == rd.choice[..j];
        CountChoice(t, stats, rd.v[j], rd.choice[j]);
      }
      assert rd.v[..32] == rd.v && rd.choice[..32] == rd.choice;
    }
    assert data[..data.Length] == data[..];
  }

  // ---------------------------------------------------------------------
  // Extracting the paths

  /** The indices in [start, end) of nodes at round ROUNDS, ascending. */
  ghost function LeavesIn(nodes: seq<Node>, start: nat, end: nat): (r: seq<nat>)
    requires end <= |nodes|
    ensures forall k :: 0 <= k < |r| ==> start <= r[k] < end && nodes[r[k]].round == ROUNDS
    decreases end
  {
    if end <= start then []
    else LeavesIn(nodes, start, end - 1) + (if nodes[end - 1].round == ROUNDS then [end - 1] else [])
  }

  /** The leaves of a shorter range come first. */
  lemma {:induction false} LeavesInPrefix(nodes: seq<Node>, start: nat, mid: nat, end: nat)
    requires mid <= end <= |nodes|
    ensures LeavesIn(nodes, start, mid) <= LeavesIn(nodes, start, end)
    decreases end
  {
    if mid < end {
      LeavesInPrefix(nodes, start, mid, end - 1);
    }
  }

  /** Looking at one more node. */
  lemma LeavesInStep(nodes: seq<Node>, start: nat, idx: nat)
    requires start <= idx < |nodes|
    ensures LeavesIn(nodes, start, idx + 1) ==
            LeavesIn(nodes, start, idx) + (if nodes[idx].round == ROUNDS then [idx] else [])
  {
  }

  /** The first n entries, or all of them when there are fewer. */
  function Prefix(s: seq<nat>, n: nat): (r: seq<nat>)
    ensures |r| <= n && r <= s
    ensures |s| <= n ==> r == s
  {
    if |s| <= n then s else s[..n]
  }

  /** Counting the choices of every leaf's path, in order. */
  ghost function TallyLeaves(t: ShapedTables, stats: seq<ChoiceStats>, nodes: seq<Node>, leaves: seq<nat>): (r: seq<ChoiceStats>)
    requires |stats| == 256 && Linked(t, nodes) && forall k :: 0 <= k < |leaves| ==> leaves[k] < |nodes|
    ensures |r| == 256
    decreases |leaves|
  {
    if |leaves| == 0 then stats
    else
      var last := leaves[|leaves| - 1];
      PathDataShaped(t, nodes, last);
      TallyPath(t, TallyLeaves(t, stats, nodes, leaves[..|leaves| - 1]), PathData(t, nodes, last))
  }

  /** The statistics stay balanced over any number of paths. */
  lemma {:induction false} TallyLeavesBalanced(t: ShapedTables, stats: seq<ChoiceStats>, nodes: seq<Node>, leaves: seq<nat>)
    requires |stats| == 256 && Linked(t, nodes) && forall k :: 0 <= k < |leaves| ==> leaves[k] < |nodes|
    requires Balanced(stats)
    ensures Balanced(TallyLeaves(t, stats, nodes, leaves))
    decreases |leaves|
  {
    if |leaves| > 0 {
      var last := leaves[|leaves| - 1];
      PathDataShaped(t, nodes, last);
      TallyLeavesBalanced(t, stats, nodes, leaves[..|leaves| - 1]);
      TallyPathBalanced(t, TallyLeaves(t, stats, nodes, leaves[..|leaves| - 1]), PathData(t, nodes, last));
    }
  }

  /**
   * The extraction loop: for each node of [start, end) at round ROUNDS,
   * until PATH_CAPACITY paths are stored, traces its path, stores its
   * choices and counts them.
   */
  method ExtractPaths(t: ShapedTables, states: array<Node>, start: nat, end: nat,
                      stats: array<ChoiceStats>, paths: array<seq<seq<nat>>>)
    returns (found: nat, ghost leaves: seq<nat>)
    requires start <= end <= states.Length && Linked(t, states[..end])
    requires stats.Length == 256 && paths.Length == PATH_CAPACITY
    modifies stats, paths
    ensures leaves == Prefix(LeavesIn(states[..end], start, end), PATH_CAPACITY)
    ensures found == |leaves|
    ensures forall k :: 0 <= k < found ==> paths[k] == PathChoices(PathData(t, states[..end], leaves[k]))
    ensures stats[..] == TallyLeaves(t, old(stats[..]), states[..end], leaves)
  {
    ghost var nodes := states[..end];
    ghost var s0 := stats[..];
    found, leaves := 0, [];
    for idx := start to end
      invariant Extracted(t, s0, nodes, start, idx, stats[..], paths[..], leaves) && found == |leaves|
    {
      assert states[idx] == nodes[idx];
      if states[idx].round == ROUNDS {
        if found >= PATH_CAPACITY {
          ExtractedFull(t, s0, nodes, start, idx, stats[..], paths[..], leaves);
          return;
        }
        ghost var st, ps := stats[..], paths[..];
        StorePath(t, states, end, idx, stats, paths, found, s0, leaves);
        ExtractedStep(t, s0, nodes, start, idx, st, ps, leaves, stats[..], paths[..]);
        leaves := leaves + [idx];
        found := found + 1;
      } else {
        ExtractedSkip(t, s0, nodes, start, idx, stats[..], paths[..], leaves);
      }
    }
    ExtractedDone(t, s0, nodes, start, end, stats[..], paths[..], leaves);
  }

  /** The state of the extraction loop after the nodes in [start, idx):
      the leaves met so far, their paths stored and their choices counted. */
  ghost predicate Extracted(t: ShapedTables, s0: seq<ChoiceStats>, nodes: seq<Node>, start: nat, idx: nat,
                            st: seq<ChoiceStats>, ps: seq<seq<seq<nat>>>, leaves: seq<nat>)
  {
    |s0| == 256 && Linked(t, nodes) && idx <= |nodes| && |ps| == PATH_CAPACITY &&
    leaves == LeavesIn(nodes, start, idx) && |leaves| <= PATH_CAPACITY &&
    (forall k :: 0 <= k < |leaves| ==> ps[k] == PathChoices(PathData(t, nodes, leaves[k]))) &&
    st == TallyLeaves(t, s0, nodes, leaves)
  }

  /** A node that is not a leaf changes nothing. */
  lemma ExtractedSkip(t: ShapedTables, s0: seq<ChoiceStats>, nodes: seq<Node>, start: nat, idx: nat,
                      st: seq<ChoiceStats>, ps: seq<seq<seq<nat>>>, leaves: seq<nat>)
    requires Extracted(t, s0, nodes, start, idx, st, ps, leaves)
    requires start <= idx < |nodes| && nodes[idx].round != ROUNDS
    ensures Extracted(t, s0, nodes, start, idx + 1, st, ps, leaves)
  {
    LeavesInStep(nodes, start, idx);
  }

  /** A leaf stored at entry |leaves| and counted. */
  lemma ExtractedStep(t: ShapedTables, s0: seq<ChoiceStats>, nodes: seq<Node>, start: nat, idx: nat,
                      st: seq<ChoiceStats>, ps: seq<seq<seq<nat>>>, leaves: seq<nat>,
                      st': seq<ChoiceStats>, ps': seq<seq<seq<nat>>>)
    requires Extracted(t, s0, nodes, start, idx, st, ps, leaves)
    requires start <= idx < |nodes| && nodes[idx].round == ROUNDS && |leaves| < PATH_CAPACITY
    requires st' == TallyLeaves(t, s0, nodes, leaves + [idx])
    requires |ps'| == |ps| && ps'[|leaves|] == PathChoices(PathData(t, nodes, idx))
    requires forall k :: 0 <= k < |ps| && k != |leaves| ==> ps'[k] == ps[k]
    ensures Extracted(t, s0, nodes, start, idx + 1, st', ps', leaves + [idx])
  {
    LeavesInStep(nodes, start, idx);
  }

  /** With the path buffer full, the leaves stored are the first
      PATH_CAPACITY of the whole range. */
  lemma ExtractedFull(t: ShapedTables, s0: seq<ChoiceStats>, nodes: seq<Node>, start: nat, idx: nat,
                      st: seq<ChoiceStats>, ps: seq<seq<seq<nat>>>, leaves: seq<nat>)
    requires Extracted(t, s0, nodes, start, idx, st, ps, leaves)
    requires start <= idx < |nodes| && nodes[idx].round == ROUNDS && |leaves| >= PATH_CAPACITY
    ensures leaves == Prefix(LeavesIn(nodes, start, |nodes|), PATH_CAPACITY)
  {
    LeavesInStep(nodes, start, idx);
    LeavesInPrefix(nodes, start, idx + 1, |nodes|);
  }

  /** At the end of the range, every leaf was stored. */
  lemma ExtractedDone(t: ShapedTables, s0: seq<ChoiceStats>, nodes: seq<Node>, start: nat, end: nat,
                      st: seq<ChoiceStats>, ps: seq<seq<seq<nat>>>, leaves: seq<nat>)
    requires Extracted(t, s0, nodes, start, end, st, ps, leaves) && end == |nodes|
    ensures leaves == Prefix(LeavesIn(nodes, start, end), PATH_CAPACITY)
  {
  }

  /** The loop body of ExtractPaths for a leaf: traces its path into entry
      found of the path buffer and counts its choices. */
  method StorePath(t: ShapedTables, states: array<Node>, end: nat, idx: nat, stats: array<ChoiceStats>,
                   paths: array<seq<seq<nat>>>, found: nat, ghost s0: seq<ChoiceStats>, ghost leaves: seq<nat>)
    requires end <= states.Length && Linked(t, states[..end]) && idx < end && states[idx].round == ROUNDS
    requires stats.Length == 256 && found < paths.Length && |s0| == 256
    requires forall k :: 0 <= k < |leaves| ==> leaves[k] < end
    requires stats[..] == TallyLeaves(t, s0, states[..end], leaves)
    modifies stats, paths
    ensures stats[..] == TallyLeaves(t, s0, states[..end], leaves + [idx])
    ensures paths[found] == PathChoices(PathData(t, states[..end], idx))
    ensures forall k :: 0 <= k < paths.Length && k != found ==> paths[k] == old(paths[k])
  {
    ghost var nodes := states[..end];
    var data := TracePath(t, states, end, idx);
    paths[found] := PathChoices(data[..]);
    PathDataShaped(t, nodes, idx);
    TallyData(t, stats, data);
    TallyLeavesSnoc(t, s0, nodes, leaves, idx);
  }

  /** Counting one more leaf's path. */
  lemma TallyLeavesSnoc(t: ShapedTables, stats: seq<ChoiceStats>, nodes: seq<Node>, leaves: seq<nat>, leaf: nat)
    requires |stats| == 256 && Linked(t, nodes) && leaf < |nodes|
    requires forall k :: 0 <= k < |leaves| ==> leaves[k] < |nodes|
    ensures WellShaped(PathData(t, nodes, leaf))
    ensures TallyLeaves(t, stats, nodes, leaves + [leaf]) ==
            TallyPath(t, TallyLeaves(t, stats, nodes, leaves), PathData(t, nodes, leaf))
  {
    PathDataShaped(t, nodes, leaf);
    assert (leaves + [leaf])[..|leaves|] == leaves;
  }

  /**
   * find_all_paths_bfs: builds the levels in a fresh node buffer (none
   * when the allocation fails) and extracts the complete paths.  Returns
   * the number of paths found; every stored path replays from the final
   * state to a leaf of round ROUNDS.
   */
  method FindAllPathsBfs(t: ShapedTables, initial: seq<nat>, allocates: bool,
                         stats: array<ChoiceStats>, paths: array<seq<seq<nat>>>)
    returns (found: nat, ghost nodes: seq<Node>, ghost leaves: seq<nat>)
    requires IsState(initial) && stats.Length == 256 && paths.Length == PATH_CAPACITY
    modifies stats, paths
    ensures !allocates ==> found == 0 && stats[..] == old(stats[..])
    ensures allocates ==> Linked(t, nodes) && nodes[0].state == initial
    ensures found == |leaves| <= PATH_CAPACITY
    ensures allocates ==> forall k :: 0 <= k < found ==>
              leaves[k] < |nodes| && nodes[leaves[k]].round == ROUNDS &&
              paths[k] == PathChoices(PathData(t, nodes, leaves[k]))
    ensures allocates ==> stats[..] == TallyLeaves(t, old(stats[..]), nodes, leaves)
  {
    if !allocates {
      return 0, [], [];
    }
    var states := new Node[NODE_LIMIT](_ => Node([], -1, 0, [], []));
    var start, end := BuildLevels(t, initial, states);
    nodes := states[..end];
    found, leaves := ExtractPaths(t, states, start, end, stats, paths);
  }

  /** Every stored path replays from the final state to its leaf, and the
      leaf maps onto the final state under the 256 forward rounds. */
  lemma PathsSolve(t: ShapedTables, conf: seq<nat>, m: seq<nat>, nodes: seq<Node>, leaf: nat)
    requires SearchTables(t, conf, m) && Linked(t, nodes) && leaf < |nodes| && nodes[leaf].round == ROUNDS
    ensures IsState(nodes[0].state) && IsState(nodes[leaf].state)
    ensures Replay(t, nodes[0].state, PathData(t, nodes, leaf)) == Some(nodes[leaf].state)
    ensures Rounds(SLow(conf), m, nodes[leaf].state, ROUNDS) == nodes[0].state
  {
    ReplayPath(t, nodes, leaf);
    LeafReaches(t, conf, m, nodes, leaf);
  }

  // ---------------------------------------------------------------------
  // The loops as written

  /**
   * The combo loop as written: state_count stays 1, so only the combo
   * count and the break after a write at the last entry stop it.  The
   * number of entries it writes from next_end on.
   */
  function CombosAsWritten(nextEnd: nat, combo: nat, total: nat): (n: nat)
    ensures combo < total ==> n > 0
    decreases total - combo
  {
    if combo >= total then 0
    else if nextEnd + 1 >= NODE_LIMIT then 1
    else 1 + CombosAsWritten(nextEnd + 1, combo + 1, total)
  }

  /** Below the buffer's end the loop as written agrees with the guarded
      loop of ExpandNode... */
  lemma {:induction false} CombosAsWrittenBelow(nextEnd: nat, combo: nat, total: nat)
    requires nextEnd < NODE_LIMIT && combo <= total
    ensures CombosAsWritten(nextEnd, combo, total) == Min(total - combo, NODE_LIMIT - nextEnd)
    decreases total - combo
  {
    if combo < total && nextEnd + 1 < NODE_LIMIT {
      CombosAsWrittenBelow(nextEnd + 1, combo + 1, total);
    }
  }

  /** ... but once the buffer is full, every further node with a combo
      writes entry NODE_LIMIT, one past the end of the buffer. */
  lemma OverflowWrite(total: nat)
    requires total > 0
    ensures CombosAsWritten(NODE_LIMIT, 0, total) == 1
  {
  }

  /**
   * The radix loop breaks once the running product passes COMBO_CAP;
   * with two preimages at every byte that is at position 16 (2^17 >
   * 100000 >= 2^16), and the decode loop reads the unwritten entries
   * 17..31.
   */
  lemma UnsetRadixRead()
    ensures ChoicesAsWritten(seq(32, _ => 2), COMBO_CAP, 1)[31].None?
    ensures DigitsAsWritten(0, ChoicesAsWritten(seq(32, _ => 2), COMBO_CAP, 1)).None?
  {
    Pow2Small();
    assert Pow2(17) == 2 * Pow2(16);
    TwosBreak(COMBO_CAP, 16, 0);
  }
}
