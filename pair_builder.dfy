/**
 * Building final states pair by pair from the output equation
 * `s_low[c[2i]] ^ s_high[c[2i + 1]] == target[i]`
 * (optimal_state_constructor.py, analyze_working_state_patterns.py).
 *
 * Both scripts list, for every target position, the (even, odd) byte pairs
 * that meet the equation; the constructor then fills a state by one of four
 * strategies, checks its output and its inverse-diffusion bytes, and repeats
 * until enough states pass.  `random.choice` is an oracle `choice(call, pos)`
 * that supplies an index, reduced modulo the list length.
 */
module PairBuilder {
  import opened Bits
  import opened Gf2
  import opened Wrappers
  import opened Preimage
  import GaussJordan

  type Pair = (nat, nat)

  // ---------------------------------------------------------------------
  // The inverse map and the missing values

  /**
   * `inv_s_low[s_low[x]].append(x)` for every x, one list per value below k:
   * the list of y holds the preimages of y in ascending order.
   */
  method InverseMap(s: seq<nat>, k: nat) returns (inv: seq<seq<nat>>)
    requires forall x :: 0 <= x < |s| ==> s[x] < k
    ensures |inv| == k
    ensures forall y :: 0 <= y < k ==> inv[y] == PreimageList(s, y)
  {
    inv := seq(k, _ => []);
    for x := 0 to |s|
      invariant |inv| == k
      invariant forall y :: 0 <= y < k ==> inv[y] == Preimages(s, y, x)
    {
      forall y | 0 <= y < k
        ensures Preimages(s, y, x + 1) == Preimages(s, y, x) + (if s[x] == y then [x] else [])
      {
        PreimagesNext(s, y, x);
      }
      inv := inv[s[x] := inv[s[x]] + [x]];
    }
  }

  /** `missing_values`: the values below |inv| whose list is empty. */
  method MissingValues(s: seq<nat>, inv: seq<seq<nat>>) returns (missing: set<nat>)
    requires forall y :: 0 <= y < |inv| ==> inv[y] == PreimageList(s, y)
    ensures forall y :: y in missing <==> 0 <= y < |inv| && forall x :: 0 <= x < |s| ==> s[x] != y
  {
    missing := {};
    for y := 0 to |inv|
      invariant forall v :: v in missing <==> 0 <= v < y && |inv[v]| == 0
    {
      if |inv[y]| == 0 {
        missing := missing + {y};
      }
    }
    forall v | 0 <= v < |inv|
      ensures |inv[v]| == 0 <==> forall x :: 0 <= x < |s| ==> s[x] != v
    {
      PreimageListEmpty(s, v);
    }
  }

  // ---------------------------------------------------------------------
  // Valid pairs

  /** `s_low[even] ^ s_high[odd] == target_byte`, both bytes inside the tables. */
  predicate ValidPair(sLow: seq<nat>, sHigh: seq<nat>, tb: nat, p: Pair) {
    p.0 < |sLow| && p.1 < |sHigh| && Xor(sLow[p.0], sHigh[p.1]) == tb
  }

  /** `(even_val, odd_val)` for each even value of the list. */
  function WithOdd(evens: seq<nat>, odd: nat): seq<Pair> {
    seq(|evens|, i requires 0 <= i < |evens| => (evens[i], odd))
  }

  /** The pairs collected for the odd values below n, in the loop's order. */
  function PairsBelow(sLow: seq<nat>, sHigh: seq<nat>, tb: nat, n: nat): seq<Pair>
    requires n <= |sHigh|
  {
    if n == 0 then []
    else PairsBelow(sLow, sHigh, tb, n - 1) + WithOdd(PreimageList(sLow, Xor(tb, sHigh[n - 1])), n - 1)
  }

  /** `valid_pairs[pos]` for the target byte tb. */
  function ValidPairList(sLow: seq<nat>, sHigh: seq<nat>, tb: nat): seq<Pair> {
    PairsBelow(sLow, sHigh, tb, |sHigh|)
  }

  /** `valid_pairs`: one list per target position. */
  function ValidPairTable(sLow: seq<nat>, sHigh: seq<nat>, target: seq<nat>): (vp: seq<seq<Pair>>)
    ensures |vp| == |target|
  {
    seq(|target|, pos requires 0 <= pos < |target| => ValidPairList(sLow, sHigh, target[pos]))
  }

  lemma WithOddMember(evens: seq<nat>, odd: nat, p: Pair)
    ensures p in WithOdd(evens, odd) <==> p.1 == odd && p.0 in evens
  {
    var w := WithOdd(evens, odd);
    if p in w {
      var i :| 0 <= i < |w| && w[i] == p;
      assert evens[i] == p.0;
    }
    if p.1 == odd && p.0 in evens {
      var i :| 0 <= i < |evens| && evens[i] == p.0;
      assert w[i] == p;
    }
  }

  /** `a == tb ^ h` exactly when `a ^ h == tb`. */
  lemma XorSolve(a: nat, h: nat, tb: nat)
    ensures a == Xor(tb, h) <==> Xor(a, h) == tb
  {
    if a == Xor(tb, h) {
      XorCancel(tb, h);
    }
    if Xor(a, h) == tb {
      XorCancel(a, h);
    }
  }

  lemma {:induction false} PairsBelowMember(sLow: seq<nat>, sHigh: seq<nat>, tb: nat, n: nat, p: Pair)
    requires n <= |sHigh|
    ensures p in PairsBelow(sLow, sHigh, tb, n) <==> p.1 < n && ValidPair(sLow, sHigh, tb, p)
    decreases n
  {
    if n > 0 {
      PairsBelowMember(sLow, sHigh, tb, n - 1, p);
      var y := Xor(tb, sHigh[n - 1]);
      WithOddMember(PreimageList(sLow, y), n - 1, p);
      PreimagesMember(sLow, y, |sLow|, p.0);
      if p.0 < |sLow| && p.1 == n - 1 {
        XorSolve(sLow[p.0], sHigh[p.1], tb);
      }
    }
  }

  /** A pair is listed for tb exactly when it meets the equation for tb. */
  lemma ValidPairListMember(sLow: seq<nat>, sHigh: seq<nat>, tb: nat, p: Pair)
    ensures p in ValidPairList(sLow, sHigh, tb) <==> ValidPair(sLow, sHigh, tb, p)
  {
    PairsBelowMember(sLow, sHigh, tb, |sHigh|, p);
  }

  /** A value no table entry reaches has no preimages. */
  lemma NoPreimageAbove(s: seq<nat>, k: nat, y: nat)
    requires forall x :: 0 <= x < |s| ==> s[x] < k
    requires y >= k
    ensures PreimageList(s, y) == []
  {
    PreimageListEmpty(s, y);
  }

  /** `for even_val in inv_s_low[needed_s_low]: pairs.append((even_val, odd_val))`. */
  method AppendEvens(pairs: seq<Pair>, evens: seq<nat>, odd: nat) returns (pairs': seq<Pair>)
    ensures pairs' == pairs + WithOdd(evens, odd)
  {
    pairs' := pairs;
    for i := 0 to |evens|
      invariant pairs' == pairs + WithOdd(evens[..i], odd)
    {
      assert WithOdd(evens[..i + 1], odd) == WithOdd(evens[..i], odd) + [(evens[i], odd)];
      pairs' := pairs' + [(evens[i], odd)];
    }
    assert evens[..|evens|] == evens;
  }

  /**
   * The loop over odd values for one target byte: look up the preimages of
   * `tb ^ s_high[odd]` and pair each with odd.  The result is exactly the
   * list of pairs meeting the equation, ordered by odd and then by even.
   */
  method PairsFor(inv: seq<seq<nat>>, sLow: seq<nat>, sHigh: seq<nat>, tb: nat) returns (pairs: seq<Pair>)
    requires forall y :: 0 <= y < |inv| ==> inv[y] == PreimageList(sLow, y)
    requires forall x :: 0 <= x < |sLow| ==> sLow[x] < |inv|
    ensures pairs == ValidPairList(sLow, sHigh, tb)
    ensures forall p :: p in pairs <==> ValidPair(sLow, sHigh, tb, p)
  {
    pairs := [];
    for odd := 0 to |sHigh|
      invariant pairs == PairsBelow(sLow, sHigh, tb, odd)
    {
      var needed := Xor(tb, sHigh[odd]);
      if needed < |inv| {
        pairs := AppendEvens(pairs, inv[needed], odd);
      } else {
        NoPreimageAbove(sLow, |inv|, needed);
        assert WithOdd([], odd) == [];
      }
    }
    forall p ensures p in pairs <==> ValidPair(sLow, sHigh, tb, p) {
      ValidPairListMember(sLow, sHigh, tb, p);
    }
  }

  /** `precompute_valid_pairs`: the inverse map, then one list per position. */
  method PrecomputeValidPairs(sLow: seq<nat>, sHigh: seq<nat>, target: seq<nat>, k: nat)
    returns (validPairs: seq<seq<Pair>>)
    requires forall x :: 0 <= x < |sLow| ==> sLow[x] < k
    ensures validPairs == ValidPairTable(sLow, sHigh, target)
  {
    var inv := InverseMap(sLow, k);
    validPairs := [];
    for pos := 0 to |target|
      invariant |validPairs| == pos
      invariant forall q :: 0 <= q < pos ==> validPairs[q] == ValidPairList(sLow, sHigh, target[q])
    {
      var pairs := PairsFor(inv, sLow, sHigh, target[pos]);
      validPairs := validPairs + [pairs];
    }
  }

  // ---------------------------------------------------------------------
  // States and the output check

  /** The pair at target position pos: `(state[2*pos], state[2*pos + 1])`. */
  function PairAt(state: seq<nat>, pos: nat): Pair
    requires 2 * pos + 1 < |state|
  {
    (state[2 * pos], state[2 * pos + 1])
  }

  /** Every byte the output check looks up lies inside its table. */
  predicate InTables(sLow: seq<nat>, sHigh: seq<nat>, state: seq<nat>, n: nat) {
    2 * n <= |state| && forall i :: 0 <= i < n ==> state[2 * i] < |sLow| && state[2 * i + 1] < |sHigh|
  }

  /** Every paired output byte equals its target byte. */
  predicate MeetsTarget(sLow: seq<nat>, sHigh: seq<nat>, target: seq<nat>, state: seq<nat>)
    requires InTables(sLow, sHigh, state, |target|)
  {
    forall i :: 0 <= i < |target| ==> Xor(sLow[state[2 * i]], sHigh[state[2 * i + 1]]) == target[i]
  }

  /** `verify_final_state`: build the output list and compare it with the target. */
  method VerifyFinalState(sLow: seq<nat>, sHigh: seq<nat>, target: seq<nat>, state: seq<nat>) returns (ok: bool)
    requires InTables(sLow, sHigh, state, |target|)
    ensures ok <==> MeetsTarget(sLow, sHigh, target, state)
  {
    var output: seq<nat> := [];
    for i := 0 to |target|
      invariant |output| == i
      invariant forall q :: 0 <= q < i ==> output[q] == Xor(sLow[state[2 * q]], sHigh[state[2 * q + 1]])
    {
      output := output + [Xor(sLow[state[2 * i]], sHigh[state[2 * i + 1]])];
    }
    ok := output == target;
    if MeetsTarget(sLow, sHigh, target, state) {
      assert output == target;
    }
  }

  /**
   * A state whose every position holds a pair from that position's list
   * produces the target.
   */
  lemma PairsMeetTarget(sLow: seq<nat>, sHigh: seq<nat>, target: seq<nat>, state: seq<nat>)
    requires |state| == 2 * |target|
    requires forall pos :: 0 <= pos < |target| ==> PairAt(state, pos) in ValidPairTable(sLow, sHigh, target)[pos]
    ensures InTables(sLow, sHigh, state, |target|)
    ensures MeetsTarget(sLow, sHigh, target, state)
  {
    forall pos | 0 <= pos < |target|
      ensures state[2 * pos] < |sLow| && state[2 * pos + 1] < |sHigh|
      ensures Xor(sLow[state[2 * pos]], sHigh[state[2 * pos + 1]]) == target[pos]
    {
      ValidPairListMember(sLow, sHigh, target[pos], PairAt(state, pos));
    }
  }

  /** A position with an empty list cannot be met by any state. */
  lemma EmptyListUnmeetable(sLow: seq<nat>, sHigh: seq<nat>, target: seq<nat>, state: seq<nat>, pos: nat)
    requires pos < |target| && |ValidPairTable(sLow, sHigh, target)[pos]| == 0
    requires InTables(sLow, sHigh, state, |target|)
    ensures !MeetsTarget(sLow, sHigh, target, state)
  {
    var p := PairAt(state, pos);
    ValidPairListMember(sLow, sHigh, target[pos], p);
  }

  /**
   * `check_inverse_validity`: the bytes `dot_row(inv[j], state)` of the
   * previous state, scanned in order; the first one in `missing` is reported
   * with its index, otherwise the result is (true, -1).
   */
  method CheckInverseValidity(state: seq<nat>, inv: seq<nat>, missing: set<nat>)
    returns (valid: bool, failPos: int)
    ensures valid <==> forall j :: 0 <= j < |inv| ==> DotRow(inv[j], state) !in missing
    ensures valid ==> failPos == -1
    ensures !valid ==> 0 <= failPos < |inv| && DotRow(inv[failPos], state) in missing
    ensures !valid ==> forall j :: 0 <= j < failPos ==> DotRow(inv[j], state) !in missing
  {
    var prevState: seq<nat> := [];
    for j := 0 to |inv|
      invariant |prevState| == j
      invariant forall q :: 0 <= q < j ==> prevState[q] == DotRow(inv[q], state) && prevState[q] !in missing
    {
      prevState := prevState + [DotRow(inv[j], state)];
      if prevState[j] in missing {
        return false, j;
      }
    }
    return true, -1;
  }

  // ---------------------------------------------------------------------
  // Choosing a pair

  datatype Strategy = Balanced | Minimal | Diverse | Structured | Unrecognised

  /** `random.choice(pairs)` at position pos of construction number call. */
  function RandomPick(pairs: seq<Pair>, choice: (nat, nat) -> nat, call: nat, pos: nat): Pair
    requires |pairs| > 0
  {
    pairs[choice(call, pos) % |pairs|]
  }

  /** The index `min(...)` returns: the first element of least key among the first n. */
  function ArgMin<T>(list: seq<T>, key: T -> nat, n: nat): (i: nat)
    requires 0 < n <= |list|
    ensures i < n
    decreases n
  {
    if n == 1 then 0
    else
      var j := ArgMin(list, key, n - 1);
      if key(list[n - 1]) < key(list[j]) then n - 1 else j
  }

  lemma {:induction false} ArgMinIsFirstMinimum<T>(list: seq<T>, key: T -> nat, n: nat)
    requires 0 < n <= |list|
    ensures forall q :: 0 <= q < n ==> key(list[ArgMin(list, key, n)]) <= key(list[q])
    ensures forall q :: 0 <= q < ArgMin(list, key, n) ==> key(list[ArgMin(list, key, n)]) < key(list[q])
    decreases n
  {
    if n > 1 {
      ArgMinIsFirstMinimum(list, key, n - 1);
    }
  }

  /** The first element of greatest key among the first n (strict `>` scan). */
  function ArgMax<T>(list: seq<T>, key: T -> nat, n: nat): (i: nat)
    requires 0 < n <= |list|
    ensures i < n
    decreases n
  {
    if n == 1 then 0
    else
      var j := ArgMax(list, key, n - 1);
      if key(list[n - 1]) > key(list[j]) then n - 1 else j
  }

  lemma {:induction false} ArgMaxIsFirstMaximum<T>(list: seq<T>, key: T -> nat, n: nat)
    requires 0 < n <= |list|
    ensures forall q :: 0 <= q < n ==> key(list[ArgMax(list, key, n)]) >= key(list[q])
    ensures forall q :: 0 <= q < ArgMax(list, key, n) ==> key(list[ArgMax(list, key, n)]) > key(list[q])
    decreases n
  {
    if n > 1 {
      ArgMaxIsFirstMaximum(list, key, n - 1);
    }
  }

  /** `p[0] + p[1]`. */
  function SumKey(p: Pair): nat {
    p.0 + p.1
  }

  /** `abs(p[0] - p[1])`. */
  function GapKey(p: Pair): nat {
    if p.0 >= p.1 then p.0 - p.1 else p.1 - p.0
  }

  /** `sum(1 for v in pair if v not in used_values)`. */
  function Unused(p: Pair, used: set<nat>): nat {
    (if p.0 !in used then 1 else 0) + (if p.1 !in used then 1 else 0)
  }

  function UnusedIn(used: set<nat>): Pair -> nat {
    (p: Pair) => Unused(p, used)
  }

  /**
   * The diverse loop over the first n positions: the pair written at each
   * (the first pair with most values not used so far, or (0, 0) for an
   * empty list) and the set of used values afterwards.
   */
  function DiverseRun(vp: seq<seq<Pair>>, n: nat): (run: (seq<Pair>, set<nat>))
    requires n <= |vp|
    ensures |run.0| == n
  {
    if n == 0 then ([], {})
    else
      var (picks, used) := DiverseRun(vp, n - 1);
      var pairs := vp[n - 1];
      if |pairs| == 0 then (picks + [(0, 0)], used)
      else
        var p := pairs[ArgMax(pairs, UnusedIn(used), |pairs|)];
        (picks + [p], used + {p.0, p.1})
  }

  /** Later positions do not change an earlier pick. */
  lemma {:induction false} DiverseRunPrefix(vp: seq<seq<Pair>>, n: nat, pos: nat)
    requires pos < n <= |vp|
    ensures DiverseRun(vp, n).0[pos] == DiverseRun(vp, pos + 1).0[pos]
    decreases n
  {
    if n > pos + 1 {
      DiverseRunPrefix(vp, n - 1, pos);
    }
  }

  /** The pair a strategy writes at position pos; (0, 0) where nothing is written. */
  function Chosen(strategy: Strategy, vp: seq<seq<Pair>>, target: seq<nat>, choice: (nat, nat) -> nat,
                  call: nat, pos: nat): Pair
    requires pos < |vp| == |target|
  {
    if |vp[pos]| == 0 then (0, 0)
    else match strategy
      case Balanced => RandomPick(vp[pos], choice, call, pos)
      case Minimal => vp[pos][ArgMin(vp[pos], SumKey, |vp[pos]|)]
      case Diverse => DiverseRun(vp, pos + 1).0[pos]
      case Structured =>
        if target[pos] == 0x21 then vp[pos][ArgMin(vp[pos], GapKey, |vp[pos]|)]
        else RandomPick(vp[pos], choice, call, pos)
      case Unrecognised => (0, 0)
  }

  /** Every recognised strategy writes a pair from the position's list. */
  lemma ChosenFromList(strategy: Strategy, vp: seq<seq<Pair>>, target: seq<nat>, choice: (nat, nat) -> nat,
                       call: nat, pos: nat)
    requires pos < |vp| == |target| && |vp[pos]| > 0 && strategy != Unrecognised
    ensures Chosen(strategy, vp, target, choice, call, pos) in vp[pos]
  {
  }

  /**
   * What each rule optimises: the minimal strategy takes a pair of least
   * sum, the structured one a pair of least gap on '!' positions, and the
   * diverse one a pair with most values not used before.
   */
  lemma ChosenIsBest(strategy: Strategy, vp: seq<seq<Pair>>, target: seq<nat>, choice: (nat, nat) -> nat,
                     call: nat, pos: nat, q: Pair)
    requires pos < |vp| == |target| && q in vp[pos]
    ensures strategy == Minimal ==> SumKey(Chosen(strategy, vp, target, choice, call, pos)) <= SumKey(q)
    ensures strategy == Structured && target[pos] == 0x21 ==>
      GapKey(Chosen(strategy, vp, target, choice, call, pos)) <= GapKey(q)
    ensures strategy == Diverse ==>
      Unused(Chosen(strategy, vp, target, choice, call, pos), DiverseRun(vp, pos).1) >= Unused(q, DiverseRun(vp, pos).1)
  {
    var list := vp[pos];
    var i :| 0 <= i < |list| && list[i] == q;
    ArgMinIsFirstMinimum(list, SumKey, |list|);
    ArgMinIsFirstMinimum(list, GapKey, |list|);
    var used := DiverseRun(vp, pos).1;
    ArgMaxIsFirstMaximum(list, UnusedIn(used), |list|);
    assert UnusedIn(used)(list[i]) == Unused(q, used);
  }

  // ---------------------------------------------------------------------
  // construct_optimal_final_state

  /** `state[2*pos], state[2*pos + 1] = p`. */
  method Place(state: seq<nat>, pos: nat, p: Pair) returns (state': seq<nat>)
    requires 2 * pos + 1 < |state|
    ensures |state'| == |state| && PairAt(state', pos) == p
    ensures forall i :: 0 <= i < |state| && i != 2 * pos && i != 2 * pos + 1 ==> state'[i] == state[i]
  {
    state' := state[2 * pos := p.0][2 * pos + 1 := p.1];
  }

  /** One position of the balanced, minimal or structured loop. */
  method PickSimple(strategy: Strategy, vp: seq<seq<Pair>>, target: seq<nat>, choice: (nat, nat) -> nat,
                    call: nat, pos: nat) returns (p: Pair)
    requires pos < |vp| == |target| && |vp[pos]| > 0
    requires strategy == Balanced || strategy == Minimal || strategy == Structured
    ensures p == Chosen(strategy, vp, target, choice, call, pos)
  {
    var pairs := vp[pos];
    if strategy == Balanced {
      p := pairs[choice(call, pos) % |pairs|];
    } else if strategy == Minimal {
      p := pairs[ArgMin(pairs, SumKey, |pairs|)];
    } else if target[pos] == 0x21 {
      p := pairs[ArgMin(pairs, GapKey, |pairs|)];
    } else {
      p := pairs[choice(call, pos) % |pairs|];
    }
  }

  /** The position loop of the balanced, minimal and structured strategies. */
  method FillSimple(strategy: Strategy, vp: seq<seq<Pair>>, target: seq<nat>, choice: (nat, nat) -> nat,
                    call: nat) returns (state: seq<nat>)
    requires |vp| == |target|
    requires strategy == Balanced || strategy == Minimal || strategy == Structured
    ensures |state| == 2 * |vp|
    ensures forall pos :: 0 <= pos < |vp| ==> PairAt(state, pos) == Chosen(strategy, vp, target, choice, call, pos)
  {
    state := seq(2 * |vp|, _ => 0);
    for pos := 0 to |vp|
      invariant |state| == 2 * |vp|
      invariant forall q :: 0 <= q < pos ==> PairAt(state, q) == Chosen(strategy, vp, target, choice, call, q)
      invariant forall i :: 2 * pos <= i < |state| ==> state[i] == 0
    {
      if |vp[pos]| > 0 {
        var p := PickSimple(strategy, vp, target, choice, call, pos);
        state := Place(state, pos, p);
      }
    }
  }

  /**
   * The diverse scan over one list: `best_score = -1`, and a pair replaces
   * the best only with a strictly greater score.
   */
  method MostUnused(pairs: seq<Pair>, used: set<nat>) returns (best: nat)
    requires |pairs| > 0
    ensures best == ArgMax(pairs, UnusedIn(used), |pairs|)
  {
    var bestScore: int := -1;
    best := 0;
    for k := 0 to |pairs|
      invariant k == 0 ==> bestScore == -1
      invariant k > 0 ==> best == ArgMax(pairs, UnusedIn(used), k) && bestScore == Unused(pairs[best], used)
    {
      var score := Unused(pairs[k], used);
      assert UnusedIn(used)(pairs[k]) == score;
      if score > bestScore {
        bestScore := score;
        best := k;
      }
    }
  }

  /** The diverse loop: pick the most unused pair, then mark both values used. */
  method FillDiverse(vp: seq<seq<Pair>>) returns (state: seq<nat>)
    ensures |state| == 2 * |vp|
    ensures forall pos :: 0 <= pos < |vp| ==> PairAt(state, pos) == DiverseRun(vp, |vp|).0[pos]
  {
    state := seq(2 * |vp|, _ => 0);
    var used: set<nat> := {};
    ghost var picks: seq<Pair> := [];
    for pos := 0 to |vp|
      invariant |state| == 2 * |vp|
      invariant (picks, used) == DiverseRun(vp, pos)
      invariant forall q :: 0 <= q < pos ==> PairAt(state, q) == picks[q]
      invariant forall i :: 2 * pos <= i < |state| ==> state[i] == 0
    {
      var p;
      used, state, p := DiverseStep(vp, pos, picks, used, state);
      picks := picks + [p];
    }
  }

  /** One position of the diverse loop. */
  method DiverseStep(vp: seq<seq<Pair>>, pos: nat, ghost picks: seq<Pair>, used: set<nat>, state: seq<nat>)
    returns (used': set<nat>, state': seq<nat>, p: Pair)
    requires pos < |vp| && |state| == 2 * |vp| && (picks, used) == DiverseRun(vp, pos)
    requires state[2 * pos] == 0 && state[2 * pos + 1] == 0
    ensures (picks + [p], used') == DiverseRun(vp, pos + 1) && |state'| == |state|
    ensures PairAt(state', pos) == p
    ensures forall q :: 0 <= q < pos ==> PairAt(state', q) == PairAt(state, q)
    ensures forall i :: 2 * pos + 2 <= i < |state| ==> state'[i] == state[i]
  {
    used', state', p := used, state, (0, 0);
    if |vp[pos]| > 0 {
      var best := MostUnused(vp[pos], used);
      p := vp[pos][best];
      state' := Place(state, pos, p);
      used' := used + {p.0, p.1};
    }
  }

  /**
   * `construct_optimal_final_state`: compute the pair lists, then fill the
   * positions whose list is nonempty by the strategy; an unrecognised
   * strategy leaves the state all zero.
   */
  method ConstructFinalState(sLow: seq<nat>, sHigh: seq<nat>, target: seq<nat>, k: nat, strategy: Strategy,
                             choice: (nat, nat) -> nat, call: nat) returns (state: seq<nat>)
    requires forall x :: 0 <= x < |sLow| ==> sLow[x] < k
    ensures |state| == 2 * |target|
    ensures forall pos :: 0 <= pos < |target| ==>
      PairAt(state, pos) == Chosen(strategy, ValidPairTable(sLow, sHigh, target), target, choice, call, pos)
  {
    var validPairs := PrecomputeValidPairs(sLow, sHigh, target, k);
    if strategy == Diverse {
      state := FillDiverse(validPairs);
      forall pos | 0 <= pos < |target|
        ensures DiverseRun(validPairs, |target|).0[pos] == DiverseRun(validPairs, pos + 1).0[pos]
      {
        DiverseRunPrefix(validPairs, |target|, pos);
      }
    } else if strategy == Unrecognised {
      state := seq(2 * |target|, _ => 0);
    } else {
      state := FillSimple(strategy, validPairs, target, choice, call);
    }
  }

  /** Every byte of a constructed state is inside the tables. */
  lemma ConstructedInTables(sLow: seq<nat>, sHigh: seq<nat>, target: seq<nat>, strategy: Strategy,
                            choice: (nat, nat) -> nat, call: nat, state: seq<nat>)
    requires |sLow| > 0 && |sHigh| > 0 && |state| == 2 * |target|
    requires forall pos :: 0 <= pos < |target| ==>
      PairAt(state, pos) == Chosen(strategy, ValidPairTable(sLow, sHigh, target), target, choice, call, pos)
    ensures InTables(sLow, sHigh, state, |target|)
  {
    var vp := ValidPairTable(sLow, sHigh, target);
    forall pos | 0 <= pos < |target|
      ensures state[2 * pos] < |sLow| && state[2 * pos + 1] < |sHigh|
    {
      if |vp[pos]| > 0 && strategy != Unrecognised {
        ChosenFromList(strategy, vp, target, choice, call, pos);
        ValidPairListMember(sLow, sHigh, target[pos], PairAt(state, pos));
      } else {
        assert Chosen(strategy, vp, target, choice, call, pos) == (0, 0);
      }
    }
  }

  // ---------------------------------------------------------------------
  // generate_working_states

  /** The inverse-diffusion bytes of state avoid the missing values. */
  predicate InverseValid(inv: seq<nat>, state: seq<nat>, missing: set<nat>) {
    forall j :: 0 <= j < |inv| ==> DotRow(inv[j], state) !in missing
  }

  /** A state the generator keeps: it meets the target and, when an inverse exists, passes its check. */
  predicate Working(sLow: seq<nat>, sHigh: seq<nat>, target: seq<nat>, missing: set<nat>,
                    inverse: Option<seq<nat>>, state: seq<nat>) {
    |state| == 2 * |target| && InTables(sLow, sHigh, state, |target|) && MeetsTarget(sLow, sHigh, target, state)
    && (inverse.Some? ==> InverseValid(inverse.value, state, missing))
  }

  /** One attempt: construct, check the output, then the inverse bytes. */
  method TryState(sLow: seq<nat>, sHigh: seq<nat>, target: seq<nat>, k: nat, missing: set<nat>,
                  inverse: Option<seq<nat>>, strategy: Strategy, choice: (nat, nat) -> nat, call: nat)
    returns (keep: bool, state: seq<nat>)
    requires forall x :: 0 <= x < |sLow| ==> sLow[x] < k
    requires |sLow| > 0 && |sHigh| > 0
    ensures |state| == 2 * |target|
    ensures forall pos :: 0 <= pos < |target| ==>
      PairAt(state, pos) == Chosen(strategy, ValidPairTable(sLow, sHigh, target), target, choice, call, pos)
    ensures keep <==> Working(sLow, sHigh, target, missing, inverse, state)
  {
    state := ConstructFinalState(sLow, sHigh, target, k, strategy, choice, call);
    ConstructedInTables(sLow, sHigh, target, strategy, choice, call, state);
    keep := VerifyFinalState(sLow, sHigh, target, state);
    if keep && inverse.Some? {
      var isValid, failPos := CheckInverseValidity(state, inverse.value, missing);
      keep := isValid;
    }
  }

  /**
   * `generate_working_states`: invert the diffusion matrix (None when it is
   * singular), then construct states until num have passed or num·100
   * attempts are spent.  Attempt a uses the choice oracle's call a.
   */
  method GenerateWorkingStates(sLow: seq<nat>, sHigh: seq<nat>, target: seq<nat>, k: nat, missing: set<nat>,
                               diffusion: seq<nat>, num: nat, strategy: Strategy, choice: (nat, nat) -> nat)
    returns (working: seq<seq<nat>>, attempts: nat, inverse: Option<seq<nat>>)
    requires forall x :: 0 <= x < |sLow| ==> sLow[x] < k
    requires |sLow| > 0 && |sHigh| > 0
    requires IsMatrix(diffusion)
    ensures inverse.None? <==> Singular(diffusion)
    ensures inverse.Some? ==> IsMatrix(inverse.value) && IsInverse(inverse.value, diffusion)
    ensures |working| <= num && attempts <= num * 100
    ensures |working| < num ==> attempts == num * 100
    ensures forall w :: w in working ==> Working(sLow, sHigh, target, missing, inverse, w)
  {
    inverse := GaussJordan.InvertPacked(diffusion);
    working := [];
    attempts := 0;
    var maxAttempts := num * 100;
    while |working| < num && attempts < maxAttempts
      invariant |working| <= num && attempts <= maxAttempts
      invariant forall w :: w in working ==> Working(sLow, sHigh, target, missing, inverse, w)
      decreases maxAttempts - attempts
    {
      attempts := attempts + 1;
      var keep, state := TryState(sLow, sHigh, target, k, missing, inverse, strategy, choice, attempts);
      if keep {
        working := working + [state];
      }
    }
  }

  // ---------------------------------------------------------------------
  // generate_smart_seed and total_combinations

  function ListLength(pairs: seq<Pair>): nat {
    |pairs|
  }

  /**
   * `generate_smart_seed`: start at the first position with the fewest
   * pairs and pick one of its pairs (an empty list there makes
   * `random.choice` raise, reported as None), then pick a pair for every
   * other position whose list is nonempty.
   */
  method GenerateSmartSeed(vp: seq<seq<Pair>>, choice: (nat, nat) -> nat, call: nat)
    returns (seed: Option<seq<nat>>)
    requires |vp| > 0
    ensures seed.None? <==> exists pos :: 0 <= pos < |vp| && |vp[pos]| == 0
    ensures seed.Some? ==> |seed.value| == 2 * |vp|
    ensures seed.Some? ==> forall pos :: 0 <= pos < |vp| ==>
      |vp[pos]| > 0 && PairAt(seed.value, pos) == RandomPick(vp[pos], choice, call, pos)
  {
    var minPos := ArgMin(vp, ListLength, |vp|);
    ArgMinIsFirstMinimum(vp, ListLength, |vp|);
    if |vp[minPos]| == 0 {
      return None;
    }
    assert forall pos :: 0 <= pos < |vp| ==> ListLength(vp[minPos]) <= ListLength(vp[pos]);
    var state := seq(2 * |vp|, _ => 0);
    state := Place(state, minPos, RandomPick(vp[minPos], choice, call, minPos));
    state := FillOthers(vp, choice, call, minPos, state);
    return Some(state);
  }

  /** The loop over the positions other than the starting one. */
  method FillOthers(vp: seq<seq<Pair>>, choice: (nat, nat) -> nat, call: nat, minPos: nat, state: seq<nat>)
    returns (state': seq<nat>)
    requires minPos < |vp| && |state| == 2 * |vp|
    requires forall pos :: 0 <= pos < |vp| ==> |vp[pos]| > 0
    requires PairAt(state, minPos) == RandomPick(vp[minPos], choice, call, minPos)
    ensures |state'| == 2 * |vp|
    ensures forall pos :: 0 <= pos < |vp| ==> PairAt(state', pos) == RandomPick(vp[pos], choice, call, pos)
  {
    state' := state;
    for pos := 0 to |vp|
      invariant |state'| == 2 * |vp|
      invariant PairAt(state', minPos) == RandomPick(vp[minPos], choice, call, minPos)
      invariant forall q :: 0 <= q < pos ==> PairAt(state', q) == RandomPick(vp[q], choice, call, q)
    {
      if pos != minPos {
        var availablePairs := vp[pos];
        if |availablePairs| > 0 {
          state' := Place(state', pos, availablePairs[choice(call, pos) % |availablePairs|]);
        }
      }
    }
  }

  /** The product of the first n list lengths. */
  function Combinations(vp: seq<seq<Pair>>, n: nat): nat
    requires n <= |vp|
  {
    if n == 0 then 1 else Combinations(vp, n - 1) * |vp[n - 1]|
  }

  /** `total_combinations *= len(pairs)` over the lists. */
  method TotalCombinations(vp: seq<seq<Pair>>) returns (total: nat)
    ensures total == Combinations(vp, |vp|)
    ensures total > 0 <==> forall pos :: 0 <= pos < |vp| ==> |vp[pos]| > 0
  {
    total := 1;
    for i := 0 to |vp|
      invariant total == Combinations(vp, i)
    {
      total := total * |vp[i]|;
    }
    CombinationsPositive(vp, |vp|);
  }

  /** The product is positive exactly when no list is empty. */
  lemma {:induction false} CombinationsPositive(vp: seq<seq<Pair>>, n: nat)
    requires n <= |vp|
    ensures Combinations(vp, n) > 0 <==> forall pos :: 0 <= pos < n ==> |vp[pos]| > 0
    decreases n
  {
    if n > 0 {
      CombinationsPositive(vp, n - 1);
      var a, b := Combinations(vp, n - 1), |vp[n - 1]|;
      assert a * b > 0 <==> a > 0 && b > 0;
    }
  }
}
