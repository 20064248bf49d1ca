/**
 * build_final_state: choosing the end state c₂₅₆ that the backward searches
 * start from.
 *
 * Each of the 16 positions gets an even byte ev that the pairing tables
 * mark possible, together with its recorded odd partner, so that
 * S_low[c[2i]] ^ S_high[c[2i+1]] is the target byte.  The state is kept
 * only if every byte of invM·c has an S_low preimage, which is what the
 * first backward step needs; otherwise whole pairs are rewritten at random
 * and the state is checked again.
 *
 * rand() is an oracle: the function `rand` gives the value of the k-th call,
 * and the methods thread the index of the next call through.  The C
 * routines exit the program when they give up; here they return false.
 */
module FinalState {
  import opened Bits
  import opened Gf2
  import opened Network
  import opened Preimage
  import opened Wrappers
  import DotRowLoops

  /** Attempts before build_final_state gives up. */
  const MAX_ATTEMPTS: nat := 1000000

  /** Random repairs after a failed inverse check. */
  const FIX_ATTEMPTS: nat := 10

  /** rand() calls one attempt can make: 256 tries per position and two
      calls per repair. */
  const CALLS_PER_ATTEMPT: nat := 16 * 256 + 2 * FIX_ATTEMPTS

  /** The sizes of the tables precompute leaves, with byte-valued odd
      partners. */
  predicate Shaped(t: Tables) {
    |t.invLow| == 256 && |t.invLowCount| == 256 && IsMatrix(t.invM) &&
    (forall y :: 0 <= y < 256 ==> |t.invLow[y]| == 256 && t.invLowCount[y] < 256) &&
    (forall y, i :: 0 <= y < 256 && 0 <= i < 256 ==> t.invLow[y][i] < 256) &&
    |t.oddOf| == 16 && |t.isPossible| == 16 &&
    (forall pos :: 0 <= pos < 16 ==> |t.oddOf[pos]| == 256 && |t.isPossible[pos]| == 256) &&
    (forall pos, ev :: 0 <= pos < 16 && 0 <= ev < 256 ==> t.oddOf[pos][ev] < 256)
  }

  /** Tables of that shape. */
  type ShapedTables = t: Tables | Shaped(t)
    witness Tables(seq(256, _ => seq(256, _ => 0)), seq(256, _ => 0), [], [], seq(32, _ => 0),
                   seq(16, _ => seq(256, _ => 0)), seq(16, _ => seq(256, _ => 0)))

  /** Tables that precompute can produce have that shape. */
  lemma ValidTablesShaped(t: Tables, conf: seq<nat>, m: seq<nat>, target: seq<nat>)
    requires IsConfusion(conf) && IsMatrix(m) && IsTarget(target) && ValidTables(t, conf, m, target)
    ensures Shaped(t)
  {
    forall y, i | 0 <= y < 256 && 0 <= i < 256
      ensures t.invLow[y][i] < 256
    {
      var p := PreimageList(SLow(conf), y);
      if i < |p| {
        RowEntryIsPreimage(SLow(conf), y, i);
      } else {
        assert t.invLow[y][i] == (p + seq(256 - |p|, _ => 0))[i];
      }
    }
    forall pos, ev | 0 <= pos < 16 && 0 <= ev < 256
      ensures t.oddOf[pos][ev] < 256
    {
      assert PairEntry(conf, target, pos, ev, t.oddOf[pos][ev], t.isPossible[pos][ev]);
      if t.isPossible[pos][ev] == 1 {
        PairingMeetsTarget(t, conf, m, target, pos, ev);
      }
    }
  }

  /** Position pos of c holds a possible even byte and its recorded odd
      partner. */
  predicate PairFromTables(t: ShapedTables, c: seq<nat>, pos: nat)
    requires |c| == 32 && pos < 16
  {
    c[2 * pos] < 256 && t.isPossible[pos][c[2 * pos]] != 0 &&
    c[2 * pos + 1] == t.oddOf[pos][c[2 * pos]]
  }

  /** The first n positions come from the tables. */
  predicate PairsFromTables(t: ShapedTables, c: seq<nat>, n: nat)
    requires |c| == 32 && n <= 16
  {
    forall pos :: 0 <= pos < n ==> PairFromTables(t, c, pos)
  }

  /** Byte j of invM·c has a nonzero preimage count. */
  predicate FeasibleByte(t: ShapedTables, c: seq<nat>, j: nat)
    requires IsState(c) && j < 32
  {
    DotRow(t.invM[j], c) < 256 && t.invLowCount[DotRow(t.invM[j], c)] > 0
  }

  /** Every byte of invM·c has a nonzero preimage count. */
  predicate InverseFeasible(t: ShapedTables, c: seq<nat>)
    requires IsState(c)
  {
    forall j :: 0 <= j < 32 ==> FeasibleByte(t, c, j)
  }

  /** What build_final_state promises of the state it returns. */
  predicate FinalStateOk(t: ShapedTables, c: seq<nat>)
  {
    IsState(c) && PairsFromTables(t, c, 16) && InverseFeasible(t, c)
  }

  /** A state whose 16 pairs all come from the tables is a 32-byte state. */
  lemma PairsAreState(t: ShapedTables, c: seq<nat>)
    requires |c| == 32 && PairsFromTables(t, c, 16)
    ensures IsState(c)
  {
    forall j | 0 <= j < 32
      ensures c[j] < 256
    {
      assert PairFromTables(t, c, j / 2);
    }
  }

  // ---------------------------------------------------------------------
  // What a final state is good for

  /** A state built from the pairing tables produces the target. */
  lemma FinalStateMeetsTarget(t: ShapedTables, conf: seq<nat>, m: seq<nat>, target: seq<nat>, c: seq<nat>)
    requires IsConfusion(conf) && IsMatrix(m) && IsTarget(target) && ValidTables(t, conf, m, target)
    requires IsState(c) && PairsFromTables(t, c, 16)
    ensures Output(conf, c) == target
  {
    forall i | 0 <= i < 16
      ensures Output(conf, c)[i] == target[i]
    {
      assert PairFromTables(t, c, i);
      assert PairEntry(conf, target, i, c[2 * i], t.oddOf[i][c[2 * i]], t.isPossible[i][c[2 * i]]);
      PairingMeetsTarget(t, conf, m, target, i, c[2 * i]);
    }
  }

  /** The backward child that takes the smallest preimage of every byte of
      invM·c. */
  function FirstChild(t: ShapedTables, c: seq<nat>): (child: seq<nat>)
    requires IsState(c) && InverseFeasible(t, c)
    ensures |child| == 32
  {
    seq(32, j requires 0 <= j < 32 => assert FeasibleByte(t, c, j); t.invLow[DotRow(t.invM[j], c)][0])
  }

  /** One byte of FirstChild is an S_low preimage of its byte of invM·c. */
  lemma FirstChildByte(t: ShapedTables, conf: seq<nat>, m: seq<nat>, target: seq<nat>, c: seq<nat>, j: nat)
    requires IsConfusion(conf) && IsMatrix(m) && IsTarget(target) && ValidTables(t, conf, m, target)
    requires IsState(c) && InverseFeasible(t, c) && j < 32
    ensures FirstChild(t, c)[j] < 256 && SLow(conf)[FirstChild(t, c)[j]] == Mul(t.invM, c)[j]
  {
    var y := DotRow(t.invM[j], c);
    assert FeasibleByte(t, c, j);
    TableLookup(t.invLow, t.invLowCount, SLow(conf), y);
    RowEntryIsPreimage(SLow(conf), y, 0);
  }

  /** A final state has a parent: one forward round maps FirstChild back
      onto it. */
  lemma FinalStateHasParent(t: ShapedTables, conf: seq<nat>, m: seq<nat>, target: seq<nat>, c: seq<nat>)
    requires IsConfusion(conf) && IsMatrix(m) && IsTarget(target) && ValidTables(t, conf, m, target)
    requires IsState(c) && InverseFeasible(t, c)
    ensures BackwardChild(SLow(conf), t.invM, c, FirstChild(t, c))
    ensures IsState(FirstChild(t, c)) && Round(SLow(conf), m, FirstChild(t, c)) == c
  {
    var child := FirstChild(t, c);
    forall j | 0 <= j < 32
      ensures child[j] < 256 && SLow(conf)[child[j]] == Mul(t.invM, c)[j]
    {
      FirstChildByte(t, conf, m, target, c, j);
    }
    BackwardChildRound(SLow(conf), m, t.invM, c, child);
  }

  // ---------------------------------------------------------------------
  // The randomised constructor of hireme2.c, as a function of the oracle

  /** What a stretch of the constructor leaves: the state it settled on,
      if any, and the index of the next rand() call. */
  datatype Outcome = Outcome(state: Option<seq<nat>>, next: nat)

  /** The index of the first of the draws calls + tries .. calls + 255 whose
      `rand() % 256` the row marks possible. */
  function FirstHit(row: seq<nat>, rand: nat -> nat, calls: nat, tries: nat): (r: Option<nat>)
    requires |row| == 256 && tries <= 256
    ensures r.Some? ==> calls + tries <= r.value < calls + 256 && row[rand(r.value) % 256] != 0
    decreases |row| - tries
  {
    if tries == 256 then None
    else if row[rand(calls + tries) % 256] != 0 then Some(calls + tries)
    else FirstHit(row, rand, calls, tries + 1)
  }

  /** No hit exactly when every remaining draw misses. */
  lemma {:induction false} FirstHitNone(row: seq<nat>, rand: nat -> nat, calls: nat, tries: nat)
    requires |row| == 256 && tries <= 256
    ensures FirstHit(row, rand, calls, tries).None? <==>
            forall k :: calls + tries <= k < calls + 256 ==> row[rand(k) % 256] == 0
    decreases |row| - tries
  {
    if tries < 256 {
      FirstHitNone(row, rand, calls, tries + 1);
    }
  }

  /** The pairs the position loop writes at positions 0..n-1 starting at
      call index calls, or None once a position draws 256 impossible
      bytes; the loop stops there. */
  function FillRun(t: ShapedTables, rand: nat -> nat, calls: nat, n: nat): (r: Outcome)
    requires n <= 16
    ensures r.state.Some? ==> |r.state.value| == 2 * n
    ensures calls <= r.next <= calls + 256 * n
    decreases n, calls
  {
    if n == 0 then Outcome(Some([]), calls)
    else
      var prev := FillRun(t, rand, calls, n - 1);
      if prev.state.None? then prev
      else
        match FirstHit(t.isPossible[n - 1], rand, prev.next, 0)
        case None => Outcome(None, prev.next + 256)
        case Some(k) =>
          var ev := rand(k) % 256;
          Outcome(Some(prev.state.value + [ev, t.oddOf[n - 1][ev]]), k + 1)
  }

  /** Once a position fails, the rest of the loop is skipped. */
  lemma {:induction false} FillRunNone(t: ShapedTables, rand: nat -> nat, calls: nat, n: nat, n': nat)
    requires n <= n' <= 16 && FillRun(t, rand, calls, n).state.None?
    ensures FillRun(t, rand, calls, n') == FillRun(t, rand, calls, n)
    decreases n' - n
  {
    if n < n' {
      FillRunNone(t, rand, calls, n, n' - 1);
    }
  }

  /** The position loop fails exactly when some position it reaches draws
      256 bytes its table marks impossible. */
  lemma {:induction false} FillRunFails(t: ShapedTables, rand: nat -> nat, calls: nat, n: nat)
    requires n <= 16
    ensures FillRun(t, rand, calls, n).state.None? <==>
      exists pos :: 0 <= pos < n && FillRun(t, rand, calls, pos).state.Some? &&
        forall k :: FillRun(t, rand, calls, pos).next <= k < FillRun(t, rand, calls, pos).next + 256 ==>
          t.isPossible[pos][rand(k) % 256] == 0
    decreases n
  {
    if n > 0 {
      FillRunFails(t, rand, calls, n - 1);
      var prev := FillRun(t, rand, calls, n - 1);
      FirstHitNone(t.isPossible[n - 1], rand, prev.next, 0);
    }
  }

  /** Every pair the position loop writes comes from the tables. */
  lemma {:induction false} FillRunFromTables(t: ShapedTables, rand: nat -> nat, calls: nat, n: nat, c: seq<nat>)
    requires n <= 16 && |c| == 32
    requires FillRun(t, rand, calls, n).state.Some? && c[..2 * n] == FillRun(t, rand, calls, n).state.value
    ensures PairsFromTables(t, c, n)
    decreases n
  {
    if n > 0 {
      var prev := FillRun(t, rand, calls, n - 1);
      var cur := FillRun(t, rand, calls, n).state.value;
      assert cur == prev.state.value + [cur[2 * n - 2], cur[2 * n - 1]];
      assert c[..2 * (n - 1)] == cur[..2 * (n - 1)];
      FillRunFromTables(t, rand, calls, n - 1, c);
      assert c[2 * (n - 1)] == cur[2 * n - 2] && c[2 * (n - 1) + 1] == cur[2 * n - 1];
    }
  }

  /** The filled state of a successful position loop is a legal pairing. */
  lemma FillRunState(t: ShapedTables, rand: nat -> nat, calls: nat)
    requires FillRun(t, rand, calls, 16).state.Some?
    ensures IsState(FillRun(t, rand, calls, 16).state.value)
    ensures PairsFromTables(t, FillRun(t, rand, calls, 16).state.value, 16)
  {
    var c := FillRun(t, rand, calls, 16).state.value;
    assert c[..32] == c;
    FillRunFromTables(t, rand, calls, 16, c);
    PairsAreState(t, c);
  }

  /** The state with the pair (ev, odd_of[pos][ev]) written at pos. */
  function Repaired(t: ShapedTables, c: seq<nat>, pos: nat, ev: nat): (r: seq<nat>)
    requires |c| == 32 && pos < 16 && ev < 256
    ensures |r| == 32
  {
    c[2 * pos := ev][2 * pos + 1 := t.oddOf[pos][ev]]
  }

  /** Repairs fix, fix + 1, ... below FIX_ATTEMPTS from state c: the first
      repaired state that passes the inverse check, or None after all of
      them. */
  function RepairRun(t: ShapedTables, rand: nat -> nat, calls: nat, c: seq<nat>, fix: nat): (r: Outcome)
    requires IsState(c) && fix <= FIX_ATTEMPTS
    ensures calls <= r.next <= calls + 2 * (FIX_ATTEMPTS - fix)
    ensures r.state.None? ==> r.next == calls + 2 * (FIX_ATTEMPTS - fix)
    decreases FIX_ATTEMPTS - fix, calls
  {
    if fix == FIX_ATTEMPTS then Outcome(None, calls)
    else
      var pos := rand(calls) % 16;
      var ev := rand(calls + 1) % 256;
      if t.isPossible[pos][ev] != 0 then
        var c' := Repaired(t, c, pos, ev);
        assert IsState(c') by {
          assert forall j :: 0 <= j < 32 ==> c'[j] == c[j] || c'[j] == ev || c'[j] == t.oddOf[pos][ev];
        }
        if InverseFeasible(t, c') then Outcome(Some(c'), calls + 2)
        else RepairRun(t, rand, calls + 2, c', fix + 1)
      else RepairRun(t, rand, calls + 2, c, fix + 1)
  }

  /** A repair with a possible even byte keeps every pair a table pair. */
  lemma RepairedPairs(t: ShapedTables, c: seq<nat>, pos: nat, ev: nat)
    requires |c| == 32 && pos < 16 && ev < 256 && t.isPossible[pos][ev] != 0
    requires PairsFromTables(t, c, 16)
    ensures IsState(Repaired(t, c, pos, ev)) && PairsFromTables(t, Repaired(t, c, pos, ev), 16)
  {
    var c' := Repaired(t, c, pos, ev);
    assert PairFromTables(t, c', pos);
    assert forall i :: 0 <= i < 32 && i / 2 != pos ==> c'[i] == c[i];
    RepairKeepsPairs(t, c, c', pos);
    PairsAreState(t, c');
  }

  /** A repair run that succeeds ends in a legal end state. */
  lemma {:induction false} RepairRunOk(t: ShapedTables, rand: nat -> nat, calls: nat, c: seq<nat>, fix: nat)
    requires IsState(c) && fix <= FIX_ATTEMPTS && PairsFromTables(t, c, 16)
    ensures RepairRun(t, rand, calls, c, fix).state.Some? ==>
      FinalStateOk(t, RepairRun(t, rand, calls, c, fix).state.value)
    decreases FIX_ATTEMPTS - fix
  {
    if fix < FIX_ATTEMPTS {
      var pos := rand(calls) % 16;
      var ev := rand(calls + 1) % 256;
      if t.isPossible[pos][ev] != 0 {
        var c' := Repaired(t, c, pos, ev);
        RepairedPairs(t, c, pos, ev);
        if !InverseFeasible(t, c') {
          RepairRunOk(t, rand, calls + 2, c', fix + 1);
        }
      } else {
        RepairRunOk(t, rand, calls + 2, c, fix + 1);
      }
    }
  }

  /** One attempt: fill, check, and repair when the check fails. */
  function AttemptRun(t: ShapedTables, rand: nat -> nat, calls: nat): (r: Outcome)
  {
    var fill := FillRun(t, rand, calls, 16);
    if fill.state.None? then Outcome(None, fill.next)
    else
      var c := fill.state.value;
      FillRunState(t, rand, calls);
      if InverseFeasible(t, c) then fill
      else RepairRun(t, rand, fill.next, c, 0)
  }

  /** An attempt that succeeds ends in a legal end state, and no attempt
      uses more than CALLS_PER_ATTEMPT calls. */
  lemma AttemptRunOk(t: ShapedTables, rand: nat -> nat, calls: nat)
    ensures calls <= AttemptRun(t, rand, calls).next <= calls + CALLS_PER_ATTEMPT
    ensures AttemptRun(t, rand, calls).state.Some? ==> FinalStateOk(t, AttemptRun(t, rand, calls).state.value)
  {
    var fill := FillRun(t, rand, calls, 16);
    assert fill.next <= calls + 16 * 256;
    if fill.state.Some? {
      FillRunState(t, rand, calls);
      RepairRunOk(t, rand, fill.next, fill.state.value, 0);
    }
  }

  /** The attempt of hireme2.c as a function of the call index it starts at. */
  function Attempts(t: ShapedTables, rand: nat -> nat): nat -> Outcome {
    (x: nat) => AttemptRun(t, rand, x)
  }

  /** Up to k attempts, each starting where the one before stopped: the
      first that succeeds, or None. */
  function Retry(attempt: nat -> Outcome, calls: nat, k: nat): (r: Outcome)
    decreases k, calls
  {
    if k == 0 then Outcome(None, calls)
    else
      var a := attempt(calls);
      if a.state.Some? then a else Retry(attempt, a.next, k - 1)
  }

  /** The call index attempt number a of a retry run starts at. */
  function StartOf(attempt: nat -> Outcome, calls: nat, a: nat): nat
    decreases a, calls
  {
    if a == 0 then calls else StartOf(attempt, attempt(calls).next, a - 1)
  }

  /** k attempts fail exactly when every one of them fails. */
  lemma {:induction false} RetryFails(attempt: nat -> Outcome, calls: nat, k: nat)
    ensures Retry(attempt, calls, k).state.None? ==>
      forall a :: 0 <= a < k ==> attempt(StartOf(attempt, calls, a)).state.None?
    ensures (forall a :: 0 <= a < k ==> attempt(StartOf(attempt, calls, a)).state.None?) ==>
      Retry(attempt, calls, k).state.None?
    decreases k
  {
    if k > 0 {
      var first := attempt(calls);
      RetryFails(attempt, first.next, k - 1);
      assert StartOf(attempt, calls, 0) == calls;
      forall a | 1 <= a < k
        ensures StartOf(attempt, calls, a) == StartOf(attempt, first.next, a - 1)
      {
      }
      if Retry(attempt, calls, k).state.None? {
        forall a | 0 <= a < k
          ensures attempt(StartOf(attempt, calls, a)).state.None?
        {
          if a > 0 {
            assert attempt(StartOf(attempt, first.next, a - 1)).state.None?;
          }
        }
      } else if first.state.None? {
        var a' :| 0 <= a' < k - 1 && attempt(StartOf(attempt, first.next, a')).state.Some?;
        assert StartOf(attempt, calls, a' + 1) == StartOf(attempt, first.next, a');
        assert attempt(StartOf(attempt, calls, a' + 1)).state.Some?;
        assert 0 <= a' + 1 < k;
        assert !(forall a :: 0 <= a < k ==> attempt(StartOf(attempt, calls, a)).state.None?);
      } else {
        assert attempt(StartOf(attempt, calls, 0)).state.Some?;
      }
    }
  }

  /** One attempt of a retry run: a success ends the run, a failure leaves
      one attempt fewer from where it stopped. */
  lemma RetryStep(attempt: nat -> Outcome, calls: nat, k: nat)
    requires k > 0
    ensures attempt(calls).state.Some? ==> Retry(attempt, calls, k) == attempt(calls)
    ensures attempt(calls).state.None? ==> Retry(attempt, calls, k) == Retry(attempt, attempt(calls).next, k - 1)
  {
  }

  /** An attempt starting at x that succeeds ends in a legal end state, and
      it uses at most CALLS_PER_ATTEMPT calls. */
  predicate AttemptOk(t: ShapedTables, attempt: nat -> Outcome, x: nat) {
    x <= attempt(x).next <= x + CALLS_PER_ATTEMPT &&
    (attempt(x).state.Some? ==> FinalStateOk(t, attempt(x).state.value))
  }

  /** What k such attempts return is a legal end state, within
      k·CALLS_PER_ATTEMPT calls. */
  lemma {:induction false} RetryOk(t: ShapedTables, attempt: nat -> Outcome, calls: nat, k: nat)
    requires forall x :: AttemptOk(t, attempt, x)
    ensures calls <= Retry(attempt, calls, k).next <= calls + k * CALLS_PER_ATTEMPT
    ensures Retry(attempt, calls, k).state.Some? ==> FinalStateOk(t, Retry(attempt, calls, k).state.value)
    decreases k
  {
    if k > 0 {
      assert AttemptOk(t, attempt, calls);
      var a := attempt(calls);
      if a.state.None? {
        RetryOk(t, attempt, a.next, k - 1);
      }
    }
  }

  /** Every attempt of hireme2.c meets AttemptOk. */
  lemma AttemptsOk(t: ShapedTables, rand: nat -> nat)
    ensures forall x :: AttemptOk(t, Attempts(t, rand), x)
  {
    forall x
      ensures AttemptOk(t, Attempts(t, rand), x)
    {
      AttemptRunOk(t, rand, x);
    }
  }

  /**
   * Up to 256 tries of `ev = rand() % 256` until is_possible[pos][ev];
   * the pair (ev, odd_of[pos][ev]) is then written at position pos.  The
   * pair written is the first possible value drawn.
   */
  method PickPair(t: ShapedTables, rand: nat -> nat, calls: nat, pos: nat, c: array<nat>)
    returns (found: bool, next: nat)
    requires pos < 16 && c.Length == 32
    modifies c
    ensures calls <= next <= calls + 256
    ensures found <==> FirstHit(t.isPossible[pos], rand, calls, 0).Some?
    ensures found ==> next == FirstHit(t.isPossible[pos], rand, calls, 0).value + 1
    ensures !found ==> next == calls + 256 && c[..] == old(c[..])
    ensures found ==> calls < next && c[2 * pos] == rand(next - 1) % 256 && PairFromTables(t, c[..], pos)
    ensures forall k :: calls <= k < next - (if found then 1 else 0) ==> t.isPossible[pos][rand(k) % 256] == 0
    ensures forall i :: 0 <= i < 32 && i / 2 != pos ==> c[i] == old(c[i])
  {
    found, next := false, calls;
    for tries := 0 to 256
      invariant next == calls + tries
      invariant c[..] == old(c[..])
      invariant FirstHit(t.isPossible[pos], rand, calls, 0) == FirstHit(t.isPossible[pos], rand, calls, tries)
      invariant forall k :: calls <= k < next ==> t.isPossible[pos][rand(k) % 256] == 0
    {
      var ev := rand(next) % 256;
      next := next + 1;
      if t.isPossible[pos][ev] != 0 {
        c[2 * pos] := ev;
        c[2 * pos + 1] := t.oddOf[pos][ev];
        found := true;
        return;
      }
    }
  }

  /** One pass of the position loop: the pair drawn for position pos
      extends the pairs written so far. */
  method FillStep(t: ShapedTables, rand: nat -> nat, calls: nat, pos: nat, next: nat, c: array<nat>)
    returns (found: bool, next': nat)
    requires pos < 16 && c.Length == 32
    requires FillRun(t, rand, calls, pos) == Outcome(Some(c[..2 * pos]), next)
    modifies c
    ensures FillRun(t, rand, calls, pos + 1).next == next'
    ensures found ==> FillRun(t, rand, calls, pos + 1).state == Some(c[..2 * (pos + 1)])
    ensures !found ==> FillRun(t, rand, calls, pos + 1).state.None?
  {
    ghost var prefix := c[..2 * pos];
    found, next' := PickPair(t, rand, next, pos, c);
    if found {
      assert c[..2 * (pos + 1)] == prefix + [c[2 * pos], c[2 * pos + 1]];
    }
  }

  /** The position loop: one pair per position, stopping at the first
      position where no possible even byte was drawn. */
  method FillPairs(t: ShapedTables, rand: nat -> nat, calls: nat, c: array<nat>)
    returns (valid: bool, next: nat)
    requires c.Length == 32
    modifies c
    ensures calls <= next <= calls + 16 * 256
    ensures next == FillRun(t, rand, calls, 16).next
    ensures valid <==> FillRun(t, rand, calls, 16).state.Some?
    ensures valid ==> c[..] == FillRun(t, rand, calls, 16).state.value
    ensures valid ==> IsState(c[..]) && PairsFromTables(t, c[..], 16)
  {
    valid, next := true, calls;
    var pos := 0;
    while pos < 16 && valid
      invariant 0 <= pos <= 16
      invariant FillRun(t, rand, calls, pos).next == next
      invariant valid ==> FillRun(t, rand, calls, pos).state == Some(c[..2 * pos])
      invariant !valid ==> FillRun(t, rand, calls, pos).state.None?
    {
      valid, next := FillStep(t, rand, calls, pos, next, c);
      pos := pos + 1;
    }
    if valid {
      assert c[..] == c[..32];
      FillRunState(t, rand, calls);
    } else {
      FillRunNone(t, rand, calls, pos, 16);
    }
  }

  /** The inverse check: `v[j] = dot_row(invM[j], c)` for each j, failing
      at the first j with `inv_low_count[v[j]] == 0`. */
  method CheckInverse(t: ShapedTables, c: seq<nat>) returns (allValid: bool)
    requires IsState(c)
    ensures allValid <==> InverseFeasible(t, c)
  {
    for j := 0 to 32
      invariant forall i :: 0 <= i < j ==> FeasibleByte(t, c, i)
    {
      var v;
      ghost var steps;
      v, steps := DotRowLoops.DotRowCtz(t.invM[j], c);
      if t.invLowCount[v] == 0 {
        assert !FeasibleByte(t, c, j);
        return false;
      }
    }
    return true;
  }

  /** One repair: `pos = rand() % 16`, `ev = rand() % 256`, and the whole
      pair at pos is rewritten when ev is possible there. */
  method RepairPair(t: ShapedTables, rand: nat -> nat, calls: nat, c: array<nat>)
    returns (changed: bool, next: nat)
    requires c.Length == 32
    modifies c
    ensures next == calls + 2
    ensures changed <==> t.isPossible[rand(calls) % 16][rand(calls + 1) % 256] != 0
    ensures changed ==> c[2 * (rand(calls) % 16)] == rand(calls + 1) % 256 && PairFromTables(t, c[..], rand(calls) % 16)
    ensures changed ==> c[..] == Repaired(t, old(c[..]), rand(calls) % 16, rand(calls + 1) % 256)
    ensures !changed ==> c[..] == old(c[..])
    ensures forall i :: 0 <= i < 32 && i / 2 != rand(calls) % 16 ==> c[i] == old(c[i])
  {
    var pos := rand(calls) % 16;
    var ev := rand(calls + 1) % 256;
    next := calls + 2;
    changed := t.isPossible[pos][ev] != 0;
    if changed {
      c[2 * pos] := ev;
      c[2 * pos + 1] := t.oddOf[pos][ev];
    }
  }

  /** A repair keeps every pair a table pair. */
  lemma RepairKeepsPairs(t: ShapedTables, before: seq<nat>, after: seq<nat>, pos: nat)
    requires |before| == 32 && |after| == 32 && pos < 16
    requires PairsFromTables(t, before, 16) && PairFromTables(t, after, pos)
    requires forall i :: 0 <= i < 32 && i / 2 != pos ==> after[i] == before[i]
    ensures PairsFromTables(t, after, 16)
  {
    forall p | 0 <= p < 16 && p != pos
      ensures PairFromTables(t, after, p)
    {
      assert PairFromTables(t, before, p);
      assert (2 * p) / 2 == p && (2 * p + 1) / 2 == p;
    }
  }

  /** One pass of the repair loop: a repair, and the inverse check when
      the repair changed the state. */
  method RepairOnce(t: ShapedTables, rand: nat -> nat, calls: nat, fix: nat, c: array<nat>)
    returns (ok: bool, next: nat)
    requires c.Length == 32 && IsState(c[..]) && PairsFromTables(t, c[..], 16) && fix < FIX_ATTEMPTS
    modifies c
    ensures next == calls + 2 && IsState(c[..]) && PairsFromTables(t, c[..], 16)
    ensures ok ==> RepairRun(t, rand, calls, old(c[..]), fix) == Outcome(Some(c[..]), next)
    ensures !ok ==> RepairRun(t, rand, calls, old(c[..]), fix) == RepairRun(t, rand, next, c[..], fix + 1)
  {
    ghost var before := c[..];
    var changed;
    changed, next := RepairPair(t, rand, calls, c);
    ok := false;
    if changed {
      RepairKeepsPairs(t, before, c[..], rand(calls) % 16);
      PairsAreState(t, c[..]);
      ok := CheckInverse(t, c[..]);
    }
  }

  /** The repair loop: up to ten repairs, each followed by the inverse
      check when it changed the state. */
  method RepairLoop(t: ShapedTables, rand: nat -> nat, calls: nat, c: array<nat>)
    returns (ok: bool, next: nat)
    requires c.Length == 32 && IsState(c[..]) && PairsFromTables(t, c[..], 16)
    modifies c
    ensures calls <= next <= calls + 2 * FIX_ATTEMPTS
    ensures next == RepairRun(t, rand, calls, old(c[..]), 0).next
    ensures ok <==> RepairRun(t, rand, calls, old(c[..]), 0).state.Some?
    ensures ok ==> c[..] == RepairRun(t, rand, calls, old(c[..]), 0).state.value
    ensures ok ==> FinalStateOk(t, c[..])
  {
    ghost var start := c[..];
    ok, next := false, calls;
    var fix := 0;
    while fix < FIX_ATTEMPTS && !ok
      invariant 0 <= fix <= FIX_ATTEMPTS && next == calls + 2 * fix
      invariant IsState(c[..]) && PairsFromTables(t, c[..], 16)
      invariant !ok ==> RepairRun(t, rand, calls, start, 0) == RepairRun(t, rand, next, c[..], fix)
      invariant ok ==> RepairRun(t, rand, calls, start, 0) == Outcome(Some(c[..]), next)
    {
      ok, next := RepairOnce(t, rand, next, fix, c);
      fix := fix + 1;
    }
    RepairRunOk(t, rand, calls, start, 0);
  }

  /** One attempt: fill all 16 positions, check, then repair. */
  method Attempt(t: ShapedTables, rand: nat -> nat, calls: nat, c: array<nat>)
    returns (ok: bool, next: nat)
    requires c.Length == 32
    modifies c
    ensures next == AttemptRun(t, rand, calls).next
    ensures ok <==> AttemptRun(t, rand, calls).state.Some?
    ensures ok ==> c[..] == AttemptRun(t, rand, calls).state.value
    ensures calls <= next <= calls + CALLS_PER_ATTEMPT
    ensures ok ==> FinalStateOk(t, c[..])
  {
    AttemptRunOk(t, rand, calls);
    var valid;
    valid, next := FillPairs(t, rand, calls, c);
    if !valid {
      return false, next;
    }
    ok := CheckInverse(t, c[..]);
    if !ok {
      ok, next := RepairLoop(t, rand, next, c);
    }
  }

  /**
   * Attempts until one succeeds or maxAttempts have failed.  The C versions
   * pass 1,000,000; the version with an endless retry loop is this loop
   * with the attempt count as a parameter.
   */
  method RetryAttempts(t: ShapedTables, rand: nat -> nat, calls: nat, maxAttempts: nat, c: array<nat>)
    returns (ok: bool, next: nat)
    requires c.Length == 32
    modifies c
    ensures next == Retry(Attempts(t, rand), calls, maxAttempts).next
    ensures ok <==> Retry(Attempts(t, rand), calls, maxAttempts).state.Some?
    ensures ok ==> c[..] == Retry(Attempts(t, rand), calls, maxAttempts).state.value
    ensures !ok ==> forall a :: 0 <= a < maxAttempts ==>
      AttemptRun(t, rand, StartOf(Attempts(t, rand), calls, a)).state.None?
    ensures calls <= next <= calls + maxAttempts * CALLS_PER_ATTEMPT
    ensures ok ==> FinalStateOk(t, c[..])
  {
    ok, next := false, calls;
    var attempt := 0;
    while attempt < maxAttempts && !ok
      invariant 0 <= attempt <= maxAttempts
      invariant !ok ==> Retry(Attempts(t, rand), calls, maxAttempts) == Retry(Attempts(t, rand), next, maxAttempts - attempt)
      invariant ok ==> Retry(Attempts(t, rand), calls, maxAttempts) == Outcome(Some(c[..]), next)
    {
      RetryStep(Attempts(t, rand), next, maxAttempts - attempt);
      ok, next := Attempt(t, rand, next, c);
      attempt := attempt + 1;
    }
    RetryFails(Attempts(t, rand), calls, maxAttempts);
    AttemptsOk(t, rand);
    RetryOk(t, Attempts(t, rand), calls, maxAttempts);
  }

  /** build_final_state of hireme2.c: at most 1,000,000 attempts; false
      stands for the fatal exit. */
  method BuildFinalState(t: ShapedTables, rand: nat -> nat, calls: nat, c: array<nat>)
    returns (ok: bool, next: nat)
    requires c.Length == 32
    modifies c
    ensures next == Retry(Attempts(t, rand), calls, MAX_ATTEMPTS).next
    ensures ok <==> Retry(Attempts(t, rand), calls, MAX_ATTEMPTS).state.Some?
    ensures ok ==> c[..] == Retry(Attempts(t, rand), calls, MAX_ATTEMPTS).state.value
    ensures !ok ==> forall a :: 0 <= a < MAX_ATTEMPTS ==>
      AttemptRun(t, rand, StartOf(Attempts(t, rand), calls, a)).state.None?
    ensures (forall a :: 0 <= a < MAX_ATTEMPTS ==>
      AttemptRun(t, rand, StartOf(Attempts(t, rand), calls, a)).state.None?) ==> !ok
    ensures calls <= next <= calls + MAX_ATTEMPTS * CALLS_PER_ATTEMPT
    ensures ok ==> FinalStateOk(t, c[..])
  {
    ok, next := RetryAttempts(t, rand, calls, MAX_ATTEMPTS, c);
    RetryFails(Attempts(t, rand), calls, MAX_ATTEMPTS);
    AttemptsOk(t, rand);
    RetryOk(t, Attempts(t, rand), calls, MAX_ATTEMPTS);
  }

  // ---------------------------------------------------------------------
  // The seeded constructor of hireme2_optimized.c

  /** `rng_state * 1664525u + 1013904223u` in 32-bit arithmetic. */
  function Lcg(x: nat): (r: nat)
    ensures r < 0x1_0000_0000
  {
    (x * 1664525 + 1013904223) % 0x1_0000_0000
  }

  /** The generator state at position pos of an attempt started at rng. */
  function RngAt(rng: nat, pos: nat): nat {
    if pos == 0 then rng else Lcg(RngAt(rng, pos - 1))
  }

  /** `(rng_state * 0x9E3779B9u) % 256`, the product taken modulo 2^32. */
  function StartEv(rng: nat): (r: nat)
    ensures r < 256
  {
    (rng * 0x9E3779B9) % 0x1_0000_0000 % 256
  }

  /** The first possible entry of row, probing start, start + 1, ...
      (mod 256) from the tries-th probe on. */
  function FirstPossible(row: seq<nat>, start: nat, tries: nat): (r: Option<nat>)
    requires |row| == 256 && tries <= 256
    ensures r.Some? ==> r.value < 256 && row[r.value] != 0
    decreases 256 - tries
  {
    if tries == 256 then None
    else if row[(start + tries) % 256] != 0 then Some((start + tries) % 256)
    else FirstPossible(row, start, tries + 1)
  }

  /** The probe at offset k finds an impossible entry. */
  predicate ProbeMisses(row: seq<nat>, start: nat, k: nat)
    requires |row| == 256
  {
    row[(start + k) % 256] == 0
  }

  /** None exactly when every remaining probe misses. */
  lemma {:induction false} FirstPossibleNone(row: seq<nat>, start: nat, tries: nat)
    requires |row| == 256 && tries <= 256
    ensures FirstPossible(row, start, tries).None? <==>
            forall k :: tries <= k < 256 ==> ProbeMisses(row, start, k)
    decreases 256 - tries
  {
    if tries < 256 {
      FirstPossibleNone(row, start, tries + 1);
      assert FirstPossible(row, start, tries).None? <==>
             ProbeMisses(row, start, tries) && FirstPossible(row, start, tries + 1).None?;
    }
  }

  /** The pairs an attempt started at rng writes at positions 0..n-1, or
      None when some position has no possible even byte. */
  function SeededPairs(t: ShapedTables, rng: nat, n: nat): (r: Option<seq<nat>>)
    requires n <= 16
    ensures r.Some? ==> |r.value| == 2 * n
  {
    if n == 0 then Some([])
    else
      var prev := SeededPairs(t, rng, n - 1);
      if prev.None? then None
      else
        match FirstPossible(t.isPossible[n - 1], StartEv(RngAt(rng, n - 1)), 0)
        case None => None
        case Some(ev) => Some(prev.value + [ev, t.oddOf[n - 1][ev]])
  }

  /** Once a position fails, the attempt has failed. */
  lemma {:induction false} SeededPairsNone(t: ShapedTables, rng: nat, n: nat, n': nat)
    requires n <= n' <= 16 && SeededPairs(t, rng, n).None?
    ensures SeededPairs(t, rng, n').None?
    decreases n' - n
  {
    if n < n' {
      SeededPairsNone(t, rng, n, n' - 1);
    }
  }

  /** The pairs of a successful attempt come from the tables. */
  predicate TablePairs(t: ShapedTables, pairs: seq<nat>, n: nat)
    requires n <= 16 && |pairs| == 2 * n
  {
    forall pos :: 0 <= pos < n ==>
      pairs[2 * pos] < 256 && t.isPossible[pos][pairs[2 * pos]] != 0 && pairs[2 * pos + 1] == t.oddOf[pos][pairs[2 * pos]]
  }

  /** Every pair a successful attempt picks comes from the tables. */
  lemma {:induction false} SeededPairsOk(t: ShapedTables, rng: nat, n: nat)
    requires n <= 16 && SeededPairs(t, rng, n).Some?
    ensures TablePairs(t, SeededPairs(t, rng, n).value, n)
    decreases n
  {
    if n > 0 {
      SeededPairsLast(t, rng, n);
      SeededPairsOk(t, rng, n - 1);
      var prev := SeededPairs(t, rng, n - 1).value;
      var cur := SeededPairs(t, rng, n).value;
      forall pos | 0 <= pos < n - 1
        ensures cur[2 * pos] == prev[2 * pos] && cur[2 * pos + 1] == prev[2 * pos + 1]
      {
        assert cur[2 * pos] == cur[..2 * (n - 1)][2 * pos];
        assert cur[2 * pos + 1] == cur[..2 * (n - 1)][2 * pos + 1];
      }
    }
  }

  /** Every pair of a seeded candidate comes from the tables. */
  lemma SeededPairsFromTables(t: ShapedTables, rng: nat, n: nat, c: seq<nat>)
    requires n <= 16 && |c| == 32
    requires SeededPairs(t, rng, n).Some? && c[..2 * n] == SeededPairs(t, rng, n).value
    ensures PairsFromTables(t, c, n)
  {
    var pairs := SeededPairs(t, rng, n).value;
    SeededPairsOk(t, rng, n);
    forall pos | 0 <= pos < n
      ensures PairFromTables(t, c, pos)
    {
      assert c[2 * pos] == pairs[2 * pos] && c[2 * pos + 1] == pairs[2 * pos + 1];
    }
  }

  /** The last pair of a successful attempt is an even byte the table
      allows at its position, with the odd byte the table gives for it. */
  lemma SeededPairsLast(t: ShapedTables, rng: nat, n: nat)
    requires 0 < n <= 16 && SeededPairs(t, rng, n).Some?
    ensures SeededPairs(t, rng, n - 1).Some?
    ensures SeededPairs(t, rng, n).value[..2 * (n - 1)] == SeededPairs(t, rng, n - 1).value
    ensures var ev := SeededPairs(t, rng, n).value[2 * (n - 1)];
      ev < 256 && t.isPossible[n - 1][ev] != 0 && SeededPairs(t, rng, n).value[2 * (n - 1) + 1] == t.oddOf[n - 1][ev]
  {
    var prev := SeededPairs(t, rng, n - 1).value;
    var ev := FirstPossible(t.isPossible[n - 1], StartEv(RngAt(rng, n - 1)), 0).value;
    assert SeededPairs(t, rng, n).value == prev + [ev, t.oddOf[n - 1][ev]];
  }

  /** The state the attempt at rng produces, when it fills all 16
      positions. */
  function SeededCandidate(t: ShapedTables, rng: nat): (r: Option<seq<nat>>)
    ensures r.Some? ==> IsState(r.value) && PairsFromTables(t, r.value, 16)
  {
    var r := SeededPairs(t, rng, 16);
    if r.Some? then
      assert r.value[..32] == r.value;
      SeededPairsFromTables(t, rng, 16, r.value);
      PairsAreState(t, r.value);
      r
    else r
  }

  /** The result of the attempts attempt, attempt + 1, ... below
      MAX_ATTEMPTS for a given seed: the first candidate that passes the
      inverse check. */
  function SeededSearch(t: ShapedTables, seed: nat, attempt: nat): (r: Option<seq<nat>>)
    requires attempt <= MAX_ATTEMPTS
    decreases MAX_ATTEMPTS - attempt
  {
    if attempt == MAX_ATTEMPTS then None
    else
      var cand := SeededCandidate(t, (seed + attempt) % 0x1_0000_0000);
      if cand.Some? && InverseFeasible(t, cand.value) then cand
      else SeededSearch(t, seed, attempt + 1)
  }

  /** What the seeded search returns is a legal end state. */
  lemma {:induction false} SeededSearchOk(t: ShapedTables, seed: nat, attempt: nat)
    requires attempt <= MAX_ATTEMPTS
    ensures SeededSearch(t, seed, attempt).Some? ==> FinalStateOk(t, SeededSearch(t, seed, attempt).value)
    decreases MAX_ATTEMPTS - attempt
  {
    if attempt < MAX_ATTEMPTS {
      var cand := SeededCandidate(t, (seed + attempt) % 0x1_0000_0000);
      if !(cand.Some? && InverseFeasible(t, cand.value)) {
        SeededSearchOk(t, seed, attempt + 1);
      }
    }
  }

  /** The linear probe: 256 tries of `ev = (start_ev + tries) % 256`. */
  method ProbeFrom(row: seq<nat>, start: nat) returns (found: bool, ev: nat)
    requires |row| == 256
    ensures found <==> FirstPossible(row, start, 0).Some?
    ensures found ==> ev == FirstPossible(row, start, 0).value
  {
    for tries := 0 to 256
      invariant FirstPossible(row, start, 0) == FirstPossible(row, start, tries)
    {
      ev := (start + tries) % 256;
      if row[ev] != 0 {
        return true, ev;
      }
    }
    return false, 0;
  }

  /** The position loop of one seeded attempt, with the generator advanced
      by the LCG after every position. */
  method SeededFill(t: ShapedTables, rng: nat, c: array<nat>) returns (valid: bool)
    requires c.Length == 32
    modifies c
    ensures valid <==> SeededCandidate(t, rng).Some?
    ensures valid ==> c[..] == SeededCandidate(t, rng).value
  {
    valid := true;
    var state := rng;
    var pos := 0;
    while pos < 16 && valid
      invariant 0 <= pos <= 16
      invariant valid ==> state == RngAt(rng, pos) && SeededPairs(t, rng, pos) == Some(c[..2 * pos])
      invariant !valid ==> SeededPairs(t, rng, pos).None?
    {
      var found, ev := ProbeFrom(t.isPossible[pos], StartEv(state));
      if found {
        ghost var prefix := c[..2 * pos];
        c[2 * pos] := ev;
        c[2 * pos + 1] := t.oddOf[pos][ev];
        assert c[..2 * (pos + 1)] == prefix + [ev, t.oddOf[pos][ev]];
      } else {
        valid := false;
      }
      state := Lcg(state);
      pos := pos + 1;
    }
    if !valid {
      SeededPairsNone(t, rng, pos, 16);
    } else {
      assert c[..] == c[..32];
    }
  }

  /** build_final_state of hireme2_optimized.c: attempt a starts the
      generator at seed + a, and no repairs are tried.  The state it
      returns is a function of the seed alone. */
  method SeededBuildFinalState(t: ShapedTables, seed: nat, c: array<nat>) returns (ok: bool)
    requires seed < 0x1_0000_0000 && c.Length == 32
    modifies c
    ensures ok <==> SeededSearch(t, seed, 0).Some?
    ensures ok ==> c[..] == SeededSearch(t, seed, 0).value
    ensures ok ==> FinalStateOk(t, c[..])
  {
    SeededSearchOk(t, seed, 0);
    for attempt := 0 to MAX_ATTEMPTS
      invariant SeededSearch(t, seed, 0) == SeededSearch(t, seed, attempt)
    {
      var valid := SeededFill(t, (seed + attempt) % 0x1_0000_0000, c);
      if valid {
        var allValid := CheckInverse(t, c[..]);
        if allValid {
          return true;
        }
      }
    }
    return false;
  }
}
