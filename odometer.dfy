/**
 * dfs_iterative_optimized: the depth-first backward search of
 * hireme2_safe_optimized.c, driven by an explicit stack of frames and a
 * mixed-radix odometer instead of recursion.
 *
 * Frame i works on the state in row i of the state buffer, at round i.
 * On entry (counter_pos 0) a frame recomputes v = invM·state and the
 * radices, pops itself when some byte has no preimage, and otherwise
 * writes the child its digit vector idx picks into the next row and
 * pushes a fresh frame for it.  When the child's frame is popped, the
 * frame advances idx by one (position 0 least significant) and enters
 * again, or pops itself once the odometer wraps.  There is no cap on the
 * number of combos and no randomness (the seed is never read): the
 * children are tried in ascending combo order, and the search finds the
 * first leaf of the unbounded tree, a function of the start state alone.
 *
 * The loop terminates: every pass removes one from the number of passes
 * the live frames still need (Work, WorkFrom, Remaining).
 */
module Odometer {
  import opened Gf2
  import opened Network
  import opened Preimage
  import opened FinalState
  import opened SearchCore
  import opened Wrappers
  import opened SearchTree

  /** Rows of state_buffer and frames of the stack. */
  const STACK_FRAMES: nat := 257

  /** The search tries every combo of every node. */
  const POLICY := Unbounded

  // ---------------------------------------------------------------------
  // The odometer

  /**
   * The digit vector after d, position 0 least significant; None when
   * every digit wraps.
   */
  function Next(d: seq<nat>, r: seq<nat>): Option<seq<nat>>
    requires |d| == |r|
  {
    if |d| == 0 then None
    else if d[0] + 1 < r[0] then Some([d[0] + 1] + d[1..])
    else match Next(d[1..], r[1..])
      case None => None
      case Some(rest) => Some([0] + rest)
  }

  /** Advancing the digits of e gives the digits of e + 1, and wraps
      exactly at the last combo. */
  lemma {:induction false} NextDigits(e: nat, r: seq<nat>)
    requires Positive(r) && e < Product(r)
    ensures Next(Digits(e, r), r) == if e + 1 < Product(r) then Some(Digits(e + 1, r)) else None
    decreases |r|
  {
    if |r| > 0 {
      var b, p := r[0], Product(r[1..]);
      var d := Digits(e, r);
      assert d[0] == e % b && d[1..] == Digits(e / b, r[1..]);
      if e % b + 1 < b {
        StepNoCarry(e, b, p);
        assert Next(d, r) == Some([e % b + 1] + Digits(e / b, r[1..]));
      } else {
        StepCarry(e, b, p);
        NextDigits(e / b, r[1..]);
      }
    }
  }

  /** e + 1 keeps the quotient by b when the remainder does not wrap. */
  lemma StepNoCarry(e: nat, b: nat, p: nat)
    requires b > 0 && e < b * p && e % b + 1 < b
    ensures (e + 1) / b == e / b && (e + 1) % b == e % b + 1 && e + 1 < b * p
  {
    var q := e / b;
    assert e == b * q + e % b;
    DivModUnique(e + 1, b, q, e % b + 1);
    if q >= p {
      MulLe(b, p, q);
    }
    MulLe(b, q + 1, p);
  }

  /** e + 1 carries into the quotient by b when the remainder wraps. */
  lemma StepCarry(e: nat, b: nat, p: nat)
    requires b > 0 && e < b * p && e % b + 1 >= b
    ensures (e + 1) / b == e / b + 1 && (e + 1) % b == 0 && e / b < p
    ensures e + 1 < b * p <==> e / b + 1 < p
  {
    var q := e / b;
    assert e == b * q + e % b;
    DivModUnique(e + 1, b, q + 1, 0);
    if q >= p {
      MulLe(b, p, q);
    }
    if q + 1 < p {
      MulLe(b, q + 1, p - 1);
    }
  }

  /** Prefixing k zeros to a digit vector, if any. */
  function Lift(k: nat, o: Option<seq<nat>>): Option<seq<nat>> {
    if o.None? then None else Some(seq(k, _ => 0) + o.value)
  }

  /** No zeros to prefix. */
  lemma LiftZero(o: Option<seq<nat>>)
    ensures Lift(0, o) == o
  {
    if o.Some? {
      assert seq(0, _ => 0) + o.value == o.value;
    }
  }

  /** Wrapping a digit moves the odometer on to the next position. */
  lemma NextCarry(d: seq<nat>, r: seq<nat>, k: nat, next: seq<nat>)
    requires |d| == |r| && k < |d| && d[k] + 1 >= r[k] && next == seq(k, _ => 0) + d[k..]
    ensures Lift(k, Next(d[k..], r[k..])) == Lift(k + 1, Next(d[k + 1..], r[k + 1..]))
    ensures next[k := 0] == seq(k + 1, _ => 0) + d[k + 1..]
  {
    assert d[k..][1..] == d[k + 1..] && r[k..][1..] == r[k + 1..];
    var o := Next(d[k + 1..], r[k + 1..]);
    if o.Some? {
      assert seq(k, _ => 0) + ([0] + o.value) == seq(k + 1, _ => 0) + o.value;
    }
  }

  /** A digit that does not wrap ends the increment. */
  lemma NextStop(d: seq<nat>, r: seq<nat>, k: nat, next: seq<nat>)
    requires |d| == |r| && k < |d| && d[k] + 1 < r[k] && next == seq(k, _ => 0) + d[k..]
    ensures Lift(k, Next(d[k..], r[k..])) == Some(next[k := d[k] + 1])
  {
    assert d[k..][1..] == d[k + 1..];
    assert next[k := d[k] + 1] == seq(k, _ => 0) + ([d[k] + 1] + d[k + 1..]);
  }

  /**
   * The increment loop: `if (++idx[k] < choices_per_pos[k]) break;
   * idx[k] = 0;` for k = 0, 1, ...; k reaches 32 exactly when every
   * digit wrapped.
   */
  method Increment(idx: seq<nat>, choices: seq<nat>) returns (next: seq<nat>, k: nat)
    requires |idx| == 32 && |choices| == 32
    ensures k <= 32 && |next| == 32
    ensures k == 32 <==> Next(idx, choices).None?
    ensures k < 32 ==> Next(idx, choices) == Some(next)
  {
    next := idx;
    k := 0;
    assert idx[0..] == idx && choices[0..] == choices;
    assert next == seq(0, _ => 0) + idx[0..];
    LiftZero(Next(idx, choices));
    while k < 32
      invariant k <= 32 && |next| == 32
      invariant next == seq(k, _ => 0) + idx[k..]
      invariant Next(idx, choices) == Lift(k, Next(idx[k..], choices[k..]))
    {
      if next[k] + 1 < choices[k] {
        NextStop(idx, choices, k, next);
        next := next[k := next[k] + 1];
        return;
      }
      NextCarry(idx, choices, k, next);
      next := next[k := 0];
      k := k + 1;
    }
  }

  /** A fresh frame's zeroed digits are the digits of combo 0. */
  lemma {:induction false} DigitsZero(r: seq<nat>)
    requires Positive(r)
    ensures Digits(0, r) == seq(|r|, _ => 0)
    decreases |r|
  {
    if |r| > 0 {
      DigitsZero(r[1..]);
    }
  }

  // ---------------------------------------------------------------------
  // Frames

  /** dfs_frame_t; choices_ptr[j] is always inv_low[v[j]] and is read
      through the tables. */
  datatype Frame = Frame(round: int, idx: seq<nat>, choices: seq<nat>, v: seq<nat>, counterPos: int)

  /** The loop passes a frame at state s with k rounds to go needs from
      entry to pop. */
  ghost function Work(t: ShapedTables, s: seq<nat>, k: nat): nat
    requires IsState(s)
    decreases k, 1, 0
  {
    if k == 0 || !Expanded(t, POLICY, s) then 1 else WorkFrom(t, s, k, 0)
  }

  /** The passes for combos c, c + 1, ...: one to push the child, the
      child's own, and one to advance the odometer. */
  ghost function WorkFrom(t: ShapedTables, s: seq<nat>, k: nat, c: nat): nat
    requires IsState(s) && Expanded(t, POLICY, s) && k > 0
    decreases k, 0, Fanout(t, POLICY, s) - c
  {
    if c >= Fanout(t, POLICY, s) then 0
    else 2 + Work(t, Child(t, s, c), k - 1) + WorkFrom(t, s, k, c + 1)
  }

  /** The passes a live frame at combo e still needs, its children's
      excluded. */
  ghost function Remaining(t: ShapedTables, f: Frame, s: seq<nat>, k: nat, e: nat): nat
    requires IsState(s)
  {
    if k == 0 || !Expanded(t, POLICY, s) then 1
    else if f.counterPos == 1 then 1 + WorkFrom(t, s, k, e + 1)
    else WorkFrom(t, s, k, e)
  }

  /** No leaf lies below the combos before e. */
  ghost predicate Skipped(t: ShapedTables, s: seq<nat>, k: nat, e: nat)
    requires IsState(s) && Expanded(t, POLICY, s) && k > 0
  {
    LeavesFrom(t, POLICY, s, k, 0) == LeavesFrom(t, POLICY, s, k, e)
  }

  /** The frame has recomputed v and the radices of s, and idx holds the
      digits of combo e. */
  ghost predicate Ready(t: ShapedTables, f: Frame, s: seq<nat>, e: nat)
    requires IsState(s)
  {
    Expanded(t, POLICY, s) && f.v == Mul(t.invM, s) && IsState(f.v) && f.choices == Choices(t, f.v) &&
    e < Product(f.choices) && f.idx == Digits(e, f.choices)
  }

  /** A frame below the top: it pushed the child of combo e, and no leaf
      lies below the earlier combos. */
  ghost predicate Pushed(t: ShapedTables, f: Frame, s: seq<nat>, child: seq<nat>, k: nat, e: nat)
    requires IsState(s)
  {
    f.counterPos == 1 && k > 0 && Ready(t, f, s, e) && child == Child(t, s, e) && Skipped(t, s, k, e)
  }

  /** The top frame: about to enter at combo e, or back from the child of
      combo e, which held no leaf. */
  ghost predicate Top(t: ShapedTables, f: Frame, s: seq<nat>, k: nat, e: nat)
    requires IsState(s)
  {
    (f.counterPos == 0 && |f.idx| == 32 &&
     (k > 0 && Expanded(t, POLICY, s) ==>
        e < Fanout(t, POLICY, s) && f.idx == Digits(e, Choices(t, Mul(t.invM, s))) && Skipped(t, s, k, e))) ||
    (f.counterPos == 1 && k > 0 && Ready(t, f, s, e) && Skipped(t, s, k, e + 1))
  }

  /** A child without leaves moves the skipped prefix on by one combo. */
  lemma SkipEmpty(t: ShapedTables, s: seq<nat>, k: nat, e: nat)
    requires IsState(s) && Expanded(t, POLICY, s) && k > 0 && e < Fanout(t, POLICY, s)
    requires Skipped(t, s, k, e) && |Leaves(t, POLICY, Child(t, s, e), k - 1)| == 0
    ensures Skipped(t, s, k, e + 1)
  {
    LeavesFromStep(t, POLICY, s, k, e);
  }

  /** new_state[j] = choices_ptr[j][idx[j]]. */
  method GenerateChild(t: ShapedTables, v: seq<nat>, idx: seq<nat>) returns (child: seq<nat>)
    requires IsState(v) && |idx| == 32 && forall j :: 0 <= j < 32 ==> idx[j] < 256
    ensures child == ChildOf(t, v, idx)
  {
    child := [];
    for j := 0 to 32
      invariant |child| == j
      invariant forall i :: 0 <= i < j ==> child[i] == t.invLow[v[i]][idx[i]]
    {
      child := child + [t.invLow[v[j]][idx[j]]];
    }
  }

  // ---------------------------------------------------------------------
  // The stack

  /** The passes frame f, k rounds from the input and below the top,
      still needs, when it pushed child, the state in the row above it;
      None when it did not. */
  ghost function SettledNeed(t: ShapedTables, f: Frame, s: seq<nat>, child: seq<nat>, k: nat, e: nat): Option<nat>
  {
    if f.round + k == ROUNDS && IsState(s) && IsState(child) && Pushed(t, f, s, child, k, e)
    then Some(Remaining(t, f, s, k, e)) else None
  }

  /** Frame f, below the top, still needs r passes. */
  ghost predicate Settled(t: ShapedTables, f: Frame, s: seq<nat>, child: seq<nat>, k: nat, e: nat, r: nat)
  {
    SettledNeed(t, f, s, child, k, e) == Some(r)
  }

  /** The passes frame f, k rounds from the input and on top of the
      stack, still needs; None when it is not a consistent top frame. */
  ghost function LiveNeed(t: ShapedTables, f: Frame, s: seq<nat>, k: nat, e: nat): Option<nat>
  {
    if f.round + k == ROUNDS && IsState(s) && Top(t, f, s, k, e) then Some(Remaining(t, f, s, k, e)) else None
  }

  /** Frame f, on top of the stack, still needs r passes. */
  ghost predicate Live(t: ShapedTables, f: Frame, s: seq<nat>, k: nat, e: nat, r: nat)
  {
    LiveNeed(t, f, s, k, e) == Some(r)
  }

  /** The stack rows: a frame, its row of the state buffer, the combo its
      odometer stands at and the passes it still needs, per depth. */
  ghost predicate Sized(fs: seq<Frame>, ss: seq<seq<nat>>, es: seq<nat>, rs: seq<nat>) {
    |fs| == |ss| == |es| == |rs| == STACK_FRAMES
  }

  /** Frame i of the n live frames: settled on the row above it when it
      is below the top, live when it is the top. */
  ghost predicate Held(t: ShapedTables, fs: seq<Frame>, ss: seq<seq<nat>>, es: seq<nat>, rs: seq<nat>, n: nat, i: nat)
    requires Sized(fs, ss, es, rs) && i < n <= STACK_FRAMES
  {
    if i + 1 < n then Settled(t, fs[i], ss[i], ss[i + 1], ROUNDS - i, es[i], rs[i])
    else Live(t, fs[i], ss[i], ROUNDS - i, es[i], rs[i])
  }

  /**
   * The n live frames describe a depth-first walk from initial: each
   * frame below the top pushed the child in the row above it, and no leaf
   * lies below any combo a frame has left behind.  With no frame left,
   * initial has no leaf.
   */
  ghost predicate Frames(t: ShapedTables, initial: seq<nat>, fs: seq<Frame>, ss: seq<seq<nat>>, es: seq<nat>, rs: seq<nat>, n: nat)
  {
    IsState(initial) && Sized(fs, ss, es, rs) && n <= STACK_FRAMES &&
    (n == 0 ==> |Leaves(t, POLICY, initial, ROUNDS)| == 0) &&
    (n > 0 ==> ss[0] == initial && IsState(ss[n - 1])) &&
    forall i :: 0 <= i < n ==> Held(t, fs, ss, es, rs, n, i)
  }

  /** The top frame n - 1 of the walk is live. */
  lemma TopOf(t: ShapedTables, initial: seq<nat>, fs: seq<Frame>, ss: seq<seq<nat>>, es: seq<nat>, rs: seq<nat>, n: nat)
    requires Frames(t, initial, fs, ss, es, rs, n) && n > 0
    ensures Live(t, fs[n - 1], ss[n - 1], ROUNDS - (n - 1), es[n - 1], rs[n - 1])
  {
    assert Held(t, fs, ss, es, rs, n, n - 1);
  }

  /** The passes the n live frames still need. */
  ghost function Pending(rs: seq<nat>, n: nat): nat
    requires n <= |rs|
  {
    if n == 0 then 0 else Pending(rs, n - 1) + rs[n - 1]
  }

  /** Pending n looks at the first n counts only. */
  lemma {:induction false} PendingSame(rs: seq<nat>, rs': seq<nat>, n: nat)
    requires n <= |rs| && n <= |rs'| && forall i :: 0 <= i < n ==> rs'[i] == rs[i]
    ensures Pending(rs', n) == Pending(rs, n)
    decreases n
  {
    if n > 0 {
      PendingSame(rs, rs', n - 1);
    }
  }

  /** Down the settled frames, the first leaf below row j is the first
      leaf below initial. */
  lemma {:induction false} BelowFirstLeaf(t: ShapedTables, initial: seq<nat>, fs: seq<Frame>, ss: seq<seq<nat>>, es: seq<nat>,
                                          rs: seq<nat>, n: nat, j: nat, k: nat)
    requires Frames(t, initial, fs, ss, es, rs, n) && j < n && k == ROUNDS - j
    requires IsState(ss[j]) && |Leaves(t, POLICY, ss[j], k)| > 0
    ensures |Leaves(t, POLICY, initial, ROUNDS)| > 0
    ensures Leaves(t, POLICY, initial, ROUNDS)[0] == Leaves(t, POLICY, ss[j], k)[0]
    decreases j
  {
    if j > 0 {
      var s, e := ss[j - 1], es[j - 1];
      assert ROUNDS - (j - 1) == k + 1;
      assert Held(t, fs, ss, es, rs, n, j - 1);
      SettledFirstLeaf(t, fs[j - 1], s, ss[j], k, e, rs[j - 1]);
      BelowFirstLeaf(t, initial, fs, ss, es, rs, n, j - 1, k + 1);
    }
  }

  /** The first frame, on initial at round 0 with its digits zeroed. */
  lemma FirstFrame(t: ShapedTables, initial: seq<nat>, fs: seq<Frame>, ss: seq<seq<nat>>, es: seq<nat>, rs: seq<nat>)
    requires IsState(initial) && Sized(fs, ss, es, rs)
    requires fs[0].round == 0 && fs[0].idx == Zeros() && fs[0].counterPos == 0
    requires ss[0] == initial && es[0] == 0 && rs[0] == Work(t, initial, ROUNDS)
    ensures Frames(t, initial, fs, ss, es, rs, 1)
  {
    FreshFrame(t, fs[0], initial, ROUNDS);
    assert Held(t, fs, ss, es, rs, 1, 0);
  }

  /** A frame at round 256 holds the first leaf below initial. */
  lemma FoundFirst(t: ShapedTables, initial: seq<nat>, fs: seq<Frame>, ss: seq<seq<nat>>, es: seq<nat>, rs: seq<nat>, n: nat)
    requires Frames(t, initial, fs, ss, es, rs, n) && n > 0 && fs[n - 1].round == ROUNDS
    ensures |Leaves(t, POLICY, initial, ROUNDS)| > 0
    ensures Leaves(t, POLICY, initial, ROUNDS)[0] == ss[n - 1]
  {
    TopOf(t, initial, fs, ss, es, rs, n);
    assert Leaves(t, POLICY, ss[n - 1], 0) == [ss[n - 1]];
    BelowFirstLeaf(t, initial, fs, ss, es, rs, n, n - 1, ROUNDS - (n - 1));
  }

  /** Popping the top frame n - 1, k rounds from the input, which has no
      leaf, keeps the walk, and its parent moves past the combo it came
      from. */
  lemma PopFrame(t: ShapedTables, initial: seq<nat>, fs: seq<Frame>, ss: seq<seq<nat>>, es: seq<nat>, rs: seq<nat>, n: nat, k: nat)
    requires Frames(t, initial, fs, ss, es, rs, n) && n > 0 && k == ROUNDS - (n - 1) && k > 0
    requires |Leaves(t, POLICY, ss[n - 1], k)| == 0
    ensures Frames(t, initial, fs, ss, es, rs, n - 1)
    ensures Pending(rs, n - 1) < Pending(rs, n)
  {
    assert rs[n - 1] > 0 by {
      TopOf(t, initial, fs, ss, es, rs, n);
      LivePositive(t, fs[n - 1], ss[n - 1], k, es[n - 1], rs[n - 1]);
    }
    HeldAllAfterPop(t, fs, ss, es, rs, n, n - 1);
  }

  /** Popping the top frame keeps the frames below it held. */
  lemma HeldAllAfterPop(t: ShapedTables, fs: seq<Frame>, ss: seq<seq<nat>>, es: seq<nat>, rs: seq<nat>, n: nat, m: nat)
    requires Sized(fs, ss, es, rs) && 0 < n <= STACK_FRAMES && n <= ROUNDS + 1 && IsState(ss[n - 1]) && m + 1 == n
    requires forall i :: 0 <= i < n ==> Held(t, fs, ss, es, rs, n, i)
    requires |Leaves(t, POLICY, ss[n - 1], ROUNDS - (n - 1))| == 0
    ensures forall i :: 0 <= i < m ==> Held(t, fs, ss, es, rs, m, i)
    ensures n > 1 ==> IsState(ss[n - 2])
  {
    HeldBelowAfterPop(t, fs, ss, es, rs, n, m);
    if n > 1 {
      NewTopLive(t, fs, ss, es, rs, n);
    }
  }

  /** The frame below a popped top frame without leaves is live again. */
  lemma NewTopLive(t: ShapedTables, fs: seq<Frame>, ss: seq<seq<nat>>, es: seq<nat>, rs: seq<nat>, n: nat)
    requires Sized(fs, ss, es, rs) && 1 < n <= STACK_FRAMES && n <= ROUNDS + 1 && IsState(ss[n - 1])
    requires Held(t, fs, ss, es, rs, n, n - 2)
    requires |Leaves(t, POLICY, ss[n - 1], ROUNDS - (n - 1))| == 0
    ensures Held(t, fs, ss, es, rs, n - 1, n - 2)
  {
    var i := n - 2;
    SettledToLive(t, fs[i], ss[i], ss[i + 1], ROUNDS - i, es[i], rs[i]);
  }

  /** Popping the top frame keeps the frames below the new top held. */
  lemma HeldBelowAfterPop(t: ShapedTables, fs: seq<Frame>, ss: seq<seq<nat>>, es: seq<nat>, rs: seq<nat>, n: nat, m: nat)
    requires Sized(fs, ss, es, rs) && 0 < n <= STACK_FRAMES && m + 1 == n
    requires forall i :: 0 <= i < n ==> Held(t, fs, ss, es, rs, n, i)
    ensures forall i :: 0 <= i < n - 2 ==> Held(t, fs, ss, es, rs, m, i)
  {
    forall i | 0 <= i < n - 2
      ensures Held(t, fs, ss, es, rs, m, i)
    {
      assert Held(t, fs, ss, es, rs, n, i);
    }
  }

  /** Pushing a frame keeps the frames below the old top held. */
  lemma HeldBelowAfterPush(t: ShapedTables, fs: seq<Frame>, ss: seq<seq<nat>>, es: seq<nat>, rs: seq<nat>, n: nat,
                           fs': seq<Frame>, ss': seq<seq<nat>>, es': seq<nat>, rs': seq<nat>, m: nat)
    requires Sized(fs, ss, es, rs) && Sized(fs', ss', es', rs') && 0 < n < STACK_FRAMES && m == n + 1
    requires forall i :: 0 <= i < n ==> Held(t, fs, ss, es, rs, n, i)
    requires forall i :: 0 <= i < n - 1 ==> fs'[i] == fs[i] && es'[i] == es[i] && rs'[i] == rs[i]
    requires forall i :: 0 <= i < n ==> ss'[i] == ss[i]
    ensures forall i :: 0 <= i < n - 1 ==> Held(t, fs', ss', es', rs', m, i)
  {
    forall i | 0 <= i < n - 1
      ensures Held(t, fs', ss', es', rs', m, i)
    {
      assert Held(t, fs, ss, es, rs, n, i);
      assert ss'[i + 1] == ss[i + 1];
    }
  }

  /** The old top, now settled on the pushed child, and the pushed frame
      are held. */
  lemma HeldTopAfterPush(t: ShapedTables, fs: seq<Frame>, ss: seq<seq<nat>>, es: seq<nat>, rs: seq<nat>,
                         n: nat, k: nat, w: nat, c: nat)
    requires Sized(fs, ss, es, rs) && 0 < n < STACK_FRAMES && k == ROUNDS - (n - 1)
    requires rs[n - 1] == 1 + w && rs[n] == c && es[n] == 0
    requires Settled(t, fs[n - 1], ss[n - 1], ss[n], k, es[n - 1], 1 + w)
    requires Live(t, fs[n], ss[n], k - 1, 0, c)
    ensures Held(t, fs, ss, es, rs, n + 1, n - 1) && Held(t, fs, ss, es, rs, n + 1, n)
  {
    assert ROUNDS - n == k - 1;
  }

  /** The first leaf below the child a settled frame pushed is the first
      leaf below the frame's own state. */
  lemma SettledFirstLeaf(t: ShapedTables, f: Frame, s: seq<nat>, child: seq<nat>, k: nat, e: nat, r: nat)
    requires Settled(t, f, s, child, k + 1, e, r) && IsState(child) && |Leaves(t, POLICY, child, k)| > 0
    ensures IsState(s) && |Leaves(t, POLICY, s, k + 1)| > 0
    ensures Leaves(t, POLICY, s, k + 1)[0] == Leaves(t, POLICY, child, k)[0]
  {
    LeavesFromStep(t, POLICY, s, k + 1, e);
  }

  /** A settled frame whose child has no leaf is live again, back from
      that child. */
  lemma SettledToLive(t: ShapedTables, f: Frame, s: seq<nat>, child: seq<nat>, k: nat, e: nat, r: nat)
    requires Settled(t, f, s, child, k, e, r)
    requires |Leaves(t, POLICY, child, k - 1)| == 0
    ensures Live(t, f, s, k, e, r)
  {
    SkipEmpty(t, s, k, e);
  }

  /** A live frame needs at least one more pass. */
  lemma LiveIsState(t: ShapedTables, f: Frame, s: seq<nat>, k: nat, e: nat, r: nat)
    requires Live(t, f, s, k, e, r)
    ensures IsState(s)
  {
  }

  lemma LivePositive(t: ShapedTables, f: Frame, s: seq<nat>, k: nat, e: nat, r: nat)
    requires Live(t, f, s, k, e, r)
    ensures r > 0
  {
  }

  /** On entry to a feasible top frame its digits are those of its combo,
      and they pick the child of that combo. */
  lemma EnterLive(t: ShapedTables, f: Frame, s: seq<nat>, k: nat, e: nat, r: nat)
    requires Live(t, f, s, k, e, r) && k > 0 && f.counterPos == 0 && InverseFeasible(t, s)
    ensures IsState(Mul(t.invM, s)) && Positive(Choices(t, Mul(t.invM, s)))
    ensures e < Product(Choices(t, Mul(t.invM, s))) && f.idx == Digits(e, Choices(t, Mul(t.invM, s)))
    ensures |f.idx| == 32 && forall j :: 0 <= j < 32 ==> f.idx[j] < 256
    ensures ChildOf(t, Mul(t.invM, s), f.idx) == Child(t, s, e)
  {
    FeasibleChoices(t, s);
  }

  /** The digits of a feasible top frame can be decoded. */
  lemma EnterShape(t: ShapedTables, f: Frame, s: seq<nat>, k: nat, e: nat, r: nat)
    requires Live(t, f, s, k, e, r) && k > 0 && f.counterPos == 0 && InverseFeasible(t, s)
    ensures |f.idx| == 32 && forall j :: 0 <= j < 32 ==> f.idx[j] < 256
  {
    EnterLive(t, f, s, k, e, r);
  }

  /** Pushing the child of a live top frame's combo: the frame, with v
      and the radices recorded, is settled on the child, needing w more
      passes, and a fresh frame on the child is live, needing c. */
  lemma PushLive(t: ShapedTables, g: Frame, s: seq<nat>, k: nat, e: nat, r: nat,
                 v: seq<nat>, f: Frame, top: Frame, child: seq<nat>) returns (w: nat, c: nat)
    requires Live(t, g, s, k, e, r) && k > 0 && g.counterPos == 0 && InverseFeasible(t, s)
    requires v == Mul(t.invM, s) && IsState(v) && f == g.(v := v, choices := Choices(t, v), counterPos := 1)
    requires top.round == g.round + 1 && top.idx == Zeros() && top.counterPos == 0
    requires |g.idx| == 32 && (forall i :: 0 <= i < 32 ==> g.idx[i] < 256) && child == ChildOf(t, v, g.idx)
    ensures Settled(t, f, s, child, k, e, 1 + w) && Live(t, top, child, k - 1, 0, c) && r == 2 + c + w
  {
    EnterLive(t, g, s, k, e, r);
    FreshFrame(t, top, child, k - 1);
    w, c := WorkFrom(t, s, k, e + 1), Work(t, child, k - 1);
  }

  /** The stack after a push: the old top settled on the child, and the
      fresh frame on the child live above it. */
  lemma PushStack(t: ShapedTables, initial: seq<nat>, fs: seq<Frame>, ss: seq<seq<nat>>, es: seq<nat>, rs: seq<nat>,
                  n: nat, k: nat, f: Frame, s: seq<nat>, e: nat, r: nat, w: nat, top: Frame, child: seq<nat>, c: nat)
    requires Frames(t, initial, fs, ss, es, rs, n) && 0 < n < STACK_FRAMES && k == ROUNDS - (n - 1)
    requires ss[n - 1] == s && es[n - 1] == e && rs[n - 1] == r && r == 2 + c + w
    requires Settled(t, f, s, child, k, e, 1 + w) && Live(t, top, child, k - 1, 0, c)
    ensures Frames(t, initial, fs[n - 1 := f][n := top], ss[n := child], es[n := 0], rs[n - 1 := 1 + w][n := c], n + 1)
    ensures Pending(rs[n - 1 := 1 + w][n := c], n + 1) < Pending(rs, n)
  {
    var fs', ss', es', rs' := fs[n - 1 := f][n := top], ss[n := child], es[n := 0], rs[n - 1 := 1 + w][n := c];
    HeldBelowAfterPush(t, fs, ss, es, rs, n, fs', ss', es', rs', n + 1);
    HeldTopAfterPush(t, fs', ss', es', rs', n, k, w, c);
    LiveIsState(t, top, child, k - 1, 0, c);
    PendingAfterPush(rs, n, w, c);
  }

  /** Splitting the top's count 2 + c + w into 1 + w below and c on a new
      top lowers the pending passes by one. */
  lemma PendingAfterPush(rs: seq<nat>, n: nat, w: nat, c: nat)
    requires 0 < n < |rs| && rs[n - 1] == 2 + c + w
    ensures Pending(rs[n - 1 := 1 + w][n := c], n + 1) < Pending(rs, n)
  {
    var rs' := rs[n - 1 := 1 + w][n := c];
    PendingSame(rs, rs', n - 1);
    assert Pending(rs', n + 1) == Pending(rs', n - 1) + (1 + w) + c;
    assert Pending(rs, n) == Pending(rs, n - 1) + rs[n - 1];
  }

  /**
   * Entering a feasible top frame n - 1, k rounds from the input: it
   * records v and its radices and is settled on the child of its combo,
   * and a fresh frame on that child goes on top, with fewer passes left in
   * all.
   */
  lemma PushFrame(t: ShapedTables, initial: seq<nat>, fs: seq<Frame>, ss: seq<seq<nat>>, es: seq<nat>, rs: seq<nat>,
                  n: nat, k: nat, g: Frame, v: seq<nat>, f: Frame, top: Frame, child: seq<nat>) returns (rs': seq<nat>)
    requires Frames(t, initial, fs, ss, es, rs, n) && n > 0 && k == ROUNDS - (n - 1) && k > 0
    requires fs[n - 1] == g && g.counterPos == 0 && InverseFeasible(t, ss[n - 1])
    requires v == Mul(t.invM, ss[n - 1]) && IsState(v)
    requires f == g.(v := v, choices := Choices(t, v), counterPos := 1)
    requires top.round == n && top.idx == Zeros() && top.counterPos == 0
    requires |g.idx| == 32 && (forall i :: 0 <= i < 32 ==> g.idx[i] < 256) && child == ChildOf(t, v, g.idx)
    ensures Frames(t, initial, fs[n - 1 := f][n := top], ss[n := child], es[n := 0], rs', n + 1)
    ensures Pending(rs', n + 1) < Pending(rs, n)
  {
    var s, e, r := ss[n - 1], es[n - 1], rs[n - 1];
    TopOf(t, initial, fs, ss, es, rs, n);
    var w, c := PushLive(t, g, s, k, e, r, v, f, top, child);
    rs' := rs[n - 1 := 1 + w][n := c];
    PushStack(t, initial, fs, ss, es, rs, n, k, f, s, e, r, w, top, child, c);
  }

  /** Replacing the top frame n - 1 by another live frame on the same row
      keeps the walk. */
  lemma ReplaceTop(t: ShapedTables, initial: seq<nat>, fs: seq<Frame>, ss: seq<seq<nat>>, es: seq<nat>, rs: seq<nat>,
                   n: nat, k: nat, f: Frame, e: nat, r: nat)
    requires Frames(t, initial, fs, ss, es, rs, n) && n > 0 && k == ROUNDS - (n - 1)
    requires Live(t, f, ss[n - 1], k, e, r)
    ensures Frames(t, initial, fs[n - 1 := f], ss, es[n - 1 := e], rs[n - 1 := r], n)
    ensures Pending(rs[n - 1 := r], n) + rs[n - 1] == Pending(rs, n) + r
  {
    var fs', es', rs' := fs[n - 1 := f], es[n - 1 := e], rs[n - 1 := r];
    forall i | 0 <= i < n
      ensures Held(t, fs', ss, es', rs', n, i)
    {
      if i + 1 < n {
        assert Held(t, fs, ss, es, rs, n, i);
      }
    }
    PendingSame(rs, rs', n - 1);
  }

  /** Advancing the odometer of the top frame n - 1, back from a child
      without leaves, to the next combo. */
  lemma AdvanceFrame(t: ShapedTables, initial: seq<nat>, fs: seq<Frame>, ss: seq<seq<nat>>, es: seq<nat>, rs: seq<nat>,
                     n: nat, k: nat, g: Frame, next: seq<nat>) returns (es': seq<nat>, rs': seq<nat>)
    requires Frames(t, initial, fs, ss, es, rs, n) && n > 0 && k == ROUNDS - (n - 1) && k > 0
    requires fs[n - 1] == g && g.counterPos != 0 && |g.idx| == |g.choices| && Next(g.idx, g.choices) == Some(next)
    ensures Frames(t, initial, fs[n - 1 := g.(idx := next, counterPos := 0)], ss, es', rs', n)
    ensures Pending(rs', n) < Pending(rs, n)
  {
    var s, e, r := ss[n - 1], es[n - 1], rs[n - 1];
    TopOf(t, initial, fs, ss, es, rs, n);
    var w := AdvanceLive(t, g, s, k, e, r, next);
    ReplaceTop(t, initial, fs, ss, es, rs, n, k, g.(idx := next, counterPos := 0), e + 1, w);
    es', rs' := es[n - 1 := e + 1], rs[n - 1 := w];
  }

  /** Writing above the n live frames leaves the walk as it is. */
  lemma FramesAbove(t: ShapedTables, initial: seq<nat>, fs: seq<Frame>, ss: seq<seq<nat>>, es: seq<nat>, rs: seq<nat>,
                    n: nat, i: nat, x: Frame)
    requires Frames(t, initial, fs, ss, es, rs, n) && n <= i < STACK_FRAMES
    ensures Frames(t, initial, fs[i := x], ss, es, rs, n)
  {
    var fs' := fs[i := x];
    forall j | 0 <= j < n
      ensures Held(t, fs', ss, es, rs, n, j)
    {
      assert Held(t, fs, ss, es, rs, n, j);
    }
  }

  /** The top frame, advanced to the next combo, enters again, and needs
      one pass fewer. */
  lemma AdvanceLive(t: ShapedTables, f: Frame, s: seq<nat>, k: nat, e: nat, r: nat, next: seq<nat>) returns (w: nat)
    requires Live(t, f, s, k, e, r) && f.counterPos != 0
    requires |f.idx| == |f.choices| && Next(f.idx, f.choices) == Some(next)
    ensures Live(t, f.(idx := next, counterPos := 0), s, k, e + 1, w) && r == 1 + w
  {
    NextDigits(e, f.choices);
    w := WorkFrom(t, s, k, e + 1);
  }

  /** A top frame whose odometer wraps has no leaf below it. */
  lemma WrapLive(t: ShapedTables, f: Frame, s: seq<nat>, k: nat, e: nat, r: nat)
    requires Live(t, f, s, k, e, r) && f.counterPos != 0
    requires |f.idx| == |f.choices| && Next(f.idx, f.choices).None?
    ensures |Leaves(t, POLICY, s, k)| == 0
  {
    NextDigits(e, f.choices);
  }

  /** A fresh frame is a valid top, and its count of passes is Work. */
  lemma FreshFrame(t: ShapedTables, f: Frame, s: seq<nat>, k: nat)
    requires IsState(s) && f.idx == Zeros() && f.counterPos == 0
    ensures Top(t, f, s, k, 0)
    ensures Remaining(t, f, s, k, 0) == Work(t, s, k)
  {
    if k > 0 && Expanded(t, POLICY, s) {
      var r := Choices(t, Mul(t.invM, s));
      DigitsZero(r);
      ProductPositive(r);
    }
  }

  /** A frame back from its child holds 32 digits and 32 radices. */
  lemma ChoicesShape(t: ShapedTables, f: Frame, s: seq<nat>, k: nat, e: nat, r: nat)
    requires Live(t, f, s, k, e, r) && k > 0
    ensures |f.idx| == 32 && (f.counterPos != 0 ==> |f.choices| == 32)
  {
  }

  // ---------------------------------------------------------------------
  // The search

  /** The cells of a hold xs. */
  ghost predicate Holds<T>(a: array<T>, xs: seq<T>)
    reads a
  {
    |xs| == a.Length && forall i :: 0 <= i < a.Length ==> a[i] == xs[i]
  }

  /** a[i] = x, on an array holding xs. */
  method Put<T>(a: array<T>, ghost xs: seq<T>, i: nat, x: T)
    requires Holds(a, xs) && i < a.Length
    modifies a
    ensures Holds(a, xs[i := x])
  {
    a[i] := x;
  }

  class IterativeSearch {
    /** The precomputed tables: inverse S-box table and inverse matrix. */
    const t: ShapedTables
    /** state_buffer: the state of the frame at each depth. */
    const buffer: array<seq<nat>>
    /** The frame stack. */
    const stack: array<Frame>
    /** The number of live frames. */
    var sp: nat
    /** The contents of stack. */
    ghost var frames: seq<Frame>
    /** The contents of buffer. */
    ghost var rows: seq<seq<nat>>
    /** The combo each frame's odometer stands at. */
    ghost var combos: seq<nat>
    /** The passes each frame still needs. */
    ghost var rems: seq<nat>

    ghost predicate Valid()
      reads this, buffer, stack
    {
      Sized(frames, rows, combos, rems) && Holds(stack, frames) && Holds(buffer, rows)
    }

    constructor (t: ShapedTables)
      ensures Valid() && this.t == t && fresh(buffer) && fresh(stack)
    {
      this.t := t;
      buffer := new seq<nat>[STACK_FRAMES];
      stack := new Frame[STACK_FRAMES];
      sp := 0;
      new;
      frames, rows := stack[..], buffer[..];
      combos, rems := seq(STACK_FRAMES, _ => 0), seq(STACK_FRAMES, _ => 0);
    }

    /** The live frames describe a depth-first walk from initial. */
    ghost predicate Inv(initial: seq<nat>)
      reads this, buffer, stack
    {
      Valid() && sp <= STACK_FRAMES && Frames(t, initial, frames, rows, combos, rems, sp)
    }

    /**
     * dfs_iterative_optimized(initial_state, solution, seed): finds a
     * solution exactly when the unbounded tree has a leaf, and then the
     * first one in ascending combo order.
     */
    method DfsIterative(initial: seq<nat>, solution: array<nat>, seed: nat) returns (found: bool)
      requires Valid() && IsState(initial) && solution.Length == 32
      modifies this, buffer, stack, solution
      ensures found <==> |Leaves(t, POLICY, initial, ROUNDS)| > 0
      ensures found ==> solution[..] == Leaves(t, POLICY, initial, ROUNDS)[0]
      ensures !found ==> solution[..] == old(solution[..])
    {
      Put(buffer, rows, 0, initial);
      var top := stack[0].(round := 0, idx := Zeros(), counterPos := 0);
      Put(stack, frames, 0, top);
      sp := 1;
      frames, rows, combos, rems := frames[0 := top], rows[0 := initial], combos[0 := 0], rems[0 := Work(t, initial, ROUNDS)];
      FirstFrame(t, initial, frames, rows, combos, rems);
      while sp > 0
        invariant Inv(initial) && solution[..] == old(solution[..])
        decreases Pending(rems, sp)
      {
        if stack[sp - 1].round == 256 {
          CopyState(buffer[sp - 1], solution);
          FoundFirst(t, initial, frames, rows, combos, rems, sp);
          return true;
        }
        if stack[sp - 1].counterPos == 0 {
          Enter(initial);
        } else {
          Advance(initial);
        }
      }
      return false;
    }

    /** The top frame, k rounds from the input, is live. */
    lemma TopLive(initial: seq<nat>, j: nat, k: nat)
      requires Inv(initial) && j + 1 == sp && k == ROUNDS - j
      ensures stack[j] == frames[j] && buffer[j] == rows[j]
      ensures Live(t, frames[j], rows[j], k, combos[j], rems[j])
    {
      TopOf(t, initial, frames, rows, combos, rems, sp);
    }

    /** Pop the top frame, k rounds from the input, which has no leaf. */
    method Pop(ghost initial: seq<nat>, ghost k: nat)
      requires Inv(initial) && sp > 0 && k == ROUNDS - (sp - 1) && k > 0
      requires |Leaves(t, POLICY, rows[sp - 1], k)| == 0
      modifies this
      ensures Inv(initial) && sp + 1 == old(sp) && frames == old(frames)
      ensures Pending(rems, sp) < old(Pending(rems, sp))
    {
      PopFrame(t, initial, frames, rows, combos, rems, sp, k);
      sp := sp - 1;
    }

    /** Store the top frame f, its odometer moved on to next, ready to
        enter again. */
    method Reenter(ghost initial: seq<nat>, ghost k: nat, f: Frame, next: seq<nat>)
      requires Inv(initial) && sp > 0 && k == ROUNDS - (sp - 1) && k > 0
      requires frames[sp - 1] == f && f.counterPos != 0 && |f.idx| == |f.choices| && Next(f.idx, f.choices) == Some(next)
      modifies this, stack
      ensures Inv(initial) && sp == old(sp)
      ensures Pending(rems, sp) < old(Pending(rems, sp))
    {
      var j := sp - 1;
      ghost var es', rs' := AdvanceFrame(t, initial, frames, rows, combos, rems, sp, k, f, next);
      Put(stack, frames, j, f.(idx := next, counterPos := 0));
      frames, combos, rems := frames[j := f.(idx := next, counterPos := 0)], es', rs';
    }

    /** Pop the top frame, whose odometer wrapped around, leaving x, its
        wrapped value, in the slot it vacates. */
    method PopWrapped(ghost initial: seq<nat>, ghost k: nat, x: Frame)
      requires Inv(initial) && sp > 0 && k == ROUNDS - (sp - 1) && k > 0
      requires |Leaves(t, POLICY, rows[sp - 1], k)| == 0
      modifies this, stack
      ensures Inv(initial) && sp + 1 == old(sp)
      ensures Pending(rems, sp) < old(Pending(rems, sp))
    {
      Pop(initial, k);
      FramesAbove(t, initial, frames, rows, combos, rems, sp, sp, x);
      Put(stack, frames, sp, x);
      frames := frames[sp := x];
    }

    /**
     * The entry of the top frame: recompute v, pop when some byte has no
     * preimage, else write the child of idx into the next row and push a
     * fresh frame for it.
     */
    method Enter(ghost initial: seq<nat>)
      requires Inv(initial) && sp > 0 && stack[sp - 1].round != 256 && stack[sp - 1].counterPos == 0
      modifies this, buffer, stack
      ensures Inv(initial) && Pending(rems, sp) < old(Pending(rems, sp))
    {
      var j := sp - 1;
      ghost var k := ROUNDS - j;
      TopLive(initial, j, k);
      var valid, v := InverseDiffusion(t, buffer[j]);
      if !valid {
        assert !Expanded(t, POLICY, rows[j]);
        Pop(initial, k);
        return;
      }
      EnterShape(t, frames[j], rows[j], k, combos[j], rems[j]);
      var f := stack[j].(v := v, choices := Choices(t, v), counterPos := 1);
      var child := GenerateChild(t, v, f.idx);
      ghost var top := stack[sp].(round := sp, idx := Zeros(), counterPos := 0);
      ghost var rs' := PushFrame(t, initial, frames, rows, combos, rems, sp, k, frames[j], v, f, top, child);
      Push(initial, f, child, rs');
    }

    /** The push: the child goes into the next row, f replaces the top
        frame and a fresh frame for the child goes on top. */
    method Push(ghost initial: seq<nat>, f: Frame, child: seq<nat>, ghost rs': seq<nat>)
      requires Inv(initial) && 0 < sp < STACK_FRAMES
      requires Frames(t, initial, frames[sp - 1 := f][sp := stack[sp].(round := sp, idx := Zeros(), counterPos := 0)],
                      rows[sp := child], combos[sp := 0], rs', sp + 1)
      requires Pending(rs', sp + 1) < Pending(rems, sp)
      modifies this, buffer, stack
      ensures Inv(initial) && Pending(rems, sp) < old(Pending(rems, sp))
    {
      var j := sp - 1;
      var top := stack[sp].(round := sp, idx := Zeros(), counterPos := 0);
      Put(buffer, rows, sp, child);
      Put(stack, frames, j, f);
      Put(stack, frames[j := f], sp, top);
      frames, rows, combos, rems := frames[j := f][sp := top], rows[sp := child], combos[sp := 0], rs';
      sp := sp + 1;
    }

    /**
     * The return to the top frame after its child: advance the odometer;
     * pop the frame once it wraps, else enter again at the next combo.
     */
    method Advance(ghost initial: seq<nat>)
      requires Inv(initial) && sp > 0 && stack[sp - 1].round != 256 && stack[sp - 1].counterPos != 0
      modifies this, buffer, stack
      ensures Inv(initial) && Pending(rems, sp) < old(Pending(rems, sp))
    {
      var j := sp - 1;
      ghost var k := ROUNDS - j;
      TopLive(initial, j, k);
      var f := stack[j];
      ChoicesShape(t, f, rows[j], k, combos[j], rems[j]);
      var next, carry := Increment(f.idx, f.choices);
      if carry == 32 {
        WrapLive(t, f, rows[j], k, combos[j], rems[j]);
        PopWrapped(initial, k, f.(idx := next));
      } else {
        Reenter(initial, k, f, next);
      }
    }
  }
}
