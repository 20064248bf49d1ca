/**
 * The substitution/diffusion network of the crack-me.
 *
 * The confusion table has 512 bytes: S_low is its first half, S_high its
 * second half.  One round replaces every byte x of the 32-byte state by
 * S_low[x] and then multiplies the state by the 32x32 GF(2) diffusion
 * matrix (Gf2.Mul).  After the rounds, output byte i is
 * S_low[c[2i]] ^ S_high[c[2i+1]].  The tables, the matrix and the round
 * count are parameters.
 *
 * Every backward search in the program rests on one fact, proved here as
 * BackwardChildRound and RoundsOfBackwardPath: a state whose bytes are
 * S_low-preimages of invM·state is mapped back onto state by one forward
 * round, so a chain of such steps replays forward to the state it started
 * from.
 */
module Network {
  import opened Bits
  import opened Gf2

  /** The number of rounds the crack-me runs. */
  const ROUNDS: nat := 256

  /** A byte-to-byte table of n entries. */
  predicate IsTable(t: seq<nat>, n: nat) {
    |t| == n && forall x :: 0 <= x < n ==> t[x] < 256
  }

  /** The 512-byte confusion table. */
  predicate IsConfusion(conf: seq<nat>) {
    IsTable(conf, 512)
  }

  /** A 256-entry S-box. */
  predicate IsSBox(s: seq<nat>) {
    IsTable(s, 256)
  }

  function SLow(conf: seq<nat>): (s: seq<nat>)
    requires IsConfusion(conf)
    ensures IsSBox(s)
    ensures forall x :: 0 <= x < 256 ==> s[x] == conf[x]
  {
    conf[..256]
  }

  function SHigh(conf: seq<nat>): (s: seq<nat>)
    requires IsConfusion(conf)
    ensures IsSBox(s)
    ensures forall x :: 0 <= x < 256 ==> s[x] == conf[x + 256]
  {
    conf[256..]
  }

  /** The substitution layer: byte j becomes s[c[j]]. */
  function Sub(s: seq<nat>, c: seq<nat>): (d: seq<nat>)
    requires IsSBox(s) && IsState(c)
    ensures IsState(d)
    ensures forall j :: 0 <= j < 32 ==> d[j] == s[c[j]]
  {
    seq(32, j requires 0 <= j < 32 => s[c[j]])
  }

  /** One round: substitution, then diffusion. */
  function Round(s: seq<nat>, m: seq<nat>, c: seq<nat>): (r: seq<nat>)
    requires IsSBox(s) && |m| == 32 && IsState(c)
    ensures IsState(r)
  {
    MulState(m, Sub(s, c));
    Mul(m, Sub(s, c))
  }

  /** n rounds applied to c. */
  function Rounds(s: seq<nat>, m: seq<nat>, c: seq<nat>, n: nat): (r: seq<nat>)
    requires IsSBox(s) && |m| == 32 && IsState(c)
    ensures IsState(r)
    decreases n
  {
    if n == 0 then c else Rounds(s, m, Round(s, m, c), n - 1)
  }

  /** Output byte i pairs bytes 2i and 2i+1 through S_low and S_high. */
  function Output(conf: seq<nat>, c: seq<nat>): (o: seq<nat>)
    requires IsConfusion(conf) && IsState(c)
    ensures |o| == 16
    ensures forall i :: 0 <= i < 16 ==> o[i] == Xor(conf[c[2 * i]], conf[c[2 * i + 1] + 256])
    ensures forall i :: 0 <= i < 16 ==> o[i] < 256
  {
    var o := seq(16, i requires 0 <= i < 16 => Xor(conf[c[2 * i]], conf[c[2 * i + 1] + 256]));
    forall i | 0 <= i < 16 ensures o[i] < 256 {
      XorByte(conf[c[2 * i]], conf[c[2 * i + 1] + 256]);
    }
    o
  }

  /** The whole routine: the rounds, then the output pairing. */
  function Forward(conf: seq<nat>, m: seq<nat>, input: seq<nat>, n: nat): (o: seq<nat>)
    requires IsConfusion(conf) && |m| == 32 && IsState(input)
    ensures |o| == 16
  {
    Output(conf, Rounds(SLow(conf), m, input, n))
  }

  // ---------------------------------------------------------------------
  // Rounds

  /** Running one more round at the end. */
  lemma {:induction false} RoundsSucc(s: seq<nat>, m: seq<nat>, c: seq<nat>, n: nat)
    requires IsSBox(s) && |m| == 32 && IsState(c)
    ensures Rounds(s, m, c, n + 1) == Round(s, m, Rounds(s, m, c, n))
    decreases n
  {
    if n > 0 {
      RoundsSucc(s, m, Round(s, m, c), n - 1);
    }
  }

  /** Rounds compose: a rounds then b rounds is a + b rounds. */
  lemma {:induction false} RoundsAdd(s: seq<nat>, m: seq<nat>, c: seq<nat>, a: nat, b: nat)
    requires IsSBox(s) && |m| == 32 && IsState(c)
    ensures Rounds(s, m, c, a + b) == Rounds(s, m, Rounds(s, m, c, a), b)
    decreases a
  {
    if a > 0 {
      RoundsAdd(s, m, Round(s, m, c), a - 1, b);
    }
  }

  // ---------------------------------------------------------------------
  // Going backwards

  /** child[j] is an S-box preimage of v[j] for every j. */
  predicate PreimageOf(s: seq<nat>, child: seq<nat>, v: seq<nat>)
    requires IsSBox(s)
  {
    IsState(child) && |v| == 32 && forall j :: 0 <= j < 32 ==> s[child[j]] == v[j]
  }

  /** A backward step: child's bytes are preimages of invM·state. */
  predicate BackwardChild(s: seq<nat>, minv: seq<nat>, state: seq<nat>, child: seq<nat>)
    requires IsSBox(s) && |minv| == 32
  {
    PreimageOf(s, child, Mul(minv, state))
  }

  /** One forward round maps a backward child onto its parent. */
  lemma BackwardChildRound(s: seq<nat>, m: seq<nat>, minv: seq<nat>, state: seq<nat>, child: seq<nat>)
    requires IsSBox(s) && |m| == 32 && |minv| == 32 && IsState(state)
    requires LeftInverse(m, minv)
    requires BackwardChild(s, minv, state, child)
    ensures Round(s, m, child) == state
  {
    assert Sub(s, child) == Mul(minv, state);
    LeftInverseCancels(m, minv, state);
  }

  /** path[0] is the end state, and path[i + 1] is a backward child of
      path[i]. */
  predicate BackwardPath(s: seq<nat>, minv: seq<nat>, path: seq<seq<nat>>)
    requires IsSBox(s) && |minv| == 32
  {
    |path| > 0 && IsState(path[0]) &&
    forall i :: 0 <= i < |path| - 1 ==> IsState(path[i]) && BackwardChild(s, minv, path[i], path[i + 1])
  }

  /** Replaying a backward path forwards: the last state, run through as
      many rounds as the path has steps, gives the first state. */
  lemma {:induction false} RoundsOfBackwardPath(s: seq<nat>, m: seq<nat>, minv: seq<nat>, path: seq<seq<nat>>)
    requires IsSBox(s) && |m| == 32 && |minv| == 32 && LeftInverse(m, minv)
    requires BackwardPath(s, minv, path)
    ensures IsState(path[|path| - 1])
    ensures Rounds(s, m, path[|path| - 1], |path| - 1) == path[0]
    decreases |path|
  {
    if |path| > 1 {
      RoundsOfBackwardPath(s, m, minv, path[..|path| - 1]);
      var n := |path| - 1;
      var last := path[n];
      BackwardChildRound(s, m, minv, path[n - 1], last);
      // Rounds(last, n) == Rounds(Round(last), n - 1) == Rounds(path[n - 1], n - 1)
    }
  }

  /** A state reached from the end state by a backward path of ROUNDS
      steps is a solution: Forward of it gives the end state's output. */
  lemma BackwardPathSolves(conf: seq<nat>, m: seq<nat>, minv: seq<nat>, path: seq<seq<nat>>)
    requires IsConfusion(conf) && |m| == 32 && |minv| == 32 && LeftInverse(m, minv)
    requires BackwardPath(SLow(conf), minv, path) && |path| == ROUNDS + 1
    ensures IsState(path[ROUNDS])
    ensures Forward(conf, m, path[ROUNDS], ROUNDS) == Output(conf, path[0])
  {
    RoundsOfBackwardPath(SLow(conf), m, minv, path);
  }

  /** One step is enough to build on: if child is a backward child of state
      and solution replays to child in n rounds, it replays to state in
      n + 1 rounds. */
  lemma ExtendSolution(s: seq<nat>, m: seq<nat>, minv: seq<nat>, state: seq<nat>, child: seq<nat>,
                       solution: seq<nat>, n: nat)
    requires IsSBox(s) && |m| == 32 && |minv| == 32 && LeftInverse(m, minv) && IsState(state)
    requires BackwardChild(s, minv, state, child)
    requires IsState(solution) && Rounds(s, m, solution, n) == child
    ensures Rounds(s, m, solution, n + 1) == state
  {
    RoundsSucc(s, m, solution, n);
    BackwardChildRound(s, m, minv, state, child);
  }

  // ---------------------------------------------------------------------
  // The forward routine as the solvers run it

  /** `d[j] = s[c[j]]; c[j] = 0` for every j. */
  method SubstituteAndClear(s: seq<nat>, c: array<nat>, d: array<nat>)
    requires IsSBox(s) && c.Length == 32 && d.Length == 32 && c != d
    requires IsState(c[..])
    modifies c, d
    ensures d[..] == Sub(s, old(c[..]))
    ensures forall j :: 0 <= j < 32 ==> c[j] == 0
  {
    ghost var c0 := c[..];
    for j := 0 to 32
      invariant forall q :: j <= q < 32 ==> c[q] == c0[q]
      invariant forall q :: 0 <= q < j ==> c[q] == 0 && d[q] == s[c0[q]]
    {
      d[j] := s[c[j]];
      c[j] := 0;
    }
  }

  /** `c[j] ^= d[k]` for every set bit k of row j: c becomes m·d. */
  method Diffuse(m: seq<nat>, c: array<nat>, d: array<nat>)
    requires |m| == 32 && c.Length == 32 && d.Length == 32 && c != d
    requires forall j :: 0 <= j < 32 ==> c[j] == 0
    modifies c
    ensures c[..] == Mul(m, d[..])
  {
    for j := 0 to 32
      invariant forall q :: 0 <= q < j ==> c[q] == DotRow(m[q], d[..])
      invariant forall q :: j <= q < 32 ==> c[q] == 0
    {
      for k := 0 to 32
        invariant forall q :: 0 <= q < j ==> c[q] == DotRow(m[q], d[..])
        invariant forall q :: j < q < 32 ==> c[q] == 0
        invariant c[j] == DotRowUpTo(m[j], d[..], k)
      {
        if Shr(m[j], k) % 2 == 1 {
          c[j] := Xor(c[j], d[k]);
        } else {
          XorZero(c[j]);
        }
      }
    }
  }

  /**
   * The forward check: copy the input, run ROUNDS rounds in place, then
   * write the 16 paired output bytes.  The input and out[16..] are left
   * alone.
   */
  method RunForward(conf: seq<nat>, m: seq<nat>, input: array<nat>, out: array<nat>)
    requires IsConfusion(conf) && |m| == 32
    requires input.Length == 32 && IsState(input[..]) && out.Length == 32 && input != out
    modifies out
    ensures out[..16] == Forward(conf, m, input[..], ROUNDS)
    ensures out[16..] == old(out[16..])
  {
    var c := Clone(input);
    var d := new nat[32];
    for r := 0 to ROUNDS
      invariant IsState(c[..]) && c[..] == Rounds(SLow(conf), m, input[..], r)
      invariant out[..] == old(out[..])
    {
      SubstituteAndClear(SLow(conf), c, d);
      Diffuse(m, c, d);
      RoundsSucc(SLow(conf), m, input[..], r);
    }
    WriteOutput(conf, c, out);
  }

  /** A fresh copy of the 32 state bytes. */
  method Clone(input: array<nat>) returns (c: array<nat>)
    requires input.Length == 32
    ensures fresh(c) && c[..] == input[..]
  {
    c := new nat[32];
    for j := 0 to 32
      invariant forall q :: 0 <= q < j ==> c[q] == input[q]
    {
      c[j] := input[j];
    }
  }

  /** The 16 output bytes, each confusion[c[2i]] ^ confusion[c[2i+1] + 256],
      into out[0..16]. */
  method WriteOutput(conf: seq<nat>, c: array<nat>, out: array<nat>)
    requires IsConfusion(conf) && c.Length == 32 && IsState(c[..]) && out.Length == 32 && c != out
    modifies out
    ensures out[..16] == Output(conf, c[..])
    ensures out[16..] == old(out[16..])
  {
    for i := 0 to 16
      invariant forall q :: 0 <= q < i ==> out[q] == Output(conf, c[..])[q]
      invariant forall q :: 16 <= q < 32 ==> out[q] == old(out[q])
    {
      out[i] := Xor(conf[c[2 * i]], conf[c[2 * i + 1] + 256]);
    }
  }

  /** `d * ((p >> k) & 1)` is d when bit k of p is set, else 0. */
  lemma TimesBit(d: nat, p: nat, k: nat)
    ensures d * (Shr(p, k) % 2) == Term(Bit(p, k), d)
  {
  }

  /** The same diffusion written as `c[j] ^= d[k] * ((p[j] >> k) & 1)`. */
  method DiffuseByProduct(p: seq<nat>, c: array<nat>, d: array<nat>)
    requires |p| == 32 && c.Length == 32 && d.Length == 32 && c != d
    requires forall j :: 0 <= j < 32 ==> c[j] == 0
    modifies c
    ensures c[..] == Mul(p, d[..])
  {
    for j := 0 to 32
      invariant forall q :: 0 <= q < j ==> c[q] == DotRow(p[q], d[..])
      invariant forall q :: j <= q < 32 ==> c[q] == 0
    {
      for k := 0 to 32
        invariant forall q :: 0 <= q < j ==> c[q] == DotRow(p[q], d[..])
        invariant forall q :: j < q < 32 ==> c[q] == 0
        invariant c[j] == DotRowUpTo(p[j], d[..], k)
      {
        TimesBit(d[k], p[j], k);
        XorZero(c[j]);
        c[j] := Xor(c[j], d[k] * (Shr(p[j], k) % 2));
      }
    }
  }

  /**
   * The original routine, which works on the caller's buffers: c ends as
   * the state after ROUNDS rounds, d[0..16) holds the output, and
   * d[16..32) keeps the last round's substituted bytes.  A selected byte is
   * added as `d[k] * ((p[j] >> k) & 1)`.
   */
  method ForwardInPlace(c: array<nat>, d: array<nat>, conf: seq<nat>, p: seq<nat>)
    requires IsConfusion(conf) && |p| == 32
    requires c.Length == 32 && d.Length == 32 && c != d && IsState(c[..])
    modifies c, d
    ensures c[..] == Rounds(SLow(conf), p, old(c[..]), ROUNDS)
    ensures d[..16] == Output(conf, c[..])
    ensures d[16..] == Sub(SLow(conf), Rounds(SLow(conf), p, old(c[..]), ROUNDS - 1))[16..]
  {
    ghost var c0 := c[..];
    ghost var before := c0;
    for i := 0 to ROUNDS
      invariant IsState(c[..]) && c[..] == Rounds(SLow(conf), p, c0, i)
      invariant i > 0 ==> before == Rounds(SLow(conf), p, c0, i - 1) && d[..] == Sub(SLow(conf), before)
    {
      before := c[..];
      ProductRound(conf, p, c, d);
      RoundsSucc(SLow(conf), p, c0, i);
    }
    WriteOutput(conf, c, d);
  }

  /** One round of the second variant: substitution into d, then the
      diffusion by bit products back into c. */
  method ProductRound(conf: seq<nat>, p: seq<nat>, c: array<nat>, d: array<nat>)
    requires IsConfusion(conf) && |p| == 32
    requires c.Length == 32 && d.Length == 32 && c != d && IsState(c[..])
    modifies c, d
    ensures c[..] == Round(SLow(conf), p, old(c[..]))
    ensures d[..] == Sub(SLow(conf), old(c[..]))
  {
    SubstituteAndClear(SLow(conf), c, d);
    DiffuseByProduct(p, c, d);
  }
}
