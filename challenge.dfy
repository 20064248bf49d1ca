/**
 * The first solver: pair the target bytes into a final state with a fixed
 * even byte, then run 256 backward rounds through the single-valued
 * inverse of S_low, and check the candidate with the forward routine.
 *
 * A backward round is the inverse diffusion followed by the last-writer
 * inverse of S_low.  It is undone by a forward round exactly when every
 * byte it looks up has a preimage (BackwardRoundIsChild), so a trajectory
 * that never meets a missing value is a genuine solution
 * (BackwardSolves).
 */
module Challenge {
  import opened Bits
  import opened Gf2
  import opened Network
  import opened Preimage
  import opened InverseConfusion
  import GaussJordan

  /** One backward round: `temp = p_inv·c`, then `c[j] = inv1[temp[j]]`. */
  function BackwardRound(inv1: seq<nat>, pinv: seq<nat>, c: seq<nat>): (r: seq<nat>)
    requires IsSBox(inv1) && IsState(c) && |pinv| == 32
    ensures IsState(r)
  {
    MulState(pinv, c);
    var temp := Mul(pinv, c);
    seq(32, j requires 0 <= j < 32 => inv1[temp[j]])
  }

  /** The rounds of the backward loop, in the order the loop runs them. */
  function BackwardRounds(inv1: seq<nat>, pinv: seq<nat>, c: seq<nat>, n: nat): (r: seq<nat>)
    requires IsSBox(inv1) && IsState(c) && |pinv| == 32
    ensures IsState(r)
    decreases n
  {
    if n == 0 then c else BackwardRounds(inv1, pinv, BackwardRound(inv1, pinv, c), n - 1)
  }

  /** Running one more backward round at the end. */
  lemma {:induction false} BackwardRoundsSucc(inv1: seq<nat>, pinv: seq<nat>, c: seq<nat>, n: nat)
    requires IsSBox(inv1) && IsState(c) && |pinv| == 32
    ensures BackwardRounds(inv1, pinv, c, n + 1) == BackwardRound(inv1, pinv, BackwardRounds(inv1, pinv, c, n))
    decreases n
  {
    if n > 0 {
      BackwardRoundsSucc(inv1, pinv, BackwardRound(inv1, pinv, c), n - 1);
    }
  }

  /** Every byte the round looks up has a preimage under s. */
  predicate RoundFeasible(s: seq<nat>, pinv: seq<nat>, c: seq<nat>)
    requires IsState(c) && |pinv| == 32
  {
    forall j :: 0 <= j < 32 ==> |PreimageList(s, Mul(pinv, c)[j])| > 0
  }

  /** No round of the n backward rounds meets a missing value. */
  predicate Feasible(s: seq<nat>, inv1: seq<nat>, pinv: seq<nat>, c: seq<nat>, n: nat)
    requires IsSBox(inv1) && IsState(c) && |pinv| == 32
  {
    forall i :: 0 <= i < n ==> RoundFeasible(s, pinv, BackwardRounds(inv1, pinv, c, i))
  }

  /** inv1 sends every value that has a preimage to one of its preimages. */
  predicate InverseOnImage(s: seq<nat>, inv1: seq<nat>)
    requires IsSBox(s)
  {
    IsSBox(inv1) && forall y :: 0 <= y < 256 && |PreimageList(s, y)| > 0 ==> s[inv1[y]] == y
  }

  /** The last-writer table is such an inverse. */
  lemma LastWriterOnImage(s: seq<nat>)
    requires IsSBox(s)
    ensures InverseOnImage(s, LastWriterTable(s))
  {
    forall y | 0 <= y < 256 && |PreimageList(s, y)| > 0
      ensures s[LastWriterTable(s)[y]] == y
    {
      var p := PreimageList(s, y);
      assert s[p[|p| - 1]] == y;
    }
  }

  /** A feasible backward round produces a backward child of c, so one
      forward round takes it back to c. */
  lemma BackwardRoundIsChild(s: seq<nat>, inv1: seq<nat>, pinv: seq<nat>, c: seq<nat>)
    requires IsSBox(s) && InverseOnImage(s, inv1) && IsState(c) && |pinv| == 32
    requires RoundFeasible(s, pinv, c)
    ensures BackwardChild(s, pinv, c, BackwardRound(inv1, pinv, c))
  {
    MulState(pinv, c);
  }

  /** An infeasible round really is wrong: the looked-up byte is not a
      preimage, so a forward round cannot restore that byte of temp. */
  lemma InfeasibleRoundBreaks(s: seq<nat>, inv1: seq<nat>, pinv: seq<nat>, c: seq<nat>, j: nat)
    requires IsSBox(s) && IsSBox(inv1) && IsState(c) && |pinv| == 32
    requires j < 32 && |PreimageList(s, Mul(pinv, c)[j])| == 0
    ensures s[BackwardRound(inv1, pinv, c)[j]] != Mul(pinv, c)[j]
  {
    MulState(pinv, c);
    var y := Mul(pinv, c)[j];
    PreimagesMember(s, y, 256, inv1[y]);
  }

  /** A feasible backward trajectory replays forwards to its start. */
  lemma BackwardSolves(s: seq<nat>, m: seq<nat>, inv1: seq<nat>, pinv: seq<nat>, c: seq<nat>, n: nat)
    requires IsSBox(s) && InverseOnImage(s, inv1) && IsState(c)
    requires |m| == 32 && |pinv| == 32 && LeftInverse(m, pinv)
    requires Feasible(s, inv1, pinv, c, n)
    ensures Rounds(s, m, BackwardRounds(inv1, pinv, c, n), n) == c
  {
    var path := FeasiblePath(s, inv1, pinv, c, n);
    RoundsOfBackwardPath(s, m, pinv, path);
  }

  /** The states of a feasible trajectory form a backward path. */
  lemma FeasiblePath(s: seq<nat>, inv1: seq<nat>, pinv: seq<nat>, c: seq<nat>, n: nat)
    returns (path: seq<seq<nat>>)
    requires IsSBox(s) && InverseOnImage(s, inv1) && IsState(c) && |pinv| == 32
    requires Feasible(s, inv1, pinv, c, n)
    ensures BackwardPath(s, pinv, path) && |path| == n + 1
    ensures path[0] == c && path[n] == BackwardRounds(inv1, pinv, c, n)
  {
    path := seq(n + 1, i requires 0 <= i <= n => BackwardRounds(inv1, pinv, c, i));
    forall i | 0 <= i < n
      ensures BackwardChild(s, pinv, path[i], path[i + 1])
    {
      FeasibleRoundIsChild(s, inv1, pinv, c, n, i);
    }
  }

  /** Round i of a feasible trajectory steps to a backward child. */
  lemma FeasibleRoundIsChild(s: seq<nat>, inv1: seq<nat>, pinv: seq<nat>, c: seq<nat>, n: nat, i: nat)
    requires IsSBox(s) && InverseOnImage(s, inv1) && IsState(c) && |pinv| == 32
    requires Feasible(s, inv1, pinv, c, n) && i < n
    ensures BackwardChild(s, pinv, BackwardRounds(inv1, pinv, c, i), BackwardRounds(inv1, pinv, c, i + 1))
  {
    BackwardRoundsSucc(inv1, pinv, c, i);
    BackwardRoundIsChild(s, inv1, pinv, BackwardRounds(inv1, pinv, c, i));
  }

  /**
   * One round of the backward loop on c, through the scratch array temp.
   * The duplicate check on temp only prints a warning, so it leaves both
   * arrays as they were.
   */
  method BackwardStepInPlace(c: array<nat>, temp: array<nat>, pinv: seq<nat>, inv1: seq<nat>,
                             duplicates: seq<nat>, numDuplicates: nat)
    requires IsSBox(inv1) && |pinv| == 32 && numDuplicates <= |duplicates|
    requires c.Length == 32 && temp.Length == 32 && c != temp && IsState(c[..])
    modifies c, temp
    ensures c[..] == BackwardRound(inv1, pinv, old(c[..]))
  {
    ghost var before := c[..];
    for j := 0 to 32
      invariant forall q :: 0 <= q < j ==> temp[q] == 0
      invariant c[..] == before
    {
      temp[j] := 0;
    }
    DiffuseByProduct(pinv, temp, c);
    MulState(pinv, before);
    var found := ContainsDuplicate(temp[..], duplicates, numDuplicates);
    for j := 0 to 32
      invariant temp[..] == Mul(pinv, before)
      invariant forall q :: 0 <= q < j ==> c[q] == inv1[temp[q]]
      invariant forall q :: j <= q < 32 ==> c[q] == before[q]
    {
      c[j] := inv1[temp[j]];
    }
    assert c[..] == BackwardRound(inv1, pinv, before);
  }

  /** Backward: ROUNDS backward rounds in place on c. */
  method Backward(c: array<nat>, pinv: seq<nat>, inv1: seq<nat>, duplicates: seq<nat>, numDuplicates: nat)
    requires IsSBox(inv1) && |pinv| == 32
    requires c.Length == 32 && IsState(c[..]) && numDuplicates <= |duplicates|
    modifies c
    ensures c[..] == BackwardRounds(inv1, pinv, old(c[..]), ROUNDS)
  {
    ghost var c0 := c[..];
    var temp := new nat[32];
    for i := 0 to ROUNDS
      invariant IsState(c[..])
      invariant c[..] == BackwardRounds(inv1, pinv, c0, i)
    {
      BackwardStepInPlace(c, temp, pinv, inv1, duplicates, numDuplicates);
      BackwardRoundsSucc(inv1, pinv, c0, i);
    }
  }

  // ---------------------------------------------------------------------
  // Pairing the target bytes

  /** The even byte solve_challenge tries first, and the odd byte it falls
      back on. */
  const FIXED: nat := 82

  /** The largest x < n with s[x] == v, or -1 when there is none. */
  function LastMatch(s: seq<nat>, v: nat, n: nat): (r: int)
    requires n <= |s|
    ensures -1 <= r < n
    ensures r >= 0 ==> s[r] == v
    ensures forall x :: r < x < n ==> s[x] != v
    decreases n
  {
    if n == 0 then -1
    else if s[n - 1] == v then n - 1
    else LastMatch(s, v, n - 1)
  }

  /** The smallest x < n with s[x] == v, or -1 when there is none. */
  function FirstMatch(s: seq<nat>, v: nat, n: nat): (r: int)
    requires n <= |s|
    ensures -1 <= r < n
    ensures r >= 0 ==> s[r] == v && forall x :: 0 <= x < r ==> s[x] != v
    ensures r < 0 ==> forall x :: 0 <= x < n ==> s[x] != v
    decreases n
  {
    if n == 0 then -1
    else
      var f := FirstMatch(s, v, n - 1);
      if f >= 0 then f
      else if s[n - 1] == v then n - 1
      else -1
  }

  /**
   * The pair chosen for target byte t.  With a = 82 the odd byte must map
   * to t ^ S_low[82] under S_high; the last-writer inverse gives its largest
   * preimage.  Failing that, with b = 82 the even byte must map to
   * t ^ S_high[82] under S_low, and the ascending search takes the smallest
   * preimage.  Failing both, the pair is (0, 0).
   */
  function ChosenPair(conf: seq<nat>, t: nat): (nat, nat)
    requires IsConfusion(conf)
  {
    var b := LastMatch(SHigh(conf), Xor(t, conf[FIXED]), 256);
    var a := FirstMatch(SLow(conf), Xor(t, conf[FIXED + 256]), 256);
    if b >= 0 then (FIXED, b)
    else if a >= 0 then (a, FIXED)
    else (0, 0)
  }

  /** (a, b) is the pair chosen for target byte t. */
  predicate PairChoice(conf: seq<nat>, t: nat, a: nat, b: nat)
    requires IsConfusion(conf)
  {
    ChosenPair(conf, t) == (a, b)
  }

  /** Whether either half of the search can produce t: some odd byte goes
      with the even byte 82, or some even byte goes with the odd byte 82. */
  predicate Paired(conf: seq<nat>, t: nat)
    requires IsConfusion(conf)
  {
    exists x :: 0 <= x < 256 &&
      (SHigh(conf)[x] == Xor(t, conf[FIXED]) || SLow(conf)[x] == Xor(t, conf[FIXED + 256]))
  }

  /** The chosen pair compresses to t exactly when t can be paired at all;
      otherwise it is the default (0, 0), which meets t only by accident. */
  lemma PairChoiceMeetsTarget(conf: seq<nat>, t: nat, a: nat, b: nat)
    requires IsConfusion(conf) && t < 256 && PairChoice(conf, t, a, b)
    ensures a < 256 && b < 256
    ensures Paired(conf, t) ==> Xor(conf[a], conf[b + 256]) == t
    ensures !Paired(conf, t) ==> a == 0 && b == 0
    ensures Xor(conf[a], conf[b + 256]) == t <==> Paired(conf, t) || Xor(conf[0], conf[256]) == t
  {
    var nb := Xor(t, conf[FIXED]);
    var na := Xor(t, conf[FIXED + 256]);
    if LastMatch(SHigh(conf), nb, 256) >= 0 {
      assert conf[b + 256] == SHigh(conf)[b] == nb;
      XorCancel(t, conf[FIXED]);
      XorComm(conf[FIXED], nb);
    } else if FirstMatch(SLow(conf), na, 256) >= 0 {
      assert conf[a] == SLow(conf)[a] == na;
      XorCancel(t, conf[FIXED + 256]);
    }
  }

  /** The ascending search `for search_a: if S_low[search_a] == v: break`. */
  method SearchEven(s: seq<nat>, v: nat) returns (found: bool, a: nat)
    requires IsSBox(s)
    ensures found <==> FirstMatch(s, v, 256) >= 0
    ensures found ==> a == FirstMatch(s, v, 256)
  {
    found, a := false, 0;
    var searchA := 0;
    while searchA < 256
      invariant searchA <= 256
      invariant forall x :: 0 <= x < searchA ==> s[x] != v
    {
      if s[searchA] == v {
        found, a := true, searchA;
        break;
      }
      searchA := searchA + 1;
    }
    ghost var r := FirstMatch(s, v, 256);
    if found {
      assert r >= 0 && r <= a;
    }
  }

  /** The last-writer inverse hits a preimage exactly when there is one,
      and then it is the last match. */
  lemma LastWriterMatch(s: seq<nat>, v: nat)
    requires |s| > 0
    ensures LastPreimage(s, v) < |s|
    ensures s[LastPreimage(s, v)] == v ==> LastMatch(s, v, |s|) == LastPreimage(s, v)
    ensures s[LastPreimage(s, v)] != v ==> LastMatch(s, v, |s|) == -1
  {
    LastPreimageIsLargest(s, v);
  }

  /** One iteration of the pairing loop of solve_challenge. */
  method PairPosition(conf: seq<nat>, inv2: seq<nat>, t: nat) returns (a: nat, b: nat)
    requires IsConfusion(conf) && |inv2| == 256 && t < 256
    requires forall y :: 0 <= y < 256 ==> inv2[y] == LastPreimage(SHigh(conf), y)
    ensures PairChoice(conf, t, a, b)
  {
    a := FIXED;
    var altB := FIXED;
    XorByte(t, conf[a]);
    var neededB := Xor(t, conf[a]);
    b := inv2[neededB];
    LastWriterMatch(SHigh(conf), neededB);
    if conf[b + 256] != neededB {
      var neededA := Xor(t, conf[altB + 256]);
      var found;
      found, a := SearchEven(SLow(conf), neededA);
      if found {
        b := altB;
      } else {
        a, b := 0, 0;
      }
    }
  }

  /** The pairs chosen for the 16 target bytes. */
  function ChosenPairs(conf: seq<nat>, target: seq<nat>): (ps: seq<(nat, nat)>)
    requires IsConfusion(conf) && IsTarget(target)
    ensures |ps| == 16 && forall q :: 0 <= q < 16 ==> PairChoice(conf, target[q], ps[q].0, ps[q].1)
  {
    seq(16, q requires 0 <= q < 16 => ChosenPair(conf, target[q]))
  }

  /** The first n pairs of c, (c[2q], c[2q + 1]) for q < n, are ps[0..n). */
  predicate HoldsPairs(ps: seq<(nat, nat)>, c: seq<nat>, n: nat)
    requires n <= |ps| && 2 * n <= |c|
  {
    forall q :: 0 <= q < n ==> (c[2 * q], c[2 * q + 1]) == ps[q]
  }

  /** Writing pair n extends the pairs held to n + 1. */
  lemma HoldsPairsStep(ps: seq<(nat, nat)>, c: seq<nat>, n: nat)
    requires n < |ps| && 2 * n + 2 <= |c| && HoldsPairs(ps, c, n)
    ensures HoldsPairs(ps, c[2 * n := ps[n].0][2 * n + 1 := ps[n].1], n + 1)
  {
    var c' := c[2 * n := ps[n].0][2 * n + 1 := ps[n].1];
    forall q | 0 <= q < n + 1
      ensures (c'[2 * q], c'[2 * q + 1]) == ps[q]
    {
      if q < n {
        assert (c[2 * q], c[2 * q + 1]) == ps[q];
      }
    }
  }

  /** Positions below n of c hold the pairs chosen for target[0..n). */
  predicate PairsChosen(conf: seq<nat>, target: seq<nat>, c: seq<nat>, n: nat)
    requires IsConfusion(conf) && IsTarget(target) && |c| == 32 && n <= 16
  {
    HoldsPairs(ChosenPairs(conf, target), c, n)
  }

  /** The pairs chosen hold exactly when each position holds the pair
      chosen for its target byte. */
  lemma PairsChosenMeaning(conf: seq<nat>, target: seq<nat>, c: seq<nat>, n: nat)
    requires IsConfusion(conf) && IsTarget(target) && |c| == 32 && n <= 16
    ensures PairsChosen(conf, target, c, n) <==>
      forall q :: 0 <= q < n ==> PairChoice(conf, target[q], c[2 * q], c[2 * q + 1])
  {
    var ps := ChosenPairs(conf, target);
    if forall q :: 0 <= q < n ==> PairChoice(conf, target[q], c[2 * q], c[2 * q + 1]) {
      forall q | 0 <= q < n
        ensures (c[2 * q], c[2 * q + 1]) == ps[q]
      {
        assert PairChoice(conf, target[q], c[2 * q], c[2 * q + 1]);
        assert PairChoice(conf, target[q], ps[q].0, ps[q].1);
      }
    }
  }

  /** Writing the pair for position n extends PairsChosen to n + 1. */
  lemma PairsChosenStep(conf: seq<nat>, target: seq<nat>, c: seq<nat>, n: nat, a: nat, b: nat)
    requires IsConfusion(conf) && IsTarget(target) && |c| == 32 && n < 16
    requires PairsChosen(conf, target, c, n) && PairChoice(conf, target[n], a, b)
    ensures PairsChosen(conf, target, c[2 * n := a][2 * n + 1 := b], n + 1)
  {
    var ps := ChosenPairs(conf, target);
    assert ps[n] == (a, b);
    HoldsPairsStep(ps, c, n);
  }

  /** The loop over the 16 target bytes, writing pre_final[2i], pre_final[2i + 1]. */
  method PairTarget(conf: seq<nat>, inv2: seq<nat>, target: seq<nat>, preFinal: array<nat>)
    requires IsConfusion(conf) && |inv2| == 256 && IsTarget(target)
    requires forall y :: 0 <= y < 256 ==> inv2[y] == LastPreimage(SHigh(conf), y)
    requires preFinal.Length == 32
    modifies preFinal
    ensures IsState(preFinal[..])
    ensures PairsChosen(conf, target, preFinal[..], 16)
  {
    for j := 0 to 32
      invariant forall q :: 0 <= q < j ==> preFinal[q] == 0
    {
      preFinal[j] := 0;
    }
    for i := 0 to 16
      invariant IsState(preFinal[..])
      invariant PairsChosen(conf, target, preFinal[..], i)
    {
      var a, b := PairPosition(conf, inv2, target[i]);
      PairChoiceMeetsTarget(conf, target[i], a, b);
      PairsChosenStep(conf, target, preFinal[..], i, a, b);
      preFinal[i * 2] := a;
      preFinal[i * 2 + 1] := b;
    }
  }

  /** The compression test passes exactly when every target byte is either
      pairable or happens to equal what the default pair (0, 0) gives. */
  lemma CompressionMeetsTarget(conf: seq<nat>, target: seq<nat>, preFinal: seq<nat>)
    requires IsConfusion(conf) && IsTarget(target) && IsState(preFinal)
    requires PairsChosen(conf, target, preFinal, 16)
    ensures Output(conf, preFinal) == target <==>
      forall i :: 0 <= i < 16 ==> Paired(conf, target[i]) || Xor(conf[0], conf[256]) == target[i]
  {
    PairsChosenMeaning(conf, target, preFinal, 16);
    forall i | 0 <= i < 16
      ensures Output(conf, preFinal)[i] == target[i] <==> Paired(conf, target[i]) || Xor(conf[0], conf[256]) == target[i]
    {
      PairChoiceMeetsTarget(conf, target[i], preFinal[2 * i], preFinal[2 * i + 1]);
    }
    if forall i :: 0 <= i < 16 ==> Paired(conf, target[i]) || Xor(conf[0], conf[256]) == target[i] {
      assert forall i :: 0 <= i < 16 ==> Output(conf, preFinal)[i] == target[i];
    }
  }

  /**
   * The first solver's guarantee: when the diffusion matrix has the inverse
   * used for the backward rounds, the paired state compresses to the target
   * and no backward round meets a missing S_low value, the input Backward
   * produces is a genuine preimage of the target.
   */
  lemma FeasibleBackwardSolves(conf: seq<nat>, m: seq<nat>, pinv: seq<nat>, preFinal: seq<nat>, target: seq<nat>)
    requires IsConfusion(conf) && |m| == 32 && |pinv| == 32 && LeftInverse(m, pinv) && IsState(preFinal)
    requires Output(conf, preFinal) == target
    requires Feasible(SLow(conf), LastWriterTable(SLow(conf)), pinv, preFinal, ROUNDS)
    ensures Forward(conf, m, BackwardRounds(LastWriterTable(SLow(conf)), pinv, preFinal, ROUNDS), ROUNDS) == target
  {
    LastWriterOnImage(SLow(conf));
    BackwardSolves(SLow(conf), m, LastWriterTable(SLow(conf)), pinv, preFinal, ROUNDS);
  }

  // ---------------------------------------------------------------------
  // The driver

  /** `memcpy(dst, src, 32)`. */
  method Copy(src: seq<nat>, dst: array<nat>)
    requires |src| == 32 && dst.Length == 32
    modifies dst
    ensures dst[..] == src
  {
    for j := 0 to 32
      invariant forall q :: 0 <= q < j ==> dst[q] == src[q]
    {
      dst[j] := src[j];
    }
  }

  /** Step 3 of solve_challenge: copy the candidate, run the forward
      routine on the copy and memcmp its output with the target. */
  method VerifySolution(conf: seq<nat>, m: seq<nat>, candidate: array<nat>) returns (result: int)
    requires IsConfusion(conf) && |m| == 32 && candidate.Length == 32 && IsState(candidate[..])
    ensures result == 0 <==> Forward(conf, m, candidate[..], ROUNDS) == TARGET
  {
    var testInput := new nat[32];
    Copy(candidate[..], testInput);
    var testOutput := new nat[32];
    ForwardInPlace(testInput, testOutput, conf, m);
    result := MemCmp(testOutput[..], TARGET, 16);
    assert testOutput[..][..16] == testOutput[..16];
  }

  /** The compression test: pair the bytes of the state as the output step
      does and memcmp them with the target. */
  method CompressionTest(conf: seq<nat>, c: array<nat>) returns (r: int)
    requires IsConfusion(conf) && c.Length == 32 && IsState(c[..])
    ensures r == 0 <==> Output(conf, c[..]) == TARGET
  {
    var testCompression := new nat[16];
    for i := 0 to 16
      invariant forall q :: 0 <= q < i ==> testCompression[q] == Output(conf, c[..])[q]
    {
      testCompression[i] := Xor(conf[c[i * 2]], conf[c[i * 2 + 1] + 256]);
    }
    r := MemCmp(testCompression[..], TARGET, 16);
    assert testCompression[..] == testCompression[..][..16];
  }

  /** The set-up of solve_challenge: both last-writer inverses with the
      duplicate list, and the inverse of the diffusion matrix together with
      its self-test. */
  method PrepareTables(conf: seq<nat>, m: seq<nat>)
    returns (inv1: seq<nat>, inv2: seq<nat>, duplicates: seq<nat>, numDuplicates: nat, pinv: seq<nat>)
    requires IsConfusion(conf) && IsMatrix(m)
    ensures inv1 == LastWriterTable(SLow(conf)) && inv2 == LastWriterTable(SHigh(conf))
    ensures numDuplicates <= |duplicates| && duplicates[..numDuplicates] == DuplicateList(SLow(conf))
    ensures IsMatrix(pinv) && (IsInverse(pinv, m) <==> !Singular(m))
  {
    var table1 := new nat[256];
    var table2 := new nat[256];
    var found := new nat[256];
    numDuplicates := CreateInverseConfusion(conf, table1, table2, found);
    inv1, inv2, duplicates := table1[..], table2[..], found[..];
    pinv := GaussJordan.InvertSkipping(m);
    var inversionPassed := GaussJordan.TestMatrixInversion(m, pinv);
  }

  /** Step 1 of solve_challenge: the paired state, and the compression
      test on it. */
  method PairedState(conf: seq<nat>, inv2: seq<nat>) returns (preFinal: seq<nat>, compressionResult: int)
    requires IsConfusion(conf) && inv2 == LastWriterTable(SHigh(conf))
    ensures IsState(preFinal)
    ensures PairsChosen(conf, TARGET, preFinal, 16)
    ensures compressionResult == 0 <==> Output(conf, preFinal) == TARGET
  {
    var pre := new nat[32];
    PairTarget(conf, inv2, TARGET, pre);
    preFinal := pre[..];
    compressionResult := CompressionTest(conf, pre);
  }

  /** Steps 2 and 3 of solve_challenge: Backward on a copy of the paired
      state, then the forward check of the result. */
  method BackwardAndCheck(conf: seq<nat>, m: seq<nat>, pinv: seq<nat>, inv1: seq<nat>,
                          duplicates: seq<nat>, numDuplicates: nat, preFinal: seq<nat>)
    returns (result: int, input: seq<nat>)
    requires IsConfusion(conf) && |m| == 32 && |pinv| == 32 && IsSBox(inv1)
    requires numDuplicates <= |duplicates| && IsState(preFinal)
    ensures IsState(input) && input == BackwardRounds(inv1, pinv, preFinal, ROUNDS)
    ensures result == 0 <==> Forward(conf, m, input, ROUNDS) == TARGET
  {
    var original := new nat[32];
    Copy(preFinal, original);
    Backward(original, pinv, inv1, duplicates, numDuplicates);
    input := original[..];
    result := VerifySolution(conf, m, original);
  }

  /**
   * solve_challenge: build the inverse tables, invert the diffusion matrix
   * (skipping a column without a pivot), pair the target bytes, run the
   * compression test, go backwards from the paired state, and return the
   * memcmp of the forward output against the target.
   */
  method SolveChallenge(conf: seq<nat>, m: seq<nat>)
    returns (result: int, preFinal: seq<nat>, pinv: seq<nat>, input: seq<nat>)
    requires IsConfusion(conf) && IsMatrix(m)
    ensures IsState(preFinal)
    ensures PairsChosen(conf, TARGET, preFinal, 16)
    ensures IsMatrix(pinv) && (IsInverse(pinv, m) <==> !Singular(m))
    ensures IsState(input) && input == BackwardRounds(LastWriterTable(SLow(conf)), pinv, preFinal, ROUNDS)
    ensures result == 0 <==> Forward(conf, m, input, ROUNDS) == TARGET
  {
    var inv1, inv2, duplicates, numDuplicates;
    inv1, inv2, duplicates, numDuplicates, pinv := PrepareTables(conf, m);
    var compressionResult;
    preFinal, compressionResult := PairedState(conf, inv2);
    result, input := BackwardAndCheck(conf, m, pinv, inv1, duplicates, numDuplicates, preFinal);
  }
}
