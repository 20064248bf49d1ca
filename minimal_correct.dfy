/**
 * The one-round inversion in bit-vector logic (minimal_correct.cpp).
 *
 * The driver encrypts a plaintext for one round, then asks a bit-vector
 * solver for 32 byte variables whose round gives the same ciphertext.  The
 * S-box is one shared if-then-else chain over a placeholder variable,
 * instantiated for each byte by substitution; each diffusion row becomes
 * one equation whose right-hand side is a balanced XOR tree of the S-box
 * outputs the row selects.  The solver is an oracle; the model states what
 * its answers mean and proves that the equations hold exactly for the
 * preimages of the ciphertext.
 */
module MinimalCorrect {
  import opened Bits
  import opened Gf2
  import opened Network

  // ---------------------------------------------------------------------
  // XOR trees (balanced_xor)

  /** An XOR expression over items: the empty XOR (the constant 0), one
      item, or the XOR of two subtrees. */
  datatype XorTree<T> = Zero | Leaf(item: T) | Node(left: XorTree<T>, right: XorTree<T>)

  /** The items of t, left to right. */
  function Frontier<T>(t: XorTree<T>): seq<T> {
    match t
    case Zero => []
    case Leaf(x) => [x]
    case Node(l, r) => Frontier(l) + Frontier(r)
  }

  /** Height of t; a leaf has depth 0. */
  function Depth<T>(t: XorTree<T>): nat {
    match t
    case Node(l, r) => 1 + (if Depth(l) < Depth(r) then Depth(r) else Depth(l))
    case _ => 0
  }

  /** The depth is logarithmic: at most ceil(log2 n) for n items. */
  predicate Balanced<T>(t: XorTree<T>) {
    |Frontier(t)| == 0 || Pow2(Depth(t)) < 2 * |Frontier(t)|
  }

  /** The items of a list of trees, tree after tree. */
  function FrontierAll<T>(ts: seq<XorTree<T>>): seq<T> {
    if |ts| == 0 then [] else FrontierAll(ts[..|ts| - 1]) + Frontier(ts[|ts| - 1])
  }

  /** The value of t when each item x stands for f(x). */
  function EvalTree<T>(t: XorTree<T>, f: T -> nat): nat {
    match t
    case Zero => 0
    case Leaf(x) => f(x)
    case Node(l, r) => Xor(EvalTree(l, f), EvalTree(r, f))
  }

  function Evals<T>(f: T -> nat, xs: seq<T>): (r: seq<nat>)
    ensures |r| == |xs|
  {
    seq(|xs|, i requires 0 <= i < |xs| => f(xs[i]))
  }

  /** Whatever its shape, an XOR tree computes the XOR of its items. */
  lemma {:induction false} EvalTreeFrontier<T>(t: XorTree<T>, f: T -> nat)
    ensures EvalTree(t, f) == XorAll(Evals(f, Frontier(t)))
  {
    match t
    case Zero =>
    case Leaf(x) =>
      assert Evals(f, [x])[..0] == [];
      XorZero(f(x));
    case Node(l, r) =>
      EvalTreeFrontier(l, f);
      EvalTreeFrontier(r, f);
      assert Evals(f, Frontier(l) + Frontier(r)) == Evals(f, Frontier(l)) + Evals(f, Frontier(r));
      XorAllAppend(Evals(f, Frontier(l)), Evals(f, Frontier(r)));
  }

  lemma FrontierAllSnoc<T>(ts: seq<XorTree<T>>, t: XorTree<T>)
    ensures FrontierAll(ts + [t]) == FrontierAll(ts) + Frontier(t)
  {
    assert (ts + [t])[..|ts|] == ts;
  }

  /** Extending a prefix of ts by one tree. */
  lemma FrontierAllPrefix<T>(ts: seq<XorTree<T>>, i: nat)
    requires i < |ts|
    ensures FrontierAll(ts[..i + 1]) == FrontierAll(ts[..i]) + Frontier(ts[i])
  {
    assert ts[..i + 1] == ts[..i] + [ts[i]];
    FrontierAllSnoc(ts[..i], ts[i]);
  }

  function Leaves<T>(v: seq<T>): (ts: seq<XorTree<T>>)
    ensures |ts| == |v|
  {
    seq(|v|, i requires 0 <= i < |v| => Leaf(v[i]))
  }

  lemma {:induction false} FrontierOfLeaves<T>(v: seq<T>)
    ensures FrontierAll(Leaves(v)) == v
    decreases |v|
  {
    if |v| > 0 {
      var u := v[..|v| - 1];
      assert Leaves(v)[..|v| - 1] == Leaves(u);
      FrontierOfLeaves(u);
      assert v == u + [v[|v| - 1]];
    }
  }

  /** Every tree in ts has depth at most r. */
  predicate DepthsWithin<T>(ts: seq<XorTree<T>>, r: nat) {
    forall q :: 0 <= q < |ts| ==> Depth(ts[q]) <= r
  }

  lemma DepthsWithinSnoc<T>(ts: seq<XorTree<T>>, t: XorTree<T>, r: nat)
    requires DepthsWithin(ts, r) && Depth(t) <= r
    ensures DepthsWithin(ts + [t], r)
  {
  }

  /** Pairing w[i] with w[i + 1] extends the covered prefix of w by two. */
  lemma PairStep<T>(next: seq<XorTree<T>>, w: seq<XorTree<T>>, i: nat)
    requires i + 1 < |w| && FrontierAll(next) == FrontierAll(w[..i])
    ensures FrontierAll(next + [Node(w[i], w[i + 1])]) == FrontierAll(w[..i + 2])
  {
    FrontierAllPrefix(w, i);
    FrontierAllPrefix(w, i + 1);
    FrontierAllSnoc(next, Node(w[i], w[i + 1]));
    var a, b, c := FrontierAll(next), Frontier(w[i]), Frontier(w[i + 1]);
    assert a + (b + c) == (a + b) + c;
  }

  /** The pairing loop of balanced_xor: `for (i = 0; i + 1 < v.size(); i += 2)
      next.push_back(v[i] ^ v[i+1]);` */
  method PairAdjacent<T>(w: seq<XorTree<T>>, ghost r: nat) returns (next: seq<XorTree<T>>, i: nat)
    requires DepthsWithin(w, r)
    ensures i == 2 * |next| && i <= |w| < i + 2
    ensures FrontierAll(next) == FrontierAll(w[..i])
    ensures DepthsWithin(next, r + 1)
  {
    next := [];
    i := 0;
    while i + 1 < |w|
      invariant i <= |w| && i == 2 * |next|
      invariant FrontierAll(next) == FrontierAll(w[..i])
      invariant DepthsWithin(next, r + 1)
    {
      PairStep(next, w, i);
      DepthsWithinSnoc(next, Node(w[i], w[i + 1]), r + 1);
      next := next + [Node(w[i], w[i + 1])];
      i := i + 2;
    }
  }

  /** One pass of balanced_xor: XOR adjacent pairs, carry an odd last tree. */
  method PairUp<T>(w: seq<XorTree<T>>, ghost r: nat) returns (next: seq<XorTree<T>>)
    requires DepthsWithin(w, r)
    ensures |next| == (|w| + 1) / 2
    ensures FrontierAll(next) == FrontierAll(w)
    ensures DepthsWithin(next, r + 1)
  {
    var i;
    next, i := PairAdjacent(w, r);
    if |w| % 2 == 1 {
      assert i == |w| - 1;
      FrontierAllPrefix(w, i);
      FrontierAllSnoc(next, w[i]);
      DepthsWithinSnoc(next, w[i], r + 1);
      next := next + [w[i]];
    }
    assert w[..|w|] == w;
  }

  /** Halving n trees at depth r leaves the bound on n and r intact. */
  lemma HalvingBound(n: nat, p: nat, total: nat)
    requires n >= 2 && p >= 1 && (n - 1) * p < total
    ensures ((n + 1) / 2 - 1) * (2 * p) < total
    ensures 2 * p < 2 * total
  {
    var h := (n + 1) / 2 - 1;
    assert 2 * h <= n - 1;
    assert h * (2 * p) == (2 * h) * p;
    assert (2 * h) * p <= (n - 1) * p by {
      MulMono(2 * h, n - 1, p);
    }
    assert p <= (n - 1) * p by {
      MulMono(1, n - 1, p);
    }
  }

  lemma MulMono(a: nat, b: nat, p: nat)
    requires a <= b
    ensures a * p <= b * p
  {
  }

  /** balanced_xor: the XOR of the items as a tree of logarithmic depth, the
      constant 0 for no items. */
  method BalancedXor<T>(v: seq<T>) returns (t: XorTree<T>)
    ensures Frontier(t) == v
    ensures |v| == 0 ==> t == Zero
    ensures Balanced(t)
  {
    if |v| == 0 {
      return Zero;
    }
    var w := Leaves(v);
    FrontierOfLeaves(v);
    ghost var r: nat;
    w, r := PairUntilOne(w, v);
    t := w[0];
    LastTree(w, v, r);
  }

  /** The passes of balanced_xor: pair up until one tree is left.  After r
      passes every tree has depth at most r, and 2^r stays below 2 |v|. */
  method PairUntilOne<T>(w0: seq<XorTree<T>>, ghost v: seq<T>) returns (w: seq<XorTree<T>>, ghost r: nat)
    requires |w0| == |v| >= 1 && FrontierAll(w0) == v && DepthsWithin(w0, 0)
    ensures |w| == 1 && FrontierAll(w) == v && DepthsWithin(w, r)
    ensures r == 0 || Pow2(r) < 2 * |v|
  {
    w, r := w0, 0;
    while |w| > 1
      invariant |w| >= 1
      invariant FrontierAll(w) == v
      invariant DepthsWithin(w, r)
      invariant (|w| - 1) * Pow2(r) < |v|
      invariant r == 0 || Pow2(r) < 2 * |v|
      decreases |w|
    {
      var next := PairUp(w, r);
      StepBound(|w|, |next|, r, |v|);
      w := next;
      r := r + 1;
    }
  }

  /** One pass keeps the bound, with the depth one higher. */
  lemma StepBound(n: nat, m: nat, r: nat, total: nat)
    requires n >= 2 && m == (n + 1) / 2 && (n - 1) * Pow2(r) < total
    ensures (m - 1) * Pow2(r + 1) < total && Pow2(r + 1) < 2 * total
  {
    HalvingBound(n, Pow2(r), total);
  }

  /** The one tree left holds all the items and is balanced. */
  lemma LastTree<T>(w: seq<XorTree<T>>, v: seq<T>, r: nat)
    requires |w| == 1 && FrontierAll(w) == v && DepthsWithin(w, r)
    requires r == 0 || Pow2(r) < 2 * |v|
    ensures Frontier(w[0]) == v && Balanced(w[0])
  {
    assert w == w[..0] + [w[0]];
    FrontierAllSnoc(w[..0], w[0]);
    Pow2Mono(Depth(w[0]), r);
  }

  // ---------------------------------------------------------------------
  // Bit-vector expressions: the shared S-box multiplexer

  /** The solver's byte variables: the placeholder `x` of the shared
      multiplexer and the plaintext bytes x0 .. x31. */
  datatype Name = MuxInput | Plain(j: nat)

  /** An 8-bit expression: a constant, a variable, or
      `ite(lhs == key, hit, miss)`. */
  datatype Expr = Const(value: nat) | Var(name: Name) | IfEq(lhs: Expr, key: nat, hit: Expr, miss: Expr)

  /** The value of e as an 8-bit vector when each variable takes env's value
      modulo 256. */
  function Eval(e: Expr, env: Name -> nat): (r: nat)
    ensures r < 256
  {
    match e
    case Const(c) => c % 256
    case Var(n) => env(n) % 256
    case IfEq(l, key, h, m) => if Eval(l, env) == key % 256 then Eval(h, env) else Eval(m, env)
  }

  /** e with every occurrence of variable n replaced by arg. */
  function Substitute(e: Expr, n: Name, arg: Expr): Expr {
    match e
    case Const(_) => e
    case Var(n') => if n' == n then arg else e
    case IfEq(l, key, h, m) => IfEq(Substitute(l, n, arg), key, Substitute(h, n, arg), Substitute(m, n, arg))
  }

  /** env with variable n bound to v. */
  function Rebind(env: Name -> nat, n: Name, v: nat): Name -> nat {
    x => if x == n then v else env(x)
  }

  /** Substitution is evaluation under the rebound environment. */
  lemma {:induction false} SubstituteEval(e: Expr, n: Name, arg: Expr, env: Name -> nat)
    ensures Eval(Substitute(e, n, arg), env) == Eval(e, Rebind(env, n, Eval(arg, env)))
  {
    match e
    case Const(_) =>
    case Var(_) =>
    case IfEq(l, key, h, m) =>
      SubstituteEval(l, n, arg, env);
      SubstituteEval(h, n, arg, env);
      SubstituteEval(m, n, arg, env);
  }

  /** The S-box output for input byte x; a byte the table does not cover
      falls through to the chain's base case, conf[0]. */
  function MuxValue(conf: seq<nat>, x: nat): nat
    requires |conf| >= 1
  {
    if x < |conf| then conf[x] else conf[0]
  }

  /** sb computes the S-box of its placeholder under every environment. */
  ghost predicate MuxFor(sb: Expr, conf: seq<nat>)
    requires |conf| >= 1
  {
    forall env: Name -> nat :: Eval(sb, env) == MuxValue(conf, env(MuxInput) % 256)
  }

  /** The chain after the keys 1 .. i - 1 have been wrapped around conf[0]. */
  function MuxUpTo(conf: seq<nat>, i: nat, x: nat): nat
    requires 1 <= i <= |conf|
  {
    if x < i then conf[x] else conf[0]
  }

  /** The shared multiplexer: start from conf[0], then wrap
      `ite(x == i, conf[i], sb)` for i = 1, 2, ... */
  method BuildMux(conf: seq<nat>) returns (sb: Expr)
    requires 1 <= |conf| <= 256 && IsTable(conf, |conf|)
    ensures MuxFor(sb, conf)
  {
    sb := Const(conf[0]);
    for i := 1 to |conf|
      invariant forall env: Name -> nat :: Eval(sb, env) == MuxUpTo(conf, i, env(MuxInput) % 256)
    {
      var sb' := IfEq(Var(MuxInput), i, Const(conf[i]), sb);
      forall env: Name -> nat ensures Eval(sb', env) == MuxUpTo(conf, i + 1, env(MuxInput) % 256) {
        assert Eval(Var(MuxInput), env) == env(MuxInput) % 256;
      }
      sb := sb';
    }
  }

  /** The multiplexer instantiated for plaintext byte k, for every k < n. */
  function Instances(sb: Expr, n: nat): (d: seq<Expr>)
    ensures |d| == n
  {
    seq(n, k requires 0 <= k < n => Substitute(sb, MuxInput, Var(Plain(k))))
  }

  /** `d.push_back(sb.substitute(x, S0[k]))` for each byte k. */
  method Instantiate(sb: Expr, n: nat) returns (d: seq<Expr>)
    ensures d == Instances(sb, n)
  {
    d := [];
    for k := 0 to n
      invariant d == Instances(sb, k)
    {
      d := d + [Substitute(sb, MuxInput, Var(Plain(k)))];
    }
  }

  /** The plaintext bytes an environment assigns. */
  function Plaintext(env: Name -> nat, n: nat): (x: seq<nat>)
    ensures |x| == n
  {
    seq(n, j requires 0 <= j < n => env(Plain(j)) % 256)
  }

  /** Each instance evaluates to the S-box of its plaintext byte. */
  lemma InstancesEval(sb: Expr, conf: seq<nat>, n: nat, env: Name -> nat)
    requires |conf| >= 1 && MuxFor(sb, conf)
    ensures Evals(e => Eval(e, env), Instances(sb, n))
         == seq(n, k requires 0 <= k < n => MuxValue(conf, Plaintext(env, n)[k]))
  {
    forall k | 0 <= k < n
      ensures Eval(Instances(sb, n)[k], env) == MuxValue(conf, Plaintext(env, n)[k])
    {
      SubstituteEval(sb, MuxInput, Var(Plain(k)), env);
      var env' := Rebind(env, MuxInput, Eval(Var(Plain(k)), env));
      assert Eval(sb, env') == MuxValue(conf, env'(MuxInput) % 256);
    }
  }

  // ---------------------------------------------------------------------
  // The diffusion equations

  /** `while (row) { k = ctz(row); to_xor.push_back(d[k]); row &= row - 1; }` */
  method CollectSelected<T>(d: seq<T>, row: nat) returns (items: seq<T>)
    requires row < Pow2(|d|)
    ensures items == Selected(d, row, |d|)
  {
    items := [];
    var m: nat := row;
    while m != 0
      invariant m < Pow2(|d|)
      invariant items + Selected(d, m, |d|) == Selected(d, row, |d|)
      decreases m
    {
      SelectedClear(d, m);
      items := items + [d[Ctz(m)]];
      m := And(m, m - 1);
    }
    SelectedZero(d, |d|);
  }

  /** `S1[i] == balanced_xor(...)`: a ciphertext byte and an XOR tree. */
  datatype Equation = Equation(lhs: nat, rhs: XorTree<Expr>)

  predicate Holds(eq: Equation, env: Name -> nat) {
    eq.lhs % 256 == EvalTree(eq.rhs, e => Eval(e, env))
  }

  predicate AllHold(eqs: seq<Equation>, env: Name -> nat) {
    forall i :: 0 <= i < |eqs| ==> Holds(eqs[i], env)
  }

  /** Equation i pins c1[i] to a balanced XOR of the entries of d that row
      m[i] selects. */
  predicate EquationsFor(eqs: seq<Equation>, d: seq<Expr>, m: seq<nat>, c1: seq<nat>) {
    |eqs| == |m| == |c1| &&
    forall i :: 0 <= i < |m| ==>
      m[i] < Pow2(|d|) && eqs[i].lhs == c1[i] &&
      Frontier(eqs[i].rhs) == Selected(d, m[i], |d|) && Balanced(eqs[i].rhs)
  }

  /** The 32 equations, one per diffusion row. */
  method XorEquations(d: seq<Expr>, m: seq<nat>, c1: seq<nat>) returns (eqs: seq<Equation>)
    requires |c1| == |m| && forall i :: 0 <= i < |m| ==> m[i] < Pow2(|d|)
    ensures EquationsFor(eqs, d, m, c1)
  {
    eqs := [];
    for i := 0 to |m|
      invariant |eqs| == i
      invariant forall q :: 0 <= q < i ==>
        eqs[q].lhs == c1[q] && Frontier(eqs[q].rhs) == Selected(d, m[q], |d|) && Balanced(eqs[q].rhs)
    {
      var toXor := CollectSelected(d, m[i]);
      var t := BalancedXor(toXor);
      eqs := eqs + [Equation(c1[i], t)];
    }
  }

  lemma {:induction false} EvalsSelected<T>(f: T -> nat, d: seq<T>, row: nat, n: nat)
    requires n <= |d|
    ensures Evals(f, Selected(d, row, n)) == Selected(Evals(f, d), row, n)
    decreases n
  {
    if n > 0 {
      EvalsSelected(f, d, row, n - 1);
      var tail := if Bit(row, n - 1) then [d[n - 1]] else [];
      assert Evals(f, Selected(d, row, n - 1) + tail) == Evals(f, Selected(d, row, n - 1)) + Evals(f, tail);
    }
  }

  /** One equation holds exactly when its ciphertext byte is the row's dot
      product with the values of d. */
  lemma RowHolds(eq: Equation, d: seq<Expr>, row: nat, env: Name -> nat)
    requires Frontier(eq.rhs) == Selected(d, row, |d|)
    ensures Holds(eq, env) <==> eq.lhs % 256 == DotRow(row, Evals(e => Eval(e, env), d))
  {
    var f := e => Eval(e, env);
    EvalTreeFrontier(eq.rhs, f);
    EvalsSelected(f, d, row, |d|);
    XorAllSelected(row, Evals(f, d), |d|);
  }

  /**
   * The equations say one round: they hold under env exactly when the
   * plaintext bytes env assigns encrypt, in one round, to c1.
   */
  lemma EquationsIff(conf: seq<nat>, m: seq<nat>, c1: seq<nat>, sb: Expr, eqs: seq<Equation>, env: Name -> nat)
    requires IsSBox(conf) && |m| == 32 && IsState(c1) && MuxFor(sb, conf)
    requires EquationsFor(eqs, Instances(sb, 32), m, c1)
    ensures AllHold(eqs, env) <==> Round(conf, m, Plaintext(env, 32)) == c1
  {
    var x := Plaintext(env, 32);
    var r := Round(conf, m, x);
    EachRowHolds(conf, m, c1, sb, eqs, env);
    RowsIff(eqs, env, c1, r);
  }

  /** Row by row: equation i holds exactly when c1[i] is byte i of the round. */
  lemma EachRowHolds(conf: seq<nat>, m: seq<nat>, c1: seq<nat>, sb: Expr, eqs: seq<Equation>, env: Name -> nat)
    requires IsSBox(conf) && |m| == 32 && IsState(c1) && MuxFor(sb, conf)
    requires EquationsFor(eqs, Instances(sb, 32), m, c1)
    ensures forall i :: 0 <= i < |eqs| ==>
      (Holds(eqs[i], env) <==> c1[i] == Round(conf, m, Plaintext(env, 32))[i])
  {
    var x := Plaintext(env, 32);
    var d := Instances(sb, 32);
    InstancesAreSub(sb, conf, env);
    forall i | 0 <= i < |eqs|
      ensures Holds(eqs[i], env) <==> c1[i] == Round(conf, m, x)[i]
    {
      RowHolds(eqs[i], d, m[i], env);
      RoundRow(conf, m, x, i);
    }
  }

  /** The 32 instances evaluate to the substituted plaintext. */
  lemma InstancesAreSub(sb: Expr, conf: seq<nat>, env: Name -> nat)
    requires IsSBox(conf) && MuxFor(sb, conf)
    ensures Evals(e => Eval(e, env), Instances(sb, 32)) == Sub(conf, Plaintext(env, 32))
  {
    InstancesEval(sb, conf, 32, env);
  }

  lemma RoundRow(conf: seq<nat>, m: seq<nat>, x: seq<nat>, i: nat)
    requires IsSBox(conf) && |m| == 32 && IsState(x) && i < 32
    ensures Round(conf, m, x)[i] == DotRow(m[i], Sub(conf, x))
  {
  }

  /** All equations hold exactly when every row matches. */
  lemma RowsIff(eqs: seq<Equation>, env: Name -> nat, c1: seq<nat>, r: seq<nat>)
    requires |eqs| == |c1| == |r|
    requires forall i :: 0 <= i < |eqs| ==> (Holds(eqs[i], env) <==> c1[i] == r[i])
    ensures AllHold(eqs, env) <==> r == c1
  {
    if AllHold(eqs, env) {
      assert forall i :: 0 <= i < |r| ==> r[i] == c1[i];
    }
  }

  // ---------------------------------------------------------------------
  // The reference round and the driver

  /** forward_1_round: copy the input, substitute each byte through the S-box
      while clearing it, then diffuse. */
  method ForwardOneRound(conf: seq<nat>, m: seq<nat>, input: array<nat>, out: array<nat>)
    requires IsSBox(conf) && |m| == 32
    requires input.Length == 32 && out.Length == 32 && input != out && IsState(input[..])
    modifies out
    ensures out[..] == Round(conf, m, input[..])
  {
    for j := 0 to 32
      invariant out[..j] == input[..j]
    {
      out[j] := input[j];
    }
    assert out[..] == input[..];
    var d := new nat[32];
    SubstituteAndClear(conf, out, d);
    assert d[..] == Sub(conf, input[..]);
    Diffuse(m, out, d);
  }

  /** What the solver answers: a model, unsatisfiable, or unknown. */
  datatype CheckResult = Sat(model: Name -> nat) | Unsat | Unknown

  /** A model the solver returns satisfies every equation it was given. */
  ghost predicate CheckSound(check: seq<Equation> -> CheckResult) {
    forall eqs :: check(eqs).Sat? ==> AllHold(eqs, check(eqs).model)
  }

  /** The solver answers unsatisfiable only when no environment satisfies
      the equations. */
  ghost predicate CheckComplete(check: seq<Equation> -> CheckResult) {
    forall eqs, env: Name -> nat :: check(eqs).Unsat? ==> !AllHold(eqs, env)
  }

  /** The message main prints: SUCCESS or FAILED after re-encrypting a
      recovered plaintext, UNSAT, or UNKNOWN. */
  datatype Outcome = Verified(recovered: seq<nat>) | Mismatch(recovered: seq<nat>) | NoSolution | Undetermined

  /** The environment that assigns the plaintext to x0 .. x31. */
  function PlainEnv(plaintext: seq<nat>): Name -> nat {
    n => PlainValue(plaintext, n)
  }

  function PlainValue(plaintext: seq<nat>, n: Name): nat {
    if n.Plain? && n.j < |plaintext| then plaintext[n.j] else 0
  }

  lemma PlainEnvPlaintext(plaintext: seq<nat>)
    requires IsState(plaintext)
    ensures Plaintext(PlainEnv(plaintext), 32) == plaintext
  {
  }

  /** Build the equations for c1: the shared multiplexer, its 32 instances
      and one equation per diffusion row. */
  method BuildEquations(conf: seq<nat>, m: seq<nat>, c1: seq<nat>) returns (eqs: seq<Equation>, sb: Expr)
    requires IsSBox(conf) && IsMatrix(m) && IsState(c1)
    ensures MuxFor(sb, conf) && EquationsFor(eqs, Instances(sb, 32), m, c1)
  {
    Pow2Values();
    sb := BuildMux(conf);
    var d := Instantiate(sb, 32);
    eqs := XorEquations(d, m, c1);
  }

  /** forward_1_round on byte sequences: the round of x. */
  method Forward(conf: seq<nat>, m: seq<nat>, x: seq<nat>) returns (c: seq<nat>)
    requires IsSBox(conf) && |m| == 32 && IsState(x)
    ensures c == Round(conf, m, x)
  {
    var input := new nat[32](j requires 0 <= j < 32 => x[j]);
    assert input[..] == x;
    var out := new nat[32];
    ForwardOneRound(conf, m, input, out);
    c := out[..];
  }

  /** Build the equations for c1 and ask the solver.  A model it returns
      assigns a preimage of c1; a complete solver finds one whenever c1 has
      a preimage. */
  method SolveOneRound(conf: seq<nat>, m: seq<nat>, c1: seq<nat>, check: seq<Equation> -> CheckResult,
                       ghost preimage: seq<nat>)
    returns (r: CheckResult)
    requires IsSBox(conf) && IsMatrix(m) && IsState(c1) && CheckSound(check)
    requires IsState(preimage) && Round(conf, m, preimage) == c1
    ensures r.Sat? ==> Round(conf, m, Plaintext(r.model, 32)) == c1
    ensures CheckComplete(check) ==> !r.Unsat?
  {
    var eqs, sb := BuildEquations(conf, m, c1);
    PlainEnvPlaintext(preimage);
    EquationsIff(conf, m, c1, sb, eqs, PlainEnv(preimage));
    r := check(eqs);
    if r.Sat? {
      EquationsIff(conf, m, c1, sb, eqs, r.model);
    }
  }

  /**
   * main: encrypt the plaintext (the driver draws it with rand()) for one
   * round, build the equations, ask the solver, and re-encrypt the
   * plaintext read from its model.  A sound solver never leads to FAILED;
   * a complete one never answers UNSAT, since the plaintext itself is a
   * solution.
   */
  method OneRoundInversion(conf: seq<nat>, m: seq<nat>, plaintext: seq<nat>, check: seq<Equation> -> CheckResult)
    returns (outcome: Outcome, c1: seq<nat>)
    requires IsSBox(conf) && IsMatrix(m) && IsState(plaintext) && CheckSound(check)
    ensures c1 == Round(conf, m, plaintext)
    ensures !outcome.Mismatch?
    ensures outcome.Verified? ==> IsState(outcome.recovered) && Round(conf, m, outcome.recovered) == c1
    ensures CheckComplete(check) ==> !outcome.NoSolution?
  {
    c1 := Forward(conf, m, plaintext);
    var r := SolveOneRound(conf, m, c1, check, plaintext);
    if r.Unsat? {
      return NoSolution, c1;
    } else if r.Unknown? {
      return Undetermined, c1;
    }
    var recovered := ReadModel(r.model);
    var test := Forward(conf, m, recovered);
    if test == c1 {
      outcome := Verified(recovered);
    } else {
      outcome := Mismatch(recovered);
    }
  }

  /** `recovered[j] = (uint8_t)m.eval(S0[j]).get_numeral_uint()`. */
  method ReadModel(model: Name -> nat) returns (recovered: seq<nat>)
    ensures recovered == Plaintext(model, 32)
  {
    recovered := [];
    for j := 0 to 32
      invariant recovered == Plaintext(model, j)
    {
      recovered := recovered + [model(Plain(j)) % 256];
    }
  }
}
