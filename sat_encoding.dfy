/**
 * The hand-written CNF model of two rounds (minimal_sat.cpp).  The SAT
 * solver is abstracted as what the encoder sees of it: a variable counter
 * and a growing list of clauses and XOR constraints.  A model of the
 * formula is an assignment of truth values to variables.
 *
 * Each gadget is proved in both directions: every model of its clauses
 * gives its outputs the intended values (soundness), and every assignment
 * of its inputs extends, over its fresh variables only, to a model of its
 * clauses (completeness).
 */
module SatEncoding {
  import opened Bits
  import opened Gf2
  import opened Network
  import opened Wrappers

  /** A literal over variable v, negated when neg (CryptoMiniSat's Lit(var, sign)). */
  datatype Lit = Lit(v: nat, neg: bool)

  /** A native XOR constraint: the values of lits XOR to rhs. */
  datatype XorClause = XorClause(lits: seq<Lit>, rhs: bool)

  type Assignment = nat -> bool

  /** `~l`. */
  function Neg(l: Lit): Lit {
    Lit(l.v, !l.neg)
  }

  /** `bit ? l : neg(l)`. */
  function Phase(l: Lit, bit: bool): Lit {
    if bit then l else Neg(l)
  }

  /** The positive literal of variable v. */
  function Pos(v: nat): Lit {
    Lit(v, false)
  }

  // ---------------------------------------------------------------------
  // Semantics

  predicate Val(a: Assignment, l: Lit) {
    a(l.v) != l.neg
  }

  /** A clause holds when one of its literals is true. */
  predicate SatClause(a: Assignment, c: seq<Lit>) {
    exists j :: 0 <= j < |c| && Val(a, c[j])
  }

  predicate SatAll(a: Assignment, cs: seq<seq<Lit>>) {
    forall i {:trigger SatClause(a, cs[i])} :: 0 <= i < |cs| ==> SatClause(a, cs[i])
  }

  /** The XOR of the literals' values. */
  predicate Parity(a: Assignment, lits: seq<Lit>)
    decreases |lits|
  {
    if |lits| == 0 then false else Val(a, lits[0]) != Parity(a, lits[1..])
  }

  predicate SatXor(a: Assignment, x: XorClause) {
    Parity(a, x.lits) == x.rhs
  }

  predicate SatAllXor(a: Assignment, xs: seq<XorClause>) {
    forall i :: 0 <= i < |xs| ==> SatXor(a, xs[i])
  }

  /** a is a model of the clauses and the XOR constraints. */
  predicate Models(a: Assignment, cs: seq<seq<Lit>>, xs: seq<XorClause>) {
    SatAll(a, cs) && SatAllXor(a, xs)
  }

  /** The number of true literals. */
  function CountTrue(a: Assignment, x: seq<Lit>): (r: nat)
    ensures r <= |x|
    decreases |x|
  {
    if |x| == 0 then 0 else CountTrue(a, x[..|x| - 1]) + (if Val(a, x[|x| - 1]) then 1 else 0)
  }

  /** The index of the first true literal, or |x| when there is none. */
  function FirstTrue(a: Assignment, x: seq<Lit>): (r: nat)
    ensures r <= |x|
    decreases |x|
  {
    if |x| == 0 then 0
    else if FirstTrue(a, x[..|x| - 1]) < |x| - 1 then FirstTrue(a, x[..|x| - 1])
    else if Val(a, x[|x| - 1]) then |x| - 1
    else |x|
  }

  /** Literal t is the only true one. */
  predicate OnlyTrue(a: Assignment, x: seq<Lit>, t: nat) {
    t < |x| && forall j :: 0 <= j < |x| ==> (Val(a, x[j]) <==> j == t)
  }

  /** No literal is true. */
  predicate NoneTrue(a: Assignment, x: seq<Lit>) {
    forall j :: 0 <= j < |x| ==> !Val(a, x[j])
  }

  /** Counting zero or one true literals, and where the one is. */
  lemma {:induction false} CountTrueSmall(a: Assignment, x: seq<Lit>)
    ensures CountTrue(a, x) == 0 <==> NoneTrue(a, x)
    ensures CountTrue(a, x) == 1 <==> OnlyTrue(a, x, FirstTrue(a, x))
    ensures CountTrue(a, x) == 0 ==> FirstTrue(a, x) == |x|
    decreases |x|
  {
    if |x| > 0 {
      var p := x[..|x| - 1];
      CountTrueSmall(a, p);
      assert forall j :: 0 <= j < |p| ==> p[j] == x[j];
      if OnlyTrue(a, x, FirstTrue(a, x)) {
        if FirstTrue(a, x) < |x| - 1 {
          assert FirstTrue(a, p) == FirstTrue(a, x);
          assert OnlyTrue(a, p, FirstTrue(a, p));
        } else {
          assert NoneTrue(a, p);
        }
      }
      if NoneTrue(a, x) {
        assert NoneTrue(a, p);
      }
    }
  }

  /** Models of a longer list are models of its prefix. */
  lemma ModelsPrefix(a: Assignment, cs: seq<seq<Lit>>, xs: seq<XorClause>,
                     cs': seq<seq<Lit>>, xs': seq<XorClause>)
    requires Models(a, cs + cs', xs + xs')
    ensures Models(a, cs, xs) && Models(a, cs', xs')
  {
    forall i | 0 <= i < |cs| ensures SatClause(a, cs[i]) {
      assert (cs + cs')[i] == cs[i];
    }
    forall i | 0 <= i < |cs'| ensures SatClause(a, cs'[i]) {
      assert (cs + cs')[|cs| + i] == cs'[i];
    }
    forall i | 0 <= i < |xs| ensures SatXor(a, xs[i]) {
      assert (xs + xs')[i] == xs[i];
    }
    forall i | 0 <= i < |xs'| ensures SatXor(a, xs'[i]) {
      assert (xs + xs')[|xs| + i] == xs'[i];
    }
  }

  /** Assignments that agree on the variables of a literal list give it the same values. */
  predicate AgreeOn(a: Assignment, b: Assignment, x: seq<Lit>) {
    forall j :: 0 <= j < |x| ==> a(x[j].v) == b(x[j].v)
  }

  /** Every variable of x is below n. */
  predicate VarsBelow(x: seq<Lit>, n: nat) {
    forall j :: 0 <= j < |x| ==> x[j].v < n
  }

  // ---------------------------------------------------------------------
  // The solver as the encoder sees it

  /** CryptoMiniSat's SATSolver: new_var grows the variable count, add_clause
      and add_xor_clause append constraints. */
  class Solver {
    var nVars: nat
    var clauses: seq<seq<Lit>>
    var xors: seq<XorClause>

    constructor ()
      ensures nVars == 0 && clauses == [] && xors == []
    {
      nVars, clauses, xors := 0, [], [];
    }

    /** new_lit: a fresh variable's positive literal.  Every literal made
        before names a smaller variable, so successive calls never repeat. */
    method NewLit() returns (l: Lit)
      modifies this
      ensures l == Pos(old(nVars)) && nVars == old(nVars) + 1
      ensures clauses == old(clauses) && xors == old(xors)
    {
      nVars := nVars + 1;
      l := Pos(nVars - 1);
    }

    method AddClause(c: seq<Lit>)
      modifies this
      ensures clauses == old(clauses) + [c]
      ensures nVars == old(nVars) && xors == old(xors)
    {
      clauses := clauses + [c];
    }

    method AddXorClause(lits: seq<Lit>, rhs: bool)
      modifies this
      ensures xors == old(xors) + [XorClause(lits, rhs)]
      ensures nVars == old(nVars) && clauses == old(clauses)
    {
      xors := xors + [XorClause(lits, rhs)];
    }
  }

  // ---------------------------------------------------------------------
  // Exactly one (Sinz sequential counter)

  /** Counter variable i of an exactly-one constraint whose counters start at base. */
  function Counter(base: nat, i: nat): Lit {
    Pos(base + i)
  }

  /** The clauses for position i, 1 <= i < |x| - 1:
      a[i-1] -> a[i], x[i] -> a[i], x[i] -> !a[i-1]. */
  function CounterStep(x: seq<Lit>, base: nat, i: nat): seq<seq<Lit>>
    requires 1 <= i < |x|
  {
    [[Neg(Counter(base, i - 1)), Counter(base, i)],
     [Neg(x[i]), Counter(base, i)],
     [Neg(x[i]), Neg(Counter(base, i - 1))]]
  }

  /** The step clauses of the positions 1 <= i < hi, in order. */
  function CounterSteps(x: seq<Lit>, base: nat, hi: nat): (cs: seq<seq<Lit>>)
    requires 1 <= hi <= |x|
    ensures |cs| == 3 * (hi - 1)
    decreases hi
  {
    if hi == 1 then [] else CounterSteps(x, base, hi - 1) + CounterStep(x, base, hi - 1)
  }

  /**
   * The clauses exactly_one_seq adds for x with its n - 1 counters at
   * base..base+n-2: at least one x, x[0] -> a[0], the steps, and
   * x[n-1] -> !a[n-2].  Nothing for n <= 1.
   */
  function ExactlyOneClauses(x: seq<Lit>, base: nat): (cs: seq<seq<Lit>>)
  {
    if |x| <= 1 then []
    else [x, [Neg(x[0]), Counter(base, 0)]] + CounterSteps(x, base, |x| - 1)
         + [[Neg(x[|x| - 1]), Neg(Counter(base, |x| - 2))]]
  }

  /** The sizes: n - 1 counters and 3n - 3 clauses for n >= 2, none for n <= 1. */
  lemma ExactlyOneSize(x: seq<Lit>, base: nat)
    ensures |x| <= 1 ==> ExactlyOneClauses(x, base) == []
    ensures |x| >= 2 ==> |ExactlyOneClauses(x, base)| == 3 * |x| - 3
  {
  }

  /** exactly_one_seq. */
  method ExactlyOneSeq(s: Solver, x: seq<Lit>)
    modifies s
    ensures s.clauses == old(s.clauses) + ExactlyOneClauses(x, old(s.nVars))
    ensures s.nVars == old(s.nVars) + (if |x| <= 1 then 0 else |x| - 1)
    ensures s.xors == old(s.xors)
  {
    if |x| <= 1 {
      return;
    }
    var base := s.nVars;
    var a := NewCounters(s, |x| - 1);
    ghost var start := s.clauses;
    s.AddClause(x);
    s.AddClause([Neg(x[0]), a[0]]);
    AddCounterSteps(s, x, a, base);
    s.AddClause([Neg(x[|x| - 1]), Neg(a[|a| - 1])]);
    ExactlyOneShape(x, base, a, start);
  }

  /** The clauses in the order exactly_one_seq adds them. */
  lemma ExactlyOneShape(x: seq<Lit>, base: nat, a: seq<Lit>, start: seq<seq<Lit>>)
    requires |x| >= 2 && |a| == |x| - 1
    requires forall k :: 0 <= k < |a| ==> a[k] == Counter(base, k)
    ensures start + [x] + [[Neg(x[0]), a[0]]] + CounterSteps(x, base, |x| - 1)
            + [[Neg(x[|x| - 1]), Neg(a[|a| - 1])]]
         == start + ExactlyOneClauses(x, base)
  {
  }

  /** The n counter variables, allocated one after another. */
  method NewCounters(s: Solver, n: nat) returns (a: seq<Lit>)
    modifies s
    ensures |a| == n && s.nVars == old(s.nVars) + n
    ensures forall k :: 0 <= k < n ==> a[k] == Counter(old(s.nVars), k)
    ensures s.clauses == old(s.clauses) && s.xors == old(s.xors)
  {
    a := [];
    for i := 0 to n
      invariant |a| == i && s.nVars == old(s.nVars) + i
      invariant forall k :: 0 <= k < i ==> a[k] == Counter(old(s.nVars), k)
      invariant s.clauses == old(s.clauses) && s.xors == old(s.xors)
    {
      var l := s.NewLit();
      a := a + [l];
    }
  }

  /** The three clauses of each position 1 <= i < |x| - 1. */
  method AddCounterSteps(s: Solver, x: seq<Lit>, a: seq<Lit>, base: nat)
    requires |x| >= 2 && |a| == |x| - 1
    requires forall k :: 0 <= k < |a| ==> a[k] == Counter(base, k)
    modifies s
    ensures s.clauses == old(s.clauses) + CounterSteps(x, base, |x| - 1)
    ensures s.nVars == old(s.nVars) && s.xors == old(s.xors)
  {
    for i := 1 to |x| - 1
      invariant s.clauses == old(s.clauses) + CounterSteps(x, base, i)
      invariant s.nVars == old(s.nVars) && s.xors == old(s.xors)
    {
      s.AddClause([Neg(a[i - 1]), a[i]]);
      s.AddClause([Neg(x[i]), a[i]]);
      s.AddClause([Neg(x[i]), Neg(a[i - 1])]);
    }
  }

  /** Clause k of the steps below hi. */
  lemma {:induction false} CounterStepsAt(x: seq<Lit>, base: nat, hi: nat, i: nat, r: nat)
    requires 1 <= i < hi <= |x| && r < 3
    ensures CounterSteps(x, base, hi)[3 * (i - 1) + r] == CounterStep(x, base, i)[r]
    decreases hi
  {
    if i < hi - 1 {
      CounterStepsAt(x, base, hi - 1, i, r);
    }
  }

  /** What a model of the clauses says about position i. */
  lemma CounterStepHolds(a: Assignment, x: seq<Lit>, base: nat, i: nat)
    requires 1 <= i < |x| - 1 && SatAll(a, ExactlyOneClauses(x, base))
    ensures Val(a, Counter(base, i - 1)) ==> Val(a, Counter(base, i))
    ensures Val(a, x[i]) ==> Val(a, Counter(base, i)) && !Val(a, Counter(base, i - 1))
  {
    var cs := ExactlyOneClauses(x, base);
    forall r | 0 <= r < 3 ensures SatClause(a, CounterStep(x, base, i)[r]) {
      CounterStepsAt(x, base, |x| - 1, i, r);
      assert cs[2 + 3 * (i - 1) + r] == CounterStep(x, base, i)[r];
    }
    var st := CounterStep(x, base, i);
    assert SatClause(a, st[0]) && SatClause(a, st[1]) && SatClause(a, st[2]);
  }

  /** The invariant of the counter along the prefix x[..i+1], i <= n - 2: at
      most one x is true there, and a[i] is true once one is. */
  lemma {:induction false} CounterPrefix(a: Assignment, x: seq<Lit>, base: nat, i: nat)
    requires |x| >= 2 && i <= |x| - 2 && SatAll(a, ExactlyOneClauses(x, base))
    ensures CountTrue(a, x[..i + 1]) <= 1
    ensures CountTrue(a, x[..i + 1]) >= 1 ==> Val(a, Counter(base, i))
    decreases i
  {
    var cs := ExactlyOneClauses(x, base);
    if i == 0 {
      assert SatClause(a, cs[1]);
      assert x[..1][..0] == [];
    } else {
      CounterPrefix(a, x, base, i - 1);
      CounterStepHolds(a, x, base, i);
      assert x[..i + 1][..i] == x[..i];
      if Val(a, x[i]) {
        CountTrueSmall(a, x[..i]);
      }
    }
  }

  /** A true literal makes the count positive. */
  lemma CountTruePositive(a: Assignment, x: seq<Lit>, j: nat)
    requires j < |x| && Val(a, x[j])
    ensures CountTrue(a, x) >= 1
  {
    CountTrueSmall(a, x);
  }

  /** Counting the last literal separately. */
  lemma CountTrueLast(a: Assignment, x: seq<Lit>)
    requires |x| >= 1
    ensures CountTrue(a, x) == CountTrue(a, x[..|x| - 1]) + Indicator(Val(a, x[|x| - 1]))
  {
  }

  function Indicator(b: bool): nat {
    if b then 1 else 0
  }

  /** The first and the last clause of exactly_one_seq. */
  lemma ExactlyOneEnds(x: seq<Lit>, base: nat)
    requires |x| >= 2
    ensures ExactlyOneClauses(x, base)[0] == x
    ensures ExactlyOneClauses(x, base)[3 * |x| - 4] == [Neg(x[|x| - 1]), Neg(Counter(base, |x| - 2))]
  {
  }

  lemma SatAt(a: Assignment, cs: seq<seq<Lit>>, k: nat)
    requires SatAll(a, cs) && k < |cs|
    ensures SatClause(a, cs[k])
  {
  }

  /** The last clause: x[n-1] -> !a[n-2]. */
  lemma LastClauseHolds(a: Assignment, x: seq<Lit>, base: nat)
    requires |x| >= 2 && SatAll(a, ExactlyOneClauses(x, base))
    ensures Val(a, x[|x| - 1]) ==> !Val(a, Counter(base, |x| - 2))
  {
    ExactlyOneSize(x, base);
    ExactlyOneEnds(x, base);
    SatAt(a, ExactlyOneClauses(x, base), 3 * |x| - 4);
  }

  /** The first clause: some x is true. */
  lemma FirstClauseHolds(a: Assignment, x: seq<Lit>, base: nat) returns (j: nat)
    requires |x| >= 2 && SatAll(a, ExactlyOneClauses(x, base))
    ensures j < |x| && Val(a, x[j])
  {
    ExactlyOneEnds(x, base);
    SatAt(a, ExactlyOneClauses(x, base), 0);
    j :| 0 <= j < |x| && Val(a, x[j]);
  }

  /** Exactly one literal of x is true. */
  predicate ExactlyOneTrue(a: Assignment, x: seq<Lit>) {
    CountTrue(a, x) == 1
  }

  /** What soundness reads off the clauses: at most one true literal before
      the last, the last counter set by it, the last literal excluding that
      counter, and a true literal at j. */
  predicate CounterFacts(a: Assignment, x: seq<Lit>, base: nat, j: nat) {
    && |x| >= 2
    && CountTrue(a, x[..|x| - 1]) <= 1
    && (CountTrue(a, x[..|x| - 1]) >= 1 ==> Val(a, Counter(base, |x| - 2)))
    && (Val(a, x[|x| - 1]) ==> !Val(a, Counter(base, |x| - 2)))
    && j < |x| && Val(a, x[j])
  }

  lemma ReadCounterFacts(a: Assignment, x: seq<Lit>, base: nat) returns (j: nat)
    requires |x| >= 2 && SatAll(a, ExactlyOneClauses(x, base))
    ensures CounterFacts(a, x, base, j)
  {
    CounterPrefix(a, x, base, |x| - 2);
    LastClauseHolds(a, x, base);
    j := FirstClauseHolds(a, x, base);
  }

  /** The counting step of soundness. */
  lemma CountOneOfPrefix(a: Assignment, x: seq<Lit>, base: nat, j: nat)
    requires CounterFacts(a, x, base, j)
    ensures ExactlyOneTrue(a, x)
  {
    CountTruePositive(a, x, j);
    CountTrueLast(a, x);
  }

  /** Soundness: every model of the clauses makes exactly one x true. */
  lemma ExactlyOneSound(a: Assignment, x: seq<Lit>, base: nat)
    requires |x| >= 2 && SatAll(a, ExactlyOneClauses(x, base))
    ensures ExactlyOneTrue(a, x)
  {
    var j := ReadCounterFacts(a, x, base);
    CountOneOfPrefix(a, x, base, j);
  }

  /** The counters given the one true position t: a[i] holds from t on. */
  predicate CountersFrom(a: Assignment, base: nat, n: nat, t: nat) {
    forall i :: 0 <= i < n - 1 ==> (Val(a, Counter(base, i)) <==> i >= t)
  }

  /** Completeness, clause by clause: with x[t] the only true literal and
      the counters set from t on, every clause holds. */
  lemma ExactlyOneHolds(a: Assignment, x: seq<Lit>, base: nat, t: nat)
    requires |x| >= 2 && OnlyTrue(a, x, t) && CountersFrom(a, base, |x|, t)
    ensures SatAll(a, ExactlyOneClauses(x, base))
  {
    var cs := ExactlyOneClauses(x, base);
    var n := |x|;
    assert Val(a, x[t]);
    forall k | 0 <= k < |cs| ensures SatClause(a, cs[k]) {
      if k == 0 {
        assert Val(a, cs[0][t]);
      } else if k == 1 {
        assert Val(a, cs[1][0]) || Val(a, cs[1][1]);
      } else if k == |cs| - 1 {
        assert Val(a, cs[k][0]) || Val(a, cs[k][1]);
      } else {
        var i, r := (k - 2) / 3 + 1, (k - 2) % 3;
        assert k - 2 == 3 * (i - 1) + r;
        CounterStepsAt(x, base, n - 1, i, r);
        var c := CounterStep(x, base, i)[r];
        assert cs[k] == c;
        assert Val(a, c[0]) || Val(a, c[1]);
      }
    }
  }

  /** The witness completeness builds: the counters of base set from the
      first true x on, every other variable as in a. */
  function WithCounters(a: Assignment, x: seq<Lit>, base: nat): Assignment {
    var t := FirstTrue(a, x);
    (v: nat) => if base <= v < base + |x| - 1 then v - base >= t else a(v)
  }

  /** Completeness: when x's variables lie below the counters and exactly one
      x is true, setting the counters satisfies every clause and changes no
      other variable. */
  lemma ExactlyOneComplete(a: Assignment, x: seq<Lit>, base: nat)
    requires |x| >= 2 && VarsBelow(x, base) && ExactlyOneTrue(a, x)
    ensures SatAll(WithCounters(a, x, base), ExactlyOneClauses(x, base))
    ensures forall v: nat :: v < base ==> WithCounters(a, x, base)(v) == a(v)
  {
    var b := WithCounters(a, x, base);
    var t := FirstTrue(a, x);
    CountTrueSmall(a, x);
    assert OnlyTrue(b, x, t) by {
      forall j | 0 <= j < |x| ensures Val(b, x[j]) == Val(a, x[j]) {
      }
    }
    ExactlyOneHolds(b, x, base, t);
  }

  // ---------------------------------------------------------------------
  // Bytes as eight literals, bit 0 first

  /** `byte |= 1 << b` for every true literal bits[b] with b < n. */
  function ValueUpTo(a: Assignment, bits: seq<Lit>, n: nat): nat
    requires n <= |bits|
  {
    if n == 0 then 0
    else if Val(a, bits[n - 1]) then Or(ValueUpTo(a, bits, n - 1), Pow2(n - 1))
    else ValueUpTo(a, bits, n - 1)
  }

  /** The number the literals spell under a, bit b read from bits[b]. */
  function ValueOf(a: Assignment, bits: seq<Lit>): nat {
    ValueUpTo(a, bits, |bits|)
  }

  lemma {:induction false} BitValueUpTo(a: Assignment, bits: seq<Lit>, n: nat, k: nat)
    requires n <= |bits|
    ensures Bit(ValueUpTo(a, bits, n), k) <==> k < n && Val(a, bits[k])
    decreases n
  {
    if n == 0 {
      ZeroHasNoBit(k);
    } else {
      BitValueUpTo(a, bits, n - 1, k);
      BitPow2(n - 1, k);
      if Val(a, bits[n - 1]) {
        BitOr(ValueUpTo(a, bits, n - 1), Pow2(n - 1), k);
      }
    }
  }

  /** Eight literals spell a byte. */
  lemma ValueBelow(a: Assignment, bits: seq<Lit>)
    requires |bits| == 8
    ensures ValueOf(a, bits) < 256
  {
    forall k: nat | 8 <= k ensures !Bit(ValueOf(a, bits), k) {
      BitValueUpTo(a, bits, 8, k);
    }
    BelowFromBits(ValueOf(a, bits), 8);
    Pow2Values();
  }

  /** Eight literals that carry the bits of v spell v. */
  lemma ValueIs(a: Assignment, bits: seq<Lit>, v: nat)
    requires |bits| == 8 && v < 256
    requires forall b :: 0 <= b < 8 ==> Val(a, bits[b]) == Bit(v, b)
    ensures ValueOf(a, bits) == v
  {
    Pow2Values();
    forall k: nat ensures Bit(ValueOf(a, bits), k) == Bit(v, k) {
      BitValueUpTo(a, bits, 8, k);
      if k >= 8 {
        BitAbove(v, 8, k);
      }
    }
    BitExt(ValueOf(a, bits), v);
  }

  /** A list of byte literals: eight literals each. */
  predicate ByteLits(bytes: seq<seq<Lit>>) {
    forall k :: 0 <= k < |bytes| ==> |bytes[k]| == 8
  }

  /** The bytes the literal groups spell. */
  function Values(a: Assignment, bytes: seq<seq<Lit>>): (r: seq<nat>)
    ensures |r| == |bytes|
  {
    seq(|bytes|, k requires 0 <= k < |bytes| => ValueOf(a, bytes[k]))
  }

  lemma ValuesBelow(a: Assignment, bytes: seq<seq<Lit>>)
    requires ByteLits(bytes)
    ensures forall k :: 0 <= k < |bytes| ==> Values(a, bytes)[k] < 256
  {
    forall k | 0 <= k < |bytes| ensures Values(a, bytes)[k] < 256 {
      ValueBelow(a, bytes[k]);
    }
  }

  /** The literals of n consecutive fresh variables from first on. */
  function Fresh(first: nat, n: nat): (r: seq<Lit>)
    ensures |r| == n
  {
    seq(n, i requires 0 <= i => Pos(first + i))
  }

  lemma FreshSnoc(first: nat, n: nat)
    ensures Fresh(first, n + 1) == Fresh(first, n) + [Pos(first + n)]
  {
  }

  /** A satisfied clause list satisfies each of its parts. */
  lemma SatAllAppend(a: Assignment, cs: seq<seq<Lit>>, cs': seq<seq<Lit>>)
    requires SatAll(a, cs + cs')
    ensures SatAll(a, cs) && SatAll(a, cs')
  {
    forall i | 0 <= i < |cs| ensures SatClause(a, cs[i]) {
      SatAt(a, cs + cs', i);
      assert (cs + cs')[i] == cs[i];
    }
    forall i | 0 <= i < |cs'| ensures SatClause(a, cs'[i]) {
      SatAt(a, cs + cs', |cs| + i);
      assert (cs + cs')[|cs| + i] == cs'[i];
    }
  }

  lemma SatAllThree(a: Assignment, x: seq<seq<Lit>>, y: seq<seq<Lit>>, z: seq<seq<Lit>>)
    requires SatAll(a, x + y + z)
    ensures SatAll(a, x) && SatAll(a, y) && SatAll(a, z)
  {
    SatAllAppend(a, x + y, z);
    SatAllAppend(a, x, y);
  }

  lemma SatAllXorAppend(a: Assignment, xs: seq<XorClause>, xs': seq<XorClause>)
    requires SatAllXor(a, xs + xs')
    ensures SatAllXor(a, xs) && SatAllXor(a, xs')
  {
    forall i | 0 <= i < |xs| ensures SatXor(a, xs[i]) {
      assert (xs + xs')[i] == xs[i];
    }
    forall i | 0 <= i < |xs'| ensures SatXor(a, xs'[i]) {
      assert (xs + xs')[|xs| + i] == xs'[i];
    }
  }

  /** A clause list holds when each of its three parts does. */
  lemma SatAllJoin(a: Assignment, cs: seq<seq<Lit>>, x: seq<seq<Lit>>, y: seq<seq<Lit>>, z: seq<seq<Lit>>)
    requires cs == x + y + z && SatAll(a, x) && SatAll(a, y) && SatAll(a, z)
    ensures SatAll(a, cs)
  {
    forall i | 0 <= i < |cs| ensures SatClause(a, cs[i]) {
      if i < |x| {
        assert cs[i] == x[i];
      } else if i < |x| + |y| {
        assert cs[i] == y[i - |x|];
      } else {
        assert cs[i] == z[i - |x| - |y|];
      }
    }
  }

  /** A clause list holds when both of its parts do. */
  lemma SatAllConcat(a: Assignment, cs: seq<seq<Lit>>, x: seq<seq<Lit>>, y: seq<seq<Lit>>)
    requires cs == x + y && SatAll(a, x) && SatAll(a, y)
    ensures SatAll(a, cs)
  {
    forall i | 0 <= i < |cs| ensures SatClause(a, cs[i]) {
      if i < |x| {
        assert cs[i] == x[i];
      } else {
        assert cs[i] == y[i - |x|];
      }
    }
  }

  /** An XOR list holds when both of its parts do. */
  lemma SatAllXorJoin(a: Assignment, all: seq<XorClause>, xs: seq<XorClause>, xs': seq<XorClause>)
    requires all == xs + xs' && SatAllXor(a, xs) && SatAllXor(a, xs')
    ensures SatAllXor(a, all)
  {
    forall i | 0 <= i < |all| ensures SatXor(a, all[i]) {
      if i < |xs| {
        assert all[i] == xs[i];
      } else {
        assert all[i] == xs'[i - |xs|];
      }
    }
  }

  /** Assignments that agree on the literals' variables spell the same number. */
  lemma {:induction false} ValueUpToAgree(a: Assignment, b: Assignment, bits: seq<Lit>, n: nat)
    requires n <= |bits| && AgreeOn(a, b, bits)
    ensures ValueUpTo(a, bits, n) == ValueUpTo(b, bits, n)
    decreases n
  {
    if n > 0 {
      ValueUpToAgree(a, b, bits, n - 1);
      assert a(bits[n - 1].v) == b(bits[n - 1].v);
    }
  }

  // ---------------------------------------------------------------------
  // One S-box byte (encode_sbox_byte)

  /** `!sel[v] | (bit ? bits[b] : !bits[b])`, bit being bit b of vals[v]. */
  function LinkClause(sel: seq<Lit>, bits: seq<Lit>, vals: seq<nat>, v: nat, b: nat): seq<Lit>
    requires v < |sel| && v < |vals| && b < |bits|
  {
    [Neg(sel[v]), Phase(bits[b], Bit(vals[v], b))]
  }

  /** The eight link clauses of selector v. */
  function LinkRow(sel: seq<Lit>, bits: seq<Lit>, vals: seq<nat>, v: nat): (cs: seq<seq<Lit>>)
    requires v < |sel| && v < |vals| && |bits| == 8
    ensures |cs| == 8
  {
    seq(8, b requires 0 <= b < 8 => LinkClause(sel, bits, vals, v, b))
  }

  /** The link clauses of selectors 0..n-1, in the order of the nested loops. */
  function LinkRows(sel: seq<Lit>, bits: seq<Lit>, vals: seq<nat>, n: nat): (cs: seq<seq<Lit>>)
    requires n <= |sel| && n <= |vals| && |bits| == 8
    ensures |cs| == 8 * n
    decreases n
  {
    if n == 0 then [] else LinkRows(sel, bits, vals, n - 1) + LinkRow(sel, bits, vals, n - 1)
  }

  lemma {:induction false} LinkRowsAt(sel: seq<Lit>, bits: seq<Lit>, vals: seq<nat>, n: nat, v: nat, b: nat)
    requires n <= |sel| && n <= |vals| && |bits| == 8 && v < n && b < 8
    ensures LinkRows(sel, bits, vals, n)[8 * v + b] == LinkClause(sel, bits, vals, v, b)
    decreases n
  {
    if v < n - 1 {
      LinkRowsAt(sel, bits, vals, n - 1, v, b);
    }
  }

  /** Selector v stands for input byte v. */
  function Ids(n: nat): (r: seq<nat>)
    ensures |r| == n
  {
    seq(n, v requires 0 <= v => v)
  }

  /** The eight output literals: the variables after the selectors and the
      exactly-one counters. */
  function SboxOutputs(conf: seq<nat>, base: nat): seq<Lit>
    requires |conf| >= 2
  {
    Fresh(base + 2 * |conf| - 1, 8)
  }

  /**
   * The clauses encode_sbox_byte adds for a table of n entries, its
   * selectors being the variables base..base+n-1: exactly one selector,
   * each selector fixing the input bits to its index, each selector fixing
   * the output bits to its table entry.
   */
  function SboxClauses(inb: seq<Lit>, conf: seq<nat>, base: nat): seq<seq<Lit>>
    requires |inb| == 8 && |conf| >= 2
  {
    var sel := Fresh(base, |conf|);
    ExactlyOneClauses(sel, base + |conf|)
      + LinkRows(sel, inb, Ids(|conf|), |conf|)
      + LinkRows(sel, SboxOutputs(conf, base), conf, |conf|)
  }

  /** The value of every entry of a table is a byte. */
  predicate ByteTable(conf: seq<nat>) {
    forall v :: 0 <= v < |conf| ==> conf[v] < 256
  }

  /** The nested loops `for v, for b: add_clause({~sel[v], bit ? bits[b] : ~bits[b]})`. */
  method AddLinks(s: Solver, sel: seq<Lit>, bits: seq<Lit>, vals: seq<nat>)
    requires |sel| == |vals| && |bits| == 8
    modifies s
    ensures s.clauses == old(s.clauses) + LinkRows(sel, bits, vals, |sel|)
    ensures s.nVars == old(s.nVars) && s.xors == old(s.xors)
  {
    for v := 0 to |sel|
      invariant s.clauses == old(s.clauses) + LinkRows(sel, bits, vals, v)
      invariant s.nVars == old(s.nVars) && s.xors == old(s.xors)
    {
      ghost var front := s.clauses;
      for b := 0 to 8
        invariant s.clauses == front + LinkRow(sel, bits, vals, v)[..b]
        invariant s.nVars == old(s.nVars) && s.xors == old(s.xors)
      {
        var bit := Shr(vals[v], b) % 2 == 1;
        s.AddClause([Neg(sel[v]), if bit then bits[b] else Neg(bits[b])]);
        assert LinkRow(sel, bits, vals, v)[..b + 1] == LinkRow(sel, bits, vals, v)[..b] + [LinkClause(sel, bits, vals, v, b)];
      }
      assert LinkRow(sel, bits, vals, v)[..8] == LinkRow(sel, bits, vals, v);
    }
  }

  /** n fresh variables in a row. */
  method NewLits(s: Solver, n: nat) returns (ls: seq<Lit>)
    modifies s
    ensures ls == Fresh(old(s.nVars), n) && s.nVars == old(s.nVars) + n
    ensures s.clauses == old(s.clauses) && s.xors == old(s.xors)
  {
    ls := [];
    for i := 0 to n
      invariant ls == Fresh(old(s.nVars), i) && s.nVars == old(s.nVars) + i
      invariant s.clauses == old(s.clauses) && s.xors == old(s.xors)
    {
      var l := s.NewLit();
      FreshSnoc(old(s.nVars), i);
      ls := ls + [l];
    }
  }

  /**
   * encode_sbox_byte: |conf| selectors, exactly one of them true, each
   * tied to its input pattern, then eight fresh output literals tied to
   * the selected table entry.
   */
  method EncodeSboxByte(s: Solver, inb: seq<Lit>, conf: seq<nat>) returns (outb: seq<Lit>)
    requires |inb| == 8 && |conf| >= 2
    modifies s
    ensures outb == SboxOutputs(conf, old(s.nVars))
    ensures s.clauses == old(s.clauses) + SboxClauses(inb, conf, old(s.nVars))
    ensures s.nVars == old(s.nVars) + 2 * |conf| + 7
    ensures s.xors == old(s.xors)
  {
    var base := s.nVars;
    var sel := NewLits(s, |conf|);
    ExactlyOneSeq(s, sel);
    AddLinks(s, sel, inb, Ids(|conf|));
    outb := NewLits(s, 8);
    AddLinks(s, sel, outb, conf);
  }

  /** What a satisfied link list says: the true selector t fixes the bits to vals[t]. */
  lemma {:induction false} LinkedValue(a: Assignment, sel: seq<Lit>, bits: seq<Lit>, vals: seq<nat>, n: nat, t: nat)
    requires n <= |sel| && n <= |vals| && |bits| == 8 && t < n && vals[t] < 256
    requires Val(a, sel[t]) && SatAll(a, LinkRows(sel, bits, vals, n))
    ensures ValueOf(a, bits) == vals[t]
  {
    forall b | 0 <= b < 8 ensures Val(a, bits[b]) == Bit(vals[t], b) {
      LinkRowsAt(sel, bits, vals, n, t, b);
      SatAt(a, LinkRows(sel, bits, vals, n), 8 * t + b);
      var c := LinkClause(sel, bits, vals, t, b);
      var j :| 0 <= j < |c| && Val(a, c[j]);
    }
    ValueIs(a, bits, vals[t]);
  }

  /** The single true selector, when exactly one is true. */
  lemma TheSelector(a: Assignment, sel: seq<Lit>) returns (t: nat)
    requires ExactlyOneTrue(a, sel)
    ensures t < |sel| && Val(a, sel[t])
  {
    CountTrueSmall(a, sel);
    t := FirstTrue(a, sel);
  }

  /** A model of the S-box clauses has one true selector and satisfies both link lists. */
  lemma SboxSelector(a: Assignment, inb: seq<Lit>, conf: seq<nat>, base: nat) returns (t: nat)
    requires |inb| == 8 && |conf| >= 2
    requires SatAll(a, SboxClauses(inb, conf, base))
    ensures t < |conf| && Val(a, Fresh(base, |conf|)[t])
    ensures SatAll(a, LinkRows(Fresh(base, |conf|), inb, Ids(|conf|), |conf|))
    ensures SatAll(a, LinkRows(Fresh(base, |conf|), SboxOutputs(conf, base), conf, |conf|))
  {
    SboxParts(a, inb, conf, base);
    ExactlyOneSound(a, Fresh(base, |conf|), base + |conf|);
    t := TheSelector(a, Fresh(base, |conf|));
  }

  /** A model of the S-box clauses satisfies each of its three parts. */
  lemma {:induction false} SboxParts(a: Assignment, inb: seq<Lit>, conf: seq<nat>, base: nat)
    requires |inb| == 8 && |conf| >= 2
    requires SatAll(a, SboxClauses(inb, conf, base))
    ensures SatAll(a, ExactlyOneClauses(Fresh(base, |conf|), base + |conf|))
    ensures SatAll(a, LinkRows(Fresh(base, |conf|), inb, Ids(|conf|), |conf|))
    ensures SatAll(a, LinkRows(Fresh(base, |conf|), SboxOutputs(conf, base), conf, |conf|))
  {
    var n := |conf|;
    var sel := Fresh(base, n);
    SboxClausesParts(inb, conf, base);
    SatAllSplit(a, SboxClauses(inb, conf, base), ExactlyOneClauses(sel, base + n),
      LinkRows(sel, inb, Ids(n), n), LinkRows(sel, SboxOutputs(conf, base), conf, n));
  }

  lemma SatAllSplit(a: Assignment, cs: seq<seq<Lit>>, x: seq<seq<Lit>>, y: seq<seq<Lit>>, z: seq<seq<Lit>>)
    requires cs == x + y + z && SatAll(a, cs)
    ensures SatAll(a, x) && SatAll(a, y) && SatAll(a, z)
  {
    SatAllThree(a, x, y, z);
  }

  lemma {:induction false} SboxClausesParts(inb: seq<Lit>, conf: seq<nat>, base: nat)
    requires |inb| == 8 && |conf| >= 2
    ensures SboxClauses(inb, conf, base)
         == ExactlyOneClauses(Fresh(base, |conf|), base + |conf|)
          + LinkRows(Fresh(base, |conf|), inb, Ids(|conf|), |conf|)
          + LinkRows(Fresh(base, |conf|), SboxOutputs(conf, base), conf, |conf|)
  {
  }

  /**
   * Soundness of encode_sbox_byte: in every model the input literals spell
   * some index v of the table and the output literals spell conf[v].
   */
  lemma SboxSound(a: Assignment, inb: seq<Lit>, conf: seq<nat>, base: nat)
    requires |inb| == 8 && 2 <= |conf| <= 256 && ByteTable(conf)
    requires SatAll(a, SboxClauses(inb, conf, base))
    ensures ValueOf(a, inb) < |conf|
    ensures ValueOf(a, SboxOutputs(conf, base)) == conf[ValueOf(a, inb)]
  {
    var n := |conf|;
    var t := SboxSelector(a, inb, conf, base);
    LinkedValue(a, Fresh(base, n), inb, Ids(n), n, t);
    LinkedValue(a, Fresh(base, n), SboxOutputs(conf, base), conf, n, t);
  }

  /**
   * The value completeness gives the o-th variable encode_sbox_byte
   * allocates when the input byte is t: selector t alone is true, the
   * counters are set from t on, and the outputs carry the bits of conf[t].
   */
  function SboxWitness(conf: seq<nat>, t: nat, o: nat): bool
    requires t < |conf|
  {
    var n := |conf|;
    if o < n then o == t
    else if o < 2 * n - 1 then o - n >= t
    else Bit(conf[t], o - (2 * n - 1))
  }

  /** The variables from base on hold the witness of input byte t. */
  predicate SboxSet(a: Assignment, conf: seq<nat>, t: nat, base: nat)
    requires t < |conf|
  {
    forall o :: 0 <= o < 2 * |conf| + 7 ==> a(base + o) == SboxWitness(conf, t, o)
  }

  /** Completeness of the link clauses: with selector t the only true one
      and the bits carrying vals[t], every link clause holds. */
  lemma {:induction false} LinkRowsHold(a: Assignment, sel: seq<Lit>, bits: seq<Lit>, vals: seq<nat>, n: nat, t: nat)
    requires n <= |sel| && n <= |vals| && |bits| == 8 && t < n
    requires forall v :: 0 <= v < n ==> (Val(a, sel[v]) <==> v == t)
    requires forall b :: 0 <= b < 8 ==> Val(a, bits[b]) == Bit(vals[t], b)
    ensures SatAll(a, LinkRows(sel, bits, vals, n))
  {
    var cs := LinkRows(sel, bits, vals, n);
    forall k | 0 <= k < |cs| ensures SatClause(a, cs[k]) {
      var v, b := k / 8, k % 8;
      LinkRowsAt(sel, bits, vals, n, v, b);
      assert 8 * v + b == k;
      var c := LinkClause(sel, bits, vals, v, b);
      if v == t {
        assert Val(a, c[1]);
      } else {
        assert Val(a, c[0]);
      }
    }
  }

  /** The input literals spell an index of the table and the allocated
      variables from base on hold its witness. */
  predicate SboxByteSet(a: Assignment, inb: seq<Lit>, conf: seq<nat>, base: nat) {
    ValueOf(a, inb) < |conf| && SboxSet(a, conf, ValueOf(a, inb), base)
  }

  /** Under the witness of t, selector t alone is true. */
  lemma SelectorsSet(a: Assignment, conf: seq<nat>, t: nat, base: nat)
    requires |conf| >= 2 && t < |conf| && SboxSet(a, conf, t, base)
    ensures forall j :: 0 <= j < |conf| ==> (Val(a, Fresh(base, |conf|)[j]) <==> j == t)
  {
    var sel := Fresh(base, |conf|);
    forall j | 0 <= j < |conf| ensures Val(a, sel[j]) <==> j == t {
      assert sel[j] == Pos(base + j);
      assert a(base + j) == SboxWitness(conf, t, j);
    }
  }

  /** Under the witness of t, the exactly-one clauses over the selectors hold. */
  lemma SelectorsHold(a: Assignment, conf: seq<nat>, t: nat, base: nat)
    requires |conf| >= 2 && t < |conf| && SboxSet(a, conf, t, base)
    ensures SatAll(a, ExactlyOneClauses(Fresh(base, |conf|), base + |conf|))
  {
    var n := |conf|;
    var sel := Fresh(base, n);
    SelectorsSet(a, conf, t, base);
    var cbase := base + n;
    forall i | 0 <= i < n - 1 ensures Val(a, Counter(cbase, i)) <==> i >= t {
      assert a(base + (n + i)) == SboxWitness(conf, t, n + i);
    }
    ExactlyOneHolds(a, sel, cbase, t);
  }

  /** Under the witness of t, the output literals carry the bits of conf[t]. */
  lemma OutputsSet(a: Assignment, conf: seq<nat>, t: nat, base: nat)
    requires |conf| >= 2 && t < |conf| && SboxSet(a, conf, t, base)
    ensures forall b :: 0 <= b < 8 ==> Val(a, SboxOutputs(conf, base)[b]) == Bit(conf[t], b)
  {
    var n, outs := |conf|, SboxOutputs(conf, base);
    forall b | 0 <= b < 8 ensures Val(a, outs[b]) == Bit(conf[t], b) {
      assert outs[b] == Pos(base + (2 * n - 1 + b));
      assert a(base + (2 * n - 1 + b)) == SboxWitness(conf, t, 2 * n - 1 + b);
    }
  }

  /** Under the witness of the input byte, every input link clause holds. */
  lemma {:induction false} InputLinksHold(a: Assignment, inb: seq<Lit>, conf: seq<nat>, base: nat)
    requires |inb| == 8 && |conf| >= 2 && SboxByteSet(a, inb, conf, base)
    ensures SatAll(a, LinkRows(Fresh(base, |conf|), inb, Ids(|conf|), |conf|))
  {
    var n, t := |conf|, ValueOf(a, inb);
    SelectorsSet(a, conf, t, base);
    forall b | 0 <= b < 8 ensures Val(a, inb[b]) == Bit(Ids(n)[t], b) {
      BitValueUpTo(a, inb, 8, b);
    }
    LinkRowsHold(a, Fresh(base, n), inb, Ids(n), n, t);
  }

  /** Under the witness of t, every output link clause holds. */
  lemma {:induction false} OutputLinksHold(a: Assignment, conf: seq<nat>, t: nat, base: nat)
    requires |conf| >= 2 && t < |conf| && SboxSet(a, conf, t, base)
    ensures SatAll(a, LinkRows(Fresh(base, |conf|), SboxOutputs(conf, base), conf, |conf|))
  {
    SelectorsSet(a, conf, t, base);
    OutputsSet(a, conf, t, base);
    LinkRowsHold(a, Fresh(base, |conf|), SboxOutputs(conf, base), conf, |conf|, t);
  }

  /**
   * Completeness of encode_sbox_byte, for a given assignment: when the
   * input literals spell an index t of the table and the allocated
   * variables hold the witness of t, every clause holds.
   */
  lemma {:induction false} SboxHolds(a: Assignment, inb: seq<Lit>, conf: seq<nat>, base: nat)
    requires |inb| == 8 && |conf| >= 2 && SboxByteSet(a, inb, conf, base)
    ensures SatAll(a, SboxClauses(inb, conf, base))
  {
    var n, t := |conf|, ValueOf(a, inb);
    var sel := Fresh(base, n);
    SelectorsHold(a, conf, t, base);
    InputLinksHold(a, inb, conf, base);
    OutputLinksHold(a, conf, t, base);
    SboxJoin(a, inb, conf, base);
  }

  /** The three groups of an S-box byte's clauses together are its clauses. */
  lemma {:induction false} SboxJoin(a: Assignment, inb: seq<Lit>, conf: seq<nat>, base: nat)
    requires |inb| == 8 && |conf| >= 2
    requires SatAll(a, ExactlyOneClauses(Fresh(base, |conf|), base + |conf|))
    requires SatAll(a, LinkRows(Fresh(base, |conf|), inb, Ids(|conf|), |conf|))
    requires SatAll(a, LinkRows(Fresh(base, |conf|), SboxOutputs(conf, base), conf, |conf|))
    ensures SatAll(a, SboxClauses(inb, conf, base))
  {
    var n, sel := |conf|, Fresh(base, |conf|);
    SboxClausesParts(inb, conf, base);
    SatAllJoin(a, SboxClauses(inb, conf, base), ExactlyOneClauses(sel, base + n),
      LinkRows(sel, inb, Ids(n), n), LinkRows(sel, SboxOutputs(conf, base), conf, n));
  }

  /** The outputs of an S-box byte whose variables hold the witness of t spell conf[t]. */
  lemma SboxOutputsValue(a: Assignment, conf: seq<nat>, t: nat, base: nat)
    requires |conf| >= 2 && ByteTable(conf) && t < |conf| && SboxSet(a, conf, t, base)
    ensures ValueOf(a, SboxOutputs(conf, base)) == conf[t]
  {
    OutputsSet(a, conf, t, base);
    ValueIs(a, SboxOutputs(conf, base), conf[t]);
  }

  /** a with the variables of an S-box byte from base on set to the witness
      of the input byte a spells. */
  function WithSbox(a: Assignment, inb: seq<Lit>, conf: seq<nat>, base: nat): Assignment
    requires ValueOf(a, inb) < |conf|
  {
    var t := ValueOf(a, inb);
    (v: nat) => if base <= v < base + 2 * |conf| + 7 then SboxWitness(conf, t, v - base) else a(v)
  }

  /**
   * Completeness of encode_sbox_byte: every assignment whose input
   * literals, all below the allocated variables, spell an index of the
   * table extends, over those variables only, to a model of the clauses
   * whose outputs spell the table entry.
   */
  lemma SboxComplete(a: Assignment, inb: seq<Lit>, conf: seq<nat>, base: nat)
    requires |inb| == 8 && |conf| >= 2 && ByteTable(conf)
    requires VarsBelow(inb, base) && ValueOf(a, inb) < |conf|
    ensures SatAll(WithSbox(a, inb, conf, base), SboxClauses(inb, conf, base))
    ensures ValueOf(WithSbox(a, inb, conf, base), SboxOutputs(conf, base)) == conf[ValueOf(a, inb)]
    ensures forall v: nat :: v < base ==> WithSbox(a, inb, conf, base)(v) == a(v)
  {
    var b := WithSbox(a, inb, conf, base);
    var t := ValueOf(a, inb);
    ValueUpToAgree(a, b, inb, 8);
    assert SboxSet(b, conf, t, base) by {
      forall o | 0 <= o < 2 * |conf| + 7 ensures b(base + o) == SboxWitness(conf, t, o) {
      }
    }
    SboxHolds(b, inb, conf, base);
    SboxOutputsValue(b, conf, t, base);
  }

  // ---------------------------------------------------------------------
  // One diffusion row (xor_row)

  /** Bit `bit` of every input byte. */
  function BitColumn(inb: seq<seq<Lit>>, bit: nat): (col: seq<Lit>)
    requires ByteLits(inb) && bit < 8
    ensures |col| == |inb|
  {
    seq(|inb|, k requires 0 <= k < |inb| => inb[k][bit])
  }

  /** Bit `bit` of in_bytes[k] for the set bits k < n of row, ascending. */
  function RowLits(inb: seq<seq<Lit>>, row: nat, bit: nat, n: nat): seq<Lit>
    requires n <= |inb| && ByteLits(inb) && bit < 8
  {
    Selected(BitColumn(inb, bit), row, n)
  }

  /** The eight XOR constraints xor_row adds: per bit, the selected input
      bits and the output bit XOR to false. */
  function XorRowClauses(inb: seq<seq<Lit>>, row: nat, outb: seq<Lit>): (xs: seq<XorClause>)
    requires ByteLits(inb) && |outb| == 8
    ensures |xs| == 8
  {
    seq(8, bit requires 0 <= bit < 8 => XorClause(RowLits(inb, row, bit, |inb|) + [outb[bit]], false))
  }

  /** `while (row) { k = ctz(row); lhs.push_back(in_bytes[k][bit]); row &= row - 1; }` */
  method CollectRowLits(inb: seq<seq<Lit>>, row: nat, bit: nat) returns (lhs: seq<Lit>)
    requires row < Pow2(|inb|) && ByteLits(inb) && bit < 8
    ensures lhs == RowLits(inb, row, bit, |inb|)
  {
    lhs := [];
    var m: nat := row;
    while m != 0
      invariant m < Pow2(|inb|)
      invariant lhs + RowLits(inb, m, bit, |inb|) == RowLits(inb, row, bit, |inb|)
      decreases m
    {
      SelectedClear(BitColumn(inb, bit), m);
      lhs := lhs + [inb[Ctz(m)][bit]];
      m := And(m, m - 1);
    }
    SelectedZero(BitColumn(inb, bit), |inb|);
  }

  /** xor_row: eight fresh output literals, then one XOR constraint per bit. */
  method XorRow(s: Solver, inb: seq<seq<Lit>>, diffusion: seq<nat>, rowIdx: nat) returns (outb: seq<Lit>)
    requires rowIdx < |diffusion| && diffusion[rowIdx] < Pow2(|inb|) && ByteLits(inb)
    modifies s
    ensures outb == Fresh(old(s.nVars), 8)
    ensures s.xors == old(s.xors) + XorRowClauses(inb, diffusion[rowIdx], outb)
    ensures s.nVars == old(s.nVars) + 8 && s.clauses == old(s.clauses)
  {
    outb := NewLits(s, 8);
    var row := diffusion[rowIdx];
    for bit := 0 to 8
      invariant s.xors == old(s.xors) + XorRowClauses(inb, row, outb)[..bit]
      invariant s.nVars == old(s.nVars) + 8 && s.clauses == old(s.clauses)
    {
      var lhs := CollectRowLits(inb, row, bit);
      lhs := lhs + [outb[bit]];
      s.AddXorClause(lhs, false);
      assert XorRowClauses(inb, row, outb)[..bit + 1] == XorRowClauses(inb, row, outb)[..bit] + [XorClause(lhs, false)];
    }
    assert XorRowClauses(inb, row, outb)[..8] == XorRowClauses(inb, row, outb);
  }

  lemma {:induction false} ParityAppend(a: Assignment, x: seq<Lit>, y: seq<Lit>)
    ensures Parity(a, x + y) == (Parity(a, x) != Parity(a, y))
    decreases |x|
  {
    if |x| > 0 {
      ParityAppend(a, x[1..], y);
      assert (x + y)[1..] == x[1..] + y;
    } else {
      assert x + y == y;
    }
  }

  /** The literal one input byte contributes XORs to its contribution's bit. */
  lemma TermParity(a: Assignment, inb: seq<seq<Lit>>, row: nat, bit: nat, k: nat)
    requires k < |inb| && ByteLits(inb) && bit < 8
    ensures Parity(a, if Bit(row, k) then [inb[k][bit]] else [])
         == Bit(Term(Bit(row, k), ValueOf(a, inb[k])), bit)
  {
    if Bit(row, k) {
      BitValueUpTo(a, inb[k], 8, bit);
      assert [inb[k][bit]][1..] == [];
    } else {
      ZeroHasNoBit(bit);
    }
  }

  /** The selected literals XOR to bit `bit` of the row's dot product with the spelled bytes. */
  lemma {:induction false} RowParity(a: Assignment, inb: seq<seq<Lit>>, row: nat, bit: nat, n: nat)
    requires n <= |inb| && ByteLits(inb) && bit < 8
    ensures Parity(a, RowLits(inb, row, bit, n)) == Bit(DotRowUpTo(row, Values(a, inb), n), bit)
    decreases n
  {
    var v := Values(a, inb);
    if n == 0 {
      ZeroHasNoBit(bit);
    } else {
      RowParity(a, inb, row, bit, n - 1);
      ParityAppend(a, RowLits(inb, row, bit, n - 1), if Bit(row, n - 1) then [inb[n - 1][bit]] else []);
      assert v[n - 1] == ValueOf(a, inb[n - 1]);
      TermParity(a, inb, row, bit, n - 1);
      BitXor(DotRowUpTo(row, v, n - 1), Term(Bit(row, n - 1), v[n - 1]), bit);
    }
  }

  /**
   * Soundness of xor_row: in every model the output literals spell the
   * XOR of the input bytes the row selects, i.e. one byte of the diffusion.
   */
  lemma XorRowSound(a: Assignment, inb: seq<seq<Lit>>, row: nat, outb: seq<Lit>)
    requires ByteLits(inb) && |outb| == 8
    requires SatAllXor(a, XorRowClauses(inb, row, outb))
    ensures ValueOf(a, outb) == DotRow(row, Values(a, inb))
  {
    var v := Values(a, inb);
    forall b | 0 <= b < 8 ensures Val(a, outb[b]) == Bit(DotRow(row, v), b) {
      var x := XorRowClauses(inb, row, outb)[b];
      assert SatXor(a, x);
      ParityAppend(a, RowLits(inb, row, b, |inb|), [outb[b]]);
      RowParity(a, inb, row, b, |inb|);
    }
    ValuesBelow(a, inb);
    DotRowByte(row, v);
    ValueIs(a, outb, DotRow(row, v));
  }

  /**
   * Completeness of xor_row, for a given assignment: when the output
   * literals spell the row's dot product with the input bytes, every XOR
   * constraint holds.
   */
  lemma XorRowHolds(a: Assignment, inb: seq<seq<Lit>>, row: nat, outb: seq<Lit>)
    requires ByteLits(inb) && |outb| == 8
    requires ValueOf(a, outb) == DotRow(row, Values(a, inb))
    ensures SatAllXor(a, XorRowClauses(inb, row, outb))
  {
    var d := DotRow(row, Values(a, inb));
    forall b | 0 <= b < 8 ensures SatXor(a, XorRowClauses(inb, row, outb)[b]) {
      BitValueUpTo(a, outb, 8, b);
      ParityAppend(a, RowLits(inb, row, b, |inb|), [outb[b]]);
      RowParity(a, inb, row, b, |inb|);
      assert [outb[b]][1..] == [];
    }
  }

  /** Every variable of every group is below n. */
  predicate GroupsBelow(inb: seq<seq<Lit>>, n: nat) {
    forall k :: 0 <= k < |inb| ==> VarsBelow(inb[k], n)
  }

  /** a with the eight variables from base on set to the bits of the row's
      dot product with the bytes a spells. */
  function WithRow(a: Assignment, inb: seq<seq<Lit>>, row: nat, base: nat): Assignment {
    var d := DotRow(row, Values(a, inb));
    (v: nat) => if base <= v < base + 8 then Bit(d, v - base) else a(v)
  }

  /**
   * Completeness of xor_row: every assignment of input bytes below base
   * extends, over the eight fresh outputs only, to a model of the XOR
   * constraints whose outputs spell the row's dot product.
   */
  lemma XorRowComplete(a: Assignment, inb: seq<seq<Lit>>, row: nat, base: nat)
    requires ByteLits(inb) && GroupsBelow(inb, base)
    ensures SatAllXor(WithRow(a, inb, row, base), XorRowClauses(inb, row, Fresh(base, 8)))
    ensures ValueOf(WithRow(a, inb, row, base), Fresh(base, 8)) == DotRow(row, Values(a, inb))
    ensures forall v: nat :: v < base ==> WithRow(a, inb, row, base)(v) == a(v)
  {
    var b := WithRow(a, inb, row, base);
    var d := DotRow(row, Values(a, inb));
    forall k | 0 <= k < |inb| ensures Values(b, inb)[k] == Values(a, inb)[k] {
      ValueUpToAgree(a, b, inb[k], 8);
    }
    assert Values(b, inb) == Values(a, inb);
    ValuesBelow(a, inb);
    DotRowByte(row, Values(a, inb));
    forall k | 0 <= k < 8 ensures Val(b, Fresh(base, 8)[k]) == Bit(d, k) {
      assert Fresh(base, 8)[k] == Pos(base + k);
    }
    ValueIs(b, Fresh(base, 8), d);
    XorRowHolds(b, inb, row, Fresh(base, 8));
  }
}
