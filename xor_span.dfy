/**
 * The XOR span of a list of words, and the fixpoint loops of the
 * table-analysis scripts that compute it.
 *
 * Span(L) is the set of XORs of sub-lists of L: DotRow(g, L) for a selector
 * g with one bit per entry of L.  The scripts never name the span.  Instead
 * they grow a set by XOR until its size stops changing.  For a non-empty L,
 * both loops stop at exactly Span(L).  When L is independent, the span has
 * 2^|L| elements.
 */
module XorSpan {
  import opened Bits
  import opened Gf2
  import opened Tally
  import SboxStructure
  import GaussJordan

  // ---------------------------------------------------------------------
  // The span

  /** The combinations selected by the selectors g < n. */
  function Combinations(L: seq<nat>, n: nat): set<nat> {
    set g: nat | g < n :: DotRow(g, L)
  }

  /** Every XOR of a sub-list of L (the empty sub-list gives 0). */
  function Span(L: seq<nat>): set<nat> {
    Combinations(L, Pow2(|L|))
  }

  /** c is closed under XOR with each entry of L. */
  predicate ClosedUnder(c: set<nat>, L: seq<nat>) {
    forall x, i :: x in c && 0 <= i < |L| ==> Xor(x, L[i]) in c
  }

  /** No non-empty sub-list of B XORs to 0. */
  predicate Independent(B: seq<nat>) {
    forall g: nat :: 0 < g < Pow2(|B|) ==> DotRow(g, B) != 0
  }

  lemma SpanZero(L: seq<nat>)
    ensures 0 in Span(L)
  {
    DotRowZero(0, L);
  }

  /** Each entry is in the span: it is selected by a single bit. */
  lemma SpanEntry(L: seq<nat>, i: nat)
    requires i < |L|
    ensures L[i] in Span(L)
  {
    DotRowUnit(i, L);
    Pow2Mono(i + 1, |L|);
  }

  lemma {:induction false} LowSelectorUpTo(L: seq<nat>, g: nat, n: nat)
    requires n <= |L|
    ensures DotRowUpTo(g, L, n) == DotRowUpTo(LowBits(g, |L|), L, n)
    decreases n
  {
    if n > 0 {
      LowSelectorUpTo(L, g, n - 1);
      BitLow(g, |L|, n - 1);
    }
  }

  /** Any selector gives an element of the span: bits beyond |L| select
      nothing. */
  lemma SpanAnySelector(L: seq<nat>, g: nat)
    ensures DotRow(g, L) in Span(L)
  {
    LowSelectorUpTo(L, g, |L|);
    LowBitsBelow(g, |L|);
    assert DotRow(LowBits(g, |L|), L) in Combinations(L, Pow2(|L|));
  }

  lemma {:induction false} PrefixUpTo(g: nat, v: seq<nat>, n: nat, k: nat)
    requires n <= k <= |v|
    ensures DotRowUpTo(g, v, n) == DotRowUpTo(g, v[..k], n)
    decreases n
  {
    if n > 0 {
      PrefixUpTo(g, v, n - 1, k);
    }
  }

  /** When the entries from k on are 0, only the first k matter. */
  lemma DotRowPrefix(g: nat, v: seq<nat>, k: nat)
    requires k <= |v|
    requires forall j :: k <= j < |v| ==> v[j] == 0
    ensures DotRow(g, v) == DotRow(g, v[..k])
  {
    GaussJordan.DotRowTailZero(g, v, k, |v|);
    PrefixUpTo(g, v, k, k);
  }

  /** The span is closed under XOR. */
  lemma SpanXor(L: seq<nat>, x: nat, y: nat)
    requires x in Span(L) && y in Span(L)
    ensures Xor(x, y) in Span(L)
  {
    var g: nat :| g < Pow2(|L|) && DotRow(g, L) == x;
    var h: nat :| h < Pow2(|L|) && DotRow(h, L) == y;
    DotRowLinear(g, h, L);
    XorBelow(g, h, |L|);
  }

  /** The span of words of width w holds words of width w. */
  lemma SpanBelow(L: seq<nat>, w: nat)
    requires forall i :: 0 <= i < |L| ==> L[i] < Pow2(w)
    ensures forall x :: x in Span(L) ==> x < Pow2(w)
  {
    forall x | x in Span(L) ensures x < Pow2(w) {
      var g: nat :| g < Pow2(|L|) && DotRow(g, L) == x;
      DotRowBelow(g, L, w);
    }
  }

  lemma {:induction false} WithinUpTo(L: seq<nat>, c: set<nat>, g: nat, n: nat)
    requires n <= |L|
    requires 0 in c && ClosedUnder(c, L)
    ensures DotRowUpTo(g, L, n) in c
    decreases n
  {
    if n > 0 {
      WithinUpTo(L, c, g, n - 1);
      var d := DotRowUpTo(g, L, n - 1);
      if Bit(g, n - 1) {
        assert Xor(d, L[n - 1]) in c;
      } else {
        XorZero(d);
      }
    }
  }

  /** The span is the least set holding 0 and closed under XOR with the
      entries of L. */
  lemma SpanWithin(L: seq<nat>, c: set<nat>)
    requires 0 in c && ClosedUnder(c, L)
    ensures Span(L) <= c
  {
    forall x | x in Span(L) ensures x in c {
      var g: nat :| g < Pow2(|L|) && DotRow(g, L) == x;
      WithinUpTo(L, c, g, |L|);
    }
  }

  /** A set that holds the entries of L and is closed under XOR of its own
      elements holds the span, provided it holds 0. */
  lemma SpanWithinPairs(L: seq<nat>, c: set<nat>)
    requires 0 in c
    requires forall i :: 0 <= i < |L| ==> L[i] in c
    requires forall x, y :: x in c && y in c ==> Xor(x, y) in c
    ensures Span(L) <= c
  {
    SpanWithin(L, c);
  }

  /** A list whose entries lie in the span of M spans no more than M. */
  lemma SpanSub(L: seq<nat>, M: seq<nat>)
    requires forall i :: 0 <= i < |L| ==> L[i] in Span(M)
    ensures Span(L) <= Span(M)
  {
    SpanZero(M);
    forall x, i | x in Span(M) && 0 <= i < |L| ensures Xor(x, L[i]) in Span(M) {
      SpanXor(M, x, L[i]);
    }
    SpanWithin(L, Span(M));
  }

  /** Appending an entry keeps what the list spanned. */
  lemma SpanPrefix(L: seq<nat>, x: nat)
    ensures Span(L) <= Span(L + [x])
  {
    forall i | 0 <= i < |L| ensures L[i] in Span(L + [x]) {
      assert L[i] == (L + [x])[i];
      SpanEntry(L + [x], i);
    }
    SpanSub(L, L + [x]);
  }

  // ---------------------------------------------------------------------
  // Size of the span of an independent list

  lemma CombinationsStep(L: seq<nat>, n: nat)
    requires n > 0
    ensures Combinations(L, n) == Combinations(L, n - 1) + {DotRow(n - 1, L)}
  {
    forall x | x in Combinations(L, n) ensures x in Combinations(L, n - 1) + {DotRow(n - 1, L)} {
      var g: nat :| g < n && DotRow(g, L) == x;
      if g < n - 1 {
        assert x in Combinations(L, n - 1);
      }
    }
  }

  /** Distinct selectors give distinct combinations of an independent list. */
  lemma Injective(B: seq<nat>, g: nat, h: nat)
    requires Independent(B)
    requires g < Pow2(|B|) && h < Pow2(|B|) && g != h
    ensures DotRow(g, B) != DotRow(h, B)
  {
    DotRowLinear(g, h, B);
    XorZeroIff(g, h);
    XorBelow(g, h, |B|);
    XorZeroIff(DotRow(g, B), DotRow(h, B));
  }

  lemma {:induction false} CombinationsCard(B: seq<nat>, n: nat)
    requires Independent(B) && n <= Pow2(|B|)
    ensures |Combinations(B, n)| == n
    decreases n
  {
    if n > 0 {
      CombinationsCard(B, n - 1);
      CombinationsStep(B, n);
      if DotRow(n - 1, B) in Combinations(B, n - 1) {
        var g: nat :| g < n - 1 && DotRow(g, B) == DotRow(n - 1, B);
        Injective(B, g, n - 1);
      }
    }
  }

  /** An independent list of k words spans 2^k words. */
  lemma SpanCard(B: seq<nat>)
    requires Independent(B)
    ensures |Span(B)| == Pow2(|B|)
  {
    CombinationsCard(B, Pow2(|B|));
  }

  // ---------------------------------------------------------------------
  // Finite sets of words

  /** A set of numbers below n has at most n elements. */
  lemma CardBelow(c: set<nat>, n: nat)
    requires forall x :: x in c ==> x < n
    ensures |c| <= n
  {
    forall x | x in c ensures x in SboxStructure.Range(n) {
      SboxStructure.RangeMember(n, x);
    }
    SboxStructure.SubsetCard(c, SboxStructure.Range(n));
    SboxStructure.RangeCard(n);
  }

  /** A subset of the same size is the whole set. */
  lemma SameCard(a: set<nat>, b: set<nat>)
    requires a <= b && |a| == |b|
    ensures a == b
  {
    forall x | x in b ensures x in a {
      if x !in a {
        SboxStructure.SubsetCard(a, b - {x});
      }
    }
  }

  /** The elements of c in ascending order, as `sorted(list(c))` gives them. */
  function SortedSet(c: set<nat>, bound: nat): (r: seq<nat>)
    requires forall x :: x in c ==> x < bound
    ensures forall x: nat :: x in r <==> x in c
    ensures forall i, j :: 0 <= i < j < |r| ==> r[i] < r[j]
  {
    WhereMembers(bound, InSet(c));
    WhereAscending(bound, InSet(c));
    Where(bound, InSet(c))
  }

  function InSet(c: set<nat>): nat -> bool {
    x => x in c
  }

  // ---------------------------------------------------------------------
  // The XOR loops

  /** Every XOR of an element of a with an element of b. */
  function Products(a: set<nat>, b: set<nat>): set<nat> {
    set x, y | x in a && y in b :: Xor(x, y)
  }

  /** Every XOR of v with an element of b. */
  function Row(v: nat, b: set<nat>): set<nat> {
    set y | y in b :: Xor(v, y)
  }

  lemma ProductsAdd(a: set<nat>, v: nat, b: set<nat>)
    ensures Products(a + {v}, b) == Products(a, b) + Row(v, b)
  {
    forall z | z in Products(a + {v}, b) ensures z in Products(a, b) + Row(v, b) {
      var x, y :| x in a + {v} && y in b && z == Xor(x, y);
      if x == v {
        assert z in Row(v, b);
      } else {
        assert z in Products(a, b);
      }
    }
    forall z | z in Row(v, b) ensures z in Products(a + {v}, b) {
      var y :| y in b && z == Xor(v, y);
      assert v in a + {v};
    }
  }

  lemma RowAdd(v: nat, b: set<nat>, y: nat)
    ensures Row(v, b + {y}) == Row(v, b) + {Xor(v, y)}
  {
  }

  /** The inner loop `for v2 in b: new_values.add(v1 ^ v2)`. */
  method XorRow(v1: nat, b: set<nat>) returns (r: set<nat>)
    ensures r == Row(v1, b)
  {
    r := {};
    var done: set<nat> := {};
    var todo := b;
    while todo != {}
      invariant done + todo == b && done !! todo
      invariant r == Row(v1, done)
      decreases |todo|
    {
      var v2 :| v2 in todo;
      RowAdd(v1, done, v2);
      r := r + {Xor(v1, v2)};
      done := done + {v2};
      todo := todo - {v2};
    }
  }

  /** `for v1 in a: for v2 in b: new_values.add(v1 ^ v2)`: every XOR of an
      element of a with one of b, in whatever order the sets are walked. */
  method XorAll(a: set<nat>, b: set<nat>) returns (r: set<nat>)
    ensures r == Products(a, b)
  {
    r := {};
    var done: set<nat> := {};
    var todo := a;
    while todo != {}
      invariant done + todo == a && done !! todo
      invariant r == Products(done, b)
      decreases |todo|
    {
      var v1 :| v1 in todo;
      var row := XorRow(v1, b);
      ProductsAdd(done, v1, b);
      r := r + row;
      done := done + {v1};
      todo := todo - {v1};
    }
  }

  /** Products of two subsets of the span stay in the span. */
  lemma ProductsInSpan(L: seq<nat>, a: set<nat>, b: set<nat>)
    requires a <= Span(L) && b <= Span(L)
    ensures Products(a, b) <= Span(L)
  {
    forall z | z in Products(a, b) ensures z in Span(L) {
      var x, y :| x in a && y in b && z == Xor(x, y);
      SpanXor(L, x, y);
    }
  }

  lemma ValuesInSpan(L: seq<nat>)
    ensures SboxStructure.Values(L) <= Span(L)
  {
    forall x | x in SboxStructure.Values(L) ensures x in Span(L) {
      var i :| 0 <= i < |L| && L[i] == x;
      SpanEntry(L, i);
    }
  }

  /** A non-empty set has 0 among its self-products. */
  lemma ZeroInProducts(a: set<nat>)
    requires a != {}
    ensures 0 in Products(a, a)
  {
    var x :| x in a;
    XorSelf(x);
  }

  /** One pass of the fixpoint loop of missing_values_rank.py: XOR the
      closure with each listed value and add the results. */
  method ExtendByValues(L: seq<nat>, closure: set<nat>) returns (next: set<nat>)
    ensures next == closure + Products(closure, SboxStructure.Values(L))
  {
    var newValues := XorAll(closure, SboxStructure.Values(L));
    next := closure + newValues;
  }

  /**
   * The XOR closure of missing_values_rank.py: the listed values, then
   * their pairwise XORs, then XOR with each listed value until the size of
   * the set stops changing.  It stops at the span of the values (at the
   * empty set for an empty list).
   */
  method RankClosure(L: seq<nat>, w: nat) returns (closure: set<nat>)
    requires forall i :: 0 <= i < |L| ==> L[i] < Pow2(w)
    ensures |L| > 0 ==> closure == Span(L)
    ensures |L| == 0 ==> closure == {}
  {
    var elems := SboxStructure.Values(L);
    closure := PairwiseSeed(L);
    SpanBelow(L, w);
    var prevSize := 0;
    ghost var last: set<nat> := {};
    CardBelow(closure, Pow2(w));
    while |closure| != prevSize
      invariant elems <= closure <= Span(L)
      invariant |L| > 0 ==> 0 in closure
      invariant |L| == 0 ==> closure == {}
      invariant last <= closure && |last| == prevSize
      invariant Products(last, elems) <= closure
      invariant prevSize <= |closure| <= Pow2(w)
      decreases Pow2(w) - prevSize
    {
      prevSize := |closure|;
      last := closure;
      ProductsInSpan(L, closure, elems);
      closure := ExtendByValues(L, closure);
      CardBelow(closure, Pow2(w));
      SboxStructure.SubsetCard(last, closure);
    }
    SameCard(last, closure);
    if |L| > 0 {
      StableIsSpan(L, closure);
    }
  }

  /** The start of the closure in missing_values_rank.py: the listed values
      and all their pairwise XORs. */
  method PairwiseSeed(L: seq<nat>) returns (closure: set<nat>)
    ensures SboxStructure.Values(L) <= closure <= Span(L)
    ensures |L| > 0 ==> 0 in closure
    ensures |L| == 0 ==> closure == {}
  {
    var elems := SboxStructure.Values(L);
    ValuesInSpan(L);
    var pairs := XorAll(elems, elems);
    ProductsInSpan(L, elems, elems);
    if |L| > 0 {
      assert L[0] in elems;
      ZeroInProducts(elems);
    }
    closure := elems + pairs;
  }

  /** A set between the values and their span that holds 0 and that XOR
      with the values does not enlarge is the span. */
  lemma StableIsSpan(L: seq<nat>, c: set<nat>)
    requires SboxStructure.Values(L) <= c <= Span(L) && 0 in c
    requires Products(c, SboxStructure.Values(L)) <= c
    ensures c == Span(L)
  {
    forall x, i | x in c && 0 <= i < |L| ensures Xor(x, L[i]) in c {
      assert L[i] in SboxStructure.Values(L);
      assert Xor(x, L[i]) in Products(c, SboxStructure.Values(L));
    }
    SpanWithin(L, c);
  }

  /** One pass of generate_xor_closure: XOR every pair of the set's own
      elements and add the results. */
  method ExtendByPairs(closure: set<nat>) returns (next: set<nat>)
    ensures next == closure + Products(closure, closure)
  {
    var newValues := XorAll(closure, closure);
    next := closure + newValues;
  }

  /** The fixpoint loop of generate_xor_closure: it stops at the span of the
      values (at the empty set for an empty list). */
  method XorClosure(L: seq<nat>, w: nat) returns (closure: set<nat>)
    requires forall i :: 0 <= i < |L| ==> L[i] < Pow2(w)
    ensures |L| > 0 ==> closure == Span(L)
    ensures |L| == 0 ==> closure == {}
  {
    var elems := SboxStructure.Values(L);
    ValuesInSpan(L);
    SpanBelow(L, w);
    closure := elems;
    var prevSize := 0;
    ghost var last: set<nat> := {};
    CardBelow(closure, Pow2(w));
    while |closure| != prevSize
      invariant elems <= closure <= Span(L)
      invariant |L| == 0 ==> closure == {}
      invariant last <= closure && |last| == prevSize
      invariant Products(last, last) <= closure
      invariant prevSize > 0 ==> 0 in closure
      invariant prevSize <= |closure| <= Pow2(w)
      decreases Pow2(w) - prevSize
    {
      prevSize := |closure|;
      last := closure;
      ProductsInSpan(L, closure, closure);
      ZeroInProducts(closure);
      closure := ExtendByPairs(closure);
      CardBelow(closure, Pow2(w));
      SboxStructure.SubsetCard(last, closure);
    }
    SameCard(last, closure);
    if |L| > 0 {
      assert L[0] in elems;
      forall x, i | x in closure && 0 <= i < |L| ensures Xor(x, L[i]) in closure {
        assert L[i] in elems;
        assert Xor(x, L[i]) in Products(last, last);
      }
      SpanWithin(L, closure);
    }
  }

  /** generate_xor_closure: the closure as an ascending list.  It lists
      exactly the span of the values, so it holds every value, is closed
      under XOR and holds 0. */
  method GenerateXorClosure(L: seq<nat>, w: nat) returns (r: seq<nat>)
    requires forall i :: 0 <= i < |L| ==> L[i] < Pow2(w)
    ensures forall x: nat :: x in r <==> |L| > 0 && x in Span(L)
    ensures forall i, j :: 0 <= i < j < |r| ==> r[i] < r[j]
  {
    var closure := XorClosure(L, w);
    SpanBelow(L, w);
    r := SortedSet(closure, Pow2(w));
  }
}
