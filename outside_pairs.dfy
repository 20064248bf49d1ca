/**
 * find_pairs_outside_space.py: the values of the first table half that lie
 * outside the XOR span of the missing values, the pairs of such values,
 * and the classification of their XORs.
 *
 * The table half and the missing values are parameters; words have width
 * w (8 in the script).
 */
module OutsidePairs {
  import opened Bits
  import opened Tally
  import opened XorSpan
  import opened SboxStructure

  /** A pair the script records: a < b, both present in the table and both
      outside the space, with their XOR. */
  predicate OutsidePair(outside: seq<nat>, present: seq<nat>, t: (nat, nat, nat)) {
    t.0 in outside && t.1 in outside && t.0 < t.1 &&
    t.0 in present && t.1 in present && t.2 == Xor(t.0, t.1)
  }

  /** `sorted(list(set(range(2^w)) - space))`: the complement of the space,
      ascending. */
  function Outside(space: set<nat>, w: nat): (r: seq<nat>)
    ensures forall x: nat :: x in r <==> x < Pow2(w) && x !in space
    ensures forall i, j :: 0 <= i < j < |r| ==> r[i] < r[j]
  {
    WhereMembers(Pow2(w), NotIn(space));
    WhereAscending(Pow2(w), NotIn(space));
    Where(Pow2(w), NotIn(space))
  }

  function NotIn(c: set<nat>): nat -> bool {
    x => x !in c
  }

  /** The space and its complement split the 2^w words. */
  lemma OutsideCount(space: set<nat>, w: nat)
    ensures |Outside(space, w)| + |Where(Pow2(w), InSet(space))| == Pow2(w)
  {
    WhereComplement(Pow2(w), NotIn(space), InSet(space));
  }

  /** `[v for v in present_values if v not in space_5d_set]`. */
  function PresentOutside(present: seq<nat>, space: set<nat>): (r: seq<nat>)
    ensures forall x :: x in r <==> x in present && x !in space
    ensures |r| <= |present|
  {
    if present == [] then []
    else
      var rest := PresentOutside(present[..|present| - 1], space);
      var v := present[|present| - 1];
      assert present == present[..|present| - 1] + [v];
      if v !in space then rest + [v] else rest
  }

  /** Strictly ascending, hence free of repeats. */
  predicate Ascending(s: seq<nat>) {
    forall i, j :: 0 <= i < j < |s| ==> s[i] < s[j]
  }

  /** Filtering an ascending list keeps it ascending, so the filtered list
      is pinned by its members. */
  lemma {:induction false} PresentOutsideAscending(present: seq<nat>, space: set<nat>)
    requires Ascending(present)
    ensures Ascending(PresentOutside(present, space))
    decreases |present|
  {
    if present != [] {
      var front := present[..|present| - 1];
      var rest := PresentOutside(front, space);
      var v := present[|present| - 1];
      PresentOutsideAscending(front, space);
      forall i | 0 <= i < |rest| ensures rest[i] < v {
        assert rest[i] in rest;
        var k :| 0 <= k < |front| && front[k] == rest[i];
      }
    }
  }

  /** The pairs found so far: first elements before index i, and with first
      element outside[i], second elements up to index j. */
  ghost predicate FoundUpTo(outside: seq<nat>, present: seq<nat>, pairs: seq<(nat, nat, nat)>, i: nat, j: nat)
    requires i <= |outside| && j <= |outside|
  {
    PairsAscending(pairs) &&
    forall t :: t in pairs <==>
      OutsidePair(outside, present, t) &&
      (t.0 in outside[..i] || (i < |outside| && t.0 == outside[i] && t.1 in outside[..j]))
  }

  /** The order the nested loops record pairs in: by first value, then by
      second value. */
  predicate PairBefore(a: (nat, nat, nat), b: (nat, nat, nat)) {
    a.0 < b.0 || (a.0 == b.0 && a.1 < b.1)
  }

  /** Strictly ascending in that order, so no pair is recorded twice. */
  predicate PairsAscending(pairs: seq<(nat, nat, nat)>) {
    forall i, j :: 0 <= i < j < |pairs| ==> PairBefore(pairs[i], pairs[j])
  }

  /** A pair after every recorded one keeps the list ascending. */
  lemma PairsAscendingSnoc(pairs: seq<(nat, nat, nat)>, t: (nat, nat, nat))
    requires PairsAscending(pairs)
    requires forall k :: 0 <= k < |pairs| ==> PairBefore(pairs[k], t)
    ensures PairsAscending(pairs + [t])
  {
  }

  /**
   * The pair loop: for each index i, for each later value val2 of the
   * ascending outside list, record (val1, val2, val1 ^ val2) when both are
   * present.  The result holds exactly the recorded pairs.
   */
  method PairsOutside(outside: seq<nat>, present: seq<nat>) returns (pairs: seq<(nat, nat, nat)>)
    requires Ascending(outside)
    ensures forall t :: t in pairs <==> OutsidePair(outside, present, t)
    ensures PairsAscending(pairs)
  {
    pairs := [];
    for i := 0 to |outside|
      invariant FoundUpTo(outside, present, pairs, i, 0)
    {
      pairs := PairsWith(outside, present, pairs, i);
    }
    assert outside[..|outside|] == outside;
  }

  /** The inner loop `for val2 in values_outside_space[i+1:]`. */
  method PairsWith(outside: seq<nat>, present: seq<nat>, pairs: seq<(nat, nat, nat)>, i: nat) returns (pairs': seq<(nat, nat, nat)>)
    requires Ascending(outside)
    requires i < |outside| && FoundUpTo(outside, present, pairs, i, 0)
    ensures FoundUpTo(outside, present, pairs', i + 1, 0)
    ensures pairs <= pairs'
  {
    pairs' := pairs;
    var val1 := outside[i];
    NoneAbove(outside, i, outside[..i + 1]);
    for j := i + 1 to |outside|
      invariant FoundUpTo(outside, present, pairs', i, j)
      invariant pairs <= pairs'
    {
      var val2 := outside[j];
      assert outside[..j + 1] == outside[..j] + [val2];
      if val1 in present && val2 in present {
        var t := (val1, val2, Xor(val1, val2));
        RecordedBefore(outside, present, pairs', i, j);
        PairsAscendingSnoc(pairs', t);
        pairs' := pairs' + [t];
      }
    }
    assert outside[..|outside|] == outside;
    assert outside[..i + 1] == outside[..i] + [val1];
  }

  /** Every pair recorded before inner index j comes before (outside[i], outside[j]). */
  lemma RecordedBefore(outside: seq<nat>, present: seq<nat>, pairs: seq<(nat, nat, nat)>, i: nat, j: nat)
    requires Ascending(outside) && i < j < |outside|
    requires FoundUpTo(outside, present, pairs, i, j)
    ensures forall k :: 0 <= k < |pairs| ==> PairBefore(pairs[k], (outside[i], outside[j], Xor(outside[i], outside[j])))
  {
    forall k | 0 <= k < |pairs|
      ensures PairBefore(pairs[k], (outside[i], outside[j], Xor(outside[i], outside[j])))
    {
      var t := pairs[k];
      assert t in pairs;
      if t.0 in outside[..i] {
        var a :| 0 <= a < i && outside[a] == t.0;
      } else {
        var b :| 0 <= b < j && outside[b] == t.1;
      }
    }
  }

  /** In an ascending list nothing up to index i exceeds the entry at i. */
  lemma NoneAbove(outside: seq<nat>, i: nat, before: seq<nat>)
    requires Ascending(outside)
    requires i < |outside| && before == outside[..i + 1]
    ensures forall b :: b in before ==> b <= outside[i]
  {
    forall b | b in before ensures b <= outside[i] {
      var k :| 0 <= k < i + 1 && before[k] == b;
    }
  }

  // ---------------------------------------------------------------------
  // Classifying the XORs of the pairs

  /** The number of pairs whose XOR passes keep. */
  function CountXor(pairs: seq<(nat, nat, nat)>, keep: nat -> bool): (r: nat)
    ensures r <= |pairs|
  {
    if pairs == [] then 0
    else CountXor(pairs[..|pairs| - 1], keep) + (if keep(pairs[|pairs| - 1].2) then 1 else 0)
  }

  function InList(s: seq<nat>): nat -> bool {
    x => x in s
  }

  function NotInList(s: seq<nat>): nat -> bool {
    x => x !in s
  }

  /** A test and its negation split the pairs between them. */
  lemma {:induction false} CountSplit(pairs: seq<(nat, nat, nat)>, keep: nat -> bool, drop: nat -> bool)
    requires forall x :: drop(x) == !keep(x)
    ensures CountXor(pairs, keep) + CountXor(pairs, drop) == |pairs|
    decreases |pairs|
  {
    if pairs != [] {
      CountSplit(pairs[..|pairs| - 1], keep, drop);
    }
  }

  /**
   * The counting loop: each XOR is counted once as in or outside the space
   * and once as present in or missing from the table.
   */
  method ClassifyXors(pairs: seq<(nat, nat, nat)>, space: set<nat>, present: seq<nat>)
    returns (inSpace: nat, outSpace: nat, presentCount: nat, missingCount: nat)
    ensures inSpace == CountXor(pairs, InSet(space)) && outSpace == CountXor(pairs, NotIn(space))
    ensures presentCount == CountXor(pairs, InList(present))
    ensures missingCount == CountXor(pairs, NotInList(present))
    ensures inSpace + outSpace == |pairs| == presentCount + missingCount
  {
    inSpace, outSpace, presentCount, missingCount := 0, 0, 0, 0;
    for k := 0 to |pairs|
      invariant inSpace == CountXor(pairs[..k], InSet(space))
      invariant outSpace == CountXor(pairs[..k], NotIn(space))
      invariant presentCount == CountXor(pairs[..k], InList(present))
      invariant missingCount == CountXor(pairs[..k], NotInList(present))
    {
      assert pairs[..k + 1][..k] == pairs[..k];
      var x := pairs[k].2;
      if x in space {
        inSpace := inSpace + 1;
      } else {
        outSpace := outSpace + 1;
      }
      if x in present {
        presentCount := presentCount + 1;
      } else {
        missingCount := missingCount + 1;
      }
    }
    assert pairs[..|pairs|] == pairs;
    CountSplit(pairs, InSet(space), NotIn(space));
    CountSplit(pairs, InList(present), NotInList(present));
  }

  /** The pairs whose XOR stays outside the space. */
  function StayOutside(pairs: seq<(nat, nat, nat)>, space: set<nat>): (r: seq<(nat, nat, nat)>)
    ensures forall t :: t in r <==> t in pairs && t.2 !in space
    ensures |r| == CountXor(pairs, NotIn(space))
  {
    if pairs == [] then []
    else
      var rest := StayOutside(pairs[..|pairs| - 1], space);
      var t := pairs[|pairs| - 1];
      assert pairs == pairs[..|pairs| - 1] + [t];
      if t.2 !in space then rest + [t] else rest
  }

  // ---------------------------------------------------------------------
  // The closure check

  /**
   * The closure loop: start from the outside values and add the XOR of
   * every ordered pair of them.
   */
  method OutsideClosure(outside: seq<nat>) returns (closure: set<nat>)
    ensures closure == Values(outside) + Products(Values(outside), Values(outside))
  {
    var all := Values(outside);
    closure := all;
    for i := 0 to |outside|
      invariant closure == all + Products(ValuesUpTo(outside, i), all)
    {
      ghost var before := closure;
      closure := XorWithAll(outside, closure, i);
      ClosureStep(outside, i, all, before);
    }
    assert ValuesUpTo(outside, |outside|) == all;
  }

  /** Adding the row of outside[i] moves the products on to the first i + 1 values. */
  lemma ClosureStep(outside: seq<nat>, i: nat, all: set<nat>, closure: set<nat>)
    requires i < |outside| && all == Values(outside)
    requires closure == all + Products(ValuesUpTo(outside, i), all)
    ensures closure + Row(outside[i], all) == all + Products(ValuesUpTo(outside, i + 1), all)
  {
    assert ValuesUpTo(outside, i + 1) == ValuesUpTo(outside, i) + {outside[i]};
    ProductsAdd(ValuesUpTo(outside, i), outside[i], all);
  }

  /** The inner loop: add the XOR of outside[i] with every outside value. */
  method XorWithAll(outside: seq<nat>, closure: set<nat>, i: nat) returns (closure': set<nat>)
    requires i < |outside|
    ensures closure' == closure + Row(outside[i], Values(outside))
  {
    closure' := closure;
    for j := 0 to |outside|
      invariant closure' == closure + Row(outside[i], ValuesUpTo(outside, j))
    {
      assert ValuesUpTo(outside, j + 1) == ValuesUpTo(outside, j) + {outside[j]};
      RowAdd(outside[i], ValuesUpTo(outside, j), outside[j]);
      closure' := closure' + {Xor(outside[i], outside[j])};
    }
    assert ValuesUpTo(outside, |outside|) == Values(outside);
  }

  /** A set that holds the XOR of any two of its members. */
  ghost predicate XorClosed(c: set<nat>) {
    forall x, y :: x in c && y in c ==> Xor(x, y) in c
  }

  /** a ^ (a ^ b) == b. */
  lemma XorUndo(a: nat, b: nat)
    ensures Xor(a, Xor(a, b)) == b
  {
    XorComm(a, Xor(a, b));
    XorComm(a, b);
    XorCancel(b, a);
  }

  /**
   * Outside an XOR-closed set of words, XORing outside values reaches every
   * word: any y in the space is x ^ (x ^ y) for an outside x, and x ^ y is
   * outside too.  So the closure is all 2^w words.
   */
  lemma OutsideReachesAll(space: set<nat>, w: nat)
    requires XorClosed(space) && forall x :: x in space ==> x < Pow2(w)
    requires |Outside(space, w)| > 0
    ensures var o := Values(Outside(space, w)); o + Products(o, o) == Range(Pow2(w))
  {
    var outside := Outside(space, w);
    var o := Values(outside);
    forall x | x in o ensures x < Pow2(w) {
      var i :| 0 <= i < |outside| && outside[i] == x;
      assert outside[i] in outside;
    }
    forall y | y in o + Products(o, o) ensures y in Range(Pow2(w)) {
      ClosureWithin(o, w, y);
    }
    forall y | y in Range(Pow2(w)) ensures y in o + Products(o, o) {
      WordReached(space, w, y);
    }
  }

  /** Every word below 2^w is outside or reached through an XOR. */
  lemma WordReached(space: set<nat>, w: nat, y: nat)
    requires XorClosed(space) && forall x :: x in space ==> x < Pow2(w)
    requires |Outside(space, w)| > 0 && y in Range(Pow2(w))
    ensures var o := Values(Outside(space, w)); y in o + Products(o, o)
  {
    var outside := Outside(space, w);
    RangeMember(Pow2(w), y);
    if y in space {
      assert outside[0] in outside;
      SpaceReached(space, w, outside[0], y);
    } else {
      assert y in outside;
    }
  }

  /** XORs of words below 2^w stay below 2^w. */
  lemma ClosureWithin(o: set<nat>, w: nat, y: nat)
    requires forall x :: x in o ==> x < Pow2(w)
    requires y in o + Products(o, o)
    ensures y in Range(Pow2(w))
  {
    if y !in o {
      var a, b :| a in o && b in o && y == Xor(a, b);
      XorBelow(a, b, w);
    }
    RangeMember(Pow2(w), y);
  }

  /** A space word y is x0 ^ (x0 ^ y), with both factors outside. */
  lemma SpaceReached(space: set<nat>, w: nat, x0: nat, y: nat)
    requires XorClosed(space) && x0 < Pow2(w) && x0 !in space
    requires y in space && y < Pow2(w)
    ensures var o := Values(Outside(space, w)); y in Products(o, o)
  {
    var o := Values(Outside(space, w));
    var z := Xor(x0, y);
    XorBelow(x0, y, w);
    XorCancel(x0, y);
    assert z in space ==> Xor(z, y) in space;
    assert z in o && x0 in o;
    XorUndo(x0, y);
  }

  /** An ascending list has as many values as entries. */
  lemma AscendingCard(s: seq<nat>)
    requires forall i, j :: 0 <= i < j < |s| ==> s[i] < s[j]
    ensures |Values(s)| == |s|
  {
    ValuesUpToCard(s, |s|);
    assert ValuesUpTo(s, |s|) == Values(s);
  }

  /**
   * The script's verdict: the closure is larger than the outside list
   * exactly when the space is not empty.
   */
  lemma ClosureGrows(space: set<nat>, w: nat)
    requires XorClosed(space) && forall x :: x in space ==> x < Pow2(w)
    requires |Outside(space, w)| > 0
    ensures var o := Values(Outside(space, w));
      |o + Products(o, o)| > |Outside(space, w)| <==> space != {}
  {
    var outside := Outside(space, w);
    OutsideReachesAll(space, w);
    RangeCard(Pow2(w));
    OutsideCount(space, w);
    var inside := SortedSet(space, Pow2(w));
    AscendingCard(inside);
    assert Values(inside) == space;
    if space != {} {
      var x :| x in space;
      assert x in inside;
    }
  }

  // ---------------------------------------------------------------------
  // The script

  /**
   * find_pairs_outside_space.py end to end: the span of the missing values,
   * the words outside it, the present ones among them, their pairs, the
   * classification of the pair XORs, the pairs that stay outside, and the
   * closure of the outside words.
   */
  method FindPairsOutside(table: seq<nat>, missing: seq<nat>, w: nat)
    returns (outside: seq<nat>, presentOutside: seq<nat>, pairs: seq<(nat, nat, nat)>,
             inSpace: nat, outSpace: nat, presentCount: nat, missingCount: nat,
             stay: seq<(nat, nat, nat)>, closure: set<nat>)
    requires forall i :: 0 <= i < |table| ==> table[i] < Pow2(w)
    requires forall i :: 0 <= i < |missing| ==> missing[i] < Pow2(w)
    ensures forall x: nat :: x in outside <==> x < Pow2(w) && !(|missing| > 0 && x in Span(missing))
    ensures Ascending(outside)
    ensures forall x :: x in presentOutside <==> x in table && x in outside
    ensures Ascending(presentOutside)
    ensures forall t :: t in pairs <==> OutsidePair(outside, table, t)
    ensures PairsAscending(pairs)
    ensures inSpace + outSpace == |pairs| == presentCount + missingCount
    ensures forall t :: t in stay <==> t in pairs && !(|missing| > 0 && t.2 in Span(missing))
    ensures |stay| == outSpace
    ensures |outside| > 0 ==> closure == Range(Pow2(w)) && (|closure| > |outside| <==> |missing| > 0)
  {
    var present := SortedSet(Values(table), Pow2(w));
    var space := MissingSpace(missing, w);
    outside := Outside(space, w);
    presentOutside := PresentOutside(present, space);
    PresentOutsideAscending(present, space);
    pairs := PairsOutside(outside, present);
    inSpace, outSpace, presentCount, missingCount := ClassifyXors(pairs, space, present);
    stay := StayOutside(pairs, space);
    closure := OutsideClosure(outside);
    if |outside| > 0 {
      ClosureOfOutside(missing, space, w);
    }
  }

  /** The span of the missing values, as a set of words of width w. */
  method MissingSpace(missing: seq<nat>, w: nat) returns (space: set<nat>)
    requires forall i :: 0 <= i < |missing| ==> missing[i] < Pow2(w)
    ensures forall x :: x in space <==> |missing| > 0 && x in Span(missing)
    ensures forall x :: x in space ==> x < Pow2(w)
  {
    var spaceList := GenerateXorClosure(missing, w);
    space := set x | x in spaceList;
    SpanBelow(missing, w);
  }

  /** The closure of the words outside a span is every word, and it is
      larger than the outside words exactly when the span is not empty. */
  lemma ClosureOfOutside(missing: seq<nat>, space: set<nat>, w: nat)
    requires forall x :: x in space <==> |missing| > 0 && x in Span(missing)
    requires forall x :: x in space ==> x < Pow2(w)
    requires |Outside(space, w)| > 0
    ensures var o := Values(Outside(space, w));
      o + Products(o, o) == Range(Pow2(w)) &&
      (|o + Products(o, o)| > |Outside(space, w)| <==> |missing| > 0)
  {
    SpaceClosed(missing, space);
    OutsideReachesAll(space, w);
    ClosureGrows(space, w);
    if |missing| > 0 {
      SpanZero(missing);
    }
  }

  /** The set of the closure is XOR-closed, empty or not. */
  lemma SpaceClosed(missing: seq<nat>, space: set<nat>)
    requires forall x :: x in space <==> |missing| > 0 && x in Span(missing)
    ensures XorClosed(space)
  {
    forall x, y | x in space && y in space ensures Xor(x, y) in space {
      SpanXor(missing, x, y);
    }
  }
}
