/**
 * Orders of the 32 byte positions.
 *
 * Two searches sort the positions by their number of preimage choices
 * before they multiply the choice counts together.  An order is a
 * permutation of 0..n-1 (same multiset as Range(n)).  Reading the counts
 * in any such order gives the same product (ProductInOrder), so the order
 * decides only where a guarded product stops early, never its value.
 */
module Orders {
  import opened SearchCore

  /** 0, 1, ..., n-1. */
  function Range(n: nat): (r: seq<nat>)
    ensures |r| == n && forall i :: 0 <= i < n ==> r[i] == i
  {
    seq(n, i => i)
  }

  /** order holds each of 0..n-1 exactly once. */
  predicate IsOrder(order: seq<nat>, n: nat) {
    multiset(order) == multiset(Range(n))
  }

  /** The keys read through order: `key[order[0]], key[order[1]], ...`. */
  function Pick(key: seq<nat>, order: seq<nat>): (r: seq<nat>)
    requires forall i :: 0 <= i < |order| ==> order[i] < |key|
    ensures |r| == |order| && forall i :: 0 <= i < |order| ==> r[i] == key[order[i]]
  {
    seq(|order|, i requires 0 <= i < |order| => key[order[i]])
  }

  /** The keys read through order never decrease. */
  predicate Ascending(key: seq<nat>, order: seq<nat>)
    requires forall i :: 0 <= i < |order| ==> order[i] < |key|
  {
    forall p, q :: 0 <= p < q < |order| ==> key[order[p]] <= key[order[q]]
  }

  /** Ties keep their original relative order. */
  predicate Stable(key: seq<nat>, order: seq<nat>)
    requires forall i :: 0 <= i < |order| ==> order[i] < |key|
  {
    forall p, q :: 0 <= p < q < |order| && key[order[p]] == key[order[q]] ==> order[p] < order[q]
  }

  // ---------------------------------------------------------------------
  // Products in any order

  /** A product splits at any point. */
  lemma {:induction false} ProductAppend(a: seq<nat>, b: seq<nat>)
    ensures Product(a + b) == Product(a) * Product(b)
    decreases |a|
  {
    if |a| > 0 {
      assert (a + b)[1..] == a[1..] + b;
      ProductAppend(a[1..], b);
      MulAssoc(a[0], Product(a[1..]), Product(b));
    } else {
      assert a + b == b;
    }
  }

  lemma MulAssoc(x: nat, y: nat, z: nat)
    ensures x * (y * z) == (x * y) * z
  {
  }

  lemma MulSwap(x: nat, y: nat, z: nat)
    ensures x * (y * z) == y * (x * z)
  {
  }

  /** Taking out the factor at k. */
  lemma ProductRemove(a: seq<nat>, k: nat)
    requires k < |a|
    ensures Product(a) == a[k] * Product(a[..k] + a[k + 1..])
  {
    var l, m, r := a[..k], a[k..], a[k + 1..];
    assert a == l + m;
    assert m[1..] == r;
    ProductAppend(l, m);
    ProductAppend(l, r);
    MulSwap(Product(l), a[k], Product(r));
  }

  /** Reading the same multiset of positions gives the same product. */
  lemma {:induction false} ProductPick(key: seq<nat>, p: seq<nat>, q: seq<nat>)
    requires forall i :: 0 <= i < |p| ==> p[i] < |key|
    requires forall i :: 0 <= i < |q| ==> q[i] < |key|
    requires multiset(p) == multiset(q)
    ensures Product(Pick(key, p)) == Product(Pick(key, q))
    decreases |p|
  {
    if |p| > 0 {
      assert p[0] in multiset(q);
      var k :| 0 <= k < |q| && q[k] == p[0];
      var q' := q[..k] + q[k + 1..];
      RemoveFirst(p, q, k);
      PickRemove(key, q, k);
      ProductPick(key, p[1..], q');
      ProductRemove(Pick(key, q), k);
      assert Pick(key, p) == [key[p[0]]] + Pick(key, p[1..]);
      assert Pick(key, q)[k] == key[p[0]];
    }
  }

  /** Reading q without its entry k. */
  lemma PickRemove(key: seq<nat>, q: seq<nat>, k: nat)
    requires forall i :: 0 <= i < |q| ==> q[i] < |key|
    requires k < |q|
    ensures var q' := q[..k] + q[k + 1..]; forall i :: 0 <= i < |q'| ==> q'[i] < |key|
    ensures Pick(key, q)[..k] + Pick(key, q)[k + 1..] == Pick(key, q[..k] + q[k + 1..])
  {
    var q' := q[..k] + q[k + 1..];
    assert forall i :: 0 <= i < |q'| ==> q'[i] == if i < k then q[i] else q[i + 1];
  }

  /** Taking the first entry of p out of q, where it sits at k. */
  lemma RemoveFirst(p: seq<nat>, q: seq<nat>, k: nat)
    requires multiset(p) == multiset(q) && k < |q| && 0 < |p| && q[k] == p[0]
    ensures multiset(p[1..]) == multiset(q[..k] + q[k + 1..])
  {
    var e := p[0];
    assert q == q[..k] + [e] + q[k + 1..];
    assert p == [e] + p[1..];
    assert multiset(q) == multiset(q[..k]) + multiset{e} + multiset(q[k + 1..]);
    assert multiset(p) == multiset{e} + multiset(p[1..]);
    calc {
      multiset(p[1..]);
      multiset(p) - multiset{e};
      multiset(q) - multiset{e};
      multiset(q[..k]) + multiset(q[k + 1..]);
      multiset(q[..k] + q[k + 1..]);
    }
  }

  /** The keys read through an order multiply to the product of all keys. */
  lemma ProductInOrder(key: seq<nat>, order: seq<nat>)
    requires IsOrder(order, |key|)
    ensures |order| == |key|
    ensures forall i :: 0 <= i < |order| ==> order[i] < |key|
    ensures Product(Pick(key, order)) == Product(key)
  {
    forall i | 0 <= i < |order|
      ensures order[i] < |key|
    {
      assert order[i] in multiset(Range(|key|));
    }
    assert |multiset(order)| == |multiset(Range(|key|))|;
    ProductPick(key, order, Range(|key|));
    assert Pick(key, Range(|key|)) == key;
  }

  // ---------------------------------------------------------------------
  // Insertion sort

  /**
   * hireme2_optimized.c's sort of the positions: `order[j] = j`, then an
   * insertion sort that shifts order[] in place while the key of the
   * entry to the left is strictly larger.
   */
  method SortByChoices(choices: seq<nat>) returns (order: seq<nat>)
    requires |choices| == 32
    ensures IsOrder(order, 32) && |order| == 32
    ensures forall i :: 0 <= i < 32 ==> order[i] < 32
    ensures Ascending(choices, order)
  {
    var a := new nat[32](j => j);
    assert a[..] == Range(32);
    InsertionSort(choices, a);
    order := a[..];
  }

  /** The outer loop: after pass i, a[..i + 1] is ascending. */
  method InsertionSort(key: seq<nat>, a: array<nat>)
    requires a.Length == |key| > 0
    requires forall i :: 0 <= i < a.Length ==> a[i] < |key|
    modifies a
    ensures multiset(a[..]) == multiset(old(a[..]))
    ensures forall i :: 0 <= i < a.Length ==> a[i] < |key|
    ensures Ascending(key, a[..])
  {
    for i := 1 to a.Length
      invariant multiset(a[..]) == multiset(old(a[..]))
      invariant forall k :: 0 <= k < a.Length ==> a[k] < |key|
      invariant Ascending(key, a[..i])
    {
      Insert(key, a, i);
    }
    assert a[..a.Length] == a[..];
  }

  /**
   * One pass: the entry at i moves left past every entry with a strictly
   * larger key, each of which shifts one place right.
   */
  method Insert(key: seq<nat>, a: array<nat>, i: nat)
    requires 0 < i < a.Length
    requires forall k :: 0 <= k < a.Length ==> a[k] < |key|
    requires Ascending(key, a[..i])
    modifies a
    ensures multiset(a[..]) == multiset(old(a[..]))
    ensures forall k :: 0 <= k < a.Length ==> a[k] < |key|
    ensures Ascending(key, a[..i + 1])
  {
    ghost var o := a[..];
    var x := a[i];
    var h := ShiftLarger(key, a, i);
    a[h] := x;
    InsertedShape(o, a[..], x, i, h);
    InsertedAscending(key, o, a[..], x, i, h);
  }

  /**
   * The inner loop: `while (j >= 0 && choices[order[j]] > choices[key])`
   * moves order[j] one place right.  It stops at the hole h where the
   * entry from i goes.
   */
  method ShiftLarger(key: seq<nat>, a: array<nat>, i: nat) returns (h: nat)
    requires 0 < i < a.Length
    requires forall k :: 0 <= k < a.Length ==> a[k] < |key|
    modifies a
    ensures h <= i
    ensures forall k :: 0 <= k < a.Length ==> a[k] < |key|
    ensures forall k :: 0 <= k < h ==> a[k] == old(a[k])
    ensures forall k :: h + 1 <= k <= i ==> a[k] == old(a[k - 1])
    ensures forall k :: i < k < a.Length ==> a[k] == old(a[k])
    ensures forall k :: h < k <= i ==> key[a[k]] > key[old(a[i])]
    ensures h > 0 ==> key[a[h - 1]] <= key[old(a[i])]
  {
    var x := a[i];
    var j: int := i - 1;
    while j >= 0 && key[a[j]] > key[x]
      invariant -1 <= j < i
      invariant forall k :: 0 <= k < a.Length ==> a[k] < |key|
      invariant forall k :: 0 <= k <= j ==> a[k] == old(a[k])
      invariant forall k :: j + 2 <= k <= i ==> a[k] == old(a[k - 1])
      invariant forall k :: i < k < a.Length ==> a[k] == old(a[k])
      invariant forall k :: j + 1 < k <= i ==> key[a[k]] > key[x]
    {
      a[j + 1] := a[j];
      j := j - 1;
    }
    h := j + 1;
  }

  /** The array after a pass is the old one with x moved from i to h. */
  lemma InsertedShape(o: seq<nat>, a: seq<nat>, x: nat, i: nat, h: nat)
    requires h <= i < |o| == |a| && o[i] == x && a[h] == x
    requires forall k :: 0 <= k < h ==> a[k] == o[k]
    requires forall k :: h + 1 <= k <= i ==> a[k] == o[k - 1]
    requires forall k :: i < k < |a| ==> a[k] == o[k]
    ensures multiset(a) == multiset(o)
  {
    assert o == o[..h] + o[h..i] + [x] + o[i + 1..];
    assert a[..h] == o[..h];
    assert a[h + 1..i + 1] == o[h..i];
    assert a[i + 1..] == o[i + 1..];
    assert a == a[..h] + [x] + a[h + 1..i + 1] + a[i + 1..];
  }

  /** ... and its first i + 1 entries are ascending. */
  lemma InsertedAscending(key: seq<nat>, o: seq<nat>, a: seq<nat>, x: nat, i: nat, h: nat)
    requires h <= i < |o| == |a| && o[i] == x && a[h] == x
    requires forall k :: 0 <= k < |o| ==> o[k] < |key|
    requires forall k :: 0 <= k < |a| ==> a[k] < |key|
    requires Ascending(key, o[..i])
    requires forall k :: 0 <= k < h ==> a[k] == o[k]
    requires forall k :: h + 1 <= k <= i ==> a[k] == o[k - 1]
    requires forall k :: h < k <= i ==> key[a[k]] > key[x]
    requires h > 0 ==> key[a[h - 1]] <= key[x]
    ensures Ascending(key, a[..i + 1])
  {
    forall p, q | 0 <= p < q < i + 1
      ensures key[a[p]] <= key[a[q]]
    {
      if q < h {
        assert o[..i][p] == a[p] && o[..i][q] == a[q];
      } else if q == h {
        if p < h - 1 {
          assert o[..i][p] == a[p] && o[..i][h - 1] == a[h - 1];
        }
      } else if p < h {
        assert o[..i][p] == a[p] && o[..i][q - 1] == a[q];
      } else if p > h {
        assert o[..i][p - 1] == a[p] && o[..i][q - 1] == a[q];
      }
    }
  }
}
