/**
 * Counting and grouping over index ranges, shared by the table-analysis
 * utilities.
 *
 * Where(n, keep) is the ascending list of x < n with keep(x): a Python list
 * comprehension `[x for x in range(n) if keep(x)]`, or the list an append
 * loop builds.  GroupBy is the `defaultdict(list)` idiom: key x goes to the
 * list of key keys[x], appended in ascending order, so every list is a
 * preimage list.
 */
module Tally {
  import opened Preimage

  /** The x < n with keep(x), ascending. */
  function Where(n: nat, keep: nat -> bool): (r: seq<nat>)
    ensures |r| <= n
    decreases n
  {
    if n == 0 then [] else Where(n - 1, keep) + (if keep(n - 1) then [n - 1] else [])
  }

  /** Membership in both directions. */
  lemma {:induction false} WhereMember(n: nat, keep: nat -> bool, x: nat)
    ensures x in Where(n, keep) <==> x < n && keep(x)
    decreases n
  {
    if n > 0 {
      WhereMember(n - 1, keep, x);
    }
  }

  lemma WhereMembers(n: nat, keep: nat -> bool)
    ensures forall x: nat :: x in Where(n, keep) <==> x < n && keep(x)
  {
    forall x: nat {
      WhereMember(n, keep, x);
    }
  }

  /** The list is strictly ascending. */
  lemma {:induction false} WhereAscending(n: nat, keep: nat -> bool)
    ensures forall i, j :: 0 <= i < j < |Where(n, keep)| ==> Where(n, keep)[i] < Where(n, keep)[j]
    decreases n
  {
    if n > 0 {
      WhereAscending(n - 1, keep);
      WhereMembers(n - 1, keep);
      var w := Where(n - 1, keep);
      forall i | 0 <= i < |w| ensures w[i] < n - 1 {
        assert w[i] in w;
      }
    }
  }

  /** Every x passes exactly when the list holds all n of them. */
  lemma {:induction false} WhereFull(n: nat, keep: nat -> bool)
    ensures |Where(n, keep)| == n <==> forall x :: 0 <= x < n ==> keep(x)
    decreases n
  {
    if n > 0 {
      WhereFull(n - 1, keep);
    }
  }

  /** Nothing passes exactly when the list is empty. */
  lemma WhereEmpty(n: nat, keep: nat -> bool)
    ensures |Where(n, keep)| == 0 <==> forall x :: 0 <= x < n ==> !keep(x)
  {
    WhereMembers(n, keep);
    if |Where(n, keep)| > 0 {
      assert Where(n, keep)[0] in Where(n, keep);
    }
  }

  /** The x that pass and the x that fail make up all n. */
  lemma {:induction false} WhereComplement(n: nat, keep: nat -> bool, drop: nat -> bool)
    requires forall x :: drop(x) == !keep(x)
    ensures |Where(n, keep)| + |Where(n, drop)| == n
    decreases n
  {
    if n > 0 {
      WhereComplement(n - 1, keep, drop);
    }
  }

  /** The append loop that builds Where(n, keep). */
  method Collect(n: nat, keep: nat -> bool) returns (r: seq<nat>)
    ensures r == Where(n, keep)
    ensures forall x: nat :: x in r <==> x < n && keep(x)
  {
    r := [];
    for x: nat := 0 to n
      invariant r == Where(x, keep)
    {
      if keep(x) {
        r := r + [x];
      }
    }
    WhereMembers(n, keep);
  }

  /** The preimage list of y has all n entries exactly when every key is y. */
  lemma {:induction false} PreimagesFull(s: seq<nat>, y: nat, n: nat)
    requires n <= |s|
    ensures |Preimages(s, y, n)| == n <==> forall x :: 0 <= x < n ==> s[x] == y
    decreases n
  {
    if n > 0 {
      PreimagesFull(s, y, n - 1);
    }
  }

  /** When every key is below k, the list lengths of the keys below k add up
      to the number of entries. */
  lemma {:induction false} CountsBelow(s: seq<nat>, n: nat, k: nat)
    requires n <= |s|
    requires forall x :: 0 <= x < n ==> s[x] < k
    ensures CountSum(s, n, k) == n
    decreases n
  {
    if n > 0 {
      CountsBelow(s, n - 1, k);
      CountSumStep(s, n - 1, k);
    } else {
      CountSumEmpty(s, k);
    }
  }

  /** A map from each key to its preimage list, holding only keys that occur. */
  predicate Grouped(keys: seq<nat>, m: map<nat, seq<nat>>, n: nat)
    requires n <= |keys|
  {
    (forall x :: 0 <= x < n ==> keys[x] in m) &&
    (forall k :: k in m ==> m[k] == Preimages(keys, k, n) && |m[k]| > 0)
  }

  /**
   * The `defaultdict(list)` loop: for x in order, append x to the list of
   * keys[x].  Each list is the ascending preimage list of its key, and the
   * keys present are exactly the keys that occur.
   */
  method GroupBy(keys: seq<nat>) returns (m: map<nat, seq<nat>>)
    ensures Grouped(keys, m, |keys|)
    ensures forall k :: k in m ==> forall i :: 0 <= i < |m[k]| ==> m[k][i] < |keys| && keys[m[k][i]] == k
  {
    m := map[];
    for x := 0 to |keys|
      invariant Grouped(keys, m, x)
    {
      m := AppendKey(keys, m, x);
    }
    forall k | k in m ensures forall i :: 0 <= i < |m[k]| ==> m[k][i] < |keys| && keys[m[k][i]] == k {
      PreimagesSound(keys, k, |keys|);
    }
  }

  /** One step of the loop: `groups[keys[x]].append(x)`. */
  method AppendKey(keys: seq<nat>, m: map<nat, seq<nat>>, x: nat) returns (m': map<nat, seq<nat>>)
    requires x < |keys| && Grouped(keys, m, x)
    ensures Grouped(keys, m', x + 1)
  {
    var k := keys[x];
    var list: seq<nat> := [];
    if k in m {
      list := m[k];
    } else {
      PreimagesAbsent(keys, k, x);
    }
    m' := m[k := list + [x]];
    forall k' | k' in m' ensures m'[k'] == Preimages(keys, k', x + 1) && |m'[k']| > 0 {
      PreimagesNext(keys, k', x);
    }
  }

  /** A key that occurs nowhere below x has an empty list. */
  lemma PreimagesAbsent(keys: seq<nat>, k: nat, x: nat)
    requires x <= |keys| && forall x' :: 0 <= x' < x ==> keys[x'] != k
    ensures Preimages(keys, k, x) == []
  {
    PreimagesSound(keys, k, x);
  }
}
