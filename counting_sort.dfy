/**
 * counting_sort_positions of hireme2_safe_optimized.c: a stable counting
 * sort of the 32 positions by their number of preimage choices.
 *
 * Bucketed(key, k, n) is the specification: the positions below n with
 * key 0, then those with key 1, ..., up to key k - 1, each group in
 * ascending order (the group of key y is Preimages(key, y, n)).  It holds
 * every position once, is ascending by key, and keeps ties in position
 * order.  The sort counts the keys, turns the counts into running totals,
 * and places the positions from the last one down, each at the slot below
 * its key's running total; the result is exactly Bucketed(key, 257, 32).
 */
module CountingSort {
  import opened Preimage
  import opened Orders

  /** Buckets for the keys 0..256 (keys are bytes). */
  const BUCKETS: nat := 257

  /** The groups of keys 0 .. k - 1 of the positions below n, in turn. */
  function Bucketed(key: seq<nat>, k: nat, n: nat): (r: seq<nat>)
    requires n <= |key|
    decreases k
  {
    if k == 0 then [] else Bucketed(key, k - 1, n) + Preimages(key, k - 1, n)
  }

  /** Group y starts at CountSum(key, n, y): the groups before it hold
      that many positions. */
  lemma {:induction false} BucketedLength(key: seq<nat>, k: nat, n: nat)
    requires n <= |key|
    ensures |Bucketed(key, k, n)| == CountSum(key, n, k)
    decreases k
  {
    if k > 0 {
      BucketedLength(key, k - 1, n);
    }
  }

  /** Every key is below k. */
  predicate KeysBelow(key: seq<nat>, k: nat) {
    forall i :: 0 <= i < |key| ==> key[i] < k
  }

  // ---------------------------------------------------------------------
  // What Bucketed holds

  /** Every entry is a position below n whose key is below k. */
  lemma {:induction false} BucketedEntries(key: seq<nat>, k: nat, n: nat)
    requires n <= |key|
    ensures forall p :: 0 <= p < |Bucketed(key, k, n)| ==>
      Bucketed(key, k, n)[p] < n && key[Bucketed(key, k, n)[p]] < k
    decreases k
  {
    if k > 0 {
      BucketedEntries(key, k - 1, n);
      PreimagesSound(key, k - 1, n);
    }
  }

  /** Every position below n with a key below k is in the groups. */
  lemma {:induction false} BucketedComplete(key: seq<nat>, k: nat, n: nat, x: nat)
    requires n <= |key| && x < n && key[x] < k
    ensures x in Bucketed(key, k, n)
    decreases k
  {
    var a, b := Bucketed(key, k - 1, n), Preimages(key, k - 1, n);
    if key[x] == k - 1 {
      PreimagesMember(key, k - 1, n, x);
      assert x in a + b;
    } else {
      BucketedComplete(key, k - 1, n, x);
      assert x in a + b;
    }
  }

  /** A sequence without repeats holds each of its entries once. */
  lemma {:induction false} DistinctCount(s: seq<nat>, x: nat)
    requires forall p, q :: 0 <= p < q < |s| ==> s[p] != s[q]
    ensures multiset(s)[x] == if x in s then 1 else 0
    decreases |s|
  {
    if |s| > 0 {
      var t := s[..|s| - 1];
      DistinctCount(t, x);
      assert s == t + [s[|s| - 1]];
      assert x in s <==> x in t || x == s[|s| - 1];
    }
  }

  /** Range(n) holds each x below n once. */
  lemma RangeMember(n: nat, x: nat)
    ensures multiset(Range(n))[x] == if x < n then 1 else 0
  {
    DistinctCount(Range(n), x);
    if x < n {
      assert Range(n)[x] == x;
    }
  }

  /** With every key below k, the groups hold each position once. */
  lemma BucketedIsOrder(key: seq<nat>, k: nat, n: nat)
    requires n <= |key| && KeysBelow(key, k)
    ensures IsOrder(Bucketed(key, k, n), n)
  {
    var r := Bucketed(key, k, n);
    BucketedEntries(key, k, n);
    BucketedStable(key, k, n);
    forall p, q | 0 <= p < q < |r|
      ensures r[p] != r[q]
    {
    }
    forall x: nat
      ensures multiset(r)[x] == multiset(Range(n))[x]
    {
      DistinctCount(r, x);
      RangeMember(n, x);
      if x < n {
        BucketedComplete(key, k, n, x);
      }
    }
    assert multiset(r) == multiset(Range(n));
  }

  /** The groups come in ascending key order. */
  lemma {:induction false} BucketedAscending(key: seq<nat>, k: nat, n: nat)
    requires n <= |key|
    ensures forall p :: 0 <= p < |Bucketed(key, k, n)| ==> Bucketed(key, k, n)[p] < |key|
    ensures Ascending(key, Bucketed(key, k, n))
    decreases k
  {
    BucketedEntries(key, k, n);
    if k > 0 {
      var a, b := Bucketed(key, k - 1, n), Preimages(key, k - 1, n);
      BucketedAscending(key, k - 1, n);
      BucketedEntries(key, k - 1, n);
      PreimagesSound(key, k - 1, n);
      var r := a + b;
      forall p, q | 0 <= p < q < |r|
        ensures key[r[p]] <= key[r[q]]
      {
        if q < |a| {
          assert r[p] == a[p] && r[q] == a[q];
        } else if p >= |a| {
          assert r[p] == b[p - |a|] && r[q] == b[q - |a|];
        } else {
          assert r[p] == a[p] && r[q] == b[q - |a|];
        }
      }
    }
  }

  /** Within a group the positions ascend, and groups differ in key. */
  lemma {:induction false} BucketedStable(key: seq<nat>, k: nat, n: nat)
    requires n <= |key|
    ensures forall p :: 0 <= p < |Bucketed(key, k, n)| ==> Bucketed(key, k, n)[p] < |key|
    ensures Stable(key, Bucketed(key, k, n))
    decreases k
  {
    BucketedEntries(key, k, n);
    if k > 0 {
      var a, b := Bucketed(key, k - 1, n), Preimages(key, k - 1, n);
      BucketedStable(key, k - 1, n);
      BucketedEntries(key, k - 1, n);
      PreimagesSound(key, k - 1, n);
      PreimagesAscending(key, k - 1, n);
      var r := a + b;
      forall p, q | 0 <= p < q < |r| && key[r[p]] == key[r[q]]
        ensures r[p] < r[q]
      {
        if q < |a| {
          assert r[p] == a[p] && r[q] == a[q];
        } else if p >= |a| {
          assert r[p] == b[p - |a|] && r[q] == b[q - |a|];
        } else {
          assert false;
        }
      }
    }
  }

  /** The sort's result is a permutation, ascending by key and stable. */
  lemma BucketedSorts(key: seq<nat>, k: nat)
    requires KeysBelow(key, k)
    ensures IsOrder(Bucketed(key, k, |key|), |key|)
    ensures forall p :: 0 <= p < |Bucketed(key, k, |key|)| ==> Bucketed(key, k, |key|)[p] < |key|
    ensures Ascending(key, Bucketed(key, k, |key|))
    ensures Stable(key, Bucketed(key, k, |key|))
  {
    BucketedIsOrder(key, k, |key|);
    BucketedAscending(key, k, |key|);
    BucketedStable(key, k, |key|);
  }

  // ---------------------------------------------------------------------
  // Slots

  /** Group y starts at CountSum(key, n, y) and fills the slots up to
      CountSum(key, n, y + 1). */
  lemma BucketedIndex(key: seq<nat>, k: nat, n: nat, y: nat, j: nat)
    requires n <= |key| && y < k && j < |Preimages(key, y, n)|
    ensures CountSum(key, n, y) + j < |Bucketed(key, k, n)|
    ensures Bucketed(key, k, n)[CountSum(key, n, y) + j] == Preimages(key, y, n)[j]
  {
    BucketedLastGroup(key, y + 1, n, y, j);
    BucketedFront(key, k, y + 1, n, CountSum(key, n, y) + j);
  }

  /** The groups of keys below m open the groups of keys below k >= m. */
  lemma {:induction false} BucketedFront(key: seq<nat>, k: nat, m: nat, n: nat, p: nat)
    requires n <= |key| && m <= k && p < |Bucketed(key, m, n)|
    ensures p < |Bucketed(key, k, n)| && Bucketed(key, k, n)[p] == Bucketed(key, m, n)[p]
    decreases k
  {
    if m < k {
      BucketedFront(key, k - 1, m, n, p);
      BucketedKeepsFront(key, k, n, p, Bucketed(key, m, n)[p]);
    }
  }

  /** The groups of keys below k - 1 open the groups of keys below k. */
  lemma BucketedKeepsFront(key: seq<nat>, k: nat, n: nat, p: nat, v: nat)
    requires n <= |key| && 0 < k && p < |Bucketed(key, k - 1, n)| && Bucketed(key, k - 1, n)[p] == v
    ensures p < |Bucketed(key, k, n)| && Bucketed(key, k, n)[p] == v
  {
  }

  /** ... and the group of key k - 1 follows them. */
  lemma BucketedLastGroup(key: seq<nat>, k: nat, n: nat, y: nat, j: nat)
    requires n <= |key| && y + 1 == k && j < |Preimages(key, y, n)|
    ensures CountSum(key, n, y) + j < |Bucketed(key, k, n)|
    ensures Bucketed(key, k, n)[CountSum(key, n, y) + j] == Preimages(key, y, n)[j]
  {
    BucketedLength(key, y, n);
  }

  /** Every slot lies in some group. */
  lemma {:induction false} SlotGroup(key: seq<nat>, k: nat, n: nat, p: nat) returns (y: nat, j: nat)
    requires n <= |key| && p < CountSum(key, n, k)
    ensures y < k && j < |Preimages(key, y, n)| && p == CountSum(key, n, y) + j
    decreases k
  {
    if p < CountSum(key, n, k - 1) {
      y, j := SlotGroup(key, k - 1, n, p);
    } else {
      y, j := k - 1, p - CountSum(key, n, k - 1);
    }
  }

  /** The running totals never decrease. */
  lemma {:induction false} CountSumMono(key: seq<nat>, n: nat, a: nat, b: nat)
    requires n <= |key| && a <= b
    ensures CountSum(key, n, a) <= CountSum(key, n, b)
    decreases b
  {
    if a < b {
      CountSumMono(key, n, a, b - 1);
    }
  }

  /** With all keys below k, the groups cover all n positions. */
  lemma {:induction false} CountSumAll(key: seq<nat>, n: nat, k: nat)
    requires n <= |key| && KeysBelow(key, k)
    ensures CountSum(key, n, k) == n
    decreases n
  {
    if n > 0 {
      CountSumAll(key, n - 1, k);
      CountSumStep(key, n - 1, k);
    } else {
      CountSumEmpty(key, k);
    }
  }

  /** The list of a key below i is a prefix of the list below n. */
  lemma {:induction false} PreimagesPrefix(key: seq<nat>, y: nat, i: nat, n: nat)
    requires i <= n <= |key|
    ensures Preimages(key, y, i) <= Preimages(key, y, n)
    decreases n
  {
    if i < n {
      PreimagesPrefix(key, y, i, n - 1);
    }
  }

  // ---------------------------------------------------------------------
  // The sort

  /**
   * counting_sort_positions: `count[choices[i]]++`, then running totals,
   * then `temp_order[--count[choices[i]]] = i` for i = 31 down to 0.
   * The keys are u8 values, so 257 buckets leave the last one empty.
   */
  method CountingSortPositions(choices: seq<nat>) returns (order: seq<nat>)
    requires |choices| == 32 && KeysBelow(choices, 256)
    ensures order == Bucketed(choices, BUCKETS, |choices|)
    ensures IsOrder(order, 32) && forall p :: 0 <= p < |order| ==> order[p] < 32
    ensures Ascending(choices, order) && Stable(choices, order)
  {
    var count := Histogram(choices);
    RunningTotals(choices, count);
    var temp := Place(choices, count);
    order := temp[..];
    PlacedIsBucketed(choices, order, BUCKETS);
    BucketedSorts(choices, BUCKETS);
  }

  /** The first loop: count[y] is the number of positions with key y. */
  method Histogram(choices: seq<nat>) returns (count: array<nat>)
    requires |choices| == 32 && KeysBelow(choices, 256)
    ensures count.Length == BUCKETS && fresh(count)
    ensures forall y :: 0 <= y < BUCKETS ==> count[y] == |Preimages(choices, y, |choices|)|
  {
    count := new nat[BUCKETS](_ => 0);
    for i := 0 to 32
      invariant forall y :: 0 <= y < BUCKETS ==> count[y] == |Preimages(choices, y, i)|
    {
      count[choices[i]] := count[choices[i]] + 1;
    }
  }

  /** The second loop: count[y] becomes the number of positions with key
      at most y. */
  method RunningTotals(choices: seq<nat>, count: array<nat>)
    requires 0 < count.Length
    requires forall y :: 0 <= y < count.Length ==> count[y] == |Preimages(choices, y, |choices|)|
    modifies count
    ensures forall y :: 0 <= y < count.Length ==> count[y] == CountSum(choices, |choices|, y + 1)
  {
    ghost var n := |choices|;
    for i := 1 to count.Length
      invariant forall y :: 0 <= y < i ==> count[y] == CountSum(choices, n, y + 1)
      invariant forall y :: i <= y < count.Length ==> count[y] == |Preimages(choices, y, n)|
    {
      ghost var before := count[..];
      count[i] := count[i] + count[i - 1];
      forall y | 0 <= y < i + 1
        ensures count[y] == CountSum(choices, n, y + 1)
      {
        if y < i {
          assert count[y] == before[y];
        }
      }
    }
  }

  /** Where entry j of group y goes: after the groups of smaller keys. */
  ghost function Slot(key: seq<nat>, y: nat, j: nat): nat {
    CountSum(key, |key|, y) + j
  }

  /** The slots of group y from entry `from` on hold its positions from
      `from` on. */
  ghost predicate GroupTail(key: seq<nat>, temp: seq<nat>, y: nat, from: nat)
    requires |temp| == |key|
  {
    forall j :: from <= j < |Preimages(key, y, |key|)| ==>
      Slot(key, y, j) < |key| && temp[Slot(key, y, j)] == Preimages(key, y, |key|)[j]
  }

  /** Group y is filled from its count of positions below i on. */
  ghost predicate FilledGroup(key: seq<nat>, temp: seq<nat>, y: nat, i: nat)
    requires |temp| == |key| && i <= |key|
  {
    GroupTail(key, temp, y, |Preimages(key, y, i)|)
  }

  /** After the positions from i on are placed, every group is filled from
      its count of positions below i on ... */
  ghost predicate Filled(key: seq<nat>, temp: seq<nat>, i: nat, k: nat)
    requires |temp| == |key| && i <= |key|
  {
    forall y :: 0 <= y < k ==> FilledGroup(key, temp, y, i)
  }

  /** ... and count[y] is the slot below the first filled one of group y. */
  ghost predicate Counted(key: seq<nat>, count: seq<nat>, i: nat)
    requires i <= |key|
  {
    forall y :: 0 <= y < |count| ==> count[y] == Slot(key, y, |Preimages(key, y, i)|)
  }

  /** The third loop: positions are placed from the last one down. */
  method Place(choices: seq<nat>, count: array<nat>) returns (temp: array<nat>)
    requires |choices| == 32 && KeysBelow(choices, 256) && count.Length == BUCKETS
    requires forall y :: 0 <= y < BUCKETS ==> count[y] == CountSum(choices, |choices|, y + 1)
    modifies count
    ensures temp.Length == 32 && Filled(choices, temp[..], 0, BUCKETS)
  {
    temp := new nat[32](_ => 0);
    var i := 32;
    TotalsCounted(choices, count[..]);
    assert KeysBelow(choices, count.Length);
    while i > 0
      invariant 0 <= i <= 32 && temp.Length == 32 && count != temp && count.Length == BUCKETS
      invariant Counted(choices, count[..], i) && Filled(choices, temp[..], i, BUCKETS)
    {
      i := i - 1;
      PlaceOne(choices, count, temp, i);
    }
  }

  /** The running totals are the counts with every position still to place. */
  lemma TotalsCounted(key: seq<nat>, count: seq<nat>)
    requires forall y :: 0 <= y < |count| ==> count[y] == CountSum(key, |key|, y + 1)
    ensures Counted(key, count, |key|)
  {
  }

  /** One pass of the third loop: `temp_order[--count[choices[i]]] = i`. */
  method PlaceOne(choices: seq<nat>, count: array<nat>, temp: array<nat>, i: nat)
    requires |choices| == temp.Length && i < |choices| && KeysBelow(choices, count.Length) && count != temp
    requires Counted(choices, count[..], i + 1) && Filled(choices, temp[..], i + 1, count.Length)
    modifies count, temp
    ensures Counted(choices, count[..], i) && Filled(choices, temp[..], i, count.Length)
  {
    var c := choices[i];
    PlacedSlot(choices, i, count.Length);
    ghost var cBefore := count[..];
    count[c] := count[c] - 1;
    CountedStep(choices, cBefore, count[..], i);
    ghost var before := temp[..];
    temp[count[c]] := i;
    FilledStep(choices, before, temp[..], i, count.Length);
  }

  /** Position i is entry j of its group, where j counts the earlier
      positions with the same key, and that slot lies inside the table. */
  lemma PlacedSlot(key: seq<nat>, i: nat, k: nat)
    requires i < |key| && KeysBelow(key, k)
    ensures |Preimages(key, key[i], i + 1)| == |Preimages(key, key[i], i)| + 1
    ensures |Preimages(key, key[i], i)| < |Preimages(key, key[i], |key|)|
    ensures Preimages(key, key[i], |key|)[|Preimages(key, key[i], i)|] == i
    ensures Slot(key, key[i], |Preimages(key, key[i], i)|) < |key|
  {
    var c, j := key[i], |Preimages(key, key[i], i)|;
    PreimagesPrefix(key, c, i + 1, |key|);
    assert Preimages(key, c, i + 1) == Preimages(key, c, i) + [i];
    assert Preimages(key, c, |key|)[j] == Preimages(key, c, i + 1)[j];
    BucketedIndex(key, k, |key|, c, j);
    BucketedLength(key, k, |key|);
    CountSumAll(key, |key|, k);
  }

  /** Decrementing count[key[i]] moves the counts from i + 1 to i. */
  lemma CountedStep(key: seq<nat>, before: seq<nat>, after: seq<nat>, i: nat)
    requires i < |key| && key[i] < |before|
    requires Counted(key, before, i + 1)
    requires |Preimages(key, key[i], i + 1)| == |Preimages(key, key[i], i)| + 1
    requires after == before[key[i] := before[key[i]] - 1]
    ensures Counted(key, after, i)
  {
    forall y | 0 <= y < |after|
      ensures after[y] == Slot(key, y, |Preimages(key, y, i)|)
    {
      PreimagesNext(key, y, i);
    }
  }

  /** Writing i into its slot moves every group's filled tail from i + 1
      to i. */
  lemma FilledStep(key: seq<nat>, before: seq<nat>, after: seq<nat>, i: nat, k: nat)
    requires i < |key| && |before| == |key|
    requires Filled(key, before, i + 1, k)
    requires |Preimages(key, key[i], i + 1)| == |Preimages(key, key[i], i)| + 1
    requires |Preimages(key, key[i], i)| < |Preimages(key, key[i], |key|)|
    requires Preimages(key, key[i], |key|)[|Preimages(key, key[i], i)|] == i
    requires Slot(key, key[i], |Preimages(key, key[i], i)|) < |key|
    requires after == before[Slot(key, key[i], |Preimages(key, key[i], i)|) := i]
    ensures Filled(key, after, i, k)
  {
    var c, j := key[i], |Preimages(key, key[i], i)|;
    forall y | 0 <= y < k
      ensures FilledGroup(key, after, y, i)
    {
      assert FilledGroup(key, before, y, i + 1);
      PreimagesNext(key, y, i);
      if y == c {
        GroupOwn(key, c, j, before, after);
      } else {
        GroupOther(key, c, j, y, |Preimages(key, y, i)|, before, after);
      }
    }
  }

  /** Writing entry j of group c into its slot extends its filled tail. */
  lemma GroupOwn(key: seq<nat>, c: nat, j: nat, before: seq<nat>, after: seq<nat>)
    requires |before| == |key| && j < |Preimages(key, c, |key|)|
    requires Slot(key, c, j) < |key|
    requires after == before[Slot(key, c, j) := Preimages(key, c, |key|)[j]]
    requires GroupTail(key, before, c, j + 1)
    ensures GroupTail(key, after, c, j)
  {
  }

  /** ... and leaves the slots of every other group alone. */
  lemma GroupOther(key: seq<nat>, c: nat, j: nat, y: nat, from: nat, before: seq<nat>, after: seq<nat>)
    requires |before| == |key| && y != c && j < |Preimages(key, c, |key|)|
    requires Slot(key, c, j) < |key|
    requires |after| == |key| && forall p :: 0 <= p < |key| && p != Slot(key, c, j) ==> after[p] == before[p]
    requires GroupTail(key, before, y, from)
    ensures GroupTail(key, after, y, from)
  {
    forall q | from <= q < |Preimages(key, y, |key|)|
      ensures Slot(key, y, q) != Slot(key, c, j)
    {
      if y < c {
        SlotsOrdered(key, y, q, c, j);
      } else {
        SlotsOrdered(key, c, j, y, q);
      }
    }
  }

  /** Every slot of a group lies below every slot of a later group. */
  lemma SlotsOrdered(key: seq<nat>, y: nat, q: nat, c: nat, j: nat)
    requires y < c && q < |Preimages(key, y, |key|)|
    ensures Slot(key, y, q) < Slot(key, c, j)
  {
    CountSumMono(key, |key|, y + 1, c);
  }

  /** Every group filled from entry 0 on means the table is Bucketed. */
  lemma PlacedIsBucketed(key: seq<nat>, order: seq<nat>, k: nat)
    requires |order| == |key| && KeysBelow(key, k)
    requires Filled(key, order, 0, k)
    ensures order == Bucketed(key, k, |key|)
  {
    CountSumAll(key, |key|, k);
    BucketedLength(key, k, |key|);
    forall p | 0 <= p < |key|
      ensures order[p] == Bucketed(key, k, |key|)[p]
    {
      PlacedEntry(key, order, k, p);
    }
  }

  /** ... one slot at a time. */
  lemma PlacedEntry(key: seq<nat>, order: seq<nat>, k: nat, p: nat)
    requires |order| == |key| && KeysBelow(key, k) && p < |key|
    requires Filled(key, order, 0, k)
    ensures p < |Bucketed(key, k, |key|)| && order[p] == Bucketed(key, k, |key|)[p]
  {
    CountSumAll(key, |key|, k);
    var y, j := SlotGroup(key, k, |key|, p);
    BucketedIndex(key, k, |key|, y, j);
    assert FilledGroup(key, order, y, 0);
  }
}
