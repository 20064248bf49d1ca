/**
 * The first solver's view of the S-boxes: a single-valued "last writer
 * wins" inverse of each half of the confusion table, and the list of
 * S_low outputs that have more than one preimage.
 */
module InverseConfusion {
  import opened Bits
  import opened Network
  import opened Preimage

  /** The value `for x: inv[s[x]] = x` leaves in inv[y], starting from 0:
      the largest preimage of y, or 0 when y has none. */
  function LastPreimage(s: seq<nat>, y: nat): nat {
    var p := PreimageList(s, y);
    if |p| == 0 then 0 else p[|p| - 1]
  }

  /** LastPreimage is the largest preimage, and 0 exactly stands for "none"
      when y is missing. */
  lemma LastPreimageIsLargest(s: seq<nat>, y: nat)
    ensures (exists x :: 0 <= x < |s| && s[x] == y) ==>
      LastPreimage(s, y) < |s| && s[LastPreimage(s, y)] == y &&
      forall x :: 0 <= x < |s| && s[x] == y ==> x <= LastPreimage(s, y)
    ensures (forall x :: 0 <= x < |s| ==> s[x] != y) ==> LastPreimage(s, y) == 0
  {
    var p := PreimageList(s, y);
    PreimagesAscending(s, y, |s|);
    forall x | 0 <= x < |s| && s[x] == y
      ensures x in p && x <= p[|p| - 1]
    {
      PreimagesComplete(s, y, |s|, x);
      var i :| 0 <= i < |p| && p[i] == x;
      if i < |p| - 1 {
        assert p[i] < p[|p| - 1];
      }
    }
  }

  /** The whole table `for x: inv[s[x]] = x` leaves behind. */
  function LastWriterTable(s: seq<nat>): (t: seq<nat>)
    requires IsSBox(s)
    ensures IsSBox(t) && forall y :: 0 <= y < 256 ==> t[y] == LastPreimage(s, y)
  {
    seq(256, y requires 0 <= y < 256 => LastPreimage(s, y))
  }

  /** `memset(inv, 0); for x: inv[s[x]] = x` over one 256-entry half. */
  method InvertHalf(s: seq<nat>, inv: array<nat>)
    requires IsSBox(s) && inv.Length == 256
    modifies inv
    ensures forall y :: 0 <= y < 256 ==> inv[y] == LastPreimage(s, y)
  {
    for y := 0 to 256
      invariant forall z :: 0 <= z < y ==> inv[z] == 0
    {
      inv[y] := 0;
    }
    for x := 0 to 256
      invariant forall y :: 0 <= y < 256 ==>
        inv[y] == (var p := Preimages(s, y, x); if |p| == 0 then 0 else p[|p| - 1])
    {
      inv[s[x]] := x;
    }
  }

  /** The values v < k that occur more than once in s, ascending. */
  function Duplicated(s: seq<nat>, k: nat): (d: seq<nat>)
    ensures |d| <= k
    ensures forall i :: 0 <= i < |d| ==> d[i] < k && |PreimageList(s, d[i])| > 1
  {
    if k == 0 then []
    else Duplicated(s, k - 1) + (if |PreimageList(s, k - 1)| > 1 then [k - 1] else [])
  }

  /** The values v < k that do not occur in s, ascending. */
  function Missing(s: seq<nat>, k: nat): (d: seq<nat>)
    ensures forall i :: 0 <= i < |d| ==> d[i] < k && |PreimageList(s, d[i])| == 0
  {
    if k == 0 then []
    else Missing(s, k - 1) + (if |PreimageList(s, k - 1)| == 0 then [k - 1] else [])
  }

  /** The repeated outputs of a table. */
  function DuplicateList(s: seq<nat>): seq<nat> {
    Duplicated(s, |s|)
  }

  /** The outputs a table never produces. */
  function MissingList(s: seq<nat>): seq<nat> {
    Missing(s, |s|)
  }

  lemma {:induction false} DuplicatedComplete(s: seq<nat>, k: nat, v: nat)
    requires v < k && |PreimageList(s, v)| > 1
    ensures v in Duplicated(s, k)
  {
    if v < k - 1 {
      DuplicatedComplete(s, k - 1, v);
    }
  }

  lemma {:induction false} MissingComplete(s: seq<nat>, k: nat, v: nat)
    requires v < k && |PreimageList(s, v)| == 0
    ensures v in Missing(s, k)
  {
    if v < k - 1 {
      MissingComplete(s, k - 1, v);
    }
  }

  lemma {:induction false} DuplicatedAscending(s: seq<nat>, k: nat)
    ensures forall i, j :: 0 <= i < j < |Duplicated(s, k)| ==> Duplicated(s, k)[i] < Duplicated(s, k)[j]
  {
    if k > 0 {
      DuplicatedAscending(s, k - 1);
    }
  }

  /** More than one preimage means two different positions with the same
      value. */
  lemma TwoPreimages(s: seq<nat>, v: nat)
    ensures |PreimageList(s, v)| > 1 <==>
      exists x1, x2 :: 0 <= x1 < x2 < |s| && s[x1] == v && s[x2] == v
  {
    var p := PreimageList(s, v);
    PreimagesAscending(s, v, |s|);
    if |p| > 1 {
      assert 0 <= p[0] < p[1] < |s| && s[p[0]] == v && s[p[1]] == v;
    }
    if x1, x2 :| 0 <= x1 < x2 < |s| && s[x1] == v && s[x2] == v {
      PreimagesComplete(s, v, |s|, x1);
      PreimagesComplete(s, v, |s|, x2);
    }
  }

  /** `duplicates[]` lists exactly the repeated S-box outputs. */
  lemma DuplicatedMember(s: seq<nat>, v: nat)
    requires IsSBox(s)
    ensures v in DuplicateList(s) <==>
      v < 256 && exists x1, x2 :: 0 <= x1 < x2 < 256 && s[x1] == v && s[x2] == v
  {
    TwoPreimages(s, v);
    if v < 256 && |PreimageList(s, v)| > 1 {
      DuplicatedComplete(s, |s|, v);
    }
  }

  /** The missing values are exactly those outside the image. */
  lemma MissingMember(s: seq<nat>, v: nat)
    requires IsSBox(s)
    ensures v in MissingList(s) <==> v < 256 && forall x :: 0 <= x < 256 ==> s[x] != v
  {
    var p := PreimageList(s, v);
    if v < 256 && |p| == 0 {
      MissingComplete(s, |s|, v);
    }
    if |p| > 0 {
      assert s[p[0]] == v;
    }
    if exists x :: 0 <= x < 256 && s[x] == v {
      var x :| 0 <= x < 256 && s[x] == v;
      PreimagesComplete(s, v, 256, x);
    }
  }

  /** `count[s[x]]++` over the whole table, from zero. */
  method CountOccurrences(s: seq<nat>) returns (count: seq<nat>)
    requires IsSBox(s)
    ensures |count| == 256
    ensures forall y :: 0 <= y < 256 ==> count[y] == |PreimageList(s, y)|
  {
    var c := new nat[256](_ => 0);
    for x := 0 to 256
      invariant forall y :: 0 <= y < 256 ==> c[y] == |Preimages(s, y, x)|
    {
      c[s[x]] := c[s[x]] + 1;
    }
    count := c[..];
  }

  /** The values v < k counted more than once, ascending. */
  function CountedTwice(count: seq<nat>, k: nat): seq<nat>
    requires k <= |count|
  {
    if k == 0 then [] else CountedTwice(count, k - 1) + (if count[k - 1] > 1 then [k - 1] else [])
  }

  /** The number of values v < k counted zero times. */
  function CountedNever(count: seq<nat>, k: nat): nat
    requires k <= |count|
  {
    if k == 0 then 0 else CountedNever(count, k - 1) + (if count[k - 1] == 0 then 1 else 0)
  }

  /** Over the counts of a table's outputs, the values counted more than
      once are its duplicates and those counted zero times its missing
      values. */
  lemma {:induction false} CountsMeaning(s: seq<nat>, count: seq<nat>, k: nat)
    requires |count| == 256 && k <= 256
    requires forall y :: 0 <= y < 256 ==> count[y] == |PreimageList(s, y)|
    ensures CountedTwice(count, k) == Duplicated(s, k)
    ensures CountedNever(count, k) == |Missing(s, k)|
  {
    if k > 0 {
      CountsMeaning(s, count, k - 1);
      assert count[k - 1] == |PreimageList(s, k - 1)|;
    }
  }

  /** The ascending scan of the counts: the values counted more than once
      are stored from index 0 of `duplicates`, and the values counted zero
      times are counted. */
  method ScanCounts(count: seq<nat>, duplicates: array<nat>) returns (numDuplicates: nat, missing: nat)
    requires |count| == 256 && duplicates.Length == 256
    modifies duplicates
    ensures numDuplicates <= 256 && duplicates[..numDuplicates] == CountedTwice(count, 256)
    ensures missing == CountedNever(count, 256)
  {
    numDuplicates, missing := 0, 0;
    for value := 0 to 256
      invariant numDuplicates <= value
      invariant duplicates[..numDuplicates] == CountedTwice(count, value)
      invariant missing == CountedNever(count, value)
    {
      if count[value] > 1 {
        duplicates[numDuplicates] := value;
        numDuplicates := numDuplicates + 1;
      }
      if count[value] == 0 {
        missing := missing + 1;
      }
    }
  }

  /** What find_and_print_duplicates computes besides its printing: the
      global duplicates list of S_low, and the numbers of missing values of
      S_low and of duplicated and missing values of S_high. */
  method FindDuplicates(conf: seq<nat>, duplicates: array<nat>)
    returns (numDuplicates: nat, missingLow: nat, duplicatesHigh: nat, missingHigh: nat)
    requires IsConfusion(conf) && duplicates.Length == 256
    modifies duplicates
    ensures numDuplicates <= 256 && duplicates[..numDuplicates] == DuplicateList(SLow(conf))
    ensures missingLow == |MissingList(SLow(conf))|
    ensures duplicatesHigh == |DuplicateList(SHigh(conf))|
    ensures missingHigh == |MissingList(SHigh(conf))|
  {
    var count1 := CountOccurrences(SLow(conf));
    CountsMeaning(SLow(conf), count1, 256);
    numDuplicates, missingLow := ScanCounts(count1, duplicates);
    var count2 := CountOccurrences(SHigh(conf));
    CountsMeaning(SHigh(conf), count2, 256);
    var scratch := new nat[256];
    duplicatesHigh, missingHigh := ScanCounts(count2, scratch);
  }

  /**
   * create_inverse_confusion: the duplicate scan, then both single-valued
   * inverses.  Returns num_duplicates.
   */
  method CreateInverseConfusion(conf: seq<nat>, inv1: array<nat>, inv2: array<nat>, duplicates: array<nat>)
    returns (numDuplicates: nat)
    requires IsConfusion(conf) && inv1.Length == 256 && inv2.Length == 256 && duplicates.Length == 256
    requires inv1 != inv2 && inv1 != duplicates && inv2 != duplicates
    modifies inv1, inv2, duplicates
    ensures numDuplicates <= 256 && duplicates[..numDuplicates] == DuplicateList(SLow(conf))
    ensures forall y :: 0 <= y < 256 ==> inv1[y] == LastPreimage(SLow(conf), y)
    ensures forall y :: 0 <= y < 256 ==> inv2[y] == LastPreimage(SHigh(conf), y)
  {
    var missingLow, duplicatesHigh, missingHigh;
    numDuplicates, missingLow, duplicatesHigh, missingHigh := FindDuplicates(conf, duplicates);
    InvertHalf(SLow(conf), inv1);
    InvertHalf(SHigh(conf), inv2);
  }

  /** Whether some byte of c equals one of the first numDuplicates entries
      of duplicates. */
  predicate HasDuplicate(c: seq<nat>, duplicates: seq<nat>, numDuplicates: nat)
    requires |c| == 32 && numDuplicates <= |duplicates|
  {
    exists i, j :: 0 <= i < 32 && 0 <= j < numDuplicates && c[i] == duplicates[j]
  }

  /** contains_duplicate_confusion_value: checks every pair (i, j) without
      stopping early, returning 1 if any matched. */
  method ContainsDuplicate(c: seq<nat>, duplicates: seq<nat>, numDuplicates: nat) returns (foundAny: int)
    requires |c| == 32 && numDuplicates <= |duplicates|
    ensures foundAny == 0 || foundAny == 1
    ensures foundAny == 1 <==> HasDuplicate(c, duplicates, numDuplicates)
  {
    foundAny := 0;
    for i := 0 to 32
      invariant foundAny == 0 || foundAny == 1
      invariant foundAny == 1 <==> exists i', j :: 0 <= i' < i && 0 <= j < numDuplicates && c[i'] == duplicates[j]
    {
      for j := 0 to numDuplicates
        invariant foundAny == 0 || foundAny == 1
        invariant foundAny == 1 <==>
          (exists i', j' :: 0 <= i' < i && 0 <= j' < numDuplicates && c[i'] == duplicates[j']) ||
          (exists j' :: 0 <= j' < j && c[i] == duplicates[j'])
      {
        if c[i] == duplicates[j] {
          foundAny := 1;
        }
      }
    }
  }

  /** With the list built by the scan, the check reports exactly the states
      holding a byte that S_low produces from two different inputs. */
  lemma ContainsDuplicateMeaning(conf: seq<nat>, c: seq<nat>, duplicates: seq<nat>, numDuplicates: nat)
    requires IsConfusion(conf) && |c| == 32
    requires numDuplicates <= |duplicates| && duplicates[..numDuplicates] == DuplicateList(SLow(conf))
    ensures HasDuplicate(c, duplicates, numDuplicates) <==>
      exists i :: 0 <= i < 32 && |PreimageList(SLow(conf), c[i])| > 1
  {
    if HasDuplicate(c, duplicates, numDuplicates) {
      var i, j :| 0 <= i < 32 && 0 <= j < numDuplicates && c[i] == duplicates[j];
      ListedIsDuplicate(conf, duplicates, numDuplicates, j);
    }
    if i :| 0 <= i < 32 && |PreimageList(SLow(conf), c[i])| > 1 {
      DuplicateIsListed(conf, c, duplicates, numDuplicates, i);
    }
  }

  /** Every listed value has two preimages. */
  lemma ListedIsDuplicate(conf: seq<nat>, duplicates: seq<nat>, numDuplicates: nat, j: nat)
    requires IsConfusion(conf)
    requires numDuplicates <= |duplicates| && duplicates[..numDuplicates] == DuplicateList(SLow(conf)) && j < numDuplicates
    ensures |PreimageList(SLow(conf), duplicates[j])| > 1
  {
    assert DuplicateList(SLow(conf))[j] == duplicates[j];
  }

  /** A state byte with two preimages is in the list. */
  lemma DuplicateIsListed(conf: seq<nat>, c: seq<nat>, duplicates: seq<nat>, numDuplicates: nat, i: nat)
    requires IsConfusion(conf) && |c| == 32 && i < 32 && |PreimageList(SLow(conf), c[i])| > 1
    requires numDuplicates <= |duplicates| && duplicates[..numDuplicates] == DuplicateList(SLow(conf))
    ensures HasDuplicate(c, duplicates, numDuplicates)
  {
    var d := DuplicateList(SLow(conf));
    assert c[i] < 256 by {
      assert PreimageList(SLow(conf), c[i])[0] < 256;
    }
    DuplicatedComplete(SLow(conf), |SLow(conf)|, c[i]);
    var j :| 0 <= j < |d| && d[j] == c[i];
    assert duplicates[j] == d[j];
  }
}
