/**
 * The preimage relation of the two S-boxes, and the tables the solvers
 * build from it before searching.
 *
 * Preimages(s, y, n) is the specification: the x < n with s[x] == y, in
 * ascending order.  The C `precompute` fills `inv_low[y][0..inv_low_count[y])`
 * with exactly that list in one ascending pass (counts are u8, so a value with
 * 256 preimages gets count 0), then inverts the diffusion matrix and tabulates
 * which even bytes can be paired with some odd byte for each target position.
 */
module Preimage {
  import opened Bits
  import opened Gf2
  import opened Wrappers
  import opened Network
  import GaussJordan

  /** The x < n with s[x] == y, ascending. */
  function Preimages(s: seq<nat>, y: nat, n: nat): (p: seq<nat>)
    requires n <= |s|
    ensures |p| <= n
    decreases n
  {
    if n == 0 then [] else Preimages(s, y, n - 1) + (if s[n - 1] == y then [n - 1] else [])
  }

  /** Every entry of the list is a preimage of y below n. */
  lemma {:induction false} PreimagesSound(s: seq<nat>, y: nat, n: nat)
    requires n <= |s|
    ensures forall i :: 0 <= i < |Preimages(s, y, n)| ==> Preimages(s, y, n)[i] < n && s[Preimages(s, y, n)[i]] == y
    decreases n
  {
    if n > 0 {
      PreimagesSound(s, y, n - 1);
    }
  }

  /** All preimages of y under the table s, ascending. */
  function PreimageList(s: seq<nat>, y: nat): (p: seq<nat>)
    ensures |p| <= |s|
    ensures forall i :: 0 <= i < |p| ==> p[i] < |s| && s[p[i]] == y
  {
    PreimagesSound(s, y, |s|);
    Preimages(s, y, |s|)
  }

  /** Every x below n that maps to y is in the list. */
  lemma {:induction false} PreimagesComplete(s: seq<nat>, y: nat, n: nat, x: nat)
    requires n <= |s| && x < n && s[x] == y
    ensures x in Preimages(s, y, n)
    decreases n
  {
    if x < n - 1 {
      PreimagesComplete(s, y, n - 1, x);
    }
  }

  /** The list is strictly ascending, so it holds every preimage once. */
  lemma {:induction false} PreimagesAscending(s: seq<nat>, y: nat, n: nat)
    requires n <= |s|
    ensures forall i, j :: 0 <= i < j < |Preimages(s, y, n)| ==> Preimages(s, y, n)[i] < Preimages(s, y, n)[j]
    decreases n
  {
    if n > 0 {
      PreimagesAscending(s, y, n - 1);
      PreimagesSound(s, y, n - 1);
    }
  }

  /** Membership in both directions. */
  lemma PreimagesMember(s: seq<nat>, y: nat, n: nat, x: nat)
    requires n <= |s|
    ensures x in Preimages(s, y, n) <==> x < n && s[x] == y
  {
    PreimagesSound(s, y, n);
    if x < n && s[x] == y {
      PreimagesComplete(s, y, n, x);
    }
  }

  /** The list is empty exactly when nothing maps to y. */
  lemma PreimageListEmpty(s: seq<nat>, y: nat)
    ensures |PreimageList(s, y)| == 0 <==> forall x :: 0 <= x < |s| ==> s[x] != y
  {
    var p := PreimageList(s, y);
    if |p| > 0 {
      assert s[p[0]] == y;
    }
    forall x | 0 <= x < |s| && s[x] == y
      ensures |p| > 0
    {
      PreimagesComplete(s, y, |s|, x);
    }
  }

  /** The sum of the preimage counts of the values below k. */
  function CountSum(s: seq<nat>, n: nat, k: nat): nat
    requires n <= |s|
  {
    if k == 0 then 0 else CountSum(s, n, k - 1) + |Preimages(s, k - 1, n)|
  }

  lemma {:induction false} CountSumStep(s: seq<nat>, n: nat, k: nat)
    requires n < |s|
    ensures CountSum(s, n + 1, k) == CountSum(s, n, k) + (if s[n] < k then 1 else 0)
    decreases k
  {
    if k > 0 {
      CountSumStep(s, n, k - 1);
      assert |Preimages(s, k - 1, n + 1)| == |Preimages(s, k - 1, n)| + (if s[n] == k - 1 then 1 else 0);
    }
  }

  lemma {:induction false} CountSumEmpty(s: seq<nat>, k: nat)
    ensures CountSum(s, 0, k) == 0
  {
    if k > 0 {
      CountSumEmpty(s, k - 1);
    }
  }

  /** Every x lands in exactly one list: the counts of a byte table add up to
      its length. */
  lemma {:induction false} PreimageCountsSum(s: seq<nat>, n: nat)
    requires IsSBox(s) && n <= 256
    ensures CountSum(s, n, 256) == n
    decreases n
  {
    if n > 0 {
      PreimageCountsSum(s, n - 1);
      CountSumStep(s, n - 1, 256);
      assert s[n - 1] < 256;
    } else {
      CountSumEmpty(s, 256);
    }
  }

  /** A row of `inv_low`: the preimage list padded with zeros to 256 (a
      table has at most 256 entries, so nothing is ever cut off). */
  function PreimageRow(s: seq<nat>, y: nat): (row: seq<nat>)
    ensures |row| == 256
  {
    var p := PreimageList(s, y);
    if |p| <= 256 then p + seq(256 - |p|, _ => 0) else p[..256]
  }

  // ---------------------------------------------------------------------
  // The ascending pass

  /** The first x bytes of s have been entered into inv and count. */
  predicate Filled(s: seq<nat>, inv: array2<nat>, count: array<nat>, x: nat)
    requires IsSBox(s) && x <= 256
    reads inv, count
  {
    inv.Length0 == 256 && inv.Length1 == 256 && count.Length == 256 &&
    (forall y :: 0 <= y < 256 ==> count[y] == |Preimages(s, y, x)| % 256) &&
    (forall y, i :: 0 <= y < 256 && 0 <= i < |Preimages(s, y, x)| ==> inv[y, i] == Preimages(s, y, x)[i])
  }

  /** One step of the pass: `inv[y][count[y]++] = x` with y = s[x]. */
  method AddPreimage(s: seq<nat>, inv: array2<nat>, count: array<nat>, x: nat)
    requires IsSBox(s) && x < 256 && Filled(s, inv, count, x)
    modifies inv, count
    ensures Filled(s, inv, count, x + 1)
    ensures forall y, i :: 0 <= y < 256 && |Preimages(s, y, x + 1)| <= i < 256 ==> inv[y, i] == old(inv[y, i])
  {
    var y := s[x];
    ghost var here := Preimages(s, y, x);
    assert count[y] == |here|;
    inv[y, count[y]] := x;
    // the u8 counter: it can only wrap on the increment for x == 255
    count[y] := (count[y] + 1) % 256;
    forall z | 0 <= z < 256
      ensures count[z] == |Preimages(s, z, x + 1)| % 256
    {
      PreimagesNext(s, z, x);
    }
    forall z, i | 0 <= z < 256 && 0 <= i < |Preimages(s, z, x + 1)|
      ensures inv[z, i] == Preimages(s, z, x + 1)[i]
    {
      PreimagesNext(s, z, x);
      if z == y && i == |here| {
        assert inv[z, i] == x;
      } else {
        assert inv[z, i] == old(inv[z, i]) && i < |Preimages(s, z, x)|;
      }
    }
  }

  /** The list below x + 1 extends the list below x by x itself when x is
      a preimage. */
  lemma PreimagesNext(s: seq<nat>, y: nat, x: nat)
    requires x < |s|
    ensures Preimages(s, y, x + 1) == Preimages(s, y, x) + (if s[x] == y then [x] else [])
  {
  }

  /**
   * `for x: y = s[x]; inv[y][count[y]++] = x`, after zeroing the counts.
   * Row y of inv starts with the preimages of y, and count[y] is their
   * number modulo 256.  Entries of inv past the preimages are left alone.
   */
  method FillPreimages(s: seq<nat>, inv: array2<nat>, count: array<nat>)
    requires IsSBox(s) && inv.Length0 == 256 && inv.Length1 == 256 && count.Length == 256
    modifies inv, count
    ensures forall y :: 0 <= y < 256 ==> count[y] == |PreimageList(s, y)| % 256
    ensures forall y, i :: 0 <= y < 256 && 0 <= i < |PreimageList(s, y)| ==> inv[y, i] == PreimageList(s, y)[i]
    ensures forall y, i :: 0 <= y < 256 && |PreimageList(s, y)| <= i < 256 ==> inv[y, i] == old(inv[y, i])
  {
    for b := 0 to 256
      invariant forall y :: 0 <= y < b ==> count[y] == 0
      invariant forall y, i :: 0 <= y < 256 && 0 <= i < 256 ==> inv[y, i] == old(inv[y, i])
    {
      count[b] := 0;
    }
    for x := 0 to 256
      invariant Filled(s, inv, count, x)
      invariant forall y, i :: 0 <= y < 256 && |Preimages(s, y, x)| <= i < 256 ==> inv[y, i] == old(inv[y, i])
    {
      AddPreimage(s, inv, count, x);
    }
  }

  /** A 256x256 table as a sequence of rows. */
  method Snapshot(t: array2<nat>) returns (rows: seq<seq<nat>>)
    requires t.Length0 == 256 && t.Length1 == 256
    ensures |rows| == 256
    ensures forall y :: 0 <= y < 256 ==> |rows[y]| == 256 && forall i :: 0 <= i < 256 ==> rows[y][i] == t[y, i]
  {
    rows := [];
    for y := 0 to 256
      invariant |rows| == y
      invariant forall z :: 0 <= z < y ==> |rows[z]| == 256 && forall i :: 0 <= i < 256 ==> rows[z][i] == t[z, i]
    {
      var row := seq(256, i requires 0 <= i < 256 reads t => t[y, i]);
      rows := rows + [row];
    }
  }

  /** `inv` and `count` are the preimage rows and their u8 counts for s. */
  predicate InverseTable(inv: seq<seq<nat>>, count: seq<nat>, s: seq<nat>) {
    |inv| == 256 && |count| == 256 &&
    (forall y :: 0 <= y < 256 ==> inv[y] == PreimageRow(s, y)) &&
    (forall y :: 0 <= y < 256 ==> count[y] == |PreimageList(s, y)| % 256)
  }

  /** The tables of a freshly zeroed `inv_low`, `inv_low_count` pair. */
  method PreimageTable(s: seq<nat>) returns (inv: seq<seq<nat>>, count: seq<nat>)
    requires IsSBox(s)
    ensures InverseTable(inv, count, s)
  {
    var t := new nat[256, 256]((_, _) => 0);
    var c := new nat[256];
    FillPreimages(s, t, c);
    inv := Snapshot(t);
    count := c[..];
    forall y | 0 <= y < 256
      ensures inv[y] == PreimageRow(s, y)
    {
      assert forall i :: 0 <= i < 256 ==> inv[y][i] == PreimageRow(s, y)[i];
    }
  }

  // ---------------------------------------------------------------------
  // precompute

  /** The crack-me's target: "Hire me!!!!!!!!" with its terminating NUL. */
  const TARGET: seq<nat> := [0x48, 0x69, 0x72, 0x65, 0x20, 0x6d, 0x65, 0x21,
                             0x21, 0x21, 0x21, 0x21, 0x21, 0x21, 0x21, 0x00]

  predicate IsTarget(target: seq<nat>) {
    IsTable(target, 16)
  }

  /** Everything the searches read after precompute, as immutable values. */
  datatype Tables = Tables(
    invLow: seq<seq<nat>>, invLowCount: seq<nat>,
    invHigh: seq<seq<nat>>, invHighCount: seq<nat>,
    invM: seq<nat>,
    oddOf: seq<seq<nat>>, isPossible: seq<seq<nat>>)

  /** The even byte ev can be completed at position pos: S_high has a
      preimage of S_low[ev] ^ target[pos] and its u8 count did not wrap. */
  predicate Pairable(conf: seq<nat>, target: seq<nat>, pos: nat, ev: nat)
    requires IsConfusion(conf) && IsTarget(target) && pos < 16 && ev < 256
  {
    0 < |PreimageList(SHigh(conf), Xor(conf[ev], target[pos]))| < 256
  }

  /** What precompute leaves behind, stated against the preimage relation
      and the diffusion matrix. */
  predicate ValidTables(t: Tables, conf: seq<nat>, m: seq<nat>, target: seq<nat>)
    requires IsConfusion(conf) && IsMatrix(m) && IsTarget(target)
  {
    InverseTable(t.invLow, t.invLowCount, SLow(conf)) &&
    InverseTable(t.invHigh, t.invHighCount, SHigh(conf)) &&
    IsMatrix(t.invM) && IsInverse(t.invM, m) &&
    |t.oddOf| == 16 && |t.isPossible| == 16 &&
    forall pos :: 0 <= pos < 16 ==> PairRowOk(conf, target, pos, t.oddOf[pos], t.isPossible[pos])
  }

  /** One entry of the pairing tables: possible is 1 exactly for a pairable
      ev, and odd is then the smallest S_high preimage, else 0. */
  predicate PairEntry(conf: seq<nat>, target: seq<nat>, pos: nat, ev: nat, odd: nat, possible: nat)
    requires IsConfusion(conf) && IsTarget(target) && pos < 16 && ev < 256
  {
    (possible == 1 <==> Pairable(conf, target, pos, ev)) &&
    (possible == 0 <==> !Pairable(conf, target, pos, ev)) &&
    (Pairable(conf, target, pos, ev) ==> odd == PreimageList(SHigh(conf), Xor(conf[ev], target[pos]))[0]) &&
    (!Pairable(conf, target, pos, ev) ==> odd == 0)
  }

  /** A whole row of the pairing tables. */
  predicate PairRowOk(conf: seq<nat>, target: seq<nat>, pos: nat, odd: seq<nat>, possible: seq<nat>)
    requires IsConfusion(conf) && IsTarget(target) && pos < 16
  {
    |odd| == 256 && |possible| == 256 &&
    forall ev :: 0 <= ev < 256 ==> PairEntry(conf, target, pos, ev, odd[ev], possible[ev])
  }

  /** Looking up one value in the tables: its count is nonzero exactly when
      it has between 1 and 255 preimages, and the row then starts with the
      smallest one. */
  lemma TableLookup(inv: seq<seq<nat>>, count: seq<nat>, s: seq<nat>, y: nat)
    requires IsSBox(s) && InverseTable(inv, count, s) && y < 256
    ensures count[y] > 0 <==> 0 < |PreimageList(s, y)| < 256
    ensures 0 < |PreimageList(s, y)| ==> inv[y][0] == PreimageList(s, y)[0]
  {
    var p := PreimageList(s, y);
    assert count[y] == |p| % 256;
    assert |p| <= 256;
    if |p| == 256 {
      assert count[y] == 0;
    } else {
      assert count[y] == |p|;
    }
    PreimageRowHead(s, y);
  }

  /** Entry i of row y, below the row's count, is a preimage of y. */
  lemma TableEntryMapsBack(inv: seq<seq<nat>>, count: seq<nat>, s: seq<nat>, y: nat, i: nat)
    requires IsSBox(s) && InverseTable(inv, count, s) && y < 256 && i < count[y]
    ensures inv[y][i] < 256 && s[inv[y][i]] == y
  {
    assert count[y] == |PreimageList(s, y)| % 256;
    RowEntryIsPreimage(s, y, i);
  }

  /** Entry i of row y, below the row's count, is the i-th smallest
      preimage of y. */
  lemma TableEntry(inv: seq<seq<nat>>, count: seq<nat>, s: seq<nat>, y: nat, i: nat)
    requires InverseTable(inv, count, s) && y < 256 && i < count[y]
    ensures i < |PreimageList(s, y)| && inv[y][i] == PreimageList(s, y)[i]
  {
    var p := PreimageList(s, y);
    assert count[y] == |p| % 256;
    assert inv[y] == PreimageRow(s, y);
    if |p| <= 256 {
      assert (p + seq(256 - |p|, _ => 0))[i] == p[i];
    }
  }

  /** A row starts with the smallest preimage when there is one. */
  lemma PreimageRowHead(s: seq<nat>, y: nat)
    ensures 0 < |PreimageList(s, y)| ==> PreimageRow(s, y)[0] == PreimageList(s, y)[0]
  {
    var p := PreimageList(s, y);
    if 0 < |p| <= 256 {
      assert (p + seq(256 - |p|, _ => 0))[0] == p[0];
    }
  }

  /** One entry of the pairing tables from the preimage tables:
      `need = Slo[ev] ^ target[pos]`; `inv_high_count[need] > 0` decides,
      and `inv_high[need][0]` is the partner. */
  method PairLookup(conf: seq<nat>, target: seq<nat>, invHigh: seq<seq<nat>>, invHighCount: seq<nat>,
                    pos: nat, ev: nat) returns (odd: nat, possible: nat)
    requires IsConfusion(conf) && IsTarget(target) && pos < 16 && ev < 256
    requires InverseTable(invHigh, invHighCount, SHigh(conf))
    ensures PairEntry(conf, target, pos, ev, odd, possible)
  {
    XorByte(conf[ev], target[pos]);
    var need := Xor(conf[ev], target[pos]);
    TableLookup(invHigh, invHighCount, SHigh(conf), need);
    if invHighCount[need] > 0 {
      odd, possible := invHigh[need][0], 1;
    } else {
      odd, possible := 0, 0;
    }
  }

  /** The pairing row of one target position. */
  method PairRow(conf: seq<nat>, target: seq<nat>, invHigh: seq<seq<nat>>, invHighCount: seq<nat>, pos: nat)
    returns (odd: seq<nat>, possible: seq<nat>)
    requires IsConfusion(conf) && IsTarget(target) && pos < 16
    requires InverseTable(invHigh, invHighCount, SHigh(conf))
    ensures PairRowOk(conf, target, pos, odd, possible)
  {
    odd, possible := [], [];
    for ev := 0 to 256
      invariant |odd| == ev && |possible| == ev
      invariant forall e :: 0 <= e < ev ==> PairEntry(conf, target, pos, e, odd[e], possible[e])
    {
      var o, p := PairLookup(conf, target, invHigh, invHighCount, pos, ev);
      var odd', possible' := odd + [o], possible + [p];
      forall e | 0 <= e <= ev
        ensures PairEntry(conf, target, pos, e, odd'[e], possible'[e])
      {
        if e < ev {
          assert odd'[e] == odd[e] && possible'[e] == possible[e];
        }
      }
      odd, possible := odd', possible';
    }
  }

  /**
   * precompute: both preimage tables, the inverse of the diffusion matrix,
   * and the pairing tables.  The C routine exits when the matrix is
   * singular; that outcome is None here.
   */
  method Precompute(conf: seq<nat>, m: seq<nat>, target: seq<nat>) returns (t: Option<Tables>)
    requires IsConfusion(conf) && IsMatrix(m) && IsTarget(target)
    ensures t.None? <==> Singular(m)
    ensures t.Some? ==> ValidTables(t.value, conf, m, target)
  {
    var invLow, invLowCount := PreimageTable(SLow(conf));
    var invHigh, invHighCount := PreimageTable(SHigh(conf));
    var invM := GaussJordan.InvertPacked(m);
    if invM.None? {
      return None;
    }
    var oddOf: seq<seq<nat>> := [];
    var isPossible: seq<seq<nat>> := [];
    for pos := 0 to 16
      invariant |oddOf| == pos && |isPossible| == pos
      invariant forall p :: 0 <= p < pos ==> PairRowOk(conf, target, p, oddOf[p], isPossible[p])
    {
      var odd, possible := PairRow(conf, target, invHigh, invHighCount, pos);
      oddOf := oddOf + [odd];
      isPossible := isPossible + [possible];
    }
    t := Some(Tables(invLow, invLowCount, invHigh, invHighCount, invM.value, oddOf, isPossible));
  }

  /** What the pairing tables are for: a possible even byte and its
      recorded odd partner produce the target byte. */
  lemma PairingMeetsTarget(t: Tables, conf: seq<nat>, m: seq<nat>, target: seq<nat>, pos: nat, ev: nat)
    requires IsConfusion(conf) && IsMatrix(m) && IsTarget(target) && ValidTables(t, conf, m, target)
    requires pos < 16 && ev < 256 && t.isPossible[pos][ev] == 1
    ensures t.oddOf[pos][ev] < 256
    ensures Xor(conf[ev], conf[t.oddOf[pos][ev] + 256]) == target[pos]
  {
    var need := Xor(conf[ev], target[pos]);
    var odd := t.oddOf[pos][ev];
    assert SHigh(conf)[odd] == need;
    XorAssoc(conf[ev], conf[ev], target[pos]);
    XorSelf(conf[ev]);
    XorComm(0, target[pos]);
    XorZero(target[pos]);
  }

  /** And conversely: an even byte that some odd byte completes is marked
      possible, unless every one of the 256 odd bytes completes it. */
  lemma PossibleWhenPartnerExists(t: Tables, conf: seq<nat>, m: seq<nat>, target: seq<nat>, pos: nat, ev: nat, odd: nat)
    requires IsConfusion(conf) && IsMatrix(m) && IsTarget(target) && ValidTables(t, conf, m, target)
    requires pos < 16 && ev < 256 && odd < 256 && Xor(conf[ev], conf[odd + 256]) == target[pos]
    requires |PreimageList(SHigh(conf), Xor(conf[ev], target[pos]))| < 256
    ensures t.isPossible[pos][ev] == 1
  {
    XorAssoc(conf[ev], conf[ev], conf[odd + 256]);
    XorSelf(conf[ev]);
    XorComm(0, conf[odd + 256]);
    XorZero(conf[odd + 256]);
    PreimagesComplete(SHigh(conf), Xor(conf[ev], target[pos]), 256, odd);
  }

  /** A row entry below the count is a genuine preimage. */
  lemma RowEntryIsPreimage(s: seq<nat>, y: nat, i: nat)
    requires IsSBox(s) && i < |PreimageList(s, y)|
    ensures PreimageRow(s, y)[i] < 256 && s[PreimageRow(s, y)[i]] == y
  {
  }
}
