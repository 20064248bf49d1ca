/**
 * The two-round CNF + XOR model of minimal_sat.cpp.  The driver declares
 * 32 plaintext bytes as literals, pushes them through an S-box layer, a
 * diffusion layer and a second S-box layer, pins the second diffusion
 * layer to a known ciphertext with unit clauses, asks the solver for a
 * model, reads the plaintext back and re-encrypts it.
 *
 * Every clause list is tied to a closed-form description of what the loops
 * append, and `TwoRoundSound` states what any model of the whole list
 * means: its plaintext bytes encrypt to the ciphertext in two rounds.
 */
module MinimalSat {
  import opened Bits
  import opened Gf2
  import opened Network
  import opened Wrappers
  import opened SatEncoding

  // ---------------------------------------------------------------------
  // Groups of byte literals

  /** n bytes of eight fresh variables each, from variable base on. */
  function ByteGroups(n: nat, base: nat): (r: seq<seq<Lit>>)
    ensures |r| == n && ByteLits(r)
  {
    seq(n, i requires 0 <= i => Fresh(base + 8 * i, 8))
  }

  /** `for (auto& byte : x) for (auto& bit : byte) bit = new_lit(S);` */
  method NewBytes(s: Solver, n: nat) returns (g: seq<seq<Lit>>)
    modifies s
    ensures g == ByteGroups(n, old(s.nVars))
    ensures s.nVars == old(s.nVars) + 8 * n
    ensures s.clauses == old(s.clauses) && s.xors == old(s.xors)
  {
    g := [];
    for i := 0 to n
      invariant g == ByteGroups(i, old(s.nVars)) && s.nVars == old(s.nVars) + 8 * i
      invariant s.clauses == old(s.clauses) && s.xors == old(s.xors)
    {
      var byte := NewLits(s, 8);
      g := g + [byte];
    }
  }

  /** The bytes a model assigns to the literal groups, read as the driver
      reads the plaintext: `byte |= 1u << b` for each true bit. */
  method ReadBytes(a: Assignment, g: seq<seq<Lit>>) returns (bytes: seq<nat>)
    requires ByteLits(g)
    ensures bytes == Values(a, g)
    ensures forall j :: 0 <= j < |bytes| ==> bytes[j] < 256
  {
    bytes := [];
    for j := 0 to |g|
      invariant bytes == Values(a, g)[..j]
    {
      var byte := 0;
      for b := 0 to 8
        invariant byte == ValueUpTo(a, g[j], b)
      {
        if Val(a, g[j][b]) {
          byte := Or(byte, Pow2(b));
        }
      }
      bytes := bytes + [byte];
    }
    ValuesBelow(a, g);
  }

  // ---------------------------------------------------------------------
  // A layer of S-boxes

  /** Variables one encode_sbox_byte call allocates. */
  function SboxWidth(conf: seq<nat>): nat {
    2 * |conf| + 7
  }

  /** The first variable of the k-th block of w variables from base on. */
  function Offset(base: nat, k: nat, w: nat): nat {
    if k == 0 then base else Offset(base, k - 1, w) + w
  }

  /** The clauses the loop `for k: encode_sbox_byte(S, ins[k], outs[k], ...)` appends. */
  function SboxLayerClauses(ins: seq<seq<Lit>>, conf: seq<nat>, base: nat): seq<seq<Lit>>
    requires ByteLits(ins) && |conf| >= 2
    decreases |ins|
  {
    if |ins| == 0 then []
    else
      var n := |ins| - 1;
      assert ByteLits(ins[..n]);
      SboxLayerClauses(ins[..n], conf, base) + SboxClauses(ins[n], conf, Offset(base, n, SboxWidth(conf)))
  }

  /** The output literals of that loop's k-th call. */
  function SboxLayerOutputs(n: nat, conf: seq<nat>, base: nat): (r: seq<seq<Lit>>)
    requires |conf| >= 2
    ensures |r| == n && ByteLits(r)
  {
    seq(n, k requires 0 <= k => SboxOutputs(conf, Offset(base, k, SboxWidth(conf))))
  }

  lemma AppendAssoc<T>(x: seq<T>, y: seq<T>, z: seq<T>)
    ensures x + y + z == x + (y + z)
  {
  }

  lemma SboxLayerSnoc(ins: seq<seq<Lit>>, k: nat, conf: seq<nat>, base: nat)
    requires ByteLits(ins) && |conf| >= 2 && k < |ins|
    ensures SboxLayerClauses(ins[..k + 1], conf, base)
         == SboxLayerClauses(ins[..k], conf, base) + SboxClauses(ins[k], conf, Offset(base, k, SboxWidth(conf)))
  {
    assert ins[..k + 1][..k] == ins[..k];
  }

  lemma SboxOutputsSnoc(n: nat, conf: seq<nat>, base: nat)
    requires |conf| >= 2
    ensures SboxLayerOutputs(n + 1, conf, base)
         == SboxLayerOutputs(n, conf, base) + [SboxOutputs(conf, Offset(base, n, SboxWidth(conf)))]
  {
  }

  method SboxLayer(s: Solver, ins: seq<seq<Lit>>, conf: seq<nat>) returns (outs: seq<seq<Lit>>)
    requires ByteLits(ins) && |conf| >= 2
    modifies s
    ensures outs == SboxLayerOutputs(|ins|, conf, old(s.nVars))
    ensures s.clauses == old(s.clauses) + SboxLayerClauses(ins, conf, old(s.nVars))
    ensures s.nVars == Offset(old(s.nVars), |ins|, SboxWidth(conf)) && s.xors == old(s.xors)
  {
    ghost var base := s.nVars;
    outs := [];
    for k := 0 to |ins|
      invariant outs == SboxLayerOutputs(k, conf, base)
      invariant s.clauses == old(s.clauses) + SboxLayerClauses(ins[..k], conf, base)
      invariant s.nVars == Offset(base, k, SboxWidth(conf)) && s.xors == old(s.xors)
    {
      var o := EncodeSboxByte(s, ins[k], conf);
      SboxLayerSnoc(ins, k, conf, base);
      SboxOutputsSnoc(k, conf, base);
      AppendAssoc(old(s.clauses), SboxLayerClauses(ins[..k], conf, base),
        SboxClauses(ins[k], conf, Offset(base, k, SboxWidth(conf))));
      outs := outs + [o];
    }
    assert ins[..|ins|] == ins;
  }

  /** Each output group spells the table entry its input group selects. */
  predicate SboxApplied(a: Assignment, ins: seq<seq<Lit>>, outs: seq<seq<Lit>>, conf: seq<nat>) {
    && |ins| == |outs|
    && forall k :: 0 <= k < |ins| ==>
         ValueOf(a, ins[k]) < |conf| && ValueOf(a, outs[k]) == conf[ValueOf(a, ins[k])]
  }

  lemma {:induction false} SboxLayerSound(a: Assignment, ins: seq<seq<Lit>>, conf: seq<nat>, base: nat)
    requires ByteLits(ins) && 2 <= |conf| <= 256 && ByteTable(conf)
    requires SatAll(a, SboxLayerClauses(ins, conf, base))
    ensures SboxApplied(a, ins, SboxLayerOutputs(|ins|, conf, base), conf)
    decreases |ins|
  {
    var n := |ins|;
    if n > 0 {
      SboxLayerParts(a, ins, conf, base);
      SboxLayerSound(a, ins[..n - 1], conf, base);
      SboxSound(a, ins[n - 1], conf, Offset(base, n - 1, SboxWidth(conf)));
      SboxAppliedSnoc(a, ins, conf, base);
    }
  }

  /** A model of a layer's clauses satisfies those of its last byte and of the rest. */
  lemma {:induction false} SboxLayerParts(a: Assignment, ins: seq<seq<Lit>>, conf: seq<nat>, base: nat)
    requires ByteLits(ins) && |ins| > 0 && |conf| >= 2
    requires SatAll(a, SboxLayerClauses(ins, conf, base))
    ensures SatAll(a, SboxLayerClauses(ins[..|ins| - 1], conf, base))
    ensures SatAll(a, SboxClauses(ins[|ins| - 1], conf, Offset(base, |ins| - 1, SboxWidth(conf))))
  {
    var n := |ins|;
    SatAllAppend(a, SboxLayerClauses(ins[..n - 1], conf, base),
      SboxClauses(ins[n - 1], conf, Offset(base, n - 1, SboxWidth(conf))));
  }

  lemma {:induction false} SboxAppliedSnoc(a: Assignment, ins: seq<seq<Lit>>, conf: seq<nat>, base: nat)
    requires ByteLits(ins) && |ins| > 0 && |conf| >= 2
    requires SboxApplied(a, ins[..|ins| - 1], SboxLayerOutputs(|ins| - 1, conf, base), conf)
    requires ValueOf(a, ins[|ins| - 1]) < |conf|
    requires ValueOf(a, SboxOutputs(conf, Offset(base, |ins| - 1, SboxWidth(conf))))
          == conf[ValueOf(a, ins[|ins| - 1])]
    ensures SboxApplied(a, ins, SboxLayerOutputs(|ins|, conf, base), conf)
  {
    var n := |ins|;
    var outs := SboxLayerOutputs(n, conf, base);
    forall k | 0 <= k < n
      ensures ValueOf(a, ins[k]) < |conf| && ValueOf(a, outs[k]) == conf[ValueOf(a, ins[k])]
    {
      if k < n - 1 {
        assert ins[..n - 1][k] == ins[k];
        assert SboxLayerOutputs(n - 1, conf, base)[k] == outs[k];
      }
    }
  }

  /** A layer of 32 S-boxes is the substitution step of a round. */
  lemma SboxLayerSub(a: Assignment, ins: seq<seq<Lit>>, outs: seq<seq<Lit>>, conf: seq<nat>)
    requires IsSBox(conf) && |ins| == 32 && SboxApplied(a, ins, outs, conf)
    ensures IsState(Values(a, ins)) && Values(a, outs) == Sub(conf, Values(a, ins))
  {
  }

  // ---------------------------------------------------------------------
  // A layer of diffusion rows

  /** The XOR constraints the loop `for i: xor_row(S, inb, m, i, outs[i])` appends. */
  function XorLayerClauses(inb: seq<seq<Lit>>, m: seq<nat>, base: nat): seq<XorClause>
    requires ByteLits(inb)
    decreases |m|
  {
    if |m| == 0 then []
    else
      var n := |m| - 1;
      XorLayerClauses(inb, m[..n], base) + XorRowClauses(inb, m[n], Fresh(base + 8 * n, 8))
  }

  /** Every row mask selects among the `width` inputs only. */
  predicate RowsFit(m: seq<nat>, width: nat) {
    forall i :: 0 <= i < |m| ==> m[i] < Pow2(width)
  }

  method XorLayer(s: Solver, inb: seq<seq<Lit>>, m: seq<nat>) returns (outs: seq<seq<Lit>>)
    requires ByteLits(inb) && RowsFit(m, |inb|)
    modifies s
    ensures outs == ByteGroups(|m|, old(s.nVars))
    ensures s.xors == old(s.xors) + XorLayerClauses(inb, m, old(s.nVars))
    ensures s.nVars == old(s.nVars) + 8 * |m| && s.clauses == old(s.clauses)
  {
    ghost var base := s.nVars;
    outs := [];
    for i := 0 to |m|
      invariant outs == ByteGroups(i, base)
      invariant s.xors == old(s.xors) + XorLayerClauses(inb, m[..i], base)
      invariant s.nVars == base + 8 * i && s.clauses == old(s.clauses)
    {
      var o := XorRow(s, inb, m, i);
      assert m[..i + 1][..i] == m[..i];
      outs := outs + [o];
    }
    assert m[..|m|] == m;
  }

  /** In every model of a diffusion layer the outputs spell m times the inputs. */
  lemma {:induction false} XorLayerSound(a: Assignment, inb: seq<seq<Lit>>, m: seq<nat>, base: nat)
    requires ByteLits(inb) && SatAllXor(a, XorLayerClauses(inb, m, base))
    ensures Values(a, ByteGroups(|m|, base)) == Mul(m, Values(a, inb))
    decreases |m|
  {
    var n := |m|;
    if n > 0 {
      var front := m[..n - 1];
      SatAllXorAppend(a, XorLayerClauses(inb, front, base), XorRowClauses(inb, m[n - 1], Fresh(base + 8 * (n - 1), 8)));
      XorLayerSound(a, inb, front, base);
      XorRowSound(a, inb, m[n - 1], Fresh(base + 8 * (n - 1), 8));
      forall i | 0 <= i < n
        ensures Values(a, ByteGroups(n, base))[i] == Mul(m, Values(a, inb))[i]
      {
        if i < n - 1 {
          assert Values(a, ByteGroups(n - 1, base))[i] == Mul(front, Values(a, inb))[i];
        }
      }
    }
  }

  // ---------------------------------------------------------------------
  // The last diffusion layer, pinned to the ciphertext

  /** `add_clause({bit ? tmp[b] : ~tmp[b]})` for the eight bits of c. */
  function UnitClauses(bits: seq<Lit>, c: nat): (cs: seq<seq<Lit>>)
    requires |bits| == 8
    ensures |cs| == 8
  {
    seq(8, b requires 0 <= b < 8 => [Phase(bits[b], Bit(c, b))])
  }

  /** The unit clauses for ciphertext bytes c, row i's outputs being the
      eight variables from base + 8i on. */
  function UnitLayer(c: seq<nat>, base: nat): seq<seq<Lit>>
    decreases |c|
  {
    if |c| == 0 then []
    else
      var n := |c| - 1;
      UnitLayer(c[..n], base) + UnitClauses(Fresh(base + 8 * n, 8), c[n])
  }

  /** The loop `for i: xor_row(S, inb, m, i, tmp); for b: add_clause(unit)`. */
  method ConstrainLayer(s: Solver, inb: seq<seq<Lit>>, m: seq<nat>, c: seq<nat>)
    requires ByteLits(inb) && RowsFit(m, |inb|) && |c| == |m|
    modifies s
    ensures s.xors == old(s.xors) + XorLayerClauses(inb, m, old(s.nVars))
    ensures s.clauses == old(s.clauses) + UnitLayer(c, old(s.nVars))
    ensures s.nVars == old(s.nVars) + 8 * |m|
  {
    ghost var base := s.nVars;
    for i := 0 to |m|
      invariant s.xors == old(s.xors) + XorLayerClauses(inb, m[..i], base)
      invariant s.clauses == old(s.clauses) + UnitLayer(c[..i], base)
      invariant s.nVars == base + 8 * i
    {
      var tmp := XorRow(s, inb, m, i);
      AddUnits(s, tmp, c[i]);
      LayersSnoc(inb, m, c, i, base);
    }
    assert m[..|m|] == m;
    assert c[..|c|] == c;
  }

  /** The inner loop: one unit clause per bit of v, fixing tmp[b] to bit b. */
  method AddUnits(s: Solver, tmp: seq<Lit>, v: nat)
    requires |tmp| == 8
    modifies s
    ensures s.clauses == old(s.clauses) + UnitClauses(tmp, v)
    ensures s.nVars == old(s.nVars) && s.xors == old(s.xors)
  {
    for b := 0 to 8
      invariant s.clauses == old(s.clauses) + UnitClauses(tmp, v)[..b]
      invariant s.nVars == old(s.nVars) && s.xors == old(s.xors)
    {
      var bit := Shr(v, b) % 2 == 1;
      s.AddClause([if bit then tmp[b] else Neg(tmp[b])]);
      assert UnitClauses(tmp, v)[..b + 1] == UnitClauses(tmp, v)[..b] + [[Phase(tmp[b], Bit(v, b))]];
    }
    assert UnitClauses(tmp, v)[..8] == UnitClauses(tmp, v);
  }

  /** Row i's constraints extend both layers by one row. */
  lemma LayersSnoc(inb: seq<seq<Lit>>, m: seq<nat>, c: seq<nat>, i: nat, base: nat)
    requires ByteLits(inb) && i < |m| == |c|
    ensures XorLayerClauses(inb, m[..i + 1], base)
         == XorLayerClauses(inb, m[..i], base) + XorRowClauses(inb, m[i], Fresh(base + 8 * i, 8))
    ensures UnitLayer(c[..i + 1], base) == UnitLayer(c[..i], base) + UnitClauses(Fresh(base + 8 * i, 8), c[i])
  {
    assert m[..i + 1][..i] == m[..i];
    assert c[..i + 1][..i] == c[..i];
  }

  /** The unit clauses pin each output group to its ciphertext byte. */
  lemma {:induction false} UnitLayerSound(a: Assignment, c: seq<nat>, base: nat)
    requires forall i :: 0 <= i < |c| ==> c[i] < 256
    requires SatAll(a, UnitLayer(c, base))
    ensures Values(a, ByteGroups(|c|, base)) == c
    decreases |c|
  {
    var n := |c|;
    if n > 0 {
      var bits := Fresh(base + 8 * (n - 1), 8);
      SatAllAppend(a, UnitLayer(c[..n - 1], base), UnitClauses(bits, c[n - 1]));
      UnitLayerSound(a, c[..n - 1], base);
      forall b | 0 <= b < 8 ensures Val(a, bits[b]) == Bit(c[n - 1], b) {
        SatAt(a, UnitClauses(bits, c[n - 1]), b);
        var u := [Phase(bits[b], Bit(c[n - 1], b))];
        assert SatClause(a, u);
        var j :| 0 <= j < |u| && Val(a, u[j]);
      }
      ValueIs(a, bits, c[n - 1]);
      forall i | 0 <= i < n ensures Values(a, ByteGroups(n, base))[i] == c[i] {
        if i < n - 1 {
          assert Values(a, ByteGroups(n - 1, base))[i] == c[..n - 1][i];
        }
      }
    }
  }

  // ---------------------------------------------------------------------
  // The whole two-round model

  /** Where each part of the model starts: the plaintext bits, the first
      S-box layer, the first diffusion outputs, the second S-box layer and
      the pinned diffusion outputs. */
  datatype Layout = Layout(plain: nat, sbox1: nat, diff1: nat, sbox2: nat, diff2: nat)

  /** Every plain clause of the two-round model, in the order the driver adds them. */
  function TwoRoundClauses(conf: seq<nat>, m: seq<nat>, c2: seq<nat>, l: Layout): seq<seq<Lit>>
    requires |conf| >= 2
  {
    var n := |m|;
    SboxLayerClauses(ByteGroups(n, l.plain), conf, l.sbox1)
      + SboxLayerClauses(ByteGroups(n, l.diff1), conf, l.sbox2)
      + UnitLayer(c2, l.diff2)
  }

  /** Every XOR constraint of the two-round model, in order. */
  function TwoRoundXors(conf: seq<nat>, m: seq<nat>, l: Layout): seq<XorClause>
    requires |conf| >= 2
  {
    var n := |m|;
    XorLayerClauses(SboxLayerOutputs(n, conf, l.sbox1), m, l.diff1)
      + XorLayerClauses(SboxLayerOutputs(n, conf, l.sbox2), m, l.diff2)
  }

  /** y is x after one round. */
  predicate OneRound(conf: seq<nat>, m: seq<nat>, x: seq<nat>, y: seq<nat>)
    requires IsSBox(conf) && |m| == 32
  {
    IsState(x) && y == Round(conf, m, x)
  }

  /** x encrypts to c in two rounds. */
  predicate EncryptsTo(conf: seq<nat>, m: seq<nat>, x: seq<nat>, c: seq<nat>)
    requires IsSBox(conf) && |m| == 32
  {
    IsState(x) && Round(conf, m, Round(conf, m, x)) == c
  }

  /** One round of the model, an S-box layer on the input groups then a
      diffusion layer: in every model the outputs spell the inputs after
      one round. */
  lemma {:induction false} LayerRoundSound(a: Assignment, conf: seq<nat>, m: seq<nat>, ins: seq<seq<Lit>>, sbase: nat, dbase: nat)
    requires IsSBox(conf) && |m| == 32 && |ins| == 32 && ByteLits(ins)
    requires SatAll(a, SboxLayerClauses(ins, conf, sbase))
    requires SatAllXor(a, XorLayerClauses(SboxLayerOutputs(|ins|, conf, sbase), m, dbase))
    ensures OneRound(conf, m, Values(a, ins), Values(a, ByteGroups(|m|, dbase)))
  {
    var d := SboxLayerOutputs(|ins|, conf, sbase);
    SboxLayerSound(a, ins, conf, sbase);
    SboxLayerSub(a, ins, d, conf);
    XorLayerSound(a, d, m, dbase);
  }

  lemma ChainRounds(conf: seq<nat>, m: seq<nat>, x: seq<nat>, y: seq<nat>, c: seq<nat>)
    requires IsSBox(conf) && |m| == 32
    requires OneRound(conf, m, x, y) && OneRound(conf, m, y, c)
    ensures EncryptsTo(conf, m, x, c)
  {
  }

  /**
   * What any model of the two-round clauses means: the plaintext bytes it
   * assigns encrypt, in two rounds, to the pinned ciphertext.
   */
  lemma TwoRoundSound(a: Assignment, conf: seq<nat>, m: seq<nat>, c2: seq<nat>, l: Layout)
    requires IsSBox(conf) && |m| == 32 && IsState(c2)
    requires Models(a, TwoRoundClauses(conf, m, c2, l), TwoRoundXors(conf, m, l))
    ensures EncryptsTo(conf, m, Values(a, ByteGroups(|m|, l.plain)), c2)
  {
    var n := |m|;
    var y := ByteGroups(n, l.diff1);
    TwoRoundParts(a, conf, m, c2, l);
    LayerRoundSound(a, conf, m, ByteGroups(n, l.plain), l.sbox1, l.diff1);
    LayerRoundSound(a, conf, m, y, l.sbox2, l.diff2);
    UnitLayerSound(a, c2, l.diff2);
    ChainRounds(conf, m, Values(a, ByteGroups(n, l.plain)), Values(a, y), c2);
  }

  /** A model of the two-round clauses satisfies each layer's part. */
  lemma {:induction false} TwoRoundParts(a: Assignment, conf: seq<nat>, m: seq<nat>, c2: seq<nat>, l: Layout)
    requires |conf| >= 2
    requires Models(a, TwoRoundClauses(conf, m, c2, l), TwoRoundXors(conf, m, l))
    ensures SatAll(a, SboxLayerClauses(ByteGroups(|m|, l.plain), conf, l.sbox1))
    ensures SatAll(a, SboxLayerClauses(ByteGroups(|m|, l.diff1), conf, l.sbox2))
    ensures SatAll(a, UnitLayer(c2, l.diff2))
    ensures SatAllXor(a, XorLayerClauses(SboxLayerOutputs(|m|, conf, l.sbox1), m, l.diff1))
    ensures SatAllXor(a, XorLayerClauses(SboxLayerOutputs(|m|, conf, l.sbox2), m, l.diff2))
  {
    SatAllThree(a, SboxLayerClauses(ByteGroups(|m|, l.plain), conf, l.sbox1),
      SboxLayerClauses(ByteGroups(|m|, l.diff1), conf, l.sbox2), UnitLayer(c2, l.diff2));
    SatAllXorAppend(a, XorLayerClauses(SboxLayerOutputs(|m|, conf, l.sbox1), m, l.diff1),
      XorLayerClauses(SboxLayerOutputs(|m|, conf, l.sbox2), m, l.diff2));
  }

  // ---------------------------------------------------------------------
  // Completeness: every plaintext that encrypts to c2 gives a model

  /** Block k starts k blocks of w after base. */
  lemma {:induction false} OffsetIs(base: nat, k: nat, w: nat)
    ensures Offset(base, k, w) == base + k * w
    decreases k
  {
    if k > 0 {
      OffsetIs(base, k - 1, w);
      assert (k - 1) * w + w == k * w;
    }
  }

  lemma {:induction false} OffsetMono(base: nat, k: nat, j: nat, w: nat)
    requires k < j
    ensures base <= Offset(base, k, w) && Offset(base, k, w) + w <= Offset(base, j, w)
    decreases j
  {
    if k < j - 1 {
      OffsetMono(base, k, j - 1, w);
    } else if k > 0 {
      OffsetMono(base, 0, k, w);
    }
  }

  /** The witness of an S-box layer whose k-th input byte is vals[k]: the
      variables of the k-th encode_sbox_byte call hold SboxWitness of vals[k]. */
  function SboxLayerBit(conf: seq<nat>, vals: seq<nat>, base: nat, n: nat, v: nat): bool
    requires n <= |vals| && forall k :: 0 <= k < |vals| ==> vals[k] < |conf|
    decreases n
  {
    if n == 0 then false
    else
      var first := Offset(base, n - 1, SboxWidth(conf));
      if first <= v < first + SboxWidth(conf) then SboxWitness(conf, vals[n - 1], v - first)
      else SboxLayerBit(conf, vals, base, n - 1, v)
  }

  lemma {:induction false} SboxLayerBitAt(conf: seq<nat>, vals: seq<nat>, base: nat, n: nat, k: nat, o: nat)
    requires n <= |vals| && forall k :: 0 <= k < |vals| ==> vals[k] < |conf|
    requires k < n && o < SboxWidth(conf)
    ensures SboxLayerBit(conf, vals, base, n, Offset(base, k, SboxWidth(conf)) + o) == SboxWitness(conf, vals[k], o)
    decreases n
  {
    if k < n - 1 {
      OffsetMono(base, k, n - 1, SboxWidth(conf));
      SboxLayerBitAt(conf, vals, base, n - 1, k, o);
    }
  }

  /** The k-th S-box of the layer has its input byte in the table and its
      variables set to that byte's witness. */
  predicate BlockSet(a: Assignment, ins: seq<seq<Lit>>, conf: seq<nat>, base: nat, k: nat)
    requires k < |ins|
  {
    SboxByteSet(a, ins[k], conf, Offset(base, k, SboxWidth(conf)))
  }

  /** Every S-box of the layer is set. */
  predicate SboxBlocksSet(a: Assignment, ins: seq<seq<Lit>>, conf: seq<nat>, base: nat) {
    forall k :: 0 <= k < |ins| ==> BlockSet(a, ins, conf, base, k)
  }

  /** Completeness of a layer of S-boxes, block by block. */
  lemma {:induction false} SboxLayerHolds(a: Assignment, ins: seq<seq<Lit>>, conf: seq<nat>, base: nat)
    requires ByteLits(ins) && |conf| >= 2 && SboxBlocksSet(a, ins, conf, base)
    ensures SatAll(a, SboxLayerClauses(ins, conf, base))
    decreases |ins|
  {
    var n := |ins|;
    if n > 0 {
      var front := ins[..n - 1];
      forall k | 0 <= k < n - 1 ensures BlockSet(a, front, conf, base, k) {
        assert front[k] == ins[k];
        assert BlockSet(a, ins, conf, base, k);
      }
      SboxLayerHolds(a, front, conf, base);
      assert BlockSet(a, ins, conf, base, n - 1);
      SboxHolds(a, ins[n - 1], conf, Offset(base, n - 1, SboxWidth(conf)));
      SatAllConcat(a, SboxLayerClauses(ins, conf, base), SboxLayerClauses(front, conf, base),
        SboxClauses(ins[n - 1], conf, Offset(base, n - 1, SboxWidth(conf))));
    }
  }

  /** The layer witness puts the witness of vals[k] on the k-th S-box's variables. */
  lemma {:induction false} SboxBlockFromLayer(a: Assignment, conf: seq<nat>, vals: seq<nat>, base: nat, k: nat)
    requires |conf| >= 2 && k < |vals| && forall j :: 0 <= j < |vals| ==> vals[j] < |conf|
    requires forall v :: base <= v < Offset(base, |vals|, SboxWidth(conf)) ==>
               a(v) == SboxLayerBit(conf, vals, base, |vals|, v)
    ensures SboxSet(a, conf, vals[k], Offset(base, k, SboxWidth(conf)))
  {
    var w := SboxWidth(conf);
    forall o | 0 <= o < w ensures a(Offset(base, k, w) + o) == SboxWitness(conf, vals[k], o) {
      OffsetMono(base, k, |vals|, w);
      SboxLayerBitAt(conf, vals, base, |vals|, k, o);
    }
  }

  /**
   * Completeness of a layer of S-boxes: when every input byte is in the
   * table and the layer's variables hold the layer witness, every clause
   * holds and each output group spells the table entry of its input.
   */
  lemma {:induction false} SboxLayerComplete(a: Assignment, ins: seq<seq<Lit>>, conf: seq<nat>, base: nat)
    requires ByteLits(ins) && |conf| >= 2 && ByteTable(conf)
    requires forall k :: 0 <= k < |ins| ==> Values(a, ins)[k] < |conf|
    requires forall v :: base <= v < Offset(base, |ins|, SboxWidth(conf)) ==>
               a(v) == SboxLayerBit(conf, Values(a, ins), base, |ins|, v)
    ensures SatAll(a, SboxLayerClauses(ins, conf, base))
    ensures SboxApplied(a, ins, SboxLayerOutputs(|ins|, conf, base), conf)
  {
    var n, w, vals := |ins|, SboxWidth(conf), Values(a, ins);
    var outs := SboxLayerOutputs(n, conf, base);
    forall k | 0 <= k < n
      ensures BlockSet(a, ins, conf, base, k)
    {
      assert vals[k] == ValueOf(a, ins[k]);
      SboxBlockFromLayer(a, conf, vals, base, k);
    }
    SboxLayerHolds(a, ins, conf, base);
    forall k | 0 <= k < n
      ensures ValueOf(a, ins[k]) < |conf| && ValueOf(a, outs[k]) == conf[ValueOf(a, ins[k])]
    {
      assert BlockSet(a, ins, conf, base, k);
      SboxOutputsValue(a, conf, ValueOf(a, ins[k]), Offset(base, k, w));
    }
  }

  /** Completeness of a diffusion layer: when the output groups spell m
      times the input bytes, every XOR constraint holds. */
  lemma {:induction false} XorLayerHolds(a: Assignment, inb: seq<seq<Lit>>, m: seq<nat>, base: nat)
    requires ByteLits(inb) && Values(a, ByteGroups(|m|, base)) == Mul(m, Values(a, inb))
    ensures SatAllXor(a, XorLayerClauses(inb, m, base))
    decreases |m|
  {
    var n := |m|;
    if n > 0 {
      var front := m[..n - 1];
      var outb := Fresh(base + 8 * (n - 1), 8);
      forall i | 0 <= i < n - 1
        ensures Values(a, ByteGroups(n - 1, base))[i] == Mul(front, Values(a, inb))[i]
      {
        assert Values(a, ByteGroups(n, base))[i] == Mul(m, Values(a, inb))[i];
      }
      XorLayerHolds(a, inb, front, base);
      assert Values(a, ByteGroups(n, base))[n - 1] == Mul(m, Values(a, inb))[n - 1];
      XorRowHolds(a, inb, m[n - 1], outb);
      SatAllXorJoin(a, XorLayerClauses(inb, m, base), XorLayerClauses(inb, front, base),
        XorRowClauses(inb, m[n - 1], outb));
    }
  }

  /** Completeness of the unit clauses: output groups spelling c satisfy them. */
  lemma {:induction false} UnitLayerHolds(a: Assignment, c: seq<nat>, base: nat)
    requires Values(a, ByteGroups(|c|, base)) == c
    ensures SatAll(a, UnitLayer(c, base))
    decreases |c|
  {
    var n := |c|;
    if n > 0 {
      var bits := Fresh(base + 8 * (n - 1), 8);
      var front, last := c[..n - 1], c[n - 1];
      var before := Values(a, ByteGroups(n - 1, base));
      forall i | 0 <= i < n - 1 ensures before[i] == front[i] {
        assert Values(a, ByteGroups(n, base))[i] == c[i];
      }
      UnitLayerHolds(a, front, base);
      assert Values(a, ByteGroups(n, base))[n - 1] == last;
      var units := UnitClauses(bits, last);
      forall b | 0 <= b < 8 ensures SatClause(a, units[b]) {
        BitValueUpTo(a, bits, 8, b);
        assert Val(a, units[b][0]);
      }
      SatAllConcat(a, UnitLayer(c, base), UnitLayer(front, base), units);
    }
  }

  /** Bit b of byte i of vals at variable base + 8i + b; false elsewhere. */
  function ByteBit(vals: seq<nat>, base: nat, v: nat): bool {
    if base <= v < base + 8 * |vals| then Bit(vals[(v - base) / 8], (v - base) % 8) else false
  }

  /** Groups whose variables hold ByteBit of a list of bytes spell those bytes. */
  lemma ByteBitValues(a: Assignment, vals: seq<nat>, base: nat)
    requires forall i :: 0 <= i < |vals| ==> vals[i] < 256
    requires forall v :: base <= v < base + 8 * |vals| ==> a(v) == ByteBit(vals, base, v)
    ensures Values(a, ByteGroups(|vals|, base)) == vals
  {
    forall i | 0 <= i < |vals| ensures Values(a, ByteGroups(|vals|, base))[i] == vals[i] {
      var g := Fresh(base + 8 * i, 8);
      forall b | 0 <= b < 8 ensures Val(a, g[b]) == Bit(vals[i], b) {
        var v := base + 8 * i + b;
        assert g[b] == Pos(v);
        assert (v - base) / 8 == i && (v - base) % 8 == b;
        assert a(v) == ByteBit(vals, base, v);
      }
      ValueIs(a, g, vals[i]);
    }
  }

  /** The five parts of the model follow one another without overlap. */
  predicate InOrder(conf: seq<nat>, m: seq<nat>, l: Layout) {
    && l.plain + 8 * |m| <= l.sbox1
    && l.sbox1 + |m| * SboxWidth(conf) <= l.diff1
    && l.diff1 + 8 * |m| <= l.sbox2
    && l.sbox2 + |m| * SboxWidth(conf) <= l.diff2
  }

  /** The model completeness builds from a plaintext x: x's bits, the first
      layer's witness, the bits of round one, the second layer's witness and
      the bits of round two, each in its part of the layout. */
  function TwoRoundWitness(conf: seq<nat>, m: seq<nat>, x: seq<nat>, l: Layout): Assignment
    requires IsSBox(conf) && |m| == 32 && IsState(x)
  {
    var y := Round(conf, m, x);
    var c := Round(conf, m, y);
    (v: nat) =>
      if v < l.sbox1 then ByteBit(x, l.plain, v)
      else if v < l.diff1 then SboxLayerBit(conf, x, l.sbox1, 32, v)
      else if v < l.sbox2 then ByteBit(y, l.diff1, v)
      else if v < l.diff2 then SboxLayerBit(conf, y, l.sbox2, 32, v)
      else ByteBit(c, l.diff2, v)
  }

  /** Completeness of one round of the model, the partner of LayerRoundSound:
      the layer witness on the S-box variables and the round's output on the
      diffusion outputs satisfy both layers. */
  lemma {:induction false} LayerRoundHolds(a: Assignment, conf: seq<nat>, m: seq<nat>, ins: seq<seq<Lit>>, sbase: nat, dbase: nat)
    requires IsSBox(conf) && |m| == 32 && |ins| == 32 && ByteLits(ins) && IsState(Values(a, ins))
    requires forall v :: sbase <= v < Offset(sbase, 32, SboxWidth(conf)) ==>
               a(v) == SboxLayerBit(conf, Values(a, ins), sbase, 32, v)
    requires Values(a, ByteGroups(32, dbase)) == Round(conf, m, Values(a, ins))
    ensures SatAll(a, SboxLayerClauses(ins, conf, sbase))
    ensures SatAllXor(a, XorLayerClauses(SboxLayerOutputs(32, conf, sbase), m, dbase))
  {
    var outs := SboxLayerOutputs(32, conf, sbase);
    SboxLayerComplete(a, ins, conf, sbase);
    SboxLayerSub(a, ins, outs, conf);
    XorLayerHolds(a, outs, m, dbase);
  }

  /** The witness's plaintext, round-one and round-two groups spell x and its two rounds. */
  lemma WitnessBytes(conf: seq<nat>, m: seq<nat>, x: seq<nat>, l: Layout)
    requires IsSBox(conf) && |m| == 32 && InOrder(conf, m, l) && IsState(x)
    ensures Values(TwoRoundWitness(conf, m, x, l), ByteGroups(32, l.plain)) == x
    ensures Values(TwoRoundWitness(conf, m, x, l), ByteGroups(32, l.diff1)) == Round(conf, m, x)
    ensures Values(TwoRoundWitness(conf, m, x, l), ByteGroups(32, l.diff2)) == Round(conf, m, Round(conf, m, x))
  {
    var a := TwoRoundWitness(conf, m, x, l);
    var y := Round(conf, m, x);
    var c := Round(conf, m, y);
    OffsetMono(l.sbox1, 0, 32, SboxWidth(conf));
    OffsetMono(l.sbox2, 0, 32, SboxWidth(conf));
    OffsetIs(l.sbox1, 32, SboxWidth(conf));
    OffsetIs(l.sbox2, 32, SboxWidth(conf));
    forall v | l.plain <= v < l.plain + 8 * 32 ensures a(v) == ByteBit(x, l.plain, v) {
    }
    ByteBitValues(a, x, l.plain);
    forall v | l.diff1 <= v < l.diff1 + 8 * 32 ensures a(v) == ByteBit(y, l.diff1, v) {
    }
    ByteBitValues(a, y, l.diff1);
    forall v | l.diff2 <= v < l.diff2 + 8 * 32 ensures a(v) == ByteBit(c, l.diff2, v) {
    }
    ByteBitValues(a, c, l.diff2);
  }

  /** The witness's S-box variables hold each layer's witness. */
  lemma {:induction false} WitnessSboxes(conf: seq<nat>, m: seq<nat>, x: seq<nat>, l: Layout)
    requires IsSBox(conf) && |m| == 32 && InOrder(conf, m, l) && IsState(x)
    ensures forall v :: l.sbox1 <= v < Offset(l.sbox1, 32, SboxWidth(conf)) ==>
              TwoRoundWitness(conf, m, x, l)(v) == SboxLayerBit(conf, x, l.sbox1, 32, v)
    ensures forall v :: l.sbox2 <= v < Offset(l.sbox2, 32, SboxWidth(conf)) ==>
              TwoRoundWitness(conf, m, x, l)(v) == SboxLayerBit(conf, Round(conf, m, x), l.sbox2, 32, v)
  {
    OffsetMono(l.sbox1, 0, 32, SboxWidth(conf));
    OffsetMono(l.sbox2, 0, 32, SboxWidth(conf));
    OffsetIs(l.sbox1, 32, SboxWidth(conf));
    OffsetIs(l.sbox2, 32, SboxWidth(conf));
  }

  /**
   * Completeness of the two-round model: for every plaintext x that
   * encrypts to c2, the witness built from x is a model of every clause and
   * XOR constraint, and its plaintext bits spell x.
   */
  lemma TwoRoundComplete(conf: seq<nat>, m: seq<nat>, x: seq<nat>, c2: seq<nat>, l: Layout)
    requires IsSBox(conf) && |m| == 32 && InOrder(conf, m, l) && EncryptsTo(conf, m, x, c2)
    ensures Models(TwoRoundWitness(conf, m, x, l), TwoRoundClauses(conf, m, c2, l), TwoRoundXors(conf, m, l))
    ensures Values(TwoRoundWitness(conf, m, x, l), ByteGroups(|m|, l.plain)) == x
  {
    var a := TwoRoundWitness(conf, m, x, l);
    WitnessBytes(conf, m, x, l);
    FirstRoundHolds(conf, m, x, l);
    SecondRoundHolds(conf, m, x, l);
    UnitLayerHolds(a, c2, l.diff2);
    SatAllJoin(a, TwoRoundClauses(conf, m, c2, l), SboxLayerClauses(ByteGroups(32, l.plain), conf, l.sbox1),
      SboxLayerClauses(ByteGroups(32, l.diff1), conf, l.sbox2), UnitLayer(c2, l.diff2));
    SatAllXorJoin(a, TwoRoundXors(conf, m, l), XorLayerClauses(SboxLayerOutputs(32, conf, l.sbox1), m, l.diff1),
      XorLayerClauses(SboxLayerOutputs(32, conf, l.sbox2), m, l.diff2));
  }

  /** The witness satisfies the first round's layers. */
  lemma {:induction false} FirstRoundHolds(conf: seq<nat>, m: seq<nat>, x: seq<nat>, l: Layout)
    requires IsSBox(conf) && |m| == 32 && InOrder(conf, m, l) && IsState(x)
    ensures SatAll(TwoRoundWitness(conf, m, x, l), SboxLayerClauses(ByteGroups(32, l.plain), conf, l.sbox1))
    ensures SatAllXor(TwoRoundWitness(conf, m, x, l), XorLayerClauses(SboxLayerOutputs(32, conf, l.sbox1), m, l.diff1))
  {
    WitnessBytes(conf, m, x, l);
    WitnessSboxes(conf, m, x, l);
    LayerRoundHolds(TwoRoundWitness(conf, m, x, l), conf, m, ByteGroups(32, l.plain), l.sbox1, l.diff1);
  }

  /** The witness satisfies the second round's layers. */
  lemma {:induction false} SecondRoundHolds(conf: seq<nat>, m: seq<nat>, x: seq<nat>, l: Layout)
    requires IsSBox(conf) && |m| == 32 && InOrder(conf, m, l) && IsState(x)
    ensures SatAll(TwoRoundWitness(conf, m, x, l), SboxLayerClauses(ByteGroups(32, l.diff1), conf, l.sbox2))
    ensures SatAllXor(TwoRoundWitness(conf, m, x, l), XorLayerClauses(SboxLayerOutputs(32, conf, l.sbox2), m, l.diff2))
  {
    WitnessBytes(conf, m, x, l);
    WitnessSboxes(conf, m, x, l);
    LayerRoundHolds(TwoRoundWitness(conf, m, x, l), conf, m, ByteGroups(32, l.diff1), l.sbox2, l.diff2);
  }

  // ---------------------------------------------------------------------
  // The reference encryption and the driver

  /** `t[j] = confusion[t[j]]` for every j. */
  method SboxInPlace(conf: seq<nat>, t: array<nat>)
    requires IsSBox(conf) && t.Length == 32 && IsState(t[..])
    modifies t
    ensures t[..] == Sub(conf, old(t[..]))
  {
    for j := 0 to 32
      invariant forall q :: j <= q < 32 ==> t[q] == old(t[q])
      invariant forall q :: 0 <= q < j ==> t[q] == conf[old(t[q])]
    {
      t[j] := conf[t[j]];
    }
  }

  /** memcpy into a fresh buffer. */
  method Copy(v: seq<nat>) returns (t: array<nat>)
    ensures fresh(t) && t[..] == v
  {
    t := new nat[|v|](i requires 0 <= i < |v| => v[i]);
  }

  /** The driver's reference encryption, used both for the ciphertext and
      for the check of the recovered plaintext: two rounds of S-box in
      place, then diffusion into a zeroed buffer. */
  method TwoRounds(conf: seq<nat>, m: seq<nat>, input: seq<nat>) returns (out: seq<nat>)
    requires IsSBox(conf) && |m| == 32 && IsState(input)
    ensures out == Round(conf, m, Round(conf, m, input))
  {
    var state := Copy(input);
    SboxInPlace(conf, state);
    var c1 := new nat[32](_ => 0);
    Diffuse(m, c1, state);
    assert c1[..] == Round(conf, m, input);
    var temp2 := Copy(c1[..]);
    SboxInPlace(conf, temp2);
    var c2 := new nat[32](_ => 0);
    Diffuse(m, c2, temp2);
    out := c2[..];
  }

  /** The first half of the encoding: plaintext literals, the first S-box
      layer and the first diffusion layer with fresh outputs. */
  method EncodeFirstRound(s: Solver, conf: seq<nat>, m: seq<nat>)
    returns (x: seq<seq<Lit>>, y: seq<seq<Lit>>, ghost plain: nat, ghost sbox1: nat, ghost diff1: nat)
    requires |conf| >= 2 && RowsFit(m, |m|)
    requires s.clauses == [] && s.xors == []
    modifies s
    ensures x == ByteGroups(|m|, plain) && y == ByteGroups(|m|, diff1)
    ensures plain + 8 * |m| == sbox1 && Offset(sbox1, |m|, SboxWidth(conf)) == diff1
    ensures diff1 + 8 * |m| == s.nVars
    ensures s.clauses == SboxLayerClauses(x, conf, sbox1)
    ensures s.xors == XorLayerClauses(SboxLayerOutputs(|m|, conf, sbox1), m, diff1)
  {
    plain := s.nVars;
    x := NewBytes(s, |m|);
    sbox1 := s.nVars;
    var d0 := SboxLayer(s, x, conf);
    diff1 := s.nVars;
    y := XorLayer(s, d0, m);
    EmptyAppend(SboxLayerClauses(x, conf, sbox1));
    EmptyAppend(XorLayerClauses(d0, m, diff1));
  }

  /** The whole encoding: the first round, then the second S-box layer and
      the diffusion layer pinned to the ciphertext. */
  method EncodeTwoRounds(s: Solver, conf: seq<nat>, m: seq<nat>, c2: seq<nat>)
    returns (x: seq<seq<Lit>>, ghost l: Layout)
    requires |conf| >= 2 && RowsFit(m, |m|) && |c2| == |m|
    requires s.clauses == [] && s.xors == []
    modifies s
    ensures x == ByteGroups(|m|, l.plain) && InOrder(conf, m, l)
    ensures s.clauses == TwoRoundClauses(conf, m, c2, l)
    ensures s.xors == TwoRoundXors(conf, m, l)
  {
    var y;
    ghost var plain, sbox1, diff1;
    x, y, plain, sbox1, diff1 := EncodeFirstRound(s, conf, m);
    ghost var sbox2 := s.nVars;
    var d1 := SboxLayer(s, y, conf);
    ghost var diff2 := s.nVars;
    ConstrainLayer(s, d1, m, c2);
    l := Layout(plain, sbox1, diff1, sbox2, diff2);
    OffsetIs(sbox1, |m|, SboxWidth(conf));
    OffsetIs(sbox2, |m|, SboxWidth(conf));
  }

  lemma EmptyAppend<T>(x: seq<T>)
    ensures [] + x == x
  {
  }

  /** The rows of a 32 x 32 matrix select among 32 inputs. */
  lemma MatrixRowsFit(m: seq<nat>)
    requires IsMatrix(m)
    ensures RowsFit(m, |m|)
  {
    Pow2Values();
  }

  /** The solver as an oracle: whatever model it returns satisfies every
      clause and every XOR constraint it was given. */
  ghost predicate SolverSound(solve: (seq<seq<Lit>>, seq<XorClause>) -> Option<Assignment>) {
    forall cs, xs :: solve(cs, xs).Some? ==> Models(solve(cs, xs).value, cs, xs)
  }

  /** The solver as an oracle that misses nothing: it returns a model
      whenever the clauses and XOR constraints have one. */
  ghost predicate CompleteSolver(solve: (seq<seq<Lit>>, seq<XorClause>) -> Option<Assignment>) {
    forall cs, xs, a :: Models(a, cs, xs) ==> solve(cs, xs).Some?
  }

  /** A solver that misses nothing finds a model of the two-round clauses
      whenever some plaintext encrypts to c2. */
  lemma CompleteSolverFinds(conf: seq<nat>, m: seq<nat>, c2: seq<nat>, l: Layout,
                            solve: (seq<seq<Lit>>, seq<XorClause>) -> Option<Assignment>)
    requires IsSBox(conf) && |m| == 32 && InOrder(conf, m, l)
    ensures CompleteSolver(solve) && (exists x :: EncryptsTo(conf, m, x, c2))
            ==> solve(TwoRoundClauses(conf, m, c2, l), TwoRoundXors(conf, m, l)).Some?
  {
    if CompleteSolver(solve) && exists x :: EncryptsTo(conf, m, x, c2) {
      var x :| EncryptsTo(conf, m, x, c2);
      TwoRoundComplete(conf, m, x, c2, l);
    }
  }

  /**
   * Encode the two rounds with c2 pinned, call the solver and read the
   * plaintext bytes out of the model it returns, if any.  The clause and
   * XOR lists handed to the solver are returned as ghosts, with the layout
   * of their variables.
   */
  method SolveTwoRounds(conf: seq<nat>, m: seq<nat>, c2: seq<nat>,
                        solve: (seq<seq<Lit>>, seq<XorClause>) -> Option<Assignment>)
    returns (found: bool, recovered: seq<nat>,
             ghost cs: seq<seq<Lit>>, ghost xs: seq<XorClause>, ghost l: Layout)
    requires IsSBox(conf) && IsMatrix(m) && IsState(c2) && SolverSound(solve)
    ensures cs == TwoRoundClauses(conf, m, c2, l) && xs == TwoRoundXors(conf, m, l) && InOrder(conf, m, l)
    ensures found <==> solve(cs, xs).Some?
    ensures found ==> recovered == Values(solve(cs, xs).value, ByteGroups(|m|, l.plain))
    ensures found ==> EncryptsTo(conf, m, recovered, c2)
    ensures !found ==> recovered == []
    ensures CompleteSolver(solve) && (exists x :: EncryptsTo(conf, m, x, c2)) ==> found
  {
    var s := new Solver();
    MatrixRowsFit(m);
    var x;
    x, l := EncodeTwoRounds(s, conf, m, c2);
    cs, xs := s.clauses, s.xors;
    var r := solve(s.clauses, s.xors);
    CompleteSolverFinds(conf, m, c2, l, solve);
    if r.None? {
      return false, [], cs, xs, l;
    }
    recovered := ReadBytes(r.value, x);
    TwoRoundSound(r.value, conf, m, c2, l);
    found := true;
  }

  /**
   * main: encrypt the plaintext (the driver draws it with rand()) for two
   * rounds, solve the model with that ciphertext pinned, and re-encrypt the
   * recovered plaintext. The exit status is 1 when the solver finds no
   * model and 0 on a verified recovery; the failure status 2 cannot occur,
   * and with a solver that misses no model neither can status 1.
   */
  method TwoRoundInversion(conf: seq<nat>, m: seq<nat>, plaintext: seq<nat>,
                           solve: (seq<seq<Lit>>, seq<XorClause>) -> Option<Assignment>)
    returns (status: int, c2: seq<nat>, recovered: seq<nat>)
    requires IsSBox(conf) && IsMatrix(m) && IsState(plaintext) && SolverSound(solve)
    ensures EncryptsTo(conf, m, plaintext, c2)
    ensures status == 0 || status == 1
    ensures status == 0 <==> EncryptsTo(conf, m, recovered, c2)
    ensures status == 1 ==> recovered == []
    ensures CompleteSolver(solve) ==> status == 0
  {
    c2 := TwoRounds(conf, m, plaintext);
    assert EncryptsTo(conf, m, plaintext, c2);
    var found;
    ghost var cs, xs, l;
    found, recovered, cs, xs, l := SolveTwoRounds(conf, m, c2, solve);
    if !found {
      return 1, c2, recovered;
    }
    var t2 := TwoRounds(conf, m, recovered);
    status := if t2 == c2 then 0 else 2;
  }
}
