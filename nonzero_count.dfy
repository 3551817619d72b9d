/// `nonzero_count`: the number of stored (non-zero) entries of each of the
/// matrices A, B and C of a constraint system, and their total.
module NonzeroCount {
  import opened Arith
  import opened R1cs
  import opened PackerParams
  import opened Extension

  /** The number of keys matrix `m` has over all of `cs`. */
  function Count(cs: seq<Constraint>, m: Matrix): nat
  {
    if cs == [] then 0 else Count(cs[..|cs| - 1], m) + |Row(cs[|cs| - 1], m)|
  }

  /** The three accumulator loops of `nonzero_count`, and the total it reports. */
  method NonzeroCount(cs: seq<Constraint>) returns (na: nat, nb: nat, nc: nat, total: nat)
    ensures na == Count(cs, A) && nb == Count(cs, B) && nc == Count(cs, C)
    ensures total == na + nb + nc
    ensures cs == [] ==> total == 0
  {
    na := 0;
    for i := 0 to |cs|
      invariant na == Count(cs[..i], A)
    {
      assert cs[..i + 1][..i] == cs[..i];
      na := na + |cs[i].a|;
    }
    nb := 0;
    for i := 0 to |cs|
      invariant nb == Count(cs[..i], B)
    {
      assert cs[..i + 1][..i] == cs[..i];
      nb := nb + |cs[i].b|;
    }
    nc := 0;
    for i := 0 to |cs|
      invariant nc == Count(cs[..i], C)
    {
      assert cs[..i + 1][..i] == cs[..i];
      nc := nc + |cs[i].c|;
    }
    assert cs[..|cs|] == cs;
    total := na + nb + nc;
  }

  /** Counting is additive over concatenation. */
  lemma {:induction false} CountAppend(cs1: seq<Constraint>, cs2: seq<Constraint>, m: Matrix)
    ensures Count(cs1 + cs2, m) == Count(cs1, m) + Count(cs2, m)
  {
    if cs2 == [] {
      assert cs1 + cs2 == cs1;
    } else {
      var init := cs2[..|cs2| - 1];
      CountAppend(cs1, init, m);
      assert (cs1 + cs2)[..|cs1 + cs2| - 1] == cs1 + init;
      assert (cs1 + cs2)[|cs1 + cs2| - 1] == cs2[|cs2| - 1];
    }
  }

  /** When every constraint has `k` keys in `m`, the count is `|cs| * k`. */
  lemma {:induction false} CountUniform(cs: seq<Constraint>, m: Matrix, k: nat)
    requires forall i :: 0 <= i < |cs| ==> |Row(cs[i], m)| == k
    ensures Count(cs, m) == |cs| * k
  {
    if cs != [] {
      var init := cs[..|cs| - 1];
      assert forall i :: 0 <= i < |init| ==> init[i] == cs[i];
      CountUniform(init, m, k);
    }
  }

  /** After `add_k` (no existing key at a quotient slot) C has one more entry
      per constraint, while A and B keep their counts. */
  lemma {:induction false} CountQuotients(cs: seq<Constraint>, nLabels: nat)
    requires AllKeysBelow(cs, nLabels)
    ensures Count(WithQuotients(cs, nLabels), C) == Count(cs, C) + |cs|
    ensures Count(WithQuotients(cs, nLabels), A) == Count(cs, A)
    ensures Count(WithQuotients(cs, nLabels), B) == Count(cs, B)
  {
    if cs != [] {
      var init := cs[..|cs| - 1];
      var last := |cs| - 1;
      assert AllKeysBelow(init, nLabels) by {
        forall i, m | 0 <= i < |init|
          ensures KeysBelow(Row(init[i], m), nLabels)
        {
          assert init[i] == cs[i];
        }
      }
      CountQuotients(init, nLabels);
      assert WithQuotients(cs, nLabels)[..last] == WithQuotients(init, nLabels);
      QuotientSlots(cs, nLabels, last);
    }
  }

  /** A PoSO C holds the slot and one entry per witness variable. */
  lemma {:induction false} PosoCSize(slot: nat, coefs: seq<nat>, n: nat)
    requires n <= |coefs| && n <= slot
    ensures |PosoC(slot, coefs, n)| == n + 1
  {
    if n > 0 {
      PosoCSize(slot, coefs, n - 1);
      PosoCEntries(slot, coefs, n - 1);
    }
  }

  /** A recombination C holds the slot and its `j` bits. */
  lemma {:induction false} RecombCSize(slot: nat, j: nat)
    ensures |RecombC(slot, j)| == j + 1
  {
    if j > 0 {
      RecombCSize(slot, j - 1);
      RecombCEntries(slot, j - 1);
    }
  }

  /** A bit constraint on `x >= 1` has two entries in A, one in B and none in C. */
  lemma BitConstraintSize(x: nat)
    requires x >= 1
    ensures |BitConstraint(x).a| == 2 && |BitConstraint(x).b| == 1 && |BitConstraint(x).c| == 0
  {
    assert x !in map[0 := MinusOne];
  }

  /** Entries per bit constraint: two in A, one in B, none in C. */
  function BitWeight(m: Matrix): nat
  {
    match m
    case A => 2
    case B => 1
    case C => 0
  }

  /** One repetition's bit constraints: two A entries and one B entry each. */
  lemma BitRowCounts(base: nat, i: nat, m: Matrix)
    ensures Count(BitRow(base, i), m) == BitWeight(m) * |BitRow(base, i)|
  {
    var row := BitRow(base, i);
    forall k | 0 <= k < |row|
      ensures |Row(row[k], m)| == BitWeight(m)
    {
      BitConstraintSize(Slot(base, i) + k + 1);
    }
    CountUniform(row, m, BitWeight(m));
  }

  /** A uniform count per constraint survives concatenation. */
  lemma CountScaledAppend(prev: seq<Constraint>, row: seq<Constraint>, m: Matrix, k: nat)
    requires Count(prev, m) == k * |prev| && Count(row, m) == k * |row|
    ensures Count(prev + row, m) == k * |prev + row|
  {
    CountAppend(prev, row, m);
    MulDistrib(k, |prev|, |row|);
  }

  /** The bit constraints of `n` repetitions hold two A entries and one B entry each. */
  lemma {:induction false} BitRowsCounts(base: nat, n: nat, m: Matrix)
    ensures Count(BitRows(base, n), m) == BitWeight(m) * |BitRows(base, n)|
  {
    if n > 0 {
      var prev, row := BitRows(base, n - 1), BitRow(base, n - 1);
      assert BitRows(base, n) == prev + row;
      BitRowsCounts(base, n - 1, m);
      BitRowCounts(base, n - 1, m);
      CountScaledAppend(prev, row, m, BitWeight(m));
    }
  }

  /** What `add_poso` adds to each count: `2 * reps * poso_bound` entries in A,
      `reps * poso_bound` in B, and in C `nVars + 1` per PoSO constraint plus
      `poso_bound + 1` per recombination. */
  lemma GadgetCounts(base: nat, nVars: nat, coeffs: seq<seq<nat>>)
    requires nVars <= base && |coeffs| == Reps
    requires forall i :: 0 <= i < Reps ==> |coeffs[i]| == nVars
    ensures Count(PosoGadget(base, coeffs), A) == 2 * Reps * PosoBound
    ensures Count(PosoGadget(base, coeffs), B) == Reps * PosoBound
    ensures Count(PosoGadget(base, coeffs), C) == Reps * (nVars + 1) + Reps * (PosoBound + 1)
  {
    var checks := PosoChecks(base, coeffs, Reps);
    var bits := BitRows(base, Reps);
    var recs := Recombinations(base, Reps);
    PosoChecksCounts(base, nVars, coeffs);
    RecombinationsCounts(base);
    BitRowsCounts(base, Reps, A);
    BitRowsCounts(base, Reps, B);
    BitRowsCounts(base, Reps, C);
    BitRowsLength(base, Reps);
    CountAppend(checks + bits, recs, A);
    CountAppend(checks, bits, A);
    CountAppend(checks + bits, recs, B);
    CountAppend(checks, bits, B);
    CountAppend(checks + bits, recs, C);
    CountAppend(checks, bits, C);
  }

  /** The PoSO constraints have empty A and B and `nVars + 1` entries in C. */
  lemma PosoChecksCounts(base: nat, nVars: nat, coeffs: seq<seq<nat>>)
    requires nVars <= base && |coeffs| == Reps
    requires forall i :: 0 <= i < Reps ==> |coeffs[i]| == nVars
    ensures Count(PosoChecks(base, coeffs, Reps), A) == 0
    ensures Count(PosoChecks(base, coeffs, Reps), B) == 0
    ensures Count(PosoChecks(base, coeffs, Reps), C) == Reps * (nVars + 1)
  {
    var checks := PosoChecks(base, coeffs, Reps);
    forall i | 0 <= i < Reps
      ensures |checks[i].c| == nVars + 1
    {
      PosoCSize(Slot(base, i), coeffs[i], nVars);
    }
    CountUniform(checks, A, 0);
    CountUniform(checks, B, 0);
    CountUniform(checks, C, nVars + 1);
  }

  /** The recombinations have empty A and B and `poso_bound + 1` entries in C. */
  lemma RecombinationsCounts(base: nat)
    ensures Count(Recombinations(base, Reps), A) == 0
    ensures Count(Recombinations(base, Reps), B) == 0
    ensures Count(Recombinations(base, Reps), C) == Reps * (PosoBound + 1)
  {
    var recs := Recombinations(base, Reps);
    forall i | 0 <= i < Reps
      ensures |recs[i].c| == PosoBound + 1
    {
      RecombCSize(Slot(base, i), PosoBound);
    }
    CountUniform(recs, A, 0);
    CountUniform(recs, B, 0);
    CountUniform(recs, C, PosoBound + 1);
  }
}
