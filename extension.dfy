/// What the packer's `add_k` and `add_poso` add to a constraint system,
/// written as values: the quotient slots, the PoSO gadget and the symbols
/// they register, with the properties those additions have.
module Extension {
  import opened Arith
  import opened Text
  import opened R1cs
  import opened PackerParams
  import opened SymbolFile

  /** The `componentIdx` of every symbol the packer creates. */
  const Component: nat := 6

  // ---------------------------------------------------------------------
  // add_k: one quotient slot per constraint

  /** Constraint `con` with coefficient `q` on the fresh variable `slot` in C. */
  function WithQuotient(con: Constraint, slot: nat): Constraint
  {
    con.(c := con.c[slot := Q])
  }

  /** Every constraint `i` of `cs` gets its quotient slot `nLabels + i`. */
  function WithQuotients(cs: seq<Constraint>, nLabels: nat): seq<Constraint>
  {
    seq(|cs|, i requires 0 <= i < |cs| => WithQuotient(cs[i], nLabels + i))
  }

  /** The name `k[i]` of the i-th quotient variable. */
  function KName(i: nat): string
  {
    "k[" + ToBase(i, 10) + "]"
  }

  /** The table after registering `k[0]`, ..., `k[n-1]` in that order. */
  function KSymbols(symbols: SymbolTable, nLabels: nat, nVars: nat, n: nat): SymbolTable
  {
    if n == 0 then symbols
    else KSymbols(symbols, nLabels, nVars, n - 1)[KName(n - 1) := Symbol(Int(nLabels + n - 1), Int(nVars + n - 1), Int(Component))]
  }

  /** One step of `add_k`'s loop: constraint `i` receives its slot. */
  lemma QuotientStep(cs: seq<Constraint>, nLabels: nat, i: nat)
    requires i < |cs|
    ensures (WithQuotients(cs, nLabels)[..i] + cs[i..])[i := WithQuotient(cs[i], nLabels + i)]
         == WithQuotients(cs, nLabels)[..i + 1] + cs[i + 1..]
  {
  }

  lemma QuotientDone(cs: seq<Constraint>, nLabels: nat)
    ensures WithQuotients(cs, nLabels)[..|cs|] + cs[|cs|..] == WithQuotients(cs, nLabels)
  {
  }

  /** Quotient slots change only C, and only by the new entry `(nLabels + i) ↦ q`;
      when every key is below `nLabels` that entry is new, so C grows by one key. */
  lemma QuotientSlots(cs: seq<Constraint>, nLabels: nat, i: nat)
    requires i < |cs|
    ensures |WithQuotients(cs, nLabels)| == |cs|
    ensures WithQuotients(cs, nLabels)[i].a == cs[i].a
    ensures WithQuotients(cs, nLabels)[i].b == cs[i].b
    ensures WithQuotients(cs, nLabels)[i].c == cs[i].c[nLabels + i := Q]
    ensures AllKeysBelow(cs, nLabels) ==>
              nLabels + i !in cs[i].c && |WithQuotients(cs, nLabels)[i].c| == |cs[i].c| + 1
  {
    if AllKeysBelow(cs, nLabels) {
      assert KeysBelow(Row(cs[i], C), nLabels);
    }
  }

  /** After the quotient slots every key is below the grown label count. */
  lemma QuotientKeysBelow(cs: seq<Constraint>, nLabels: nat)
    requires AllKeysBelow(cs, nLabels)
    ensures AllKeysBelow(WithQuotients(cs, nLabels), nLabels + |cs|)
  {
    var r := WithQuotients(cs, nLabels);
    forall i, m | 0 <= i < |r|
      ensures KeysBelow(Row(r[i], m), nLabels + |cs|)
    {
      assert KeysBelow(Row(cs[i], m), nLabels);
    }
  }

  /** The extended constraint `i` is satisfied exactly when the original
      product-minus-sum equals `q` times the quotient variable, modulo `p`. */
  lemma QuotientSatisfies(con: Constraint, slot: nat, w: seq<int>)
    requires slot < |w| && slot !in con.c
    ensures Satisfies(WithQuotient(con, slot), w)
        <==> (Eval(con.a, w) * Eval(con.b, w) - Eval(con.c, w)) % P == (Q * w[slot]) % P
  {
    DotUpdate(con.c, slot, Q, w, |w|);
    var ab := Eval(con.a, w) * Eval(con.b, w);
    assert Eval(WithQuotient(con, slot).c, w) == Eval(con.c, w) + Q * w[slot];
    ModEqIff(ab - Eval(con.c, w), Q * w[slot]);
  }

  lemma KNameInjective(i: nat, j: nat)
    requires KName(i) == KName(j)
    ensures i == j
  {
    var s, t := KName(i), KName(j);
    assert s[2..|s| - 1] == ToBase(i, 10);
    assert t[2..|t| - 1] == ToBase(j, 10);
    DecimalInjective(i, j);
  }

  /** `k[i]` is registered with label `nLabels + i`, variable `nVars + i`, component 6. */
  lemma {:induction false} KSymbolAt(symbols: SymbolTable, nLabels: nat, nVars: nat, n: nat, i: nat)
    requires i < n
    ensures KName(i) in KSymbols(symbols, nLabels, nVars, n)
    ensures KSymbols(symbols, nLabels, nVars, n)[KName(i)]
         == Symbol(Int(nLabels + i), Int(nVars + i), Int(Component))
  {
    if i < n - 1 {
      KSymbolAt(symbols, nLabels, nVars, n - 1, i);
      if KName(n - 1) == KName(i) {
        KNameInjective(n - 1, i);
      }
    }
  }

  /** Every other name keeps its entry, or stays absent. */
  lemma {:induction false} KSymbolsOther(symbols: SymbolTable, nLabels: nat, nVars: nat, n: nat, name: string)
    requires forall i :: 0 <= i < n ==> name != KName(i)
    ensures name in KSymbols(symbols, nLabels, nVars, n) <==> name in symbols
    ensures name in symbols ==> KSymbols(symbols, nLabels, nVars, n)[name] == symbols[name]
  {
    if n > 0 {
      KSymbolsOther(symbols, nLabels, nVars, n - 1, name);
    }
  }

  // ---------------------------------------------------------------------
  // add_poso: the Proof-of-Small-Opening gadget

  /** The first index of repetition `i`'s block: the PoSO variable itself;
      its bits follow at `Slot(base, i) + 1 .. Slot(base, i) + poso_bound`. */
  function Slot(base: nat, i: nat): nat
  {
    base + i * (PosoBound + 1)
  }

  /** Index `k` is one of those repetition `i` reserves. */
  predicate InBlock(base: nat, i: nat, k: nat)
  {
    Slot(base, i) <= k <= Slot(base, i) + PosoBound
  }

  /** The C of a PoSO constraint: `-1` at the PoSO slot, then the first `n`
      random coefficients on variables `0 .. n-1`, written in that order. */
  function PosoC(slot: nat, coefs: seq<nat>, n: nat): LinComb
    requires n <= |coefs|
  {
    if n == 0 then map[slot := MinusOne] else PosoC(slot, coefs, n - 1)[n - 1 := coefs[n - 1]]
  }

  function PosoConstraint(slot: nat, coefs: seq<nat>): Constraint
  {
    Constraint(map[], map[], PosoC(slot, coefs, |coefs|))
  }

  /** `(x - 1) * x = 0`: A is `{0: -1, x: 1}`, B is `{x: 1}`, C is empty. */
  function BitConstraint(x: nat): Constraint
  {
    Constraint(map[0 := MinusOne][x := 1], map[x := 1], map[])
  }

  /** The C of a recombination: `-1` at the PoSO slot and `2^(t-1)` on bit `t` for `t <= j`. */
  function RecombC(slot: nat, j: nat): LinComb
  {
    if j == 0 then map[slot := MinusOne] else RecombC(slot, j - 1)[slot + j := Pow(2, j - 1)]
  }

  function Recombination(slot: nat): Constraint
  {
    Constraint(map[], map[], RecombC(slot, PosoBound))
  }

  /** The first `n` PoSO constraints, repetition `i` drawing on `coeffs[i]`. */
  function PosoChecks(base: nat, coeffs: seq<seq<nat>>, n: nat): seq<Constraint>
    requires n <= |coeffs|
  {
    seq(n, i requires 0 <= i < n => PosoConstraint(Slot(base, i), coeffs[i]))
  }

  /** One step of the PoSO loop: repetition `i`'s constraint comes next. */
  lemma PosoChecksStep(base: nat, coeffs: seq<seq<nat>>, i: nat)
    requires i < |coeffs|
    ensures PosoChecks(base, coeffs, i + 1)
         == PosoChecks(base, coeffs, i) + [PosoConstraint(Slot(base, i), coeffs[i])]
  {
  }

  /** The `poso_bound` bit constraints of repetition `i`. */
  function BitRow(base: nat, i: nat): seq<Constraint>
  {
    seq(PosoBound, k requires 0 <= k < PosoBound => BitConstraint(Slot(base, i) + k + 1))
  }

  /** One step of the inner bit loop: bit `j` of repetition `i` comes next. */
  lemma BitRowStep(base: nat, i: nat, j: nat)
    requires 1 <= j <= PosoBound
    ensures BitRow(base, i)[..j] == BitRow(base, i)[..j - 1] + [BitConstraint(Slot(base, i) + j)]
  {
    var last := j - 1;
    assert BitRow(base, i)[last] == BitConstraint(Slot(base, i) + last + 1);
  }

  /** The bit constraints of the first `n` repetitions. */
  function BitRows(base: nat, n: nat): seq<Constraint>
  {
    if n == 0 then [] else BitRows(base, n - 1) + BitRow(base, n - 1)
  }

  /** The first `n` recombination constraints. */
  function Recombinations(base: nat, n: nat): seq<Constraint>
  {
    seq(n, i requires 0 <= i < n => Recombination(Slot(base, i)))
  }

  /** Everything `add_poso` appends, in the order it appends it. */
  function PosoGadget(base: nat, coeffs: seq<seq<nat>>): seq<Constraint>
    requires |coeffs| == Reps
  {
    PosoChecks(base, coeffs, Reps) + BitRows(base, Reps) + Recombinations(base, Reps)
  }

  /** `Σ_{j < n} coefs[j] * w[j]`, the random linear combination a PoSO variable must equal. */
  function WeightedSum(coefs: seq<nat>, w: seq<int>, n: nat): int
    requires n <= |coefs| && n <= |w|
  {
    if n == 0 then 0 else WeightedSum(coefs, w, n - 1) + coefs[n - 1] * w[n - 1]
  }

  /** `Σ_{t = 1 .. j} 2^(t-1) * w[slot + t]`, the value the bits after `slot` encode. */
  function BitSum(w: seq<int>, slot: nat, j: nat): int
    requires slot + j < |w|
  {
    if j == 0 then 0 else BitSum(w, slot, j - 1) + Pow(2, j - 1) * w[slot + j]
  }

  /** Blocks of different repetitions are disjoint and in increasing order. */
  lemma SlotsOrdered(base: nat, i: nat, i': nat)
    requires i < i'
    ensures Slot(base, i) + PosoBound < Slot(base, i')
  {
    MulMonotone(i + 1, i', PosoBound + 1);
  }

  /** Repetition blocks are pairwise disjoint and all lie in
      `[base, base + reps * (poso_bound + 1))`. */
  lemma BlocksDisjoint(base: nat, i: nat, i': nat)
    requires i < Reps && i' < Reps && i != i'
    ensures forall k: nat :: !(InBlock(base, i, k) && InBlock(base, i', k))
    ensures forall k: nat :: InBlock(base, i, k) ==> base <= k < base + Reps * (PosoBound + 1)
  {
    if i < i' {
      SlotsOrdered(base, i, i');
    } else {
      SlotsOrdered(base, i', i);
    }
    SlotsOrdered(base, i, Reps);
  }

  /** A PoSO C holds the slot and the first `n` variables; the slot carries `-1`
      when it lies above them, variable `j` carries the j-th coefficient. */
  lemma {:induction false} PosoCEntries(slot: nat, coefs: seq<nat>, n: nat)
    requires n <= |coefs|
    ensures forall k: nat :: k in PosoC(slot, coefs, n) <==> k == slot || k < n
    ensures forall j :: 0 <= j < n ==> PosoC(slot, coefs, n)[j] == coefs[j]
    ensures slot >= n ==> PosoC(slot, coefs, n)[slot] == MinusOne
  {
    if n > 0 {
      PosoCEntries(slot, coefs, n - 1);
    } else {
      forall k: nat ensures k in PosoC(slot, coefs, 0) <==> k == slot {
      }
    }
  }

  /** A recombination C holds exactly the slot and the next `j` indices. */
  lemma {:induction false} RecombCEntries(slot: nat, j: nat)
    ensures forall k :: k in RecombC(slot, j) <==> slot <= k <= slot + j
    ensures RecombC(slot, j)[slot] == MinusOne
    ensures forall k :: slot < k <= slot + j ==> RecombC(slot, j)[k] == Pow(2, k - slot - 1)
  {
    if j > 0 {
      RecombCEntries(slot, j - 1);
    }
  }

  /** The gadget's layout: `reps` PoSO constraints, `reps * poso_bound` bit
      constraints (repetition `i`, bit `k + 1` at position `reps + i * poso_bound + k`),
      then `reps` recombinations. */
  lemma {:induction false} BitRowsAt(base: nat, n: nat, i: nat, k: nat)
    requires i < n && k < PosoBound
    ensures |BitRows(base, n)| == n * PosoBound
    ensures BitRows(base, n)[i * PosoBound + k] == BitConstraint(Slot(base, i) + k + 1)
  {
    BitRowsLength(base, n - 1);
    if i < n - 1 {
      BitRowsAt(base, n - 1, i, k);
      MulMonotone(i + 1, n - 1, PosoBound);
    }
  }

  lemma {:induction false} BitRowsLength(base: nat, n: nat)
    ensures |BitRows(base, n)| == n * PosoBound
  {
    if n > 0 {
      BitRowsLength(base, n - 1);
    }
  }

  /** Where bit `k + 1` of repetition `i` sits in the gadget. */
  function BitPos(i: nat, k: nat): nat
  {
    Reps + i * PosoBound + k
  }

  /** Where the recombination of repetition `i` sits in the gadget. */
  function RecombPos(i: nat): nat
  {
    Reps + Reps * PosoBound + i
  }

  lemma GadgetLayout(base: nat, coeffs: seq<seq<nat>>)
    requires |coeffs| == Reps
    ensures |PosoGadget(base, coeffs)| == Reps * (PosoBound + 2)
    ensures forall i :: 0 <= i < Reps ==>
              PosoGadget(base, coeffs)[i] == PosoConstraint(Slot(base, i), coeffs[i])
    ensures forall i, k :: 0 <= i < Reps && 0 <= k < PosoBound ==>
              PosoGadget(base, coeffs)[BitPos(i, k)] == BitConstraint(Slot(base, i) + k + 1)
    ensures forall i :: 0 <= i < Reps ==>
              PosoGadget(base, coeffs)[RecombPos(i)] == Recombination(Slot(base, i))
  {
    var g := PosoGadget(base, coeffs);
    BitRowsLength(base, Reps);
    forall i, k | 0 <= i < Reps && 0 <= k < PosoBound
      ensures g[BitPos(i, k)] == BitConstraint(Slot(base, i) + k + 1)
    {
      BitRowsAt(base, Reps, i, k);
      MulMonotone(i + 1, Reps, PosoBound);
    }
  }

  /** Every index the gadget mentions is below the grown label count, provided
      the existing variables lie below the existing labels. */
  lemma GadgetKeysBelow(base: nat, nVars: nat, coeffs: seq<seq<nat>>)
    requires nVars <= base && |coeffs| == Reps
    requires forall i :: 0 <= i < Reps ==> |coeffs[i]| == nVars
    ensures AllKeysBelow(PosoGadget(base, coeffs), base + Reps * (PosoBound + 1))
  {
    var top := base + Reps * (PosoBound + 1);
    var checks := PosoChecks(base, coeffs, Reps);
    forall i, m | 0 <= i < Reps
      ensures KeysBelow(Row(checks[i], m), top)
    {
      PosoCEntries(Slot(base, i), coeffs[i], |coeffs[i]|);
      SlotsOrdered(base, i, Reps);
    }
    BitRowsKeysBelow(base, Reps);
    var recs := Recombinations(base, Reps);
    forall i, m | 0 <= i < Reps
      ensures KeysBelow(Row(recs[i], m), top)
    {
      RecombCEntries(Slot(base, i), PosoBound);
      SlotsOrdered(base, i, Reps);
    }
    AllKeysBelowAppend(checks, BitRows(base, Reps), top);
    AllKeysBelowAppend(checks + BitRows(base, Reps), recs, top);
  }

  lemma {:induction false} BitRowsKeysBelow(base: nat, n: nat)
    requires n <= Reps
    ensures AllKeysBelow(BitRows(base, n), base + Reps * (PosoBound + 1))
  {
    var top := base + Reps * (PosoBound + 1);
    if n > 0 {
      BitRowsKeysBelow(base, n - 1);
      var row := BitRow(base, n - 1);
      SlotsOrdered(base, n - 1, Reps);
      assert AllKeysBelow(row, top) by {
        forall k, m | 0 <= k < |row|
          ensures KeysBelow(Row(row[k], m), top)
        {
          BitConstraintKeys(Slot(base, n - 1) + k + 1, top, m);
        }
      }
      AllKeysBelowAppend(BitRows(base, n - 1), row, top);
    }
  }

  lemma BitConstraintKeys(x: nat, top: nat, m: Matrix)
    requires x < top
    ensures KeysBelow(Row(BitConstraint(x), m), top)
  {
  }

  /** Evaluating a PoSO C: the weighted sum of the variables minus the PoSO variable. */
  lemma {:induction false} PosoCEval(slot: nat, coefs: seq<nat>, w: seq<int>, n: nat)
    requires n <= |coefs| && n <= slot < |w|
    ensures Eval(PosoC(slot, coefs, n), w) == WeightedSum(coefs, w, n) + MinusOne * w[slot]
  {
    if n == 0 {
      DotUpdate(map[], slot, MinusOne, w, |w|);
      EvalEmpty(w);
    } else {
      PosoCEval(slot, coefs, w, n - 1);
      PosoCEntries(slot, coefs, n - 1);
      DotUpdate(PosoC(slot, coefs, n - 1), n - 1, coefs[n - 1], w, |w|);
    }
  }

  /** Evaluating a recombination C: the bits' value minus the PoSO variable. */
  lemma {:induction false} RecombCEval(slot: nat, j: nat, w: seq<int>)
    requires slot + j < |w|
    ensures Eval(RecombC(slot, j), w) == MinusOne * w[slot] + BitSum(w, slot, j)
  {
    if j == 0 {
      DotUpdate(map[], slot, MinusOne, w, |w|);
      EvalEmpty(w);
    } else {
      RecombCEval(slot, j - 1, w);
      RecombCEntries(slot, j - 1);
      DotUpdate(RecombC(slot, j - 1), slot + j, Pow(2, j - 1), w, |w|);
    }
  }

  /** `-1 * x + y ≡ 0 (mod p)` exactly when `x ≡ y`. */
  lemma MinusOneCancels(x: int, y: int)
    ensures (MinusOne * x + y) % P == 0 <==> x % P == y % P
  {
    assert MinusOne * x + y == (y - x) + x * P;
    ModAddMultiple(y - x, x);
    ModEqIff(y, x);
  }

  /** A PoSO constraint holds exactly when the PoSO variable equals the random
      linear combination of the variables below it, modulo `p`. */
  lemma PosoSatisfies(slot: nat, coefs: seq<nat>, w: seq<int>)
    requires |coefs| <= slot < |w|
    ensures Satisfies(PosoConstraint(slot, coefs), w)
        <==> w[slot] % P == WeightedSum(coefs, w, |coefs|) % P
  {
    SatisfiesLinear(PosoConstraint(slot, coefs), w);
    PosoCEval(slot, coefs, w, |coefs|);
    MinusOneCancels(w[slot], WeightedSum(coefs, w, |coefs|));
  }

  /** A recombination holds exactly when the PoSO variable equals the value of
      its bits, `Σ_{j=1..poso_bound} 2^(j-1) * bit_j`, modulo `p`. */
  lemma RecombinationSatisfies(slot: nat, w: seq<int>)
    requires slot + PosoBound < |w|
    ensures Satisfies(Recombination(slot), w) <==> w[slot] % P == BitSum(w, slot, PosoBound) % P
  {
    SatisfiesLinear(Recombination(slot), w);
    RecombCEval(slot, PosoBound, w);
    MinusOneCancels(w[slot], BitSum(w, slot, PosoBound));
  }

  /** With `w[0] = 1`, a bit constraint holds exactly when `w[x] * (w[x] - 1) ≡ 0 (mod p)`. */
  lemma BitSatisfies(x: nat, w: seq<int>)
    requires 0 < x < |w| && w[0] == 1
    ensures Satisfies(BitConstraint(x), w) <==> (w[x] * (w[x] - 1)) % P == 0
  {
    var b := w[x];
    DotUpdate(map[], 0, MinusOne, w, |w|);
    DotUpdate(map[0 := MinusOne], x, 1, w, |w|);
    DotUpdate(map[], x, 1, w, |w|);
    EvalEmpty(w);
    assert Eval(BitConstraint(x).a, w) == MinusOne + b;
    assert Eval(BitConstraint(x).b, w) == b;
    assert (MinusOne + b) * b == b * (b - 1) + b * P;
    ModAddMultiple(b * (b - 1), b);
  }

  /** So a bit constraint holds whenever its variable is 0 or 1. */
  lemma BooleanBitSatisfies(x: nat, w: seq<int>)
    requires 0 < x < |w| && w[0] == 1
    requires w[x] == 0 || w[x] == 1
    ensures Satisfies(BitConstraint(x), w)
  {
    BitSatisfies(x, w);
  }

  /** The PoSO constraint of repetition `i` is `-1` on its slot and a coefficient
      in `[0, 256]` on every existing variable, and nothing else. */
  lemma PosoCoefficients(base: nat, coefs: seq<nat>)
    requires |coefs| <= base
    requires forall j :: 0 <= j < |coefs| ==> coefs[j] <= 256
    ensures PosoConstraint(base, coefs).a == map[] && PosoConstraint(base, coefs).b == map[]
    ensures forall k: nat :: k in PosoConstraint(base, coefs).c <==> k == base || k < |coefs|
    ensures PosoConstraint(base, coefs).c[base] == MinusOne
    ensures forall j :: 0 <= j < |coefs| ==> 0 <= PosoConstraint(base, coefs).c[j] <= 256
  {
    PosoCEntries(base, coefs, |coefs|);
  }

  // ---------------------------------------------------------------------
  // add_poso: the symbols it registers

  function PosoName(i: nat): string
  {
    "PoSO[" + ToBase(i, 10) + "]"
  }

  function BitName(i: nat, j: nat): string
  {
    "PoSO.Bits[" + ToBase(i, 10) + "][" + ToBase(j, 10) + "]"
  }

  /** The table after registering `PoSO[0]`, ..., `PoSO[n-1]`. */
  function PosoSymbols(symbols: SymbolTable, nLabels: nat, nVars: nat, n: nat): SymbolTable
  {
    if n == 0 then symbols
    else PosoSymbols(symbols, nLabels, nVars, n - 1)[PosoName(n - 1) :=
           Symbol(Int(Slot(nLabels, n - 1)), Int(Slot(nVars, n - 1)), Int(Component))]
  }

  /** The table after registering bits `1 .. j` of repetition `i`. */
  function BitSymbolsRow(symbols: SymbolTable, nLabels: nat, nVars: nat, i: nat, j: nat): SymbolTable
  {
    if j == 0 then symbols
    else BitSymbolsRow(symbols, nLabels, nVars, i, j - 1)[BitName(i, j) :=
           Symbol(Int(Slot(nLabels, i) + j), Int(Slot(nVars, i) + j), Int(Component))]
  }

  /** The table after registering all bits of the first `n` repetitions. */
  function BitSymbols(symbols: SymbolTable, nLabels: nat, nVars: nat, n: nat): SymbolTable
  {
    if n == 0 then symbols
    else BitSymbolsRow(BitSymbols(symbols, nLabels, nVars, n - 1), nLabels, nVars, n - 1, PosoBound)
  }

  function GadgetSymbols(symbols: SymbolTable, nLabels: nat, nVars: nat): SymbolTable
  {
    BitSymbols(PosoSymbols(symbols, nLabels, nVars, Reps), nLabels, nVars, Reps)
  }

  /** In `x + "]" + r` with `x` decimal, the first `]` is at position `|x|`. */
  lemma FirstBracket(x: string, r: string)
    requires AllDigits(x, 10)
    ensures (x + "]" + r)[|x|] == ']'
    ensures forall k :: 0 <= k < |x| ==> (x + "]" + r)[k] != ']'
  {
    forall k | 0 <= k < |x|
      ensures (x + "]" + r)[k] != ']'
    {
      assert (x + "]" + r)[k] == x[k];
      assert DigitValue(x[k]) < 10;
    }
  }

  /** Two names that agree and have a decimal field right before a `]` agree on that field. */
  lemma DecimalFieldsEqual(a: string, b: string, rest: string, rest': string)
    requires AllDigits(a, 10) && AllDigits(b, 10)
    requires a + "]" + rest == b + "]" + rest'
    ensures a == b && rest == rest'
  {
    var s, t := a + "]" + rest, b + "]" + rest';
    FirstBracket(a, rest);
    FirstBracket(b, rest');
    assert |a| == |b|;
    assert a == s[..|a|] && b == t[..|b|];
    assert rest == s[|a| + 1..] && rest' == t[|b| + 1..];
  }

  lemma PosoNameInjective(i: nat, i': nat)
    requires PosoName(i) == PosoName(i')
    ensures i == i'
  {
    var s, t := PosoName(i), PosoName(i');
    assert s[5..|s| - 1] == ToBase(i, 10);
    assert t[5..|t| - 1] == ToBase(i', 10);
    DecimalInjective(i, i');
  }

  /** After the prefix `PoSO.Bits[`, a bit name is `i]`, then `[j]`. */
  lemma BitNameShape(i: nat, j: nat)
    ensures BitName(i, j)[10..] == ToBase(i, 10) + "]" + ("[" + ToBase(j, 10) + "]")
  {
  }

  lemma BracketedTail(b: string)
    ensures ("[" + b + "]")[1..] == b + "]" + []
  {
  }

  lemma BitNameInjective(i: nat, j: nat, i': nat, j': nat)
    requires BitName(i, j) == BitName(i', j')
    ensures i == i' && j == j'
  {
    var a, b, a', b' := ToBase(i, 10), ToBase(j, 10), ToBase(i', 10), ToBase(j', 10);
    BitNameShape(i, j);
    BitNameShape(i', j');
    DecimalFieldsEqual(a, a', "[" + b + "]", "[" + b' + "]");
    DecimalInjective(i, i');
    BracketedTail(b);
    BracketedTail(b');
    DecimalFieldsEqual(b, b', [], []);
    DecimalInjective(j, j');
  }

  /** The three kinds of generated names never coincide. */
  lemma NamesDistinct(i: nat, i': nat, j: nat, n: nat)
    ensures PosoName(i) != BitName(i', j)
    ensures KName(n) != PosoName(i) && KName(n) != BitName(i', j)
  {
    assert PosoName(i)[4] == '[' && BitName(i', j)[4] == '.';
    assert KName(n)[0] == 'k' && PosoName(i)[0] == 'P' && BitName(i', j)[0] == 'P';
  }

  /** `PoSO[i]` is registered at the first index of its block. */
  lemma {:induction false} PosoSymbolAt(symbols: SymbolTable, nLabels: nat, nVars: nat, n: nat, i: nat)
    requires i < n
    ensures PosoName(i) in PosoSymbols(symbols, nLabels, nVars, n)
    ensures PosoSymbols(symbols, nLabels, nVars, n)[PosoName(i)]
         == Symbol(Int(Slot(nLabels, i)), Int(Slot(nVars, i)), Int(Component))
  {
    if i < n - 1 {
      PosoSymbolAt(symbols, nLabels, nVars, n - 1, i);
      if PosoName(n - 1) == PosoName(i) {
        PosoNameInjective(n - 1, i);
      }
    }
  }

  lemma {:induction false} PosoSymbolsOther(symbols: SymbolTable, nLabels: nat, nVars: nat, n: nat, name: string)
    requires forall i :: 0 <= i < n ==> name != PosoName(i)
    ensures name in PosoSymbols(symbols, nLabels, nVars, n) <==> name in symbols
    ensures name in symbols ==> PosoSymbols(symbols, nLabels, nVars, n)[name] == symbols[name]
  {
    if n > 0 {
      PosoSymbolsOther(symbols, nLabels, nVars, n - 1, name);
    }
  }

  lemma {:induction false} BitSymbolsRowAt(symbols: SymbolTable, nLabels: nat, nVars: nat, i: nat, j: nat, t: nat)
    requires 1 <= t <= j
    ensures BitName(i, t) in BitSymbolsRow(symbols, nLabels, nVars, i, j)
    ensures BitSymbolsRow(symbols, nLabels, nVars, i, j)[BitName(i, t)]
         == Symbol(Int(Slot(nLabels, i) + t), Int(Slot(nVars, i) + t), Int(Component))
  {
    if t < j {
      BitSymbolsRowAt(symbols, nLabels, nVars, i, j - 1, t);
      if BitName(i, j) == BitName(i, t) {
        BitNameInjective(i, j, i, t);
      }
    }
  }

  lemma {:induction false} BitSymbolsRowOther(symbols: SymbolTable, nLabels: nat, nVars: nat, i: nat, j: nat, name: string)
    requires forall t :: 1 <= t <= j ==> name != BitName(i, t)
    ensures name in BitSymbolsRow(symbols, nLabels, nVars, i, j) <==> name in symbols
    ensures name in symbols ==> BitSymbolsRow(symbols, nLabels, nVars, i, j)[name] == symbols[name]
  {
    if j > 0 {
      BitSymbolsRowOther(symbols, nLabels, nVars, i, j - 1, name);
    }
  }

  /** `PoSO.Bits[i][t]` is registered at index `t` of repetition `i`'s block. */
  lemma {:induction false} BitSymbolAt(symbols: SymbolTable, nLabels: nat, nVars: nat, n: nat, i: nat, t: nat)
    requires i < n && 1 <= t <= PosoBound
    ensures BitName(i, t) in BitSymbols(symbols, nLabels, nVars, n)
    ensures BitSymbols(symbols, nLabels, nVars, n)[BitName(i, t)]
         == Symbol(Int(Slot(nLabels, i) + t), Int(Slot(nVars, i) + t), Int(Component))
  {
    var prev := BitSymbols(symbols, nLabels, nVars, n - 1);
    if i == n - 1 {
      BitSymbolsRowAt(prev, nLabels, nVars, i, PosoBound, t);
    } else {
      var last := n - 1;
      BitSymbolAt(symbols, nLabels, nVars, last, i, t);
      forall t' | 1 <= t' <= PosoBound
        ensures BitName(i, t) != BitName(last, t')
      {
        if BitName(i, t) == BitName(last, t') {
          BitNameInjective(i, t, last, t');
        }
      }
      BitSymbolsRowOther(prev, nLabels, nVars, last, PosoBound, BitName(i, t));
    }
  }

  lemma {:induction false} BitSymbolsOther(symbols: SymbolTable, nLabels: nat, nVars: nat, n: nat, name: string)
    requires forall i, t :: 0 <= i < n && 1 <= t <= PosoBound ==> name != BitName(i, t)
    ensures name in BitSymbols(symbols, nLabels, nVars, n) <==> name in symbols
    ensures name in symbols ==> BitSymbols(symbols, nLabels, nVars, n)[name] == symbols[name]
  {
    if n > 0 {
      BitSymbolsOther(symbols, nLabels, nVars, n - 1, name);
      BitSymbolsRowOther(BitSymbols(symbols, nLabels, nVars, n - 1), nLabels, nVars, n - 1, PosoBound, name);
    }
  }

  /** After `add_poso` the table holds `PoSO[i]` at the start of block `i`,
      `PoSO.Bits[i][t]` at its offset `t`, and every other name as before. */
  lemma GadgetSymbolsLookup(symbols: SymbolTable, nLabels: nat, nVars: nat, name: string)
    ensures forall i :: 0 <= i < Reps ==>
              PosoName(i) in GadgetSymbols(symbols, nLabels, nVars) &&
              GadgetSymbols(symbols, nLabels, nVars)[PosoName(i)]
                == Symbol(Int(Slot(nLabels, i)), Int(Slot(nVars, i)), Int(Component))
    ensures forall i, t :: 0 <= i < Reps && 1 <= t <= PosoBound ==>
              BitName(i, t) in GadgetSymbols(symbols, nLabels, nVars) &&
              GadgetSymbols(symbols, nLabels, nVars)[BitName(i, t)]
                == Symbol(Int(Slot(nLabels, i) + t), Int(Slot(nVars, i) + t), Int(Component))
    ensures (forall i :: 0 <= i < Reps ==> name != PosoName(i)) &&
            (forall i, t :: 0 <= i < Reps && 1 <= t <= PosoBound ==> name != BitName(i, t)) ==>
              (name in GadgetSymbols(symbols, nLabels, nVars) <==> name in symbols) &&
              (name in symbols ==> GadgetSymbols(symbols, nLabels, nVars)[name] == symbols[name])
  {
    var mid := PosoSymbols(symbols, nLabels, nVars, Reps);
    forall i | 0 <= i < Reps
      ensures PosoName(i) in GadgetSymbols(symbols, nLabels, nVars)
      ensures GadgetSymbols(symbols, nLabels, nVars)[PosoName(i)]
           == Symbol(Int(Slot(nLabels, i)), Int(Slot(nVars, i)), Int(Component))
    {
      PosoSymbolAt(symbols, nLabels, nVars, Reps, i);
      forall i', t | 0 <= i' < Reps && 1 <= t <= PosoBound
        ensures PosoName(i) != BitName(i', t)
      {
        NamesDistinct(i, i', t, 0);
      }
      BitSymbolsOther(mid, nLabels, nVars, Reps, PosoName(i));
    }
    forall i, t | 0 <= i < Reps && 1 <= t <= PosoBound
      ensures BitName(i, t) in GadgetSymbols(symbols, nLabels, nVars)
      ensures GadgetSymbols(symbols, nLabels, nVars)[BitName(i, t)]
           == Symbol(Int(Slot(nLabels, i) + t), Int(Slot(nVars, i) + t), Int(Component))
    {
      BitSymbolAt(mid, nLabels, nVars, Reps, i, t);
    }
    if (forall i :: 0 <= i < Reps ==> name != PosoName(i)) &&
       (forall i, t :: 0 <= i < Reps && 1 <= t <= PosoBound ==> name != BitName(i, t)) {
      PosoSymbolsOther(symbols, nLabels, nVars, Reps, name);
      BitSymbolsOther(mid, nLabels, nVars, Reps, name);
    }
  }
}
