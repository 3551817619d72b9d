/// The packer's in-place extension of a loaded constraint system: `add_k`
/// gives every constraint a quotient slot, `add_poso` appends the
/// Proof-of-Small-Opening gadget.  Both update the instance's fields and
/// its symbol table as the source does.
module Packer {
  import opened Arith
  import opened Text
  import opened R1cs
  import opened PackerParams
  import opened SymbolFile
  import opened Extension

  /** A loaded constraint system together with its symbol table. */
  class R1CS {
    var nConstraints: nat
    var nVars: nat
    var nLabels: nat
    var constraints: seq<Constraint>
    var symbols: SymbolTable

    /** The header agrees with the constraints, there are no fewer labels than
        variables, and every index a constraint mentions is below `nLabels`. */
    ghost predicate Valid()
      reads this
    {
      nConstraints == |constraints| && nVars <= nLabels && AllKeysBelow(constraints, nLabels)
    }

    /** The instance as the constraint-system reader and the symbol-file reader deliver it. */
    constructor (nConstraints: nat, nVars: nat, nLabels: nat, constraints: seq<Constraint>, symbols: SymbolTable)
      ensures this.nConstraints == nConstraints && this.nVars == nVars && this.nLabels == nLabels
      ensures this.constraints == constraints && this.symbols == symbols
      ensures Valid() <==> nConstraints == |constraints| && nVars <= nLabels && AllKeysBelow(constraints, nLabels)
    {
      this.nConstraints := nConstraints;
      this.nVars := nVars;
      this.nLabels := nLabels;
      this.constraints := constraints;
      this.symbols := symbols;
    }

    /** `add_k`: constraint `i` gets coefficient `q` on the new label `nLabels + i`
        in C, symbol `k[i]` is registered, and both counts grow by the number of
        constraints. */
    method AddK()
      requires Valid()
      modifies this
      ensures Valid()
      ensures constraints == WithQuotients(old(constraints), old(nLabels))
      ensures symbols == KSymbols(old(symbols), old(nLabels), old(nVars), |old(constraints)|)
      ensures nLabels == old(nLabels) + |old(constraints)|
      ensures nVars == old(nVars) + |old(constraints)|
      ensures nConstraints == old(nConstraints)
    {
      var cs, syms := AddQuotients(constraints, symbols, nLabels, nVars);
      QuotientKeysBelow(constraints, nLabels);
      var counter := |constraints|;
      constraints, symbols := cs, syms;
      nLabels := nLabels + counter;
      nVars := nVars + counter;
    }

    /** `add_poso`: appends `reps` PoSO constraints, `reps * poso_bound` bit
        constraints and `reps` recombinations, registers their symbols, and
        reserves `reps * (poso_bound + 1)` new labels and variables.
        `coeffs[i][j]` is the random coefficient repetition `i` draws for variable `j`. */
    method AddPoso(coeffs: seq<seq<nat>>)
      requires Valid()
      requires |coeffs| == Reps
      requires forall i :: 0 <= i < Reps ==> |coeffs[i]| == nVars
      requires forall i, j :: 0 <= i < Reps && 0 <= j < |coeffs[i]| ==> coeffs[i][j] <= 256
      modifies this
      ensures Valid()
      ensures constraints == old(constraints) + PosoGadget(old(nLabels), coeffs)
      ensures symbols == GadgetSymbols(old(symbols), old(nLabels), old(nVars))
      ensures nConstraints == old(nConstraints) + Reps * (PosoBound + 2)
      ensures nLabels == old(nLabels) + Reps * (PosoBound + 1)
      ensures nVars == old(nVars) + Reps * (PosoBound + 1)
    {
      var cs, syms := AppendPosoChecks(constraints, symbols, nLabels, nVars, coeffs);
      cs, syms := AppendBitRows(cs, syms, nLabels, nVars);
      cs := AppendRecombinations(cs, nLabels);
      assert cs == constraints + PosoGadget(nLabels, coeffs);
      GadgetLayout(nLabels, coeffs);
      GadgetKeysBelow(nLabels, nVars, coeffs);
      AllKeysBelowAppend(constraints, PosoGadget(nLabels, coeffs), nLabels + Reps * (PosoBound + 1));
      constraints, symbols := cs, syms;
      nConstraints := nConstraints + Reps * (1 + PosoBound + 1);
      nLabels := nLabels + Reps * (PosoBound + 1);
      nVars := nVars + Reps * (PosoBound + 1);
    }
  }

  /** The loop of `add_k`: constraint `counter` gets `q` on label
      `base + counter` in C, and symbol `k[counter]` is registered. */
  method AddQuotients(cs0: seq<Constraint>, syms0: SymbolTable, base: nat, vars: nat)
    returns (cs: seq<Constraint>, syms: SymbolTable)
    ensures cs == WithQuotients(cs0, base)
    ensures syms == KSymbols(syms0, base, vars, |cs0|)
  {
    cs, syms := cs0, syms0;
    var counter := 0;
    while counter < |cs|
      invariant 0 <= counter <= |cs| == |cs0|
      invariant cs == WithQuotients(cs0, base)[..counter] + cs0[counter..]
      invariant syms == KSymbols(syms0, base, vars, counter)
    {
      QuotientStep(cs0, base, counter);
      var t1 := cs[counter];
      cs := cs[counter := t1.(c := t1.c[counter + base := Q])];
      syms := syms[KName(counter) := Symbol(Int(counter + base), Int(vars + counter), Int(Component))];
      counter := counter + 1;
    }
    QuotientDone(cs0, base);
  }

  /** The first loop of `add_poso`: one PoSO constraint per repetition, with
      `-1` on the PoSO slot and the drawn coefficients on the witness variables. */
  method AppendPosoChecks(cs0: seq<Constraint>, syms0: SymbolTable, base: nat, vars: nat, coeffs: seq<seq<nat>>)
    returns (cs: seq<Constraint>, syms: SymbolTable)
    requires |coeffs| == Reps
    requires forall i :: 0 <= i < Reps ==> |coeffs[i]| == vars
    ensures cs == cs0 + PosoChecks(base, coeffs, Reps)
    ensures syms == PosoSymbols(syms0, base, vars, Reps)
  {
    cs, syms := cs0, syms0;
    var i := 0;
    while i < Reps
      invariant 0 <= i <= Reps
      invariant cs == cs0 + PosoChecks(base, coeffs, i)
      invariant syms == PosoSymbols(syms0, base, vars, i)
    {
      var tc := PosoCheck(base + i * (PosoBound + 1), coeffs[i]);
      cs := cs + [tc];
      syms := syms[PosoName(i) := Symbol(Int(base + i * (PosoBound + 1)), Int(vars + i * (PosoBound + 1)), Int(Component))];
      PosoChecksStep(base, coeffs, i);
      i := i + 1;
    }
  }

  /** The body of the first loop: `-1` on the PoSO slot, then coefficient
      `coefs[j]` on each witness variable `j`. */
  method PosoCheck(slot: nat, coefs: seq<nat>) returns (tc: Constraint)
    ensures tc == PosoConstraint(slot, coefs)
  {
    tc := Constraint(map[], map[], map[]);
    tc := tc.(c := tc.c[slot := MinusOne]);
    var j := 0;
    while j < |coefs|
      invariant 0 <= j <= |coefs|
      invariant tc == Constraint(map[], map[], PosoC(slot, coefs, j))
    {
      tc := tc.(c := tc.c[j := coefs[j]]);
      j := j + 1;
    }
  }

  /** The second loop of `add_poso`: `poso_bound` booleanity constraints per
      repetition, one per bit variable, each registered as `PoSO.Bits[i][j]`. */
  method AppendBitRows(cs0: seq<Constraint>, syms0: SymbolTable, base: nat, vars: nat)
    returns (cs: seq<Constraint>, syms: SymbolTable)
    ensures cs == cs0 + BitRows(base, Reps)
    ensures syms == BitSymbols(syms0, base, vars, Reps)
  {
    cs, syms := cs0, syms0;
    var i := 0;
    while i < Reps
      invariant 0 <= i <= Reps
      invariant cs == cs0 + BitRows(base, i)
      invariant syms == BitSymbols(syms0, base, vars, i)
    {
      ghost var before := cs;
      cs, syms := AppendBitRow(cs, syms, base, vars, i);
      assert cs == before + BitRow(base, i);
      i := i + 1;
    }
  }

  /** The inner loop of the second loop: bits `1 .. poso_bound` of repetition `i`. */
  method AppendBitRow(cs0: seq<Constraint>, syms0: SymbolTable, base: nat, vars: nat, i: nat)
    returns (cs: seq<Constraint>, syms: SymbolTable)
    ensures cs == cs0 + BitRow(base, i)
    ensures syms == BitSymbolsRow(syms0, base, vars, i, PosoBound)
  {
    cs, syms := cs0, syms0;
    var j := 1;
    while j <= PosoBound
      invariant 1 <= j <= PosoBound + 1
      invariant cs == cs0 + BitRow(base, i)[..j - 1]
      invariant syms == BitSymbolsRow(syms0, base, vars, i, j - 1)
    {
      var x := base + i * (PosoBound + 1) + j;
      var tc := Constraint(map[0 := MinusOne][x := 1], map[x := 1], map[]);
      cs := cs + [tc];
      syms := syms[BitName(i, j) := Symbol(Int(x), Int(vars + i * (PosoBound + 1) + j), Int(Component))];
      BitRowStep(base, i, j);
      j := j + 1;
    }
    assert BitRow(base, i)[..PosoBound] == BitRow(base, i);
  }

  /** The third loop of `add_poso`: per repetition, the PoSO slot equals
      `Σ 2^(j-1) * bit_j`; it registers no symbols. */
  method AppendRecombinations(cs0: seq<Constraint>, base: nat) returns (cs: seq<Constraint>)
    ensures cs == cs0 + Recombinations(base, Reps)
  {
    cs := cs0;
    var i := 0;
    while i < Reps
      invariant 0 <= i <= Reps
      invariant cs == cs0 + Recombinations(base, i)
    {
      var slot := base + i * (PosoBound + 1);
      var tc := Constraint(map[], map[], map[]);
      tc := tc.(c := tc.c[slot := MinusOne]);
      var j := 1;
      while j <= PosoBound
        invariant 1 <= j <= PosoBound + 1
        invariant tc == Constraint(map[], map[], RecombC(slot, j - 1))
      {
        tc := tc.(c := tc.c[slot + j := Pow(2, j - 1)]);
        j := j + 1;
      }
      cs := cs + [tc];
      assert Recombinations(base, i + 1) == Recombinations(base, i) + [tc];
      i := i + 1;
    }
  }
}
