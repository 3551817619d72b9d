/// Rank-1 constraint systems over the BN254 scalar field: linear
/// combinations, constraints and what it means for a witness to satisfy
/// one.  Shared by the packer, the counting script and the bound checks.
module R1cs {

  /** The BN254 scalar field modulus `p`. */
  const P: nat := 21888242871839275222246405745257275088548364400416034343698204186575808495617

  /** The field element -1, written into constraints as `minus_one`. */
  const MinusOne: nat := 21888242871839275222246405745257275088548364400416034343698204186575808495616

  /** A sparse linear combination: variable index to coefficient. */
  type LinComb = map<nat, nat>

  /** One constraint `(A·w) * (B·w) = C·w`. */
  datatype Constraint = Constraint(a: LinComb, b: LinComb, c: LinComb)

  /** Selects one of the three linear combinations of a constraint. */
  datatype Matrix = A | B | C

  function Row(con: Constraint, m: Matrix): LinComb
  {
    match m
    case A => con.a
    case B => con.b
    case C => con.c
  }

  /** The coefficient of variable `k`, zero when the key is absent. */
  function Coef(lc: LinComb, k: nat): nat
  {
    if k in lc then lc[k] else 0
  }

  /** The partial evaluation `Σ_{k < n} lc[k] * w[k]`. */
  function Dot(lc: LinComb, w: seq<int>, n: nat): int
    requires n <= |w|
  {
    if n == 0 then 0 else Dot(lc, w, n - 1) + Coef(lc, n - 1) * w[n - 1]
  }

  /** `lc · w` over the integers; reduce modulo `P` to get the field value. */
  function Eval(lc: LinComb, w: seq<int>): int
  {
    Dot(lc, w, |w|)
  }

  /** Every variable index the linear combination mentions is below `n`. */
  predicate KeysBelow(lc: LinComb, n: nat)
  {
    forall k :: k in lc ==> k < n
  }

  /** Every constraint mentions only variable indices below `n`. */
  predicate AllKeysBelow(cs: seq<Constraint>, n: nat)
  {
    forall i, m :: 0 <= i < |cs| ==> KeysBelow(Row(cs[i], m), n)
  }

  lemma AllKeysBelowAppend(cs1: seq<Constraint>, cs2: seq<Constraint>, n: nat)
    requires AllKeysBelow(cs1, n) && AllKeysBelow(cs2, n)
    ensures AllKeysBelow(cs1 + cs2, n)
  {
    forall i, m | 0 <= i < |cs1 + cs2|
      ensures KeysBelow(Row((cs1 + cs2)[i], m), n)
    {
      if i < |cs1| {
        assert (cs1 + cs2)[i] == cs1[i];
      } else {
        assert (cs1 + cs2)[i] == cs2[i - |cs1|];
      }
    }
  }

  /** The witness satisfies the constraint modulo `P`. */
  predicate Satisfies(con: Constraint, w: seq<int>)
  {
    (Eval(con.a, w) * Eval(con.b, w) - Eval(con.c, w)) % P == 0
  }

  lemma {:induction false} DotEmpty(w: seq<int>, n: nat)
    requires n <= |w|
    ensures Dot(map[], w, n) == 0
  {
    if n > 0 {
      DotEmpty(w, n - 1);
    }
  }

  /** Setting one coefficient changes the evaluation by exactly that term. */
  lemma {:induction false} DotUpdate(lc: LinComb, k: nat, v: nat, w: seq<int>, n: nat)
    requires n <= |w|
    ensures Dot(lc[k := v], w, n)
         == Dot(lc, w, n) + (if k < n then (v - Coef(lc, k)) * w[k] else 0)
  {
    if n > 0 {
      DotUpdate(lc, k, v, w, n - 1);
      if k == n - 1 {
        calc {
          Coef(lc[k := v], k) * w[k] - Coef(lc, k) * w[k];
          (v - Coef(lc, k)) * w[k];
        }
      }
    }
  }

  lemma EvalEmpty(w: seq<int>)
    ensures Eval(map[], w) == 0
  {
    DotEmpty(w, |w|);
  }

  /** Adding a multiple of `P` does not change a residue. */
  lemma ModAddMultiple(x: int, k: int)
    ensures (x + k * P) % P == x % P
  {
  }

  /** Congruence modulo `P` as a difference. */
  lemma ModEqIff(x: int, y: int)
    ensures (x - y) % P == 0 <==> x % P == y % P
  {
    var qx, rx := x / P, x % P;
    var qy, ry := y / P, y % P;
    assert x - y == (qx - qy) * P + (rx - ry);
    ModAddMultiple(rx - ry, qx - qy);
  }

  /** A constraint whose A and B are empty is satisfied iff `C·w ≡ 0`. */
  lemma SatisfiesLinear(con: Constraint, w: seq<int>)
    requires con.a == map[] && con.b == map[]
    ensures Satisfies(con, w) <==> Eval(con.c, w) % P == 0
  {
    EvalEmpty(w);
  }
}
