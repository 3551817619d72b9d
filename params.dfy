/// The packer's fixed parameters: the packing moduli, their product `q`,
/// and the shape of the Proof-of-Small-Opening gadget.
module PackerParams {
  import opened Arith

  /** Number of witnesses packed together (`pf`). */
  const Pf: nat := 11

  /** Statistical security parameter (`sec_lambda`); no computation reads it. */
  const SecLambda: nat := 80

  /** Independent repetitions of the PoSO check (`reps`). */
  const Reps: nat := 10

  /** Bits in each PoSO decomposition (`poso_bound`). */
  const PosoBound: nat := 23 + 93

  /** The small packing moduli (`pi`). */
  const Pi: seq<nat> := [263, 269, 271, 277, 281, 283, 293, 307, 311, 313, 317]

  /** The packing modulus (`q`), written out as the source writes it. */
  const Q: nat := 263 * 269 * 271 * 277 * 281 * 283 * 293 * 307 * 311 * 313 * 317

  function Product(s: seq<nat>): nat
  {
    if s == [] then 1 else s[0] * Product(s[1..])
  }

  /** `2^93`, the bound the source asserts on `q`. */
  lemma TwoTo93()
    ensures Pow(2, 93) == 9903520314283042199192993792
  {
    assert Pow(2, 8) == 256;
    assert Pow(2, 5) == 32;
    PowAdd(2, 8, 8);
    PowAdd(2, 16, 16);
    PowAdd(2, 32, 32);
    PowAdd(2, 64, 16);
    PowAdd(2, 80, 8);
    PowAdd(2, 88, 5);
  }

  lemma QIsProduct()
    ensures Q == Product(Pi)
  {
    assert Product(Pi[10..]) == 317;
  }

  /** `q` is the product of the `pf` moduli and fits in 93 bits. */
  lemma PackingModulus()
    ensures |Pi| == Pf && Q == Product(Pi)
    ensures Q < Pow(2, 93)
  {
    QIsProduct();
    assert Q == 1172248885422611971256631487;
    TwoTo93();
  }
}
