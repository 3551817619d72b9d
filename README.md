# packR1CS in Dafny

This project models the packing pre-processor of packR1CS. The model covers four parts.

- **Packer** (`scripts/packer.js`). The packer takes a rank-1 constraint system (R1CS) over the BN254 scalar field together with the symbol table the circuit compiler wrote for it.
  - `add_k` gives every constraint a fresh quotient slot in C, with coefficient `q`, the product of eleven small primes.
  - `add_poso` appends the Proof-of-Small-Opening (PoSO) gadget: `reps` random linear checks, `reps * poso_bound` booleanity constraints and `reps` recombinations.
  - Both operations register the new variables in the symbol table.
- **Witness writer** (`scripts/write_witness.js`). `witnessFromJSON` lays witness values out as the 32-bit words of a `.wtns` file.
- **Counting** (`scripts/nonzero_count.js`). `nonzero_count` counts the stored entries of A, B and C.
- **Bound checks** (`scripts/test_subcircuit.js`). The sub-circuit test reduces every field element to its absolute representative `min(x, p - x)` and reports the largest one.

The modules:

- `R1cs` (`r1cs.dfy`): linear combinations as `map<nat, nat>`, constraints, and what it means for a witness to satisfy a constraint modulo `p`.
- `PackerParams` (`params.dfy`): the fixed constants `pf`, `sec_lambda`, `reps`, `poso_bound`, `pi` and `q`.
- `Text` (`text.dfy`): `toString(base)`, `parseInt`, `split` and `Number()` on the strings the scripts handle.
- `SymbolFile` (`symbol_file.dfy`): the symbol-file half of `read_files`.
- `Extension` (`extension.dfy`): value-level definitions of what `add_k` and `add_poso` produce, and the properties of those constraints and symbols.
- `Packer` (`packer.dfy`): the class `R1CS`, whose methods `AddK` and `AddPoso` update its fields in place, as the script updates the `r1cs` object. The `add_poso` loops are separate methods on values, and `AddPoso` calls them in order.
- `Wtns` (`wtns.dfy`): the buffer fill of `witnessFromJSON`, on an `array<uint32>`, proved against the function `WtnsWords`. It also holds lemmas reading the words back.
- `NonzeroCount` (`nonzero_count.dfy`): the three counting loops, and what `add_k` and `add_poso` do to the counts.
- `BoundCheck` (`bound_check.dfy`): `bigIntMax`, the representative, and both bound checks. A JavaScript `Set` is modelled as a duplicate-free sequence in insertion order.

## Model

| member | source | states |
|---|---|---|
| PackerParams.QIsProduct | scripts/packer.js:11-14 | `q` is the product of the entries of `pi` |
| PackerParams.PackingModulus | scripts/packer.js:7-15 | `pi` has `pf = 11` entries, `q` is their product, and `q < 2^93`, so the assertion holds |
| Text.FromToBase | scripts/write_witness.js:69-71 | reading the digits of `n.toString(base)` back with `parseInt` gives `n` |
| Text.ToBaseLength | scripts/write_witness.js:37-39 | `n.toString(base)` has at most `k` digits exactly when `n < base^k` |
| Text.FromBaseBound | scripts/write_witness.js:71 | a string of `k` digits parses to a value below `base^k` |
| Text.JoinSplit | scripts/packer.js:29 | joining the pieces of `split(d)` with `d` restores the text |
| Text.SplitPiecesFree | scripts/packer.js:29 | no piece of `split(d)` contains `d` |
| Text.ParseDecimal | scripts/packer.js:36-38 | `Number` reads back the decimal text of `n` and of `-n` |
| Text.DecimalInjective | scripts/packer.js:50 | distinct numbers have distinct decimal texts |
| SymbolFile.ReadSymbols | scripts/packer.js:28-40 | the loop builds exactly `ParseLines` of the newline-split text: each 4-field line is stored under field 4, with `Number` of fields 1-3 |
| SymbolFile.ParseLinesDomain | scripts/packer.js:32-39 | a name is in the table if and only if some line is a 4-field record with that name |
| SymbolFile.ParseLinesLast | scripts/packer.js:35-39 | a record with no later record of the same name is the table's entry for that name, so later lines overwrite earlier ones |
| SymbolFile.NamesAreFieldFree | scripts/packer.js:29-35 | no key of the table contains a comma or a newline |
| Extension.QuotientSlots | scripts/packer.js:48-49 | constraint `i` keeps its A and B and gains `nLabels + i ↦ q` in C; on a well-formed system that key is new, so C grows by one |
| Extension.QuotientKeysBelow | scripts/packer.js:49-54 | after `add_k` every index is below the new `nLabels` |
| Extension.QuotientSatisfies | scripts/packer.js:49 | the extended constraint holds exactly when `A·w * B·w - C·w ≡ q * w[slot]` modulo `p` |
| Extension.KNameInjective | scripts/packer.js:50 | distinct counters give distinct names `k[i]` |
| Extension.KSymbolAt | scripts/packer.js:50 | `k[i]` is registered as `{nLabels + i, nVars + i, 6}` |
| Extension.KSymbolsOther | scripts/packer.js:50 | every other name keeps its presence and its entry |
| Extension.SlotsOrdered | scripts/packer.js:80 | repetition `i`'s block ends before the block of any later repetition starts |
| Extension.BlocksDisjoint | scripts/packer.js:60-100 | the index blocks of two repetitions are disjoint, and every block lies in `[nLabels, nLabels + reps * (poso_bound + 1))` |
| Extension.PosoCEntries | scripts/packer.js:63-68 | the PoSO C has exactly the slot and variables `0 .. n-1` as keys, with coefficient `coefs[j]` on `j` and `-1` on the slot |
| Extension.RecombCEntries | scripts/packer.js:90-94 | the recombination C has exactly the keys `slot .. slot + j`, with `-1` on the slot and `2^(t - slot - 1)` on each bit |
| Extension.BitRowsAt | scripts/packer.js:75-86 | the bit constraints of `n` repetitions number `n * poso_bound`, and bit `k + 1` of repetition `i` sits at `i * poso_bound + k` |
| Extension.BitRowsLength | scripts/packer.js:75-86 | there are `n * poso_bound` bit constraints after `n` repetitions |
| Extension.GadgetLayout | scripts/packer.js:62-96 | the gadget has `reps * (poso_bound + 2)` constraints: the PoSO checks first, then the bits in order, then the recombinations |
| Extension.GadgetKeysBelow | scripts/packer.js:62-100 | every index the gadget mentions is below the new `nLabels` |
| Extension.BitRowsKeysBelow | scripts/packer.js:80-81 | every bit constraint's indices are below the new `nLabels` |
| Extension.PosoCEval | scripts/packer.js:63-68 | the PoSO C evaluates to the weighted sum of the witness minus `w[slot]` |
| Extension.RecombCEval | scripts/packer.js:90-94 | the recombination C evaluates to `Σ 2^(t-1) * w[slot + t]` minus `w[slot]` |
| Extension.MinusOneCancels | scripts/packer.js:18 | `minus_one * x + y ≡ 0` holds exactly when `x ≡ y` modulo `p` |
| Extension.PosoSatisfies | scripts/packer.js:63-70 | a PoSO constraint holds exactly when `w[slot] ≡ Σ coefs[j] * w[j]` |
| Extension.RecombinationSatisfies | scripts/packer.js:89-96 | a recombination holds exactly when `w[slot] ≡ Σ_{t=1..poso_bound} 2^(t-1) * w[slot + t]` |
| Extension.BitSatisfies | scripts/packer.js:76-83 | with `w[0] = 1`, a bit constraint holds exactly when `w[x] * (w[x] - 1) ≡ 0` |
| Extension.BooleanBitSatisfies | scripts/packer.js:76-83 | with `w[0] = 1`, a bit constraint on a 0/1 value holds |
| Extension.PosoCoefficients | scripts/packer.js:63-68 | a PoSO constraint has empty A and B, holds `-1` on its slot, and has a coefficient in `[0, 256]` on each witness variable and on no other index |
| Extension.PosoNameInjective | scripts/packer.js:71 | distinct repetitions give distinct names `PoSO[i]` |
| Extension.BitNameInjective | scripts/packer.js:84 | distinct `(i, j)` give distinct names `PoSO.Bits[i][j]` |
| Extension.NamesDistinct | scripts/packer.js:50-84 | the names `k[n]`, `PoSO[i]` and `PoSO.Bits[i][j]` never coincide |
| Extension.PosoSymbolAt | scripts/packer.js:71 | `PoSO[i]` is registered at the first index of its block, for both label and variable |
| Extension.PosoSymbolsOther | scripts/packer.js:71 | registering the PoSO names changes no other name |
| Extension.BitSymbolsRowAt | scripts/packer.js:84 | within one repetition, bit `t` is registered at offset `t` of the block |
| Extension.BitSymbolsRowOther | scripts/packer.js:84 | one repetition's bit names change no other name |
| Extension.BitSymbolAt | scripts/packer.js:84 | `PoSO.Bits[i][t]` is registered at offset `t` of block `i`, and later repetitions do not overwrite it |
| Extension.BitSymbolsOther | scripts/packer.js:84 | the bit names of all repetitions change no other name |
| Extension.GadgetSymbolsLookup | scripts/packer.js:71-84 | after `add_poso` the table holds every PoSO name and every bit name at its index, and every other name as before |
| Packer.R1CS.constructor | scripts/packer.js:21-43 | the instance holds the counts, constraints and symbols as read, and it is well formed exactly when the three conditions of `Valid` hold for them |
| Packer.R1CS.AddK | scripts/packer.js:45-58 | the constraints become `WithQuotients` of the old ones, and `k[i]` is registered; `nLabels` and `nVars` grow by the number of constraints, `nConstraints` is unchanged, and well-formedness is kept |
| Packer.AddQuotients | scripts/packer.js:48-52 | the `add_k` loop produces `WithQuotients` of the constraints and the `k[i]` symbols |
| Packer.R1CS.AddPoso | scripts/packer.js:60-103 | the old constraints are followed by the gadget, and the PoSO and bit symbols are registered; `nConstraints` grows by `reps * (poso_bound + 2)`, `nLabels` and `nVars` by `reps * (poso_bound + 1)`, and well-formedness is kept |
| Packer.AppendPosoChecks | scripts/packer.js:62-72 | the first loop appends the `reps` PoSO constraints and registers `PoSO[i]` |
| Packer.PosoCheck | scripts/packer.js:63-68 | one pass builds exactly the PoSO constraint for its slot and coefficients |
| Packer.AppendBitRows | scripts/packer.js:75-86 | the second loop appends all bit constraints in order and registers their names |
| Packer.AppendBitRow | scripts/packer.js:76-85 | the inner loop appends bits `1 .. poso_bound` of one repetition |
| Packer.AppendRecombinations | scripts/packer.js:89-96 | the third loop appends the `reps` recombinations |
| Wtns.Slice | scripts/write_witness.js:71 | `slice` clamps to the string: empty past the end, full width inside it, otherwise the tail |
| Wtns.ParseHex | scripts/write_witness.js:71 | `parseInt(s, 16)` is NaN exactly for the empty slice |
| Wtns.ToUint32 | scripts/write_witness.js:71 | a `Uint32Array` store keeps a 32-bit value and turns NaN into 0 |
| Wtns.BytesWord | scripts/write_witness.js:19-23 | the word's lowest byte is the first byte written and its highest byte is the last |
| Wtns.WitnessFromJSON | scripts/write_witness.js:16-74 | a fresh buffer is returned, and its words are exactly `WtnsWords(values)` |
| Wtns.WriteHeader | scripts/write_witness.js:19-64 | words `0 .. 18` are the header and every later word is kept |
| Wtns.WritePreamble | scripts/write_witness.js:19-42 | words `0 .. 6` are the preamble and every later word is kept |
| Wtns.WritePrime | scripts/write_witness.js:45-48 | the prime loop copies the eight prime words and keeps every earlier and every later word |
| Wtns.WriteCounts | scripts/write_witness.js:52-64 | the four count words follow and every earlier and every later word is kept |
| Wtns.WriteElements | scripts/write_witness.js:66-74 | after the prefix, the buffer holds the words of every value in order |
| Wtns.WriteElement | scripts/write_witness.js:68-73 | one pass appends the eight words of its value |
| Wtns.WriteHexWords | scripts/write_witness.js:70-72 | word `j` is the parsed hex slice `[8j, 8j + 8)` |
| Wtns.PreambleWords | scripts/write_witness.js:19-42 | the preamble is `"wtns"`, version 2, 2 sections, section id 1, length 40 as the words 40 and 0, and `n8 = 32` |
| Wtns.PrimeWordsValue | scripts/write_witness.js:4-6 | the prime words read little-endian are `p`, and they are exactly its eight limbs |
| Wtns.CountWords | scripts/write_witness.js:52-64 | word 15 is `n mod 2^32` and word 16 is 2; when `32n < 2^32`, word 17 is `32n` and word 18 is 0 |
| Wtns.ElementsAt | scripts/write_witness.js:67-74 | value `i` occupies words `8i .. 8i + 7` of section 2 |
| Wtns.WtnsLayout | scripts/write_witness.js:16-74 | the buffer has `8n + 19` words: the fixed preamble, the prime, the counts, and value `i` at `19 + 8i` |
| Wtns.ShortHex | scripts/write_witness.js:69-71 | for a value below `2^32`, word 0 is the value and every later slice is empty, so reads as 0 |
| Wtns.SmallElement | scripts/write_witness.js:69-72 | a value below `2^32` is written as itself followed by seven zero words |
| Wtns.FullChunk | scripts/write_witness.js:71 | a slice inside the hex string reads as the value of its eight digits |
| Wtns.FullSlices | scripts/write_witness.js:70-72 | for 64 digits, the first `k` words read most significant first give the first `8k` digits |
| Wtns.FullWidthElement | scripts/write_witness.js:69-72 | a value with exactly 64 hex digits is written as its words, most significant first |
| Wtns.LimbsRoundTrip | scripts/write_witness.js:4-6 | `k` little-endian limbs read back as the value modulo `2^(32k)` |
| Wtns.LittleEndianLimbs | scripts/write_witness.js:4-6 | splitting the little-endian value of a word sequence into limbs gives the words back |
| Wtns.EncodingCollision | scripts/write_witness.js:69-72 | `2^28` and `2^32` are written as the same eight words |
| Wtns.AsWrittenMisreads | scripts/write_witness.js:69-72 | read in little-endian order, the words written for `2^32` give `2^28`, and they differ from its limbs |
| Wtns.IntendedElementWords | scripts/write_witness.js:4-6 | the intended layout is eight limbs, least significant first, that read back exactly |
| Wtns.IntendedInjective | scripts/write_witness.js:69-72 | the intended layout keeps distinct values apart |
| Wtns.SmallElementIntended | scripts/write_witness.js:69-72 | below `2^32` the words written agree with the intended layout |
| Wtns.LimbsExact | scripts/write_witness.js:4-6 | eight limbs of a value below `2^256` read back exactly |
| NonzeroCount.NonzeroCount | scripts/nonzero_count.js:13-30 | `na`, `nb` and `nc` are the numbers of keys of A, B and C over all constraints, the total is their sum, and it is 0 for no constraints |
| NonzeroCount.CountAppend | scripts/nonzero_count.js:13-28 | each count is additive over concatenated constraint lists |
| NonzeroCount.CountUniform | scripts/nonzero_count.js:13-28 | when every constraint has `k` keys in a matrix, that count is `k` times the number of constraints |
| NonzeroCount.CountQuotients | scripts/nonzero_count.js:25-28 | after `add_k` on a well-formed system, C has one more entry per constraint and A and B are unchanged |
| NonzeroCount.PosoCSize | scripts/packer.js:63-68 | a PoSO C has `nVars + 1` entries |
| NonzeroCount.RecombCSize | scripts/packer.js:90-94 | a recombination C has `j + 1` entries |
| NonzeroCount.BitConstraintSize | scripts/packer.js:79-81 | a bit constraint has 2 entries in A, 1 in B and none in C |
| NonzeroCount.BitRowCounts | scripts/packer.js:76-85 | one repetition's bit constraints count two A entries and one B entry each, and none in C |
| NonzeroCount.BitRowsCounts | scripts/packer.js:75-86 | all bit constraints count two A entries and one B entry each, and none in C |
| NonzeroCount.PosoChecksCounts | scripts/packer.js:62-72 | the PoSO checks add nothing to A or B and `reps * (nVars + 1)` entries to C |
| NonzeroCount.RecombinationsCounts | scripts/packer.js:89-96 | the recombinations add nothing to A or B and `reps * (poso_bound + 1)` entries to C |
| NonzeroCount.GadgetCounts | scripts/packer.js:60-100 | `add_poso` adds `2 * reps * poso_bound` entries to A, `reps * poso_bound` to B, and `reps * (nVars + 1) + reps * (poso_bound + 1)` to C |
| BoundCheck.Rep | scripts/test_subcircuit.js:45-46 | the representative is `x` or `p - x`, and for a field element it lies in `[0, (p-1)/2]` |
| BoundCheck.RepSymmetric | scripts/test_subcircuit.js:45-46 | `x` and `p - x` have the same representative |
| BoundCheck.RepZero | scripts/test_subcircuit.js:45-46 | the representative is 0 exactly when `x` is 0 |
| BoundCheck.RepCongruent | scripts/test_subcircuit.js:45-46 | the representative is congruent to `x` or to `-x` modulo `p` |
| BoundCheck.Reduce | scripts/test_subcircuit.js:13 | the fold returns the start value or an element, and it is at least the start value and every element |
| BoundCheck.BigIntMax | scripts/test_subcircuit.js:13 | on a non-empty list the result is an element and no element exceeds it |
| BoundCheck.SetAdd | scripts/test_subcircuit.js:46 | `Set.add` adds exactly the value, keeps the set duplicate-free and keeps the earlier order |
| BoundCheck.ConEntriesMembership | scripts/test_subcircuit.js:43-47 | a value is collected from a constraint exactly when it represents a coefficient of A, B or C |
| BoundCheck.EntrySetMembership | scripts/test_subcircuit.js:42-49 | a value is collected exactly when it represents some coefficient of some constraint |
| BoundCheck.EntrySetSound | scripts/test_subcircuit.js:42-49 | every collected value represents some coefficient |
| BoundCheck.EntrySetComplete | scripts/test_subcircuit.js:42-49 | the representative of every coefficient is collected |
| BoundCheck.AddValues | scripts/test_subcircuit.js:44-47 | adding one linear combination's values keeps the set duplicate-free and adds exactly their representatives |
| BoundCheck.R1csBoundCheck | scripts/test_subcircuit.js:41-50 | the result is absent exactly when nothing was collected; otherwise it is a collected value and at least the representative of every coefficient |
| BoundCheck.WitnessBoundCheck | scripts/test_subcircuit.js:64-69 | the result is absent exactly for an empty witness; otherwise it is the representative of some value and at least that of every value |

## Left out

- File and process I/O: `readR1cs`, `writeR1cs`, the `fs` reads and writes, `JSON.parse` and the subprocess calls. The model starts from values already parsed and ends with the buffer or the table.
- `Scalar.fromString` and `F1Field` belong to a foreign library. Witness values and coefficients enter the model as numbers.
- `Math.random` becomes the parameter `coeffs`. Each coefficient lies in `[0, 256]`, as `Math.round(Math.random() * 2**8)` can give.
- `pack_witness` is empty, and the packed system is never written. So the CRT embedding, the quotient witness values, consistency checking and the `±q` sign choice are not modelled; `add_k` only ever writes `+q`.
- `console.assert` and `console.log` are left out. `PackerParams.PackingModulus` proves that the assertion on `q` holds.
- The byte order of a `Uint32Array` is assumed little-endian (`Wtns.BytesWord`).
- Primality of `p` is not used. Proving that a satisfied bit constraint forces `w[x] ∈ {0, 1}` would need it.
- Text.ParseNumber: only models `Number()` on the empty string, on optional `-` followed by decimal digits, and as NaN on anything else. Whitespace, `+`, hex, exponent and fractional forms are not modelled.
- Wtns.ParseHex: only applies to the lower-case hex digits that `toString(16)` produces.
- Wtns.WitnessFromJSON: takes non-negative values only. Negative witness values and a `RangeError` on a huge allocation are not modelled.
- BoundCheck.R1csBoundCheck: visits the keys of each linear combination in an unspecified order. `Object.values` order is not modelled; the maximum does not depend on it.
- Object keys are modelled as numbers. JavaScript's string keys and special names such as `__proto__` are not modelled.
- Packer.R1CS.AddK and Packer.R1CS.AddPoso: require the loaded system to be well formed (`Packer.R1CS.Valid`). That means three things: `nConstraints` equals the number of constraints, `nVars <= nLabels`, and every index a constraint mentions is below `nLabels`. The first holds for what the constraint-system reader returns. The second and third are assumptions about a system the compiler produced, whose variables are among its labels and whose constraints mention only labels. With the third, the new key in `add_k` never collides with an existing key.
- Numbers are modelled as unbounded integers. The script's numbers are JavaScript doubles, exact only below 2^53, so the model matches only below that bound. Two places are affected. `Number()` of a symbol-file field with more than about 15 digits rounds, while `Text.ParseNumber` stays exact. The index arithmetic of `add_k` and `add_poso` (`counter + nLabels`, `nVars + counter`, `nLabels + i*(poso_bound+1) + j`) would also round past 2^53.
- The security reasoning behind `poso_bound = 23 + 93` and `reps = 10` is not modelled; the code sets them as bare constants.
- Wtns.WriteElement and Wtns.WriteHexWords: do not state that the words after `pos + 8` are unchanged. Stating it made the proof unstable across solver seeds. The element loop writes those words next, and `Wtns.WitnessFromJSON` states the whole buffer.
- The `add_poso` loops are separate methods on values, called in the source's order. `AddPoso` then assigns the fields.

## Findings

| source | as written | input that shows it | evidently intended | confidence | as-written member | corrected member |
|---|---|---|---|---|---|---|
| scripts/write_witness.js:69-72 | each value is written as 8-digit slices of its unpadded hex string, most significant slice first, and an empty slice is stored as 0 | `2^28` (`10000000`) and `2^32` (`100000000`) both become `[0x10000000, 0, 0, 0, 0, 0, 0, 0]` | eight 32-bit limbs, least significant first: the layout the `.wtns` format uses and the one the prime words at lines 4-6 follow | not executed | Wtns.EncodingCollision | Wtns.IntendedElementWords |
