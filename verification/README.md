# sigma-proof-compiler, modelled in Dafny

The library compiles a sigma protocol into a non-interactive proof system.
A protocol supplies four things:

- a witness struct of secret scalars;
- an instance struct of public scalars and points;
- a map `f` from the instance to a list of points;
- a homomorphism `psi` from the witness (and instance) to a list of points.

The `SigmaProof` trait derives three operations from them:

- `prove`: commit to `psi(alphas)`, draw a Fiat–Shamir challenge `e`, and answer with `z = s * e + alpha`;
- `verify`: check `psi(z) = A + e * f(X)` output by output;
- `spec`: a Markdown/LaTeX description whose "checks" lines are printed from a symbolic run of `f` and `psi` on dummy values.

Witness and instance values are symbolic expression trees (`SymScalar`, `SymPoint`). Leaves are constants, or variables that may not be bound yet. Two derive macros generate the struct plumbing: `rand`, `values`, `from_values`, `num_scalars` and `get_var_name` for witnesses, and `num_scalars`, `num_points`, `from_values`, `get_field_names`, `scalars` and `points` for instances.

The model has one module per part of the library:

- `Group` (with `ModArith`): the prime-order group. Scalars are integers modulo the Ristretto group order `L`. A point is represented by its discrete logarithm to the base point, so `k * P` is multiplication of logarithms modulo `L`.
- `Errors`: `SigmaProofError`, with one constructor per Rust variant. `Result` plays the role of `SigmaProofResult`. `Outcome` adds `Panic` for the one place where generated code can panic at run time.
- `Equations`: the expression trees, their evaluation, and the operators.
- `Absorb`: the hand-written trait impls for a bare `SymScalar` or `SymPoint`.
- `Derive`: the field-type checks both macros run, and the `field_<i>` names of tuple fields.
- `SymWitnessDerive` and `SymInstanceDerive`: what the two macros generate for a struct, given its declaration, which the model calls its shape.
- `Codec`: the proof string as a sequence of 32-byte words.
- `Compiler`: `prove`, `verify`, and completeness.
- `Latex`: `latex_var`, the two expression printers, the dummy witness and instance of `spec`, and the checks lines.
- `Sigmas`, `Schnorr`, `Okamoto`, `Chaum` and `ZeroCheck`: the generators `G` and `H`, and the four protocols of the library.

The central theorem is `Compiler.Completeness`. Suppose `psi` is linear in the witness and `psi(w)` evaluates to `f(X)`. Then `prove` succeeds, and `verify` accepts its proof exactly when every nested field of the witness struct comes last. This holds for every challenge function and every choice of blinding values. `verify` decodes the responses with the `from_values` the derive macro generates, which cannot decode a nested field followed by scalars (see "## Findings"); the protocols of the library have no nested fields. `Compiler.HonestVerification` states exactly when an honest proof is accepted for an arbitrary witness. `Compiler.VerifySound` and `Compiler.VerifyComplete` state which proof strings `verify` accepts. Each concrete protocol has its completeness, arity and linearity lemmas, and a lemma giving the exact check lines of its `spec`.

## Model

| member | source | states |
|---|---|---|
| Equations.EvalScalar | src/equations.rs:20-30 | Evaluation succeeds exactly when the tree has no unbound variable; otherwise it fails with `UninstantiatedScalar` |
| Equations.EvalPoint | src/equations.rs:43-53 | Evaluation succeeds exactly when the tree has no unbound leaf. Otherwise the error is that of the first unbound leaf in evaluation order: scalar holes give `UninstantiatedScalar`, point holes `UninstantiatedPoint` |
| Equations.EvalPoints | src/compiler.rs:195-198 | Collecting evaluations succeeds exactly when every element evaluates. The list then has the same length, holding each element's value. A failure reports an element's error |
| Equations.EvalScalars | src/compiler.rs:157-159 | Same for scalars; a failure is always `UninstantiatedScalar` |
| Equations.EvalPointsConcat | src/compiler.rs:154-156 | Evaluating a concatenation is concatenating the evaluations; an error in the first part wins |
| Equations.ScalarPlus | src/equations.rs:60-86 | `a + b` evaluates exactly when both operands do, to the sum mod `L`; its unbound leaves are those of `a` then `b` |
| Equations.ScalarMinus | src/equations.rs:88-114 | `a - b`: same, with the difference |
| Equations.ScalarTimes | src/equations.rs:116-142 | `a * b`: same, with the product |
| Equations.ScalarNegate | src/equations.rs:144-156 | `-a` evaluates exactly when `a` does, to its negation |
| Equations.PointPlus | src/equations.rs:159-185 | `p + q` evaluates exactly when both do, to the group sum |
| Equations.PointMinus | src/equations.rs:187-213 | `p - q`: same, with the group difference |
| Equations.PointNegate | src/equations.rs:215-227 | `-p` evaluates exactly when `p` does, to its inverse |
| Equations.ScaleBy | src/equations.rs:230-256 | `s * p` evaluates exactly when both do, to the scalar multiple; its holes are the scalar's then the point's |
| Equations.ScaleByConst | src/equations.rs:259-285 | A plain `Scalar` times `p` evaluates exactly when `p` does, to `k * p` |
| Equations.ScalarOperatorTests | src/equations.rs:292-312 | `5+3 = 8`, `5-3 = 2`, `5*3 = 15`, `-5` on constant scalars |
| Equations.PointOperatorTests | src/equations.rs:314-349 | `2G + 3G = 5G`, `3G - 2G = G`, `4 * G`, `(2+3) * G = 5G` |
| Absorb.ScalarWitnessRand | src/absorb.rs:52-54 | The random witness lists exactly the one value drawn |
| Absorb.ScalarWitnessValues | src/absorb.rs:56-61 | `values` succeeds exactly when the tree has no unbound variable, giving the one-element list of its value; otherwise `UninstantiatedScalar` |
| Absorb.ScalarWitnessFromValues | src/absorb.rs:63-72 | Succeeds exactly on one value, giving a bound variable that lists it back. Any other count is `TooManyScalars { expected: 1, actual }`, including zero values |
| Absorb.ScalarWitnessVarName | src/absorb.rs:78-84 | Index 0 is named `s`, every other index `unknown` |
| Absorb.ScalarWitnessRoundTrip | src/absorb.rs:63-76 | Decoding one value and listing it gives that value back, and the list has `num_scalars` entries |
| Absorb.ScalarInstanceFromValues | src/absorb.rs:96-105 | Succeeds exactly on one scalar and no point, giving a constant that lists them back; otherwise `TooManyScalars { expected: 1, actual }` |
| Absorb.PointInstanceFromValues | src/absorb.rs:129-138 | Succeeds exactly on no scalar and one point; otherwise `TooManyScalars { expected: 0, actual }` |
| Absorb.InstanceRoundTrips | src/absorb.rs:87-151 | For both bare instance impls, `scalars()`/`points()` have the lengths `num_scalars()`/`num_points()` declare, and `from_values` of the evaluated lists gives back a constant with the same value |
| Derive.CheckDerive | sigma-proof-compiler-derive/src/sym_witness.rs:20-63 | A derive is accepted exactly for a unit struct or a struct whose every field type is accepted. A refusal names the first refused field; enums and unions are refused (lines 399-404) |
| Derive.CheckWitnessDerive | sigma-proof-compiler-derive/src/sym_witness.rs:5-13 | The witness derive accepts exactly structs whose fields are `SymScalar` or `SymWitness` |
| Derive.CheckInstanceDerive | sigma-proof-compiler-derive/src/sym_instance.rs:5-63 | The instance derive accepts exactly structs whose fields are `SymScalar`, `SymPoint` or `SymInstance` |
| Derive.PointFieldOnlyInInstances | sigma-proof-compiler-derive/src/sym_witness.rs:5-36 | For every struct with fields, a `SymPoint` field makes the witness derive refuse it, reporting that field or an earlier one; the instance derive never reports that field |
| Derive.DecimalRoundTrip | sigma-proof-compiler-derive/src/sym_instance.rs:150-152 | The decimal text of a tuple-field index reads back as that index |
| Derive.TupleFieldNamesDistinct | sigma-proof-compiler-derive/src/sym_instance.rs:148-157 | Distinct positions get distinct `field_<i>` names |
| SymWitnessDerive.FlattenLength | sigma-proof-compiler-derive/src/sym_witness.rs:329-369 | A value of a struct has exactly `num_scalars` scalar leaves, nested fields included |
| SymWitnessDerive.Values | sigma-proof-compiler-derive/src/sym_witness.rs:80-146 | `values` is the evaluation of the struct's scalar leaves, depth first in declaration order. The first unbound one fails with `UninstantiatedScalar` |
| SymWitnessDerive.ValuesLength | sigma-proof-compiler-derive/src/sym_witness.rs:80-146 | When `values` succeeds it lists `num_scalars` scalars |
| SymWitnessDerive.Rand | sigma-proof-compiler-derive/src/sym_witness.rs:23-77 | `rand` builds a value of the struct that lists exactly the next `num_scalars` draws of the random source, and consumes exactly those |
| SymWitnessDerive.FromValues | sigma-proof-compiler-derive/src/sym_witness.rs:149-258 | Corrected decoder, where each nested field gets its own `num_scalars` values. It succeeds exactly on `num_scalars` values, giving a conforming value that lists them back as bound variables. Fewer is `InsufficientScalars`; more is `TooManyScalars { expected: num_scalars, actual }` |
| SymWitnessDerive.DecodeRoundTrip | sigma-proof-compiler-derive/src/sym_witness.rs:149-199 | `values(from_values(v)) = v` for every list of the right length |
| SymWitnessDerive.RoundTrip | sigma-proof-compiler-derive/src/sym_witness.rs:80-199 | `from_values(values(w))` succeeds and has the values of `w` |
| SymWitnessDerive.FromValuesAsWritten | sigma-proof-compiler-derive/src/sym_witness.rs:149-199 | The generated decoder hands a nested field all remaining values. When it succeeds, its result conforms and lists the input back; it fails only with `InsufficientScalars` or `TooManyScalars` |
| SymWitnessDerive.AsWrittenAcceptsOnlyExact | sigma-proof-compiler-derive/src/sym_witness.rs:190-197 | The generated decoder succeeds only on exactly `num_scalars` values |
| SymWitnessDerive.FlatFromValuesAgree | sigma-proof-compiler-derive/src/sym_witness.rs:157-167 | Without nested fields, the generated decoder and the corrected one agree on every input |
| SymWitnessDerive.NestedThenScalarNeverDecodes | sigma-proof-compiler-derive/src/sym_witness.rs:172-181 | For a nested field followed by a scalar field, the generated decoder rejects every input |
| SymWitnessDerive.NestedRoundTripCounterexample | sigma-proof-compiler-derive/src/sym_witness.rs:221-230 | On that struct, `[1, 2]` has the right length: the generated decoder rejects it, and the corrected one decodes it and lists it back |
| SymWitnessDerive.AsWrittenExact | sigma-proof-compiler-derive/src/sym_witness.rs:149-199 | On exactly `num_scalars` values, the generated decoder succeeds exactly when every nested field, at any depth, is followed only by fields holding no scalars; it then builds the same witness as the corrected decoder |
| SymWitnessDerive.AsWrittenDecodes | sigma-proof-compiler-derive/src/sym_witness.rs:149-199 | For every input, the generated decoder succeeds exactly on `num_scalars` values of a struct whose nested fields come last, and agrees with the corrected decoder whenever it succeeds |
| SymWitnessDerive.FlatNestedLast | sigma-proof-compiler-derive/src/sym_witness.rs:157-167 | A struct of scalar fields satisfies that condition |
| SymWitnessDerive.OuterShapeNestedFirst | sigma-proof-compiler-derive/src/sym_witness.rs:172-181 | A nested field followed by a scalar field violates it |
| SymWitnessDerive.GetVarName | sigma-proof-compiler-derive/src/sym_witness.rs:262-326 | A unit struct answers `unit`. Past the last field the answer is `unknown`; a nested field answers `nested_field` |
| SymWitnessDerive.FlatVarNames | sigma-proof-compiler-derive/src/sym_witness.rs:262-326 | For a struct of scalar fields, index `i` names the `i`-th field (named struct); the tuple names are pairwise distinct |
| SymInstanceDerive.FieldNames | sigma-proof-compiler-derive/src/sym_instance.rs:136-163 | Named structs list their field names in order, tuple structs `field_0, field_1, ...`, unit structs nothing |
| SymInstanceDerive.TupleFieldNamesUnique | sigma-proof-compiler-derive/src/sym_instance.rs:148-157 | The names of a tuple struct are pairwise distinct |
| SymInstanceDerive.ListLengths | sigma-proof-compiler-derive/src/sym_instance.rs:66-133 | `scalars()`/`points()` of a value of a struct have the lengths `num_scalars()`/`num_points()` |
| SymInstanceDerive.ListsCons | sigma-proof-compiler-derive/src/sym_instance.rs:295-341 | A struct's scalar (point) list is its first field's list followed by the rest |
| SymInstanceDerive.PointFieldsLists | sigma-proof-compiler-derive/src/sym_instance.rs:344-390 | For a struct of point fields, `scalars()` is empty and `points()` lists the fields in order |
| SymInstanceDerive.FromValues | sigma-proof-compiler-derive/src/sym_instance.rs:166-292 | Succeeds exactly on `num_scalars` scalars and `num_points` points. The result conforms, its `scalars()`/`points()` are constants holding the inputs, and they evaluate back to them. Enough of both but too many is `TooManyScalars { expected: num_scalars, actual: #scalars }`; a shortfall is `InsufficientScalars`/`InsufficientPoints` or a slice panic in a nested field |
| SymInstanceDerive.DecodeRoundTrip | sigma-proof-compiler-derive/src/sym_instance.rs:166-222 | Decoding lists of the right lengths gives a value whose `scalars()`/`points()` evaluate to them |
| SymInstanceDerive.RoundTrip | sigma-proof-compiler-derive/src/sym_instance.rs:166-222 | Decoding the evaluated lists of a conforming value gives a value with the same evaluated lists |
| SymInstanceDerive.FlatNeverPanics | sigma-proof-compiler-derive/src/sym_instance.rs:172-191 | Without nested fields, `from_values` never panics |
| SymInstanceDerive.DecodeFailureExamples | sigma-proof-compiler-derive/src/sym_instance.rs:192-222 | A nested field short of values panics; a missing scalar is `InsufficientScalars`; one point too many is `TooManyScalars { expected: 0, actual: 0 }` |
| Codec.ReceivePoints | src/compiler.rs:209-211 | Reading `n` points fails with `TranscriptError` when too few bytes remain or a word is not an encoding. Otherwise the proof is exactly their encoding followed by the unread rest |
| Codec.ReceiveAllScalars | src/compiler.rs:217-219 | Reading all remaining words as scalars fails with `TranscriptError` on a partial word or a non-canonical value; otherwise the rest is exactly their encoding |
| Codec.ReceiveRoundTrip | src/compiler.rs:209-219 | What the prover writes (points then scalars) is read back unchanged |
| Compiler.AbsorbInstance | src/compiler.rs:153-159 | Absorbing the instance succeeds exactly when all its points and scalars evaluate, and absorbs their values (points first). An unbound point is reported before an unbound scalar |
| Compiler.Responses | src/compiler.rs:172-180 | `z_i = s_i * e + a_i`, position by position, for the length of the shorter list |
| Compiler.Prove | src/compiler.rs:149-183 | `prove` succeeds exactly when the instance, the commitment `psi(alphas)` and the witness all evaluate. Otherwise it returns the first of these errors as is, in that order. The proof is a whole number of 32-byte words |
| Compiler.ProofWords | src/compiler.rs:182-189 | Every proof `prove` writes passes `verify`'s length check |
| Compiler.CheckEquations | src/compiler.rs:230-235 | The final loop succeeds exactly when every zipped check `psi_i = A_i + e * X_i` holds. A failure reports the first failing position: its evaluation error, or `EquationCheckFailed` |
| Compiler.CheckResponses | src/compiler.rs:216-235 | After the challenge, `verify` succeeds exactly when the remaining words decode to responses and the generated `from_values` decodes those to a witness. `psi` of that witness must have the arity of `f`, and every check must hold. A read or `from_values` error is returned as is, and an arity mismatch is `PsiOutputLengthMismatch` |
| Compiler.Verify | src/compiler.rs:185-238 | A length that is not a multiple of 32 is `TranscriptFinalizationFailed`, checked first. An unevaluable `f(X)` returns its error; after it, an unbound instance value returns the absorb error. Too few bytes for the commitment is `TranscriptError` |
| Compiler.VerifySound | src/compiler.rs:185-238 | Every proof `verify` accepts is the encoding of commitment points and responses forming an accepting transcript, the responses decoded by the generated `from_values` |
| Compiler.VerifyEncoded | src/compiler.rs:185-238 | On an encoded commitment of the right length followed by responses, `verify` accepts exactly the accepting transcripts |
| Compiler.VerifyComplete | src/compiler.rs:185-238 | `verify` accepts every encoded accepting transcript |
| Compiler.ResponseWitness | src/compiler.rs:173-180 | The responses `s * e + alpha` form a witness. The corrected decoder always rebuilds it from them; the generated one does exactly when the nested fields of the witness struct come last, and fails otherwise |
| Compiler.CommitmentEvaluates | src/compiler.rs:161-167 | For a linear `psi`, the commitment `psi(alphas)` and the image `psi(w)` both evaluate |
| Compiler.HonestVerification | src/compiler.rs:149-238 | For ANY witness, an honest proof is accepted exactly when the nested fields of the witness struct come last and `e * psi(w)_i = e * X_i` for every output |
| Compiler.HonestVerificationDifference | src/compiler.rs:149-238 | The same with `e * (psi(w)_i - X_i) = 0` for every output |
| Compiler.Completeness | src/compiler.rs:149-238 | Completeness: a linear `psi` with `psi(w) = f(X)` makes `prove` succeed, and `verify` accepts its proof, for every challenge function and blinding, exactly when the nested fields of the witness struct come last |
| Compiler.VerifyNeedsNestedLast | src/compiler.rs:216-221 | `verify` accepts no proof at all when a nested field of the witness struct is followed by scalars |
| Compiler.OuterWitnessRejected | src/compiler.rs:216-221 | In particular it rejects every proof for the witness struct `Outer` of "## Findings" |
| Compiler.ChallengesAgree | src/compiler.rs:170-214 | On the honest proof the verifier reads back the prover's commitment and draws the prover's challenge |
| Compiler.NoArityMismatch | src/compiler.rs:226-228 | When `psi` always has the arity of `f`, `verify` never reports `PsiOutputLengthMismatch` |
| Latex.Escape | src/compiler.rs:10-13 | Every `_` gains a preceding backslash: length grows by the count of `_`, other characters are kept |
| Latex.EscapeRoundTrip | src/compiler.rs:10-13 | Escaping is undone by unescaping |
| Latex.LatexVar | src/compiler.rs:10-13 | The output is `\texttt{` + escaped name + `}` and adds no `?`, `(` or `)` |
| Latex.LatexVarInjective | src/compiler.rs:10-13 | Distinct names print differently |
| Latex.ScalarRendering | src/compiler.rs:77-137 | A printed scalar has one `?` per unbound variable and one parenthesis pair per operator |
| Latex.PointRendering | src/compiler.rs:16-69 | The same for points, scalar factors included |
| Latex.DummyIndex | src/compiler.rs:54-63 | Recognises exactly the dummy points `2G`, `3G`, `4G` |
| Latex.ScaledBasepoint | src/compiler.rs:22-29 | A scalar times the base point prints with `G` |
| Latex.ScaledDummy | src/compiler.rs:54-63 | A scalar times `2G`/`3G`/`4G` prints with `pubkey`/`commitment`/`handle` |
| Latex.DummyScalars | src/compiler.rs:249 | The dummy scalars are `1, 2, ..., n` |
| Latex.DummyPoints | src/compiler.rs:266-268 | The dummy instance points are `2G, 3G, ...` |
| Latex.DummyWitness | src/compiler.rs:248-250 | The witness whose `k`-th scalar leaf is bound to the dummy value `k + 1`, as the corrected decoder builds it; it conforms to the struct |
| Latex.DummyWitnessDecodes | src/compiler.rs:248-260 | The generated `from_values` of the dummy values succeeds exactly when the nested fields of the witness struct come last, and then builds that witness |
| Latex.DummyInstance | src/compiler.rs:262-280 | The dummy instance always decodes, into constants holding the dummy scalars and points |
| Latex.VarNames | src/compiler.rs:282-285 | One name per witness scalar |
| Latex.WitnessLeafNamed | src/compiler.rs:95-110 | The `k`-th dummy witness leaf prints as `get_var_name(k)` for `k < 5`, and as `v` after that |
| Latex.NamedWitnessLeaf | src/compiler.rs:95-110 | For a struct of named scalars, the `k`-th leaf (`k < 5`) is bound to `k + 1` and prints as the `k`-th field name |
| Latex.NamedInstancePoint | src/compiler.rs:293-326 | In a struct of named points, the `j`-th field (`j < 3`) holds `(j + 2) * G`, and `f` labels it with that field's name |
| Latex.NamedScaledInstance | src/compiler.rs:52-67 | The `k`-th witness scalar times the `j`-th instance point prints as both names around ` \cdot ` |
| Latex.NamedScaledConst | src/compiler.rs:22-29 | The `k`-th witness scalar times a constant point prints with `G` for the base point, `P` otherwise |
| Latex.DummyRecognised | src/compiler.rs:299-322 | The `j`-th dummy point is recognised as the `j`-th |
| Latex.DummyPointLabelled | src/compiler.rs:293-326 | Corrected labelling for a flat instance: the `j`-th point field holds `(j + 2) * G`, which is labelled with that field's own name |
| Latex.PointThenScalarMislabelled | src/compiler.rs:301-302 | For `{ p: SymPoint, s: SymScalar }` the source labels `p`'s dummy point with `s`; the corrected labelling uses `p` |
| Latex.CheckLines | src/compiler.rs:337-342 | One line `* $psi_i = f_i$` per pair, up to the shorter list |
| Latex.SpecChecks | src/compiler.rs:241-342 | The checks section is the "could not generate" message exactly when a nested field of the witness struct is followed by scalars. Otherwise it is the check lines of `psi` on the dummy witness and of `f` on the dummy instance, dummy points labelled from `f_scalars_in` on |
| Latex.LabelsAgree | src/compiler.rs:293-326 | When no scalar field follows a point field of a flat instance, the source's `f_scalars_in + j` label is the name of the field holding the point |
| Latex.SpecChecksAgree | src/compiler.rs:241-342 | For such an instance, the checks section equals the corrected one exactly when the nested fields of the witness struct come last |
| Latex.OuterWitnessSpecFallback | src/compiler.rs:250-259 | A protocol whose witness struct is `Outer` gets the "could not generate" message |
| Sigmas.ScaleResponse | src/compiler.rs:173-177 | `(s * e + a) * P = a * P + e * (s * P)`, the algebra behind every linearity proof |
| Schnorr.FIsInstance | src/sigmas/schnorr.rs:25-28 | `f` returns exactly the instance's points, `[pubkey]`; the instance has no scalars |
| Schnorr.PsiLinear | src/sigmas/schnorr.rs:30-33 | `psi` is linear in `privatekey` |
| Schnorr.Arity | src/sigmas/schnorr.rs:25-33 | `f` and `psi` have one output each, so `verify` never reports `PsiOutputLengthMismatch` |
| Schnorr.Completeness | src/sigmas/schnorr.rs:42-60 | With `pubkey = sk * G`, `prove` succeeds and `verify` accepts |
| Schnorr.PsiText | src/sigmas/schnorr.rs:30-33 | The `psi` output prints as `\texttt{privatekey} \cdot G` |
| Schnorr.FText | src/sigmas/schnorr.rs:25-28 | The `f` output prints as `\texttt{pubkey}` |
| Schnorr.SpecLines | src/sigmas/schnorr.rs:62-66 | The checks section is the single line `* $\texttt{privatekey} \cdot G = \texttt{pubkey}$` |
| Okamoto.FIsInstance | src/sigmas/okamoto.rs:26-29 | `f` returns exactly the instance's points, `[point]` |
| Okamoto.PsiLinear | src/sigmas/okamoto.rs:31-34 | `x * G + y * H` is linear in `(x, y)` |
| Okamoto.Arity | src/sigmas/okamoto.rs:26-34 | One output each, so no arity mismatch |
| Okamoto.Completeness | src/sigmas/okamoto.rs:43-61 | With `point = x * G + y * H`, `prove` succeeds with a 3-word proof and `verify` accepts |
| Okamoto.PsiText | src/sigmas/okamoto.rs:31-34 | The `psi` output prints as `(\texttt{x} \cdot G + \texttt{y} \cdot P)` |
| Okamoto.FText | src/sigmas/okamoto.rs:26-29 | The `f` output prints as `\texttt{point}` |
| Okamoto.SpecLines | src/sigmas/okamoto.rs:63-67 | The checks section is that single line |
| Chaum.FIsInstance | src/sigmas/chaum.rs:26-29 | `f` returns exactly the instance's points, `[point1, point2]` |
| Chaum.PsiSharesWitness | src/sigmas/chaum.rs:31-34 | Both outputs are multiples of the same scalar: `[x * G, x * H]` |
| Chaum.PsiLinear | src/sigmas/chaum.rs:31-34 | `psi` is linear in `x` |
| Chaum.Arity | src/sigmas/chaum.rs:26-34 | Two outputs each, so no arity mismatch |
| Chaum.Completeness | src/sigmas/chaum.rs:43-61 | With `point1 = x * G` and `point2 = x * H`, `prove` succeeds and `verify` accepts |
| Chaum.PsiTexts | src/sigmas/chaum.rs:31-34 | The `psi` outputs print as `\texttt{x} \cdot G` and `\texttt{x} \cdot P` |
| Chaum.FTexts | src/sigmas/chaum.rs:26-29 | The `f` outputs print as `\texttt{point1}` and `\texttt{point2}` |
| Chaum.SpecLines | src/sigmas/chaum.rs:63-67 | The checks section is those two lines |
| ZeroCheck.FDropsPubkey | src/sigmas/zero.rs:27-34 | `f` is the instance's points without the first, the public key |
| ZeroCheck.PsiValue | src/sigmas/zero.rs:36-43 | `psi` evaluates to `[sk * G, sk * pubkey]` |
| ZeroCheck.PsiLinear | src/sigmas/zero.rs:36-43 | `psi` is linear in `secret_key` whenever `pubkey` evaluates |
| ZeroCheck.Arity | src/sigmas/zero.rs:27-43 | Two outputs each, so no arity mismatch |
| ZeroCheck.Completeness | src/sigmas/zero.rs:52-85 | With `commitment = sk * G` and `handle = sk * pubkey`, `prove` succeeds and `verify` accepts |
| ZeroCheck.HonestProofAcceptance | src/sigmas/zero.rs:93-124 | For any instance, the honest proof is accepted exactly when `e * (sk * G - commitment)` and `e * (sk * pubkey - handle)` are both the identity |
| ZeroCheck.ZeroChallengeAcceptsMismatch | src/sigmas/zero.rs:93-124 | Under the challenge 0, even a mismatched instance is accepted |
| ZeroCheck.UnitChallengeRejectsMismatch | src/sigmas/zero.rs:93-124 | Under the challenge 1, a mismatched instance is rejected |
| ZeroCheck.PsiText0 | src/sigmas/zero.rs:36-43 | The first `psi` output prints as `\texttt{secret\_key} \cdot G` |
| ZeroCheck.PsiText1 | src/sigmas/zero.rs:36-43 | The second prints as `\texttt{secret\_key} \cdot \texttt{pubkey}` |
| ZeroCheck.FTexts | src/sigmas/zero.rs:27-34 | The `f` outputs print as `\texttt{commitment}` and `\texttt{handle}` |
| ZeroCheck.SpecLines | src/sigmas/zero.rs:87-91 | The checks section is those two lines |

## Left out

- Transcript: transcript.rs is not part of this model. The Fiat–Shamir challenge is a parameter: a function of the protocol label and every value absorbed before it. Every theorem holds for all such functions. The proof string is the commitment words followed by the response words, which is what the transcript's finalize and receive calls produce and consume.
- Point encoding: Ristretto compression is replaced by the 32-byte little-endian encoding of a point's logarithm, with the same rule that only canonical words decode. Curve arithmetic, and the primality of `L`, are not modelled; the group is the integers modulo `L` under addition.
- `WellKnownConst`: sigmas/mod.rs builds `G` and `H` with a `SymPoint::WellKnownConst` constructor, but the `SymPoint` enum in equations.rs has no such variant. The model uses the nearest thing the enum offers: `G` is `Const(base point)`, and `H` is `Const(h)` for a parameter `h`. The printer therefore shows `H` as `P`. The Okamoto and Chaum spec lemmas require `h` to differ from `G`, `2G`, `3G` and `4G`; that holds for a hash-to-curve point except with negligible probability.
- Randomness: `OsRng` becomes a stream `rng: nat -> Scalar` read from a position, and `Scalar::random` is one draw.
- `spec`'s Markdown: the text around the checks is not modelled — the label, the field lists and the `psi`/`f` signatures. Nor are the `println!` calls. `SpecChecks` models the checks section, or the "could not generate" message that replaces the whole analysis.
- Security: soundness and zero-knowledge of the protocols are not stated. Only completeness and the exact acceptance condition of `verify` are.
- Macro plumbing: token generation, the `syn` type inspection beyond the last path segment, and compile-time panic messages are not modelled. `Derive.CheckDerive` states which items are accepted.
- Top-level bare types: a protocol whose `WITNESS` or `INSTANCE` is a bare `SymScalar`/`SymPoint` rather than a derived struct. The `Absorb` module models those impls on their own; `Compiler` is stated over derived structs.
- SymWitnessDerive.GetVarName: the contract states the `unit`, `unknown` and `nested_field` answers. The field names themselves are stated only for structs of scalar fields (`FlatVarNames`), because `get_var_name` indexes fields while `spec` asks for it by scalar position, and the two differ once a field is nested.
- Nested witness field types: `NestedField` carries no type name, so the model accepts nested fields that the derive would refuse. The derive accepts a nested field only when the last segment of its type path is `SymWitness`, which in practice means an alias or re-export of a derived struct under that name.
- Latex.WitnessLeafNamed: requires `k + 1 < L`, so that the dummy value `k + 1` is not reduced modulo `L`.
- Latex.DummyPointLabelled: the corrected labelling is stated for instances without nested fields. For nested instances the name of the field holding the `j`-th point is not defined by the source.
- Equations.EvalScalars: the error for an unbound scalar is stated, not which element failed first; all scalar failures carry the same error.
- `FieldDeserializationFailed` and `InvalidScalarValues` are declared in errors.rs but never raised by the modelled code; they exist only as constructors.

## Findings

| source | as written | input that shows it | evidently intended | confidence | as-written member | corrected member |
|---|---|---|---|---|---|---|
| sigma-proof-compiler-derive/src/sym_witness.rs:172-181 | A nested witness field's `from_values` is handed all remaining scalars, so it succeeds only when exactly its own count is left | `#[derive(SymWitness)] struct Inner { a: SymScalar }`, the alias `mod inner { pub type SymWitness = super::Inner; }` (the derive accepts a nested type only when its path ends in `SymWitness`) and `#[derive(SymWitness)] struct Outer { inner: inner::SymWitness, b: SymScalar }`: `from_values` fails on `[1, 2]` and on every other input. So `verify` rejects every proof for this witness, and `spec` prints the "could not generate" message | Hand the nested field `&scalars[cursor..cursor + Field::num_scalars()]`, as sym_instance.rs does | high (not executed) | SymWitnessDerive.NestedThenScalarNeverDecodes | SymWitnessDerive.FromValues |
| src/compiler.rs:299-322 | The `j`-th dummy point is labelled with `instance_field_names[f_scalars_in + j]`, as if every scalar field came before every point field | `struct I { p: SymPoint, s: SymScalar }`: the point in `p` is printed as `\texttt{s}` | Label it with the name of the field that holds the `j`-th point | high (not executed) | Latex.PointThenScalarMislabelled | Latex.DummyPointLabelled |
