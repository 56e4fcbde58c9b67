/**
 * The zero-check protocol: for an ElGamal-style ciphertext with Pedersen
 * commitment `commitment = sk * G` and decrypt handle `handle = sk * pubkey`,
 * knowledge of `sk`. The public key is absorbed and used as a generator in
 * `psi`, but is not part of the statement `f`.
 */
module ZeroCheck {
  import opened Errors
  import Group
  import opened Equations
  import W = SymWitnessDerive
  import I = SymInstanceDerive
  import C = Compiler
  import Codec
  import opened Sigmas
  import Latex

  const WitnessFields: seq<string> := ["secret_key"]
  const InstanceFields: seq<string> := ["pubkey", "commitment", "handle"]

  /** `f`: the commitment and the handle; the public key is dropped. */
  function F(x: I.Instance): seq<SymPoint>
  {
    [PointOf(x, 1), PointOf(x, 2)]
  }

  /** `psi`: the secret key against the base point and against the instance's public key. */
  function Psi(w: W.Witness, x: I.Instance): seq<SymPoint>
  {
    [ScaleBy(ScalarOf(w, 0), G), ScaleBy(ScalarOf(w, 0), PointOf(x, 0))]
  }

  const ZeroCheck: C.Protocol := C.Protocol(
    "zero-check-protocol",
    ScalarWitnessShape(WitnessFields),
    PointInstanceShape(InstanceFields),
    F,
    Psi)

  /** `f` is the absorbed instance without its first point, the public key. */
  lemma FDropsPubkey(x: I.Instance)
    requires I.Conforms(x, ZeroCheck.instanceShape)
    ensures |I.Points(x)| == 3 && ZeroCheck.f(x) == I.Points(x)[1..]
    ensures I.Scalars(x) == []
  {
    PointInstanceLists(x, InstanceFields);
  }

  /** What `psi` evaluates to once the secret key and the public key do. */
  lemma PsiValue(w: W.Witness, x: I.Instance)
    requires EvalScalar(ScalarOf(w, 0)).Ok? && EvalPoint(PointOf(x, 0)).Ok?
    ensures EvalPoints(ZeroCheck.psi(w, x)) == Ok([
      Group.Scale(EvalScalar(ScalarOf(w, 0)).value, Group.Basepoint),
      Group.Scale(EvalScalar(ScalarOf(w, 0)).value, EvalPoint(PointOf(x, 0)).value)])
  {
    var out := ZeroCheck.psi(w, x);
    var k := EvalScalar(ScalarOf(w, 0)).value;
    assert EvalPoint(out[0]) == Ok(Group.Scale(k, Group.Basepoint));
    assert EvalPoint(out[1]) == Ok(Group.Scale(k, EvalPoint(PointOf(x, 0)).value));
    var r := EvalPoints(out);
    assert r.Ok? && |r.value| == 2;
    assert r.value == [r.value[0], r.value[1]];
  }

  /** `psi` is linear in the secret key whenever the public key evaluates. */
  lemma PsiLinear(x: I.Instance)
    requires EvalPoint(PointOf(x, 0)).Ok?
    ensures C.Linear(ZeroCheck, x)
  {
    var p := EvalPoint(PointOf(x, 0)).value;
    forall w1, w2, w3, e
      ensures C.LinearAt(ZeroCheck, x, w1, w2, w3, e)
    {
      if C.Combination(ZeroCheck, w1, w2, w3, e) {
        CombinationValues(ZeroCheck, WitnessFields, w1, w2, w3, e);
        var s, a := EvalScalar(ScalarOf(w1, 0)).value, EvalScalar(ScalarOf(w2, 0)).value;
        ScaleResponse(s, a, e, Group.Basepoint);
        ScaleResponse(s, a, e, p);
        PsiValue(w1, x);
        PsiValue(w2, x);
        PsiValue(w3, x);
      }
    }
  }

  /** `f` and `psi` both have two outputs, so `verify` never reports an arity mismatch. */
  lemma Arity(oracle: C.Oracle, x: I.Instance, proof: seq<Codec.Byte>)
    ensures forall w :: C.ArityAgreesAt(ZeroCheck, x, w)
    ensures C.Verify(ZeroCheck, oracle, x, proof) != Err(PsiOutputLengthMismatch)
  {
    C.NoArityMismatch(ZeroCheck, oracle, x, proof);
  }

  /**
   * For a witness evaluating to `sk` and an instance whose three points
   * evaluate to `P`, `C`, `D`: `prove` succeeds whether or not the relation
   * holds, and `verify` accepts exactly when the prover's challenge `e`
   * satisfies `e * (sk * G - C) = 0` and `e * (sk * P - D) = 0`.
   */
  lemma HonestProofAcceptance(oracle: C.Oracle, w: W.Witness, x: I.Instance, rng: nat -> Group.Scalar, pos: nat,
                              sk: Group.Scalar, pk: Group.Point, commitment: Group.Point, handle: Group.Point)
    requires W.Conforms(w, ZeroCheck.witnessShape) && I.Conforms(x, ZeroCheck.instanceShape)
    requires EvalScalar(ScalarOf(w, 0)) == Ok(sk)
    requires EvalPoint(PointOf(x, 0)) == Ok(pk)
    requires EvalPoint(PointOf(x, 1)) == Ok(commitment)
    requires EvalPoint(PointOf(x, 2)) == Ok(handle)
    ensures C.AbsorbInstance(x).Ok? && EvalPoints(ZeroCheck.psi(C.Alphas(ZeroCheck, rng, pos), x)).Ok?
    ensures C.Prove(ZeroCheck, oracle, w, x, rng, pos).Ok?
    ensures
      var e := C.ProverChallenge(ZeroCheck, oracle, x, rng, pos);
      C.Verify(ZeroCheck, oracle, x, C.Prove(ZeroCheck, oracle, w, x, rng, pos).value).Ok? <==>
        && Group.Scale(e, Group.PSub(Group.Scale(sk, Group.Basepoint), commitment)) == Group.Identity
        && Group.Scale(e, Group.PSub(Group.Scale(sk, pk), handle)) == Group.Identity
  {
    HonestPremises(w, x, sk, pk, commitment, handle);
    C.HonestVerificationDifference(ZeroCheck, oracle, w, x, rng, pos);
    var e := C.ProverChallenge(ZeroCheck, oracle, x, rng, pos);
    var bigX, image := [commitment, handle], [Group.Scale(sk, Group.Basepoint), Group.Scale(sk, pk)];
    assert (forall i | 0 <= i < |bigX| :: Group.Scale(e, Group.PSub(image[i], bigX[i])) == Group.Identity) <==>
      && Group.Scale(e, Group.PSub(image[0], bigX[0])) == Group.Identity
      && Group.Scale(e, Group.PSub(image[1], bigX[1])) == Group.Identity;
  }

  /** The premises of the honest-verification theorem, and the values it compares. */
  lemma HonestPremises(w: W.Witness, x: I.Instance, sk: Group.Scalar, pk: Group.Point, commitment: Group.Point, handle: Group.Point)
    requires W.Conforms(w, ZeroCheck.witnessShape) && I.Conforms(x, ZeroCheck.instanceShape)
    requires EvalScalar(ScalarOf(w, 0)) == Ok(sk)
    requires EvalPoint(PointOf(x, 0)) == Ok(pk)
    requires EvalPoint(PointOf(x, 1)) == Ok(commitment)
    requires EvalPoint(PointOf(x, 2)) == Ok(handle)
    ensures C.Linear(ZeroCheck, x) && W.Values(w).Ok? && C.AbsorbInstance(x).Ok?
    ensures EvalPoints(ZeroCheck.f(x)) == Ok([commitment, handle])
    ensures EvalPoints(ZeroCheck.psi(w, x)) == Ok([Group.Scale(sk, Group.Basepoint), Group.Scale(sk, pk)])
    ensures W.NestedLast(ZeroCheck.witnessShape)
  {
    ScalarWitnessValues(w, WitnessFields);
    PointInstanceLists(x, InstanceFields);
    PsiLinear(x);
    PsiValue(w, x);
    var bigX := EvalPoints(ZeroCheck.f(x));
    assert bigX.Ok? && bigX.value[0] == commitment && bigX.value[1] == handle;
    assert bigX.value == [commitment, handle];
  }

  /** With the evident instance, `prove` succeeds and `verify` accepts its proof. */
  lemma Completeness(oracle: C.Oracle, w: W.Witness, x: I.Instance, rng: nat -> Group.Scalar, pos: nat,
                     sk: Group.Scalar, pk: Group.Point)
    requires W.Conforms(w, ZeroCheck.witnessShape) && I.Conforms(x, ZeroCheck.instanceShape)
    requires EvalScalar(ScalarOf(w, 0)) == Ok(sk)
    requires EvalPoint(PointOf(x, 0)) == Ok(pk)
    requires EvalPoint(PointOf(x, 1)) == Ok(Group.Scale(sk, Group.Basepoint))
    requires EvalPoint(PointOf(x, 2)) == Ok(Group.Scale(sk, pk))
    ensures C.Prove(ZeroCheck, oracle, w, x, rng, pos).Ok?
    ensures C.Verify(ZeroCheck, oracle, x, C.Prove(ZeroCheck, oracle, w, x, rng, pos).value) == Ok(())
  {
    HonestProofAcceptance(oracle, w, x, rng, pos, sk, pk, Group.Scale(sk, Group.Basepoint), Group.Scale(sk, pk));
    var e := C.ProverChallenge(ZeroCheck, oracle, x, rng, pos);
    ZeroDifference(e, Group.Scale(sk, Group.Basepoint));
    ZeroDifference(e, Group.Scale(sk, pk));
    var r := C.Verify(ZeroCheck, oracle, x, C.Prove(ZeroCheck, oracle, w, x, rng, pos).value);
    assert r.value == ();
  }

  /** `e * (P - P)` is the identity. */
  lemma ZeroDifference(e: Group.Scalar, p: Group.Point)
    ensures Group.Scale(e, Group.PSub(p, p)) == Group.Identity
  {
  }

  /** The challenge function that always answers `k`. */
  function ConstantOracle(k: Group.Scalar): C.Oracle
  {
    (domain: string, absorbed: seq<C.Message>) => k
  }

  /**
   * A mismatched instance still yields a proof, and if the challenge happens
   * to be 0 that proof is accepted: nothing ties the proof to the relation
   * except the challenge.
   */
  lemma ZeroChallengeAcceptsMismatch(w: W.Witness, x: I.Instance, rng: nat -> Group.Scalar, pos: nat,
                                     sk: Group.Scalar, pk: Group.Point, commitment: Group.Point, handle: Group.Point)
    requires W.Conforms(w, ZeroCheck.witnessShape) && I.Conforms(x, ZeroCheck.instanceShape)
    requires EvalScalar(ScalarOf(w, 0)) == Ok(sk)
    requires EvalPoint(PointOf(x, 0)) == Ok(pk)
    requires EvalPoint(PointOf(x, 1)) == Ok(commitment)
    requires EvalPoint(PointOf(x, 2)) == Ok(handle)
    ensures C.Prove(ZeroCheck, ConstantOracle(0), w, x, rng, pos).Ok?
    ensures C.Verify(ZeroCheck, ConstantOracle(0), x, C.Prove(ZeroCheck, ConstantOracle(0), w, x, rng, pos).value).Ok?
  {
    HonestProofAcceptance(ConstantOracle(0), w, x, rng, pos, sk, pk, commitment, handle);
    Group.ScaleOneZero(Group.PSub(Group.Scale(sk, Group.Basepoint), commitment));
    Group.ScaleOneZero(Group.PSub(Group.Scale(sk, pk), handle));
  }

  /** Under the challenge 1, the honest proof for a mismatched instance is rejected. */
  lemma UnitChallengeRejectsMismatch(w: W.Witness, x: I.Instance, rng: nat -> Group.Scalar, pos: nat,
                                     sk: Group.Scalar, pk: Group.Point, commitment: Group.Point, handle: Group.Point)
    requires W.Conforms(w, ZeroCheck.witnessShape) && I.Conforms(x, ZeroCheck.instanceShape)
    requires EvalScalar(ScalarOf(w, 0)) == Ok(sk)
    requires EvalPoint(PointOf(x, 0)) == Ok(pk)
    requires EvalPoint(PointOf(x, 1)) == Ok(commitment)
    requires EvalPoint(PointOf(x, 2)) == Ok(handle)
    requires commitment != Group.Scale(sk, Group.Basepoint) || handle != Group.Scale(sk, pk)
    ensures C.Prove(ZeroCheck, ConstantOracle(1), w, x, rng, pos).Ok?
    ensures C.Verify(ZeroCheck, ConstantOracle(1), x, C.Prove(ZeroCheck, ConstantOracle(1), w, x, rng, pos).value).Err?
  {
    HonestProofAcceptance(ConstantOracle(1), w, x, rng, pos, sk, pk, commitment, handle);
    var d1 := Group.PSub(Group.Scale(sk, Group.Basepoint), commitment);
    var d2 := Group.PSub(Group.Scale(sk, pk), handle);
    Group.ScaleOneZero(d1);
    Group.ScaleOneZero(d2);
    Group.PSubAdd(Group.Scale(sk, Group.Basepoint), commitment);
    Group.PSubAdd(Group.Scale(sk, pk), handle);
    Group.PAddComm(Group.Identity, commitment);
    Group.PAddComm(Group.Identity, handle);
    Group.PAddIdentity(commitment);
    Group.PAddIdentity(handle);
  }

  /** The text of the first output of `psi` in the specification: the secret key against `G`. */
  lemma PsiText0()
    ensures Latex.PointToLatex(Psi(Latex.DummyWitness(ZeroCheck.witnessShape), Latex.DummyInstance(ZeroCheck.instanceShape))[0],
                               Latex.VarNames(ZeroCheck.witnessShape))
            == Latex.LatexVar("secret_key") + " \\cdot " + "G"
  {
    var w := Latex.DummyWitness(ZeroCheck.witnessShape);
    Latex.NamedWitnessLeaf(WitnessFields, 0);
    Latex.ScaledBasepoint(ScalarOf(w, 0), Latex.VarNames(ZeroCheck.witnessShape));
  }

  /** The text of the second output of `psi`: the secret key against the public key, by name. */
  lemma PsiText1()
    ensures Latex.PointToLatex(Psi(Latex.DummyWitness(ZeroCheck.witnessShape), Latex.DummyInstance(ZeroCheck.instanceShape))[1],
                               Latex.VarNames(ZeroCheck.witnessShape))
            == Latex.LatexVar("secret_key") + " \\cdot " + Latex.LatexVar("pubkey")
  {
    Latex.NamedScaledInstance(WitnessFields, InstanceFields, 0, 0);
  }

  /** The texts of the two outputs of `f`: the commitment and the handle, by name. */
  lemma FTexts()
    ensures var x := Latex.DummyInstance(ZeroCheck.instanceShape);
      && Latex.FLabel(ZeroCheck.f(x)[0], ZeroCheck.instanceShape, Latex.VarNames(ZeroCheck.witnessShape)) == Latex.LatexVar("commitment")
      && Latex.FLabel(ZeroCheck.f(x)[1], ZeroCheck.instanceShape, Latex.VarNames(ZeroCheck.witnessShape)) == Latex.LatexVar("handle")
  {
    var names := Latex.VarNames(ZeroCheck.witnessShape);
    Latex.NamedInstancePoint(InstanceFields, 1, names);
    Latex.NamedInstancePoint(InstanceFields, 2, names);
  }

  /**
   * The checks section of the zero-check specification:
   * `* $\texttt{secret\_key} \cdot G = \texttt{commitment}$` and
   * `* $\texttt{secret\_key} \cdot \texttt{pubkey} = \texttt{handle}$`.
   */
  lemma SpecLines()
    ensures Latex.SpecChecks(ZeroCheck)
            == Latex.Lines([Latex.CheckLine(Latex.LatexVar("secret_key") + " \\cdot " + "G", Latex.LatexVar("commitment")),
                     Latex.CheckLine(Latex.LatexVar("secret_key") + " \\cdot " + Latex.LatexVar("pubkey"), Latex.LatexVar("handle"))])
  {
    PsiText0();
    PsiText1();
    FTexts();
    PointInstanceSorted(InstanceFields);
    Latex.DoubleCheck(ZeroCheck, Latex.LatexVar("secret_key") + " \\cdot " + "G",
                      Latex.LatexVar("secret_key") + " \\cdot " + Latex.LatexVar("pubkey"),
                      Latex.LatexVar("commitment"), Latex.LatexVar("handle"));
  }
}
