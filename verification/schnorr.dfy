/**
 * The Schnorr identity protocol: knowledge of `privatekey` with
 * `pubkey = privatekey * G`.
 */
module Schnorr {
  import opened Errors
  import Group
  import opened Equations
  import W = SymWitnessDerive
  import I = SymInstanceDerive
  import C = Compiler
  import Codec
  import opened Sigmas
  import Latex

  const WitnessFields: seq<string> := ["privatekey"]
  const InstanceFields: seq<string> := ["pubkey"]

  /** `f`: the statement is the public key itself. */
  function F(x: I.Instance): seq<SymPoint>
  {
    [PointOf(x, 0)]
  }

  /** `psi`: the private key times the base point; the instance is not used. */
  function Psi(w: W.Witness, x: I.Instance): seq<SymPoint>
  {
    [ScaleBy(ScalarOf(w, 0), G)]
  }

  const Schnorr: C.Protocol := C.Protocol(
    "schnorr-identity-protocol",
    ScalarWitnessShape(WitnessFields),
    PointInstanceShape(InstanceFields),
    F,
    Psi)

  /** `f` hands the verifier exactly the points the instance absorbs: `[pubkey]`. */
  lemma FIsInstance(x: I.Instance)
    requires I.Conforms(x, Schnorr.instanceShape)
    ensures Schnorr.f(x) == I.Points(x)
    ensures I.Scalars(x) == []
  {
    PointInstanceLists(x, InstanceFields);
  }

  /** `psi(s * e + a) = psi(a) + e * psi(s)`, for every instance. */
  lemma PsiLinear(x: I.Instance)
    ensures C.Linear(Schnorr, x)
  {
    forall w1, w2, w3, e
      ensures C.LinearAt(Schnorr, x, w1, w2, w3, e)
    {
      if C.Combination(Schnorr, w1, w2, w3, e) {
        CombinationValues(Schnorr, WitnessFields, w1, w2, w3, e);
        ScaleResponse(EvalScalar(ScalarOf(w1, 0)).value, EvalScalar(ScalarOf(w2, 0)).value, e, Group.Basepoint);
      }
    }
  }

  /** `f` and `psi` both have one output, so `verify` never reports an arity mismatch. */
  lemma Arity(oracle: C.Oracle, x: I.Instance, proof: seq<Codec.Byte>)
    ensures forall w :: C.ArityAgreesAt(Schnorr, x, w)
    ensures C.Verify(Schnorr, oracle, x, proof) != Err(PsiOutputLengthMismatch)
  {
    C.NoArityMismatch(Schnorr, oracle, x, proof);
  }

  /**
   * With `pubkey = sk * G` and a witness that evaluates to `sk`, `prove`
   * succeeds and `verify` accepts its proof.
   */
  lemma Completeness(oracle: C.Oracle, w: W.Witness, x: I.Instance, rng: nat -> Group.Scalar, pos: nat, sk: Group.Scalar)
    requires W.Conforms(w, Schnorr.witnessShape) && I.Conforms(x, Schnorr.instanceShape)
    requires EvalScalar(ScalarOf(w, 0)) == Ok(sk)
    requires EvalPoint(PointOf(x, 0)) == Ok(Group.Scale(sk, Group.Basepoint))
    ensures C.Prove(Schnorr, oracle, w, x, rng, pos).Ok?
    ensures C.Verify(Schnorr, oracle, x, C.Prove(Schnorr, oracle, w, x, rng, pos).value) == Ok(())
  {
    ScalarWitnessValues(w, WitnessFields);
    PointInstanceLists(x, InstanceFields);
    PsiLinear(x);
    assert EvalPoints(Schnorr.psi(w, x)) == EvalPoints(Schnorr.f(x));
    assert C.AbsorbInstance(x).Ok?;
    C.Completeness(Schnorr, oracle, w, x, rng, pos);
  }

  /** The text of the output of `psi` in the specification. */
  lemma PsiText()
    ensures Latex.PointToLatex(Schnorr.psi(Latex.DummyWitness(Schnorr.witnessShape), Latex.DummyInstance(Schnorr.instanceShape))[0],
                               Latex.VarNames(Schnorr.witnessShape))
            == Latex.LatexVar("privatekey") + " \\cdot " + "G"
  {
    var w := Latex.DummyWitness(Schnorr.witnessShape);
    Latex.NamedWitnessLeaf(WitnessFields, 0);
    Latex.ScaledBasepoint(ScalarOf(w, 0), Latex.VarNames(Schnorr.witnessShape));
  }

  /** The text of the output of `f` in the specification. */
  lemma FText()
    ensures Latex.FLabel(Schnorr.f(Latex.DummyInstance(Schnorr.instanceShape))[0], Schnorr.instanceShape,
                         Latex.VarNames(Schnorr.witnessShape))
            == Latex.LatexVar("pubkey")
  {
    Latex.NamedInstancePoint(InstanceFields, 0, Latex.VarNames(Schnorr.witnessShape));
  }

  /**
   * The checks section of the Schnorr specification is the single line
   * `* $\texttt{privatekey} \cdot G = \texttt{pubkey}$`.
   */
  lemma SpecLines()
    ensures Latex.SpecChecks(Schnorr)
            == Latex.Lines([Latex.CheckLine(Latex.LatexVar("privatekey") + " \\cdot " + "G", Latex.LatexVar("pubkey"))])
  {
    var psiStr := Latex.LatexVar("privatekey") + " \\cdot " + "G";
    var fStr := Latex.LatexVar("pubkey");
    PsiText();
    FText();
    PointInstanceSorted(InstanceFields);
    Latex.SingleCheck(Schnorr, psiStr, fStr);
  }
}
