/**
 * The Okamoto protocol: knowledge of `x, y` with `point = x * G + y * H`.
 */
module Okamoto {
  import opened Errors
  import Group
  import opened Equations
  import W = SymWitnessDerive
  import I = SymInstanceDerive
  import C = Compiler
  import Codec
  import opened Sigmas
  import Latex

  const WitnessFields: seq<string> := ["x", "y"]
  const InstanceFields: seq<string> := ["point"]

  /** `f`: the statement is the instance point. */
  function F(x: I.Instance): seq<SymPoint>
  {
    [PointOf(x, 0)]
  }

  /** `psi`: the single output `x * G + y * H`. */
  function Psi(h: Group.Point, w: W.Witness, x: I.Instance): seq<SymPoint>
  {
    [PointPlus(ScaleBy(ScalarOf(w, 0), G), ScaleBy(ScalarOf(w, 1), Generator(h)))]
  }

  /** The protocol for the second generator `h`. */
  function Okamoto(h: Group.Point): C.Protocol
  {
    C.Protocol(
      "okamoto-protocol",
      ScalarWitnessShape(WitnessFields),
      PointInstanceShape(InstanceFields),
      F,
      (w, x) => Psi(h, w, x))
  }

  /** `f` hands the verifier exactly the points the instance absorbs: `[point]`. */
  lemma FIsInstance(h: Group.Point, x: I.Instance)
    requires I.Conforms(x, Okamoto(h).instanceShape)
    ensures Okamoto(h).f(x) == I.Points(x)
    ensures I.Scalars(x) == []
  {
    PointInstanceLists(x, InstanceFields);
  }

  /** `psi` is linear in the pair `(x, y)`, for every instance. */
  lemma PsiLinear(h: Group.Point, x: I.Instance)
    ensures C.Linear(Okamoto(h), x)
  {
    var proto := Okamoto(h);
    forall w1, w2, w3, e
      ensures C.LinearAt(proto, x, w1, w2, w3, e)
    {
      if C.Combination(proto, w1, w2, w3, e) {
        CombinationValues(proto, WitnessFields, w1, w2, w3, e);
        ScaleResponsePair(
          EvalScalar(ScalarOf(w1, 0)).value, EvalScalar(ScalarOf(w2, 0)).value,
          EvalScalar(ScalarOf(w1, 1)).value, EvalScalar(ScalarOf(w2, 1)).value,
          e, Group.Basepoint, h);
      }
    }
  }

  /** `f` and `psi` both have one output, so `verify` never reports an arity mismatch. */
  lemma Arity(h: Group.Point, oracle: C.Oracle, x: I.Instance, proof: seq<Codec.Byte>)
    ensures forall w :: C.ArityAgreesAt(Okamoto(h), x, w)
    ensures C.Verify(Okamoto(h), oracle, x, proof) != Err(PsiOutputLengthMismatch)
  {
    C.NoArityMismatch(Okamoto(h), oracle, x, proof);
  }

  /**
   * With `point = x * G + y * H` and a witness that evaluates to `(x, y)`,
   * `prove` succeeds with one commitment and two responses, and `verify`
   * accepts its proof.
   */
  lemma Completeness(h: Group.Point, oracle: C.Oracle, w: W.Witness, x: I.Instance, rng: nat -> Group.Scalar, pos: nat,
                     sx: Group.Scalar, sy: Group.Scalar)
    requires W.Conforms(w, Okamoto(h).witnessShape) && I.Conforms(x, Okamoto(h).instanceShape)
    requires EvalScalar(ScalarOf(w, 0)) == Ok(sx) && EvalScalar(ScalarOf(w, 1)) == Ok(sy)
    requires EvalPoint(PointOf(x, 0)) == Ok(Group.PAdd(Group.Scale(sx, Group.Basepoint), Group.Scale(sy, h)))
    ensures C.Prove(Okamoto(h), oracle, w, x, rng, pos).Ok?
    ensures |C.Prove(Okamoto(h), oracle, w, x, rng, pos).value| == 3 * Codec.WordSize
    ensures C.Verify(Okamoto(h), oracle, x, C.Prove(Okamoto(h), oracle, w, x, rng, pos).value) == Ok(())
  {
    var proto := Okamoto(h);
    ScalarWitnessValues(w, WitnessFields);
    PointInstanceLists(x, InstanceFields);
    PsiLinear(h, x);
    assert EvalPoints(proto.psi(w, x)) == EvalPoints(proto.f(x));
    assert C.AbsorbInstance(x).Ok?;
    C.Completeness(proto, oracle, w, x, rng, pos);
    C.CommitmentEvaluates(proto, w, x, rng, pos);
    C.ProveUnfold(proto, oracle, w, x, rng, pos);
    var alphas := C.Alphas(proto, rng, pos);
    ScalarWitnessValues(alphas, WitnessFields);
  }

  /** The text of the output of `psi`; `h` prints as a generic point `P`. */
  lemma PsiText(h: Group.Point)
    requires h != Group.Basepoint && h != Latex.DummyPoint(2) && h != Latex.DummyPoint(3) && h != Latex.DummyPoint(4)
    ensures var w, x := Latex.DummyWitness(Okamoto(h).witnessShape), Latex.DummyInstance(Okamoto(h).instanceShape);
      Latex.PointToLatex(Psi(h, w, x)[0], Latex.VarNames(Okamoto(h).witnessShape))
      == "(" + (Latex.LatexVar("x") + " \\cdot " + "G") + " + " + (Latex.LatexVar("y") + " \\cdot " + "P") + ")"
  {
    var w, x := Latex.DummyWitness(Okamoto(h).witnessShape), Latex.DummyInstance(Okamoto(h).instanceShape);
    Latex.DummyPointsDistinct();
    Latex.NamedScaledConst(WitnessFields, 0, Group.Basepoint);
    Latex.NamedScaledConst(WitnessFields, 1, h);
    Latex.SumText(ScaleBy(ScalarOf(w, 0), G), ScaleBy(ScalarOf(w, 1), Generator(h)), Latex.VarNames(Okamoto(h).witnessShape));
  }

  lemma FText(h: Group.Point)
    ensures Latex.FLabel(Okamoto(h).f(Latex.DummyInstance(Okamoto(h).instanceShape))[0], Okamoto(h).instanceShape,
                         Latex.VarNames(Okamoto(h).witnessShape))
            == Latex.LatexVar("point")
  {
    Latex.NamedInstancePoint(InstanceFields, 0, Latex.VarNames(Okamoto(h).witnessShape));
  }

  /**
   * The checks section of the Okamoto specification is the single line
   * `* $(\texttt{x} \cdot G + \texttt{y} \cdot P) = \texttt{point}$`.
   */
  lemma SpecLines(h: Group.Point)
    requires h != Group.Basepoint && h != Latex.DummyPoint(2) && h != Latex.DummyPoint(3) && h != Latex.DummyPoint(4)
    ensures Latex.SpecChecks(Okamoto(h))
            == Latex.Lines([Latex.CheckLine("(" + (Latex.LatexVar("x") + " \\cdot " + "G") + " + " + (Latex.LatexVar("y") + " \\cdot " + "P") + ")",
                                     Latex.LatexVar("point"))])
  {
    PsiText(h);
    FText(h);
    PointInstanceSorted(InstanceFields);
    Latex.SingleCheck(Okamoto(h), "(" + (Latex.LatexVar("x") + " \\cdot " + "G") + " + " + (Latex.LatexVar("y") + " \\cdot " + "P") + ")",
                      Latex.LatexVar("point"));
  }
}
