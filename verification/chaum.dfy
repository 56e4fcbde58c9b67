/**
 * The Chaum-Pedersen protocol: knowledge of `x` with `point1 = x * G` and
 * `point2 = x * H`, the same discrete logarithm in both bases.
 */
module Chaum {
  import opened Errors
  import Group
  import opened Equations
  import W = SymWitnessDerive
  import I = SymInstanceDerive
  import C = Compiler
  import Codec
  import opened Sigmas
  import Latex

  const WitnessFields: seq<string> := ["x"]
  const InstanceFields: seq<string> := ["point1", "point2"]

  /** `f`: both instance points, in declaration order. */
  function F(x: I.Instance): seq<SymPoint>
  {
    [PointOf(x, 0), PointOf(x, 1)]
  }

  /** `psi`: the one witness scalar against each generator. */
  function Psi(h: Group.Point, w: W.Witness, x: I.Instance): seq<SymPoint>
  {
    [ScaleBy(ScalarOf(w, 0), G), ScaleBy(ScalarOf(w, 0), Generator(h))]
  }

  /** The protocol for the second generator `h`. */
  function Chaum(h: Group.Point): C.Protocol
  {
    C.Protocol(
      "chaum-protocol",
      ScalarWitnessShape(WitnessFields),
      PointInstanceShape(InstanceFields),
      F,
      (w, x) => Psi(h, w, x))
  }

  /** `f` hands the verifier exactly the points the instance absorbs: `[point1, point2]`. */
  lemma FIsInstance(h: Group.Point, x: I.Instance)
    requires I.Conforms(x, Chaum(h).instanceShape)
    ensures Chaum(h).f(x) == I.Points(x)
    ensures I.Scalars(x) == []
  {
    PointInstanceLists(x, InstanceFields);
  }

  /** Both outputs of `psi` are multiples of the same witness scalar. */
  lemma PsiSharesWitness(h: Group.Point, w: W.Witness, x: I.Instance)
    requires EvalScalar(ScalarOf(w, 0)).Ok?
    ensures EvalPoints(Chaum(h).psi(w, x)) == Ok([
      Group.Scale(EvalScalar(ScalarOf(w, 0)).value, Group.Basepoint),
      Group.Scale(EvalScalar(ScalarOf(w, 0)).value, h)])
  {
    var out := Chaum(h).psi(w, x);
    var k := EvalScalar(ScalarOf(w, 0)).value;
    assert EvalPoint(out[0]) == Ok(Group.Scale(k, Group.Basepoint));
    assert EvalPoint(out[1]) == Ok(Group.Scale(k, h));
    var r := EvalPoints(out);
    assert r.Ok? && |r.value| == 2;
    assert r.value == [r.value[0], r.value[1]];
  }

  /** `psi` is linear in `x`, for every instance. */
  lemma PsiLinear(h: Group.Point, x: I.Instance)
    ensures C.Linear(Chaum(h), x)
  {
    var proto := Chaum(h);
    forall w1, w2, w3, e
      ensures C.LinearAt(proto, x, w1, w2, w3, e)
    {
      if C.Combination(proto, w1, w2, w3, e) {
        CombinationValues(proto, WitnessFields, w1, w2, w3, e);
        var s, a := EvalScalar(ScalarOf(w1, 0)).value, EvalScalar(ScalarOf(w2, 0)).value;
        ScaleResponse(s, a, e, Group.Basepoint);
        ScaleResponse(s, a, e, h);
        PsiSharesWitness(h, w1, x);
        PsiSharesWitness(h, w2, x);
        PsiSharesWitness(h, w3, x);
      }
    }
  }

  /** `f` and `psi` both have two outputs, so `verify` never reports an arity mismatch. */
  lemma Arity(h: Group.Point, oracle: C.Oracle, x: I.Instance, proof: seq<Codec.Byte>)
    ensures forall w :: C.ArityAgreesAt(Chaum(h), x, w)
    ensures C.Verify(Chaum(h), oracle, x, proof) != Err(PsiOutputLengthMismatch)
  {
    C.NoArityMismatch(Chaum(h), oracle, x, proof);
  }

  /**
   * With `point1 = x * G`, `point2 = x * H` and a witness that evaluates to
   * `x`, `prove` succeeds and `verify` accepts its proof.
   */
  lemma Completeness(h: Group.Point, oracle: C.Oracle, w: W.Witness, x: I.Instance, rng: nat -> Group.Scalar, pos: nat,
                     sx: Group.Scalar)
    requires W.Conforms(w, Chaum(h).witnessShape) && I.Conforms(x, Chaum(h).instanceShape)
    requires EvalScalar(ScalarOf(w, 0)) == Ok(sx)
    requires EvalPoint(PointOf(x, 0)) == Ok(Group.Scale(sx, Group.Basepoint))
    requires EvalPoint(PointOf(x, 1)) == Ok(Group.Scale(sx, h))
    ensures C.Prove(Chaum(h), oracle, w, x, rng, pos).Ok?
    ensures C.Verify(Chaum(h), oracle, x, C.Prove(Chaum(h), oracle, w, x, rng, pos).value) == Ok(())
  {
    var proto := Chaum(h);
    ScalarWitnessValues(w, WitnessFields);
    PointInstanceLists(x, InstanceFields);
    PsiLinear(h, x);
    PsiSharesWitness(h, w, x);
    assert EvalPoints(proto.psi(w, x)) == EvalPoints(proto.f(x));
    assert C.AbsorbInstance(x).Ok?;
    C.Completeness(proto, oracle, w, x, rng, pos);
  }

  /**
   * The texts of the outputs of `psi`; `h` is a point other than `G` and the
   * dummy instance points, so it prints as a generic point `P`.
   */
  lemma PsiTexts(h: Group.Point)
    requires h != Group.Basepoint && h != Latex.DummyPoint(2) && h != Latex.DummyPoint(3) && h != Latex.DummyPoint(4)
    ensures var w, x := Latex.DummyWitness(Chaum(h).witnessShape), Latex.DummyInstance(Chaum(h).instanceShape);
      && Latex.PointToLatex(Chaum(h).psi(w, x)[0], Latex.VarNames(Chaum(h).witnessShape)) == Latex.LatexVar("x") + " \\cdot " + "G"
      && Latex.PointToLatex(Chaum(h).psi(w, x)[1], Latex.VarNames(Chaum(h).witnessShape)) == Latex.LatexVar("x") + " \\cdot " + "P"
  {
    Latex.DummyPointsDistinct();
    Latex.NamedScaledConst(WitnessFields, 0, Group.Basepoint);
    Latex.NamedScaledConst(WitnessFields, 0, h);
  }

  lemma FTexts(h: Group.Point)
    ensures var x := Latex.DummyInstance(Chaum(h).instanceShape);
      && Latex.FLabel(Chaum(h).f(x)[0], Chaum(h).instanceShape, Latex.VarNames(Chaum(h).witnessShape)) == Latex.LatexVar("point1")
      && Latex.FLabel(Chaum(h).f(x)[1], Chaum(h).instanceShape, Latex.VarNames(Chaum(h).witnessShape)) == Latex.LatexVar("point2")
  {
    var names := Latex.VarNames(Chaum(h).witnessShape);
    Latex.NamedInstancePoint(InstanceFields, 0, names);
    Latex.NamedInstancePoint(InstanceFields, 1, names);
  }

  /**
   * The checks section of the Chaum-Pedersen specification:
   * `* $\texttt{x} \cdot G = \texttt{point1}$` and `* $\texttt{x} \cdot P = \texttt{point2}$`.
   */
  lemma SpecLines(h: Group.Point)
    requires h != Group.Basepoint && h != Latex.DummyPoint(2) && h != Latex.DummyPoint(3) && h != Latex.DummyPoint(4)
    ensures Latex.SpecChecks(Chaum(h))
            == Latex.Lines([Latex.CheckLine(Latex.LatexVar("x") + " \\cdot " + "G", Latex.LatexVar("point1")),
                     Latex.CheckLine(Latex.LatexVar("x") + " \\cdot " + "P", Latex.LatexVar("point2"))])
  {
    PsiTexts(h);
    FTexts(h);
    PointInstanceSorted(InstanceFields);
    Latex.DoubleCheck(Chaum(h), Latex.LatexVar("x") + " \\cdot " + "G", Latex.LatexVar("x") + " \\cdot " + "P",
                      Latex.LatexVar("point1"), Latex.LatexVar("point2"));
  }
}
