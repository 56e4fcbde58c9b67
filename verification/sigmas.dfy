/**
 * What the concrete protocols share: the generators `G` and `H`, reading
 * the fields of witness and instance structs without nested fields, and
 * the algebra their linearity proofs use.
 *
 * `G` is the group's base point. `H` is a second generator whose discrete
 * logarithm is unknown; the model takes it as a parameter of the protocols
 * that use it, so everything proved about them holds for every choice of `H`.
 */
module Sigmas {
  import opened Errors
  import Group
  import opened Equations
  import W = SymWitnessDerive
  import I = SymInstanceDerive
  import opened Derive
  import C = Compiler

  /** The base point as a constant leaf. */
  const G: SymPoint := SymPoint.Const(Group.Basepoint)

  /** The second generator `h` as a constant leaf. */
  function Generator(h: Group.Point): SymPoint
  {
    SymPoint.Const(h)
  }

  /** A witness struct declaring the named scalar fields, in order. */
  function ScalarWitnessShape(names: seq<string>): (shape: W.WitnessShape)
    ensures W.Flat(shape) && shape.style == Named && |shape.fields| == |names|
    ensures forall k | 0 <= k < |names| :: shape.fields[k] == W.ScalarField(names[k])
    ensures W.NestedLast(shape)
  {
    var shape := W.WitnessShape(Named, seq(|names|, (k: int) requires 0 <= k < |names| => W.ScalarField(names[k])));
    W.FlatNestedLast(shape);
    shape
  }

  /** An instance struct declaring the named point fields, in order. */
  function PointInstanceShape(names: seq<string>): (shape: I.InstanceShape)
    ensures shape.style == Named && |shape.fields| == |names|
    ensures forall k | 0 <= k < |names| :: shape.fields[k] == I.PointField(names[k])
  {
    I.InstanceShape(Named, seq(|names|, (k: int) requires 0 <= k < |names| => I.PointField(names[k])))
  }

  /** An instance struct of points has no nested field and no scalar field after a point. */
  lemma PointInstanceSorted(names: seq<string>)
    ensures I.Flat(PointInstanceShape(names)) && I.ScalarsBeforePoints(PointInstanceShape(names))
  {
  }

  /** The k-th field of a witness of scalars (the destructuring `let` of `psi`). */
  function ScalarOf(w: W.Witness, k: nat): SymScalar
  {
    if k < |w.fields| && w.fields[k].ScalarValue? then w.fields[k].s else SymScalar.Var(None)
  }

  /** The k-th field of an instance of points (the destructuring `let` of `f` and `psi`). */
  function PointOf(x: I.Instance, k: nat): SymPoint
  {
    if k < |x.fields| && x.fields[k].PointValue? then x.fields[k].p else SymPoint.Var(None)
  }

  /**
   * A value of a witness struct of scalars lists the values of its fields in
   * order: `values` succeeds exactly when every field evaluates.
   */
  lemma ScalarWitnessValues(w: W.Witness, names: seq<string>)
    requires W.Conforms(w, ScalarWitnessShape(names))
    ensures |w.fields| == |names| && forall k | 0 <= k < |names| :: w.fields[k].ScalarValue?
    ensures forall k | 0 <= k < |names| :: ScalarOf(w, k) == w.fields[k].s
    ensures W.Values(w).Ok? <==> forall k | 0 <= k < |names| :: EvalScalar(ScalarOf(w, k)).Ok?
    ensures W.Values(w).Ok? ==> |W.Values(w).value| == |names|
                                && forall k | 0 <= k < |names| :: W.Values(w).value[k] == EvalScalar(ScalarOf(w, k)).value
  {
    var shape := ScalarWitnessShape(names);
    forall k | 0 <= k < |w.fields|
      ensures w.fields[k].ScalarValue?
    {
      assert W.FieldConforms(w.fields[k], shape.fields[k]);
    }
    W.ScalarFieldsFlatten(w, 0);
    var flat := W.Flatten(w);
    assert flat == W.FlattenFrom(w, 0);
    assert forall k | 0 <= k < |names| :: flat[k] == ScalarOf(w, k);
    assert W.Values(w) == EvalScalars(flat);
  }

  /**
   * A value of an instance struct of points lists no scalar and its fields
   * as its points; absorbing it succeeds exactly when every point evaluates.
   */
  lemma PointInstanceLists(x: I.Instance, names: seq<string>)
    requires I.Conforms(x, PointInstanceShape(names))
    ensures |x.fields| == |names| && forall k | 0 <= k < |names| :: x.fields[k].PointValue?
    ensures forall k | 0 <= k < |names| :: PointOf(x, k) == x.fields[k].p
    ensures I.Scalars(x) == []
    ensures |I.Points(x)| == |names| && forall k | 0 <= k < |names| :: I.Points(x)[k] == PointOf(x, k)
  {
    var shape := PointInstanceShape(names);
    forall k | 0 <= k < |x.fields|
      ensures x.fields[k].PointValue?
    {
      assert I.FieldConforms(x.fields[k], shape.fields[k]);
    }
    I.PointFieldsLists(x, 0);
  }

  /** The response scalar `s * e + a` times `P` is `a * P + e * (s * P)`. */
  lemma ScaleResponse(s: Group.Scalar, a: Group.Scalar, e: Group.Scalar, p: Group.Point)
    ensures Group.Scale(Group.Add(Group.Mul(s, e), a), p) == Group.PAdd(Group.Scale(a, p), Group.Scale(e, Group.Scale(s, p)))
  {
    Group.ScaleAddScalars(Group.Mul(s, e), a, p);
    Group.ScaleMul(s, e, p);
    Group.PAddComm(Group.Scale(Group.Mul(s, e), p), Group.Scale(a, p));
  }

  /** The same for a sum of two scaled generators. */
  lemma ScaleResponsePair(s: Group.Scalar, a: Group.Scalar, t: Group.Scalar, b: Group.Scalar, e: Group.Scalar,
                          p: Group.Point, q: Group.Point)
    ensures
      Group.PAdd(Group.Scale(Group.Add(Group.Mul(s, e), a), p), Group.Scale(Group.Add(Group.Mul(t, e), b), q))
      == Group.PAdd(Group.PAdd(Group.Scale(a, p), Group.Scale(b, q)),
                    Group.Scale(e, Group.PAdd(Group.Scale(s, p), Group.Scale(t, q))))
  {
    ScaleResponse(s, a, e, p);
    ScaleResponse(t, b, e, q);
    Group.ScaleAddPoints(e, Group.Scale(s, p), Group.Scale(t, q));
    Group.PAddInterchange(Group.Scale(a, p), Group.Scale(e, Group.Scale(s, p)), Group.Scale(b, q), Group.Scale(e, Group.Scale(t, q)));
  }

  /**
   * For a witness struct of scalars, three witnesses in the relation the
   * responses create have field values `s_k`, `a_k` and `s_k * e + a_k`.
   */
  lemma CombinationValues(proto: C.Protocol, names: seq<string>, w1: W.Witness, w2: W.Witness, w3: W.Witness, e: Group.Scalar)
    requires proto.witnessShape == ScalarWitnessShape(names)
    requires C.Combination(proto, w1, w2, w3, e)
    ensures forall k | 0 <= k < |names| ::
      && EvalScalar(ScalarOf(w1, k)).Ok? && EvalScalar(ScalarOf(w2, k)).Ok? && EvalScalar(ScalarOf(w3, k)).Ok?
      && EvalScalar(ScalarOf(w3, k)).value
         == Group.Add(Group.Mul(EvalScalar(ScalarOf(w1, k)).value, e), EvalScalar(ScalarOf(w2, k)).value)
  {
    ScalarWitnessValues(w1, names);
    ScalarWitnessValues(w2, names);
    ScalarWitnessValues(w3, names);
  }
}
