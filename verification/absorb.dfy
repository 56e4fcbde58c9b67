/**
 * The base cases of the two traits of absorb.rs: `SymWitness` for a bare
 * `SymScalar`, and `SymInstance` for a bare `SymScalar` or `SymPoint`.
 * The derived struct impls (sym_witness.rs, sym_instance.rs) call these for
 * their scalar and point fields.
 */
module Absorb {
  import opened Errors
  import Group
  import opened Equations

  // ---- SymWitness for SymScalar ----

  /** `rand`: one value from the random source, as a constant leaf. */
  function ScalarWitnessRand(draw: Group.Scalar): (r: SymScalar)
    ensures ScalarWitnessValues(r) == Ok([draw])
  {
    SymScalar.Const(draw)
  }

  /**
   * `values`: the one-element list of the evaluated scalar. An unbound
   * variable (directly, or anywhere inside the tree) is `UninstantiatedScalar`.
   */
  function ScalarWitnessValues(s: SymScalar): (r: Result<seq<Group.Scalar>>)
    ensures r.Ok? <==> ScalarHoles(s) == []
    ensures r.Ok? ==> r.value == [EvalScalar(s).value]
    ensures r.Err? ==> r.error == UninstantiatedScalar
  {
    if s.Var? && s.binding.None? then Err(UninstantiatedScalar)
    else
      var v :- EvalScalar(s);
      Ok([v])
  }

  /**
   * `from_values`: exactly one scalar decodes to a bound variable; any other
   * count, including none, is reported as `TooManyScalars { expected: 1 }`.
   */
  function ScalarWitnessFromValues(scalars: seq<Group.Scalar>): (r: Result<SymScalar>)
    ensures r.Ok? <==> |scalars| == 1
    ensures r.Ok? ==> r.value.Var? && ScalarWitnessValues(r.value) == Ok(scalars)
    ensures r.Err? ==> r.error == TooManyScalars(1, |scalars|)
  {
    if |scalars| == 1 then
      assert scalars == [scalars[0]];
      Ok(SymScalar.Var(Some(scalars[0])))
    else Err(TooManyScalars(1, |scalars|))
  }

  /** `num_scalars` of a bare scalar witness. */
  const ScalarWitnessNumScalars: nat := 1

  /** `get_var_name`: index 0 is "s", every other index "unknown". */
  function ScalarWitnessVarName(index: nat): (name: string)
    ensures index == 0 <==> name == "s"
    ensures index != 0 <==> name == "unknown"
  {
    if index == 0 then "s" else "unknown"
  }

  /** Decoding one scalar and listing the values again gives that scalar back. */
  lemma ScalarWitnessRoundTrip(s: Group.Scalar)
    ensures ScalarWitnessFromValues([s]).Ok?
    ensures ScalarWitnessValues(ScalarWitnessFromValues([s]).value) == Ok([s])
    ensures |ScalarWitnessValues(ScalarWitnessFromValues([s]).value).value| == ScalarWitnessNumScalars
  {
  }

  // ---- SymInstance for SymScalar ----

  const ScalarInstanceNumScalars: nat := 1
  const ScalarInstanceNumPoints: nat := 0
  const ScalarInstanceFieldNames: seq<string> := ["scalar"]

  function ScalarInstanceScalars(s: SymScalar): seq<SymScalar> { [s] }
  function ScalarInstancePoints(s: SymScalar): seq<SymPoint> { [] }

  /**
   * `from_values`: exactly one scalar and no point decode to a constant;
   * anything else is `TooManyScalars { expected: 1, actual: #scalars }`.
   */
  function ScalarInstanceFromValues(scalars: seq<Group.Scalar>, points: seq<Group.Point>): (r: Result<SymScalar>)
    ensures r.Ok? <==> |scalars| == 1 && |points| == 0
    ensures r.Ok? ==> r.value.Const?
    ensures r.Ok? ==> EvalScalars(ScalarInstanceScalars(r.value)) == Ok(scalars)
    ensures r.Ok? ==> EvalPoints(ScalarInstancePoints(r.value)) == Ok(points)
    ensures r.Err? ==> r.error == TooManyScalars(1, |scalars|)
  {
    if |scalars| == 1 && |points| == 0 then
      assert scalars == [scalars[0]];
      assert EvalScalars([SymScalar.Const(scalars[0])]).value == scalars;
      Ok(SymScalar.Const(scalars[0]))
    else Err(TooManyScalars(1, |scalars|))
  }

  // ---- SymInstance for SymPoint ----

  const PointInstanceNumScalars: nat := 0
  const PointInstanceNumPoints: nat := 1
  const PointInstanceFieldNames: seq<string> := ["point"]

  function PointInstanceScalars(p: SymPoint): seq<SymScalar> { [] }
  function PointInstancePoints(p: SymPoint): seq<SymPoint> { [p] }

  /**
   * `from_values`: no scalar and exactly one point decode to a constant;
   * anything else is `TooManyScalars { expected: 0, actual: #scalars }`,
   * even when it is the points that are wrong.
   */
  function PointInstanceFromValues(scalars: seq<Group.Scalar>, points: seq<Group.Point>): (r: Result<SymPoint>)
    ensures r.Ok? <==> |scalars| == 0 && |points| == 1
    ensures r.Ok? ==> r.value.Const?
    ensures r.Ok? ==> EvalScalars(PointInstanceScalars(r.value)) == Ok(scalars)
    ensures r.Ok? ==> EvalPoints(PointInstancePoints(r.value)) == Ok(points)
    ensures r.Err? ==> r.error == TooManyScalars(0, |scalars|)
  {
    if |scalars| == 0 && |points| == 1 then
      assert points == [points[0]];
      assert EvalPoints([SymPoint.Const(points[0])]).value == points;
      Ok(SymPoint.Const(points[0]))
    else Err(TooManyScalars(0, |scalars|))
  }

  /**
   * For both bare instance impls the lists have the advertised lengths, and
   * decoding the evaluated lists of a bound value gives back a constant with
   * the same value.
   */
  lemma InstanceRoundTrips(s: SymScalar, p: SymPoint)
    requires EvalScalar(s).Ok? && EvalPoint(p).Ok?
    ensures |ScalarInstanceScalars(s)| == ScalarInstanceNumScalars && |ScalarInstancePoints(s)| == ScalarInstanceNumPoints
    ensures |PointInstanceScalars(p)| == PointInstanceNumScalars && |PointInstancePoints(p)| == PointInstanceNumPoints
    ensures EvalScalars(ScalarInstanceScalars(s)).Ok? && EvalPoints(ScalarInstancePoints(s)).Ok?
    ensures ScalarInstanceFromValues(EvalScalars(ScalarInstanceScalars(s)).value, EvalPoints(ScalarInstancePoints(s)).value)
            == Ok(SymScalar.Const(EvalScalar(s).value))
    ensures EvalScalars(PointInstanceScalars(p)).Ok? && EvalPoints(PointInstancePoints(p)).Ok?
    ensures PointInstanceFromValues(EvalScalars(PointInstanceScalars(p)).value, EvalPoints(PointInstancePoints(p)).value)
            == Ok(SymPoint.Const(EvalPoint(p).value))
  {
    assert [s][0] == s && [p][0] == p;
    assert EvalScalars([s]).Ok? && EvalScalars([s]).value == [EvalScalar(s).value];
    assert EvalPoints([p]).Ok? && EvalPoints([p]).value == [EvalPoint(p).value];
  }
}
