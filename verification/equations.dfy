/**
 * The symbolic expression engine: immutable expression trees over scalars and
 * points, their evaluation, and the operators that build them.
 */
module Equations {
  import opened Errors
  import Group

  /** `SymScalar`: a scalar-valued expression tree. `Var(None)` is a variable not yet bound. */
  datatype SymScalar =
    | Const(value: Group.Scalar)
    | Var(binding: Option<Group.Scalar>)
    | Add(left: SymScalar, right: SymScalar)
    | Sub(left: SymScalar, right: SymScalar)
    | Neg(operand: SymScalar)
    | Mul(left: SymScalar, right: SymScalar)

  /** `SymPoint`: a point-valued expression tree; `Scale(s, p)` is `s * p`. */
  datatype SymPoint =
    | Const(point: Group.Point)
    | Var(binding: Option<Group.Point>)
    | Add(left: SymPoint, right: SymPoint)
    | Sub(left: SymPoint, right: SymPoint)
    | Neg(operand: SymPoint)
    | Scale(factor: SymScalar, base: SymPoint)

  /** The kind of an unbound (`Var(None)`) leaf. */
  datatype Hole = ScalarHole | PointHole

  /** The error evaluation reports for an unbound leaf of the given kind. */
  function HoleError(h: Hole): SigmaProofError
  {
    match h
    case ScalarHole => UninstantiatedScalar
    case PointHole => UninstantiatedPoint
  }

  /** The unbound leaves of a scalar tree, in left-to-right reading order. */
  function ScalarHoles(s: SymScalar): (h: seq<Hole>)
    ensures forall i | 0 <= i < |h| :: h[i] == ScalarHole
  {
    match s
    case Const(_) => []
    case Var(b) => if b.None? then [ScalarHole] else []
    case Add(l, r) => ScalarHoles(l) + ScalarHoles(r)
    case Sub(l, r) => ScalarHoles(l) + ScalarHoles(r)
    case Neg(e) => ScalarHoles(e)
    case Mul(l, r) => ScalarHoles(l) + ScalarHoles(r)
  }

  /** The unbound leaves of a point tree, in left-to-right reading order. */
  function PointHoles(p: SymPoint): seq<Hole>
  {
    match p
    case Const(_) => []
    case Var(b) => if b.None? then [PointHole] else []
    case Add(l, r) => PointHoles(l) + PointHoles(r)
    case Sub(l, r) => PointHoles(l) + PointHoles(r)
    case Neg(e) => PointHoles(e)
    case Scale(s, q) => ScalarHoles(s) + PointHoles(q)
  }

  /**
   * `SymScalar::evaluate`: the tree evaluates exactly when it has no unbound
   * leaf, and the only error it can report is `UninstantiatedScalar`.
   */
  function EvalScalar(s: SymScalar): (r: Result<Group.Scalar>)
    ensures r.Ok? <==> ScalarHoles(s) == []
    ensures r.Err? ==> r.error == UninstantiatedScalar
  {
    match s
    case Const(v) => Ok(v)
    case Var(b) => if b.Some? then Ok(b.value) else Err(UninstantiatedScalar)
    case Add(l, r) =>
      var x :- EvalScalar(l);
      var y :- EvalScalar(r);
      Ok(Group.Add(x, y))
    case Sub(l, r) =>
      var x :- EvalScalar(l);
      var y :- EvalScalar(r);
      Ok(Group.Sub(x, y))
    case Neg(e) =>
      var x :- EvalScalar(e);
      Ok(Group.Neg(x))
    case Mul(l, r) =>
      var x :- EvalScalar(l);
      var y :- EvalScalar(r);
      Ok(Group.Mul(x, y))
  }

  /**
   * `SymPoint::evaluate`: the tree evaluates exactly when it has no unbound
   * leaf; otherwise the error names the kind of the FIRST unbound leaf in
   * reading order (left operand before right, scalar factor before base).
   */
  function EvalPoint(p: SymPoint): (r: Result<Group.Point>)
    ensures r.Ok? <==> PointHoles(p) == []
    ensures r.Err? ==> PointHoles(p) != [] && r.error == HoleError(PointHoles(p)[0])
  {
    match p
    case Const(v) => Ok(v)
    case Var(b) => if b.Some? then Ok(b.value) else Err(UninstantiatedPoint)
    case Add(l, r) =>
      var x :- EvalPoint(l);
      var y :- EvalPoint(r);
      Ok(Group.PAdd(x, y))
    case Sub(l, r) =>
      var x :- EvalPoint(l);
      var y :- EvalPoint(r);
      Ok(Group.PSub(x, y))
    case Neg(e) =>
      var x :- EvalPoint(e);
      Ok(Group.PNeg(x))
    case Scale(s, q) =>
      var k :- EvalScalar(s);
      var x :- EvalPoint(q);
      Ok(Group.Scale(k, x))
  }

  /** Evaluates a list of scalar trees in order, stopping at the first failure. */
  function EvalScalars(ss: seq<SymScalar>): (r: Result<seq<Group.Scalar>>)
    ensures r.Ok? <==> forall i | 0 <= i < |ss| :: EvalScalar(ss[i]).Ok?
    ensures r.Ok? ==> |r.value| == |ss| && forall i | 0 <= i < |ss| :: r.value[i] == EvalScalar(ss[i]).value
    ensures r.Err? ==> r.error == UninstantiatedScalar
  {
    if |ss| == 0 then Ok([])
    else
      var x :- EvalScalar(ss[0]);
      var xs :- EvalScalars(ss[1..]);
      Ok([x] + xs)
  }

  /**
   * Evaluates a list of point trees in order (`collect::<Result<Vec<_>>>`),
   * stopping at the first failure, whose error is returned.
   */
  function EvalPoints(ps: seq<SymPoint>): (r: Result<seq<Group.Point>>)
    ensures r.Ok? <==> forall i | 0 <= i < |ps| :: EvalPoint(ps[i]).Ok?
    ensures r.Ok? ==> |r.value| == |ps| && forall i | 0 <= i < |ps| :: r.value[i] == EvalPoint(ps[i]).value
    ensures r.Err? ==> exists i | 0 <= i < |ps| ::
      && EvalPoint(ps[i]) == Err(r.error)
      && forall j | 0 <= j < i :: EvalPoint(ps[j]).Ok?
  {
    if |ps| == 0 then Ok([])
    else
      var x :- EvalPoint(ps[0]);
      var xs :- EvalPoints(ps[1..]);
      Ok([x] + xs)
  }

  /** Evaluating a concatenation evaluates the left list first. */
  lemma {:induction false} EvalScalarsConcat(a: seq<SymScalar>, b: seq<SymScalar>)
    ensures EvalScalars(a + b) ==
      if EvalScalars(a).Err? then EvalScalars(a)
      else if EvalScalars(b).Err? then EvalScalars(b)
      else Ok(EvalScalars(a).value + EvalScalars(b).value)
  {
    if |a| == 0 {
      assert a + b == b;
      if EvalScalars(b).Ok? {
        assert [] + EvalScalars(b).value == EvalScalars(b).value;
      }
    } else {
      assert (a + b)[0] == a[0];
      assert (a + b)[1..] == a[1..] + b;
      EvalScalarsConcat(a[1..], b);
      if EvalScalar(a[0]).Ok? && EvalScalars(a[1..]).Ok? && EvalScalars(b).Ok? {
        var x := EvalScalar(a[0]).value;
        assert [x] + (EvalScalars(a[1..]).value + EvalScalars(b).value)
            == ([x] + EvalScalars(a[1..]).value) + EvalScalars(b).value;
      }
    }
  }

  /** Evaluating a concatenation of point lists evaluates the left list first. */
  lemma {:induction false} EvalPointsConcat(a: seq<SymPoint>, b: seq<SymPoint>)
    ensures EvalPoints(a + b) ==
      if EvalPoints(a).Err? then EvalPoints(a)
      else if EvalPoints(b).Err? then EvalPoints(b)
      else Ok(EvalPoints(a).value + EvalPoints(b).value)
  {
    if |a| == 0 {
      assert a + b == b;
      if EvalPoints(b).Ok? {
        assert [] + EvalPoints(b).value == EvalPoints(b).value;
      }
    } else {
      assert (a + b)[0] == a[0];
      assert (a + b)[1..] == a[1..] + b;
      EvalPointsConcat(a[1..], b);
      if EvalPoint(a[0]).Ok? && EvalPoints(a[1..]).Ok? && EvalPoints(b).Ok? {
        var x := EvalPoint(a[0]).value;
        assert [x] + (EvalPoints(a[1..]).value + EvalPoints(b).value)
            == ([x] + EvalPoints(a[1..]).value) + EvalPoints(b).value;
      }
    }
  }

  // The operator impls of equations.rs: each builds one node and evaluates to
  // the corresponding field or group operation on the evaluated operands.

  /** `a + b` on symbolic scalars. */
  function ScalarPlus(a: SymScalar, b: SymScalar): (r: SymScalar)
    ensures EvalScalar(r).Ok? <==> EvalScalar(a).Ok? && EvalScalar(b).Ok?
    ensures EvalScalar(r).Ok? ==> EvalScalar(r).value == Group.Add(EvalScalar(a).value, EvalScalar(b).value)
    ensures ScalarHoles(r) == ScalarHoles(a) + ScalarHoles(b)
  {
    SymScalar.Add(a, b)
  }

  /** `a - b` on symbolic scalars. */
  function ScalarMinus(a: SymScalar, b: SymScalar): (r: SymScalar)
    ensures EvalScalar(r).Ok? <==> EvalScalar(a).Ok? && EvalScalar(b).Ok?
    ensures EvalScalar(r).Ok? ==> EvalScalar(r).value == Group.Sub(EvalScalar(a).value, EvalScalar(b).value)
    ensures ScalarHoles(r) == ScalarHoles(a) + ScalarHoles(b)
  {
    SymScalar.Sub(a, b)
  }

  /** `a * b` on symbolic scalars. */
  function ScalarTimes(a: SymScalar, b: SymScalar): (r: SymScalar)
    ensures EvalScalar(r).Ok? <==> EvalScalar(a).Ok? && EvalScalar(b).Ok?
    ensures EvalScalar(r).Ok? ==> EvalScalar(r).value == Group.Mul(EvalScalar(a).value, EvalScalar(b).value)
    ensures ScalarHoles(r) == ScalarHoles(a) + ScalarHoles(b)
  {
    SymScalar.Mul(a, b)
  }

  /** `-a` on a symbolic scalar. */
  function ScalarNegate(a: SymScalar): (r: SymScalar)
    ensures EvalScalar(r).Ok? <==> EvalScalar(a).Ok?
    ensures EvalScalar(r).Ok? ==> EvalScalar(r).value == Group.Neg(EvalScalar(a).value)
    ensures ScalarHoles(r) == ScalarHoles(a)
  {
    SymScalar.Neg(a)
  }

  /** `p + q` on symbolic points. */
  function PointPlus(p: SymPoint, q: SymPoint): (r: SymPoint)
    ensures EvalPoint(r).Ok? <==> EvalPoint(p).Ok? && EvalPoint(q).Ok?
    ensures EvalPoint(r).Ok? ==> EvalPoint(r).value == Group.PAdd(EvalPoint(p).value, EvalPoint(q).value)
    ensures PointHoles(r) == PointHoles(p) + PointHoles(q)
  {
    SymPoint.Add(p, q)
  }

  /** `p - q` on symbolic points. */
  function PointMinus(p: SymPoint, q: SymPoint): (r: SymPoint)
    ensures EvalPoint(r).Ok? <==> EvalPoint(p).Ok? && EvalPoint(q).Ok?
    ensures EvalPoint(r).Ok? ==> EvalPoint(r).value == Group.PSub(EvalPoint(p).value, EvalPoint(q).value)
    ensures PointHoles(r) == PointHoles(p) + PointHoles(q)
  {
    SymPoint.Sub(p, q)
  }

  /** `-p` on a symbolic point. */
  function PointNegate(p: SymPoint): (r: SymPoint)
    ensures EvalPoint(r).Ok? <==> EvalPoint(p).Ok?
    ensures EvalPoint(r).Ok? ==> EvalPoint(r).value == Group.PNeg(EvalPoint(p).value)
    ensures PointHoles(r) == PointHoles(p)
  {
    SymPoint.Neg(p)
  }

  /** `s * p` with a symbolic scalar: the scalar operand is evaluated first. */
  function ScaleBy(s: SymScalar, p: SymPoint): (r: SymPoint)
    ensures EvalPoint(r).Ok? <==> EvalScalar(s).Ok? && EvalPoint(p).Ok?
    ensures EvalPoint(r).Ok? ==> EvalPoint(r).value == Group.Scale(EvalScalar(s).value, EvalPoint(p).value)
    ensures PointHoles(r) == ScalarHoles(s) + PointHoles(p)
  {
    SymPoint.Scale(s, p)
  }

  /** `k * p` with a concrete scalar, which is wrapped as a constant leaf. */
  function ScaleByConst(k: Group.Scalar, p: SymPoint): (r: SymPoint)
    ensures EvalPoint(r).Ok? <==> EvalPoint(p).Ok?
    ensures EvalPoint(r).Ok? ==> EvalPoint(r).value == Group.Scale(k, EvalPoint(p).value)
    ensures PointHoles(r) == PointHoles(p)
  {
    SymPoint.Scale(SymScalar.Const(k), p)
  }

  /** The unit tests of equations.rs on constant scalars: 5+3, 5-3, 5*3 and -5. */
  lemma ScalarOperatorTests()
    ensures
      var a := SymScalar.Const(Group.FromNat(5));
      var b := SymScalar.Const(Group.FromNat(3));
      && EvalScalar(ScalarPlus(a, b)) == Ok(Group.FromNat(8))
      && EvalScalar(ScalarMinus(a, b)) == Ok(Group.FromNat(2))
      && EvalScalar(ScalarTimes(a, b)) == Ok(Group.FromNat(15))
      && EvalScalar(ScalarNegate(a)) == Ok(Group.Neg(Group.FromNat(5)))
  {
  }

  /** The unit tests of equations.rs on points: 2G+3G = 5G, 3G-2G = G, 4*G and (2+3)*G = 5G. */
  lemma PointOperatorTests()
    ensures
      var g := SymPoint.Const(Group.Basepoint);
      var two := SymScalar.Const(Group.FromNat(2));
      var three := SymScalar.Const(Group.FromNat(3));
      var fiveG := Group.Scale(Group.FromNat(5), Group.Basepoint);
      && EvalPoint(PointPlus(ScaleBy(two, g), ScaleBy(three, g))) == Ok(fiveG)
      && EvalPoint(PointMinus(ScaleBy(three, g), ScaleBy(two, g))) == Ok(Group.Basepoint)
      && EvalPoint(ScaleByConst(Group.FromNat(4), g)) == Ok(Group.Scale(Group.FromNat(4), Group.Basepoint))
      && EvalPoint(ScaleBy(ScalarPlus(two, three), g)) == Ok(fiveG)
  {
  }
}
