/**
 * What `#[derive(SymInstance)]` generates for a struct whose fields are
 * `SymScalar`s, `SymPoint`s or nested instances: `num_scalars`,
 * `num_points`, `get_field_names`, `from_values`, `scalars` and `points`.
 */
module SymInstanceDerive {
  import opened Errors
  import Group
  import opened Equations
  import Absorb
  import opened Derive

  /** An instance struct declaration; a unit struct has no fields. */
  datatype InstanceShape = InstanceShape(style: Style, fields: seq<InstanceField>)

  datatype InstanceField =
    | ScalarField(name: string)
    | PointField(name: string)
    | NestedField(name: string, shape: InstanceShape)

  /** A value of an instance struct: its fields in declaration order. */
  datatype Instance = Instance(fields: seq<InstanceValue>)

  datatype InstanceValue = ScalarValue(s: SymScalar) | PointValue(p: SymPoint) | NestedValue(x: Instance)

  // ---- shape of a value ----

  /** `x` is a value of the struct declared by `shape`. */
  predicate Conforms(x: Instance, shape: InstanceShape)
    decreases shape, 1
  {
    if shape.style == Unit then x.fields == [] else FieldsConform(x, shape, 0)
  }

  /** The fields of `x` are values of the fields of `shape` from position `i` on. */
  predicate FieldsConform(x: Instance, shape: InstanceShape, i: nat)
    decreases shape, 0
  {
    && i <= |shape.fields|
    && |x.fields| == |shape.fields| - i
    && forall k | 0 <= k < |x.fields| :: FieldConforms(x.fields[k], shape.fields[i + k])
  }

  predicate FieldConforms(v: InstanceValue, f: InstanceField)
    decreases f
  {
    match f
    case ScalarField(_) => v.ScalarValue?
    case PointField(_) => v.PointValue?
    case NestedField(_, s) => v.NestedValue? && Conforms(v.x, s)
  }

  lemma FieldsConformCons(v: InstanceValue, t: Instance, shape: InstanceShape, i: nat)
    requires i < |shape.fields|
    requires FieldConforms(v, shape.fields[i]) && FieldsConform(t, shape, i + 1)
    ensures FieldsConform(Instance([v] + t.fields), shape, i)
  {
    var x := Instance([v] + t.fields);
    forall k | 0 <= k < |x.fields|
      ensures FieldConforms(x.fields[k], shape.fields[i + k])
    {
      if k > 0 {
        assert x.fields[k] == t.fields[k - 1];
      }
    }
  }

  // ---- num_scalars, num_points ----

  /** `num_scalars`: one per scalar field, none per point field, plus every nested count. */
  function NumScalars(shape: InstanceShape): nat
    decreases shape, 1
  {
    if shape.style == Unit then 0 else ScalarCountFrom(shape, 0)
  }

  function ScalarCountFrom(shape: InstanceShape, i: nat): nat
    decreases shape, 0, |shape.fields| - i
  {
    if i >= |shape.fields| then 0 else FieldScalarCount(shape.fields[i]) + ScalarCountFrom(shape, i + 1)
  }

  function FieldScalarCount(f: InstanceField): nat
    decreases f
  {
    match f
    case ScalarField(_) => 1
    case PointField(_) => 0
    case NestedField(_, s) => NumScalars(s)
  }

  /** `num_points`: one per point field, none per scalar field, plus every nested count. */
  function NumPoints(shape: InstanceShape): nat
    decreases shape, 1
  {
    if shape.style == Unit then 0 else PointCountFrom(shape, 0)
  }

  function PointCountFrom(shape: InstanceShape, i: nat): nat
    decreases shape, 0, |shape.fields| - i
  {
    if i >= |shape.fields| then 0 else FieldPointCount(shape.fields[i]) + PointCountFrom(shape, i + 1)
  }

  function FieldPointCount(f: InstanceField): nat
    decreases f
  {
    match f
    case ScalarField(_) => 0
    case PointField(_) => 1
    case NestedField(_, s) => NumPoints(s)
  }

  // ---- get_field_names ----

  /**
   * `get_field_names`: the identifiers of a named struct, `field_<i>` for
   * the i-th field of a tuple struct, nothing for a unit struct. Nested
   * fields are named like any other field; their own fields are not listed.
   */
  function FieldNames(shape: InstanceShape): (names: seq<string>)
    ensures shape.style == Unit ==> names == []
    ensures shape.style != Unit ==> |names| == |shape.fields|
    ensures shape.style == Named ==> forall i | 0 <= i < |names| :: names[i] == shape.fields[i].name
    ensures shape.style == Tuple ==> forall i | 0 <= i < |names| :: names[i] == TupleFieldName(i)
  {
    match shape.style
    case Unit => []
    case Named => seq(|shape.fields|, (i: int) requires 0 <= i < |shape.fields| => shape.fields[i].name)
    case Tuple => seq(|shape.fields|, (i: int) requires 0 <= i < |shape.fields| => TupleFieldName(i))
  }

  /** The names of a tuple struct's fields are pairwise distinct. */
  lemma TupleFieldNamesUnique(shape: InstanceShape)
    requires shape.style == Tuple
    ensures forall i, j | 0 <= i < j < |FieldNames(shape)| :: FieldNames(shape)[i] != FieldNames(shape)[j]
  {
    var names := FieldNames(shape);
    forall i, j | 0 <= i < j < |names|
      ensures names[i] != names[j]
    {
      TupleFieldNamesDistinct(i, j);
    }
  }

  // ---- scalars, points ----

  /** `scalars`: the scalar fields in declaration order, nested fields flattened, point fields skipped. */
  function Scalars(x: Instance): seq<SymScalar>
  {
    ScalarsFrom(x, 0)
  }

  function ScalarsFrom(x: Instance, i: nat): seq<SymScalar>
    decreases x, |x.fields| - i
  {
    if i >= |x.fields| then [] else FieldScalars(x.fields[i]) + ScalarsFrom(x, i + 1)
  }

  function FieldScalars(v: InstanceValue): seq<SymScalar>
    decreases v
  {
    match v
    case ScalarValue(s) => [s]
    case PointValue(_) => []
    case NestedValue(x) => ScalarsFrom(x, 0)
  }

  /** `points`: the point fields in declaration order, nested fields flattened, scalar fields skipped. */
  function Points(x: Instance): seq<SymPoint>
  {
    PointsFrom(x, 0)
  }

  function PointsFrom(x: Instance, i: nat): seq<SymPoint>
    decreases x, |x.fields| - i
  {
    if i >= |x.fields| then [] else FieldPoints(x.fields[i]) + PointsFrom(x, i + 1)
  }

  function FieldPoints(v: InstanceValue): seq<SymPoint>
    decreases v
  {
    match v
    case ScalarValue(_) => []
    case PointValue(p) => [p]
    case NestedValue(x) => PointsFrom(x, 0)
  }

  /** An instance whose fields are all points lists no scalar and its points in declaration order. */
  lemma {:induction false} PointFieldsLists(x: Instance, j: nat)
    requires forall k | 0 <= k < |x.fields| :: x.fields[k].PointValue?
    requires j <= |x.fields|
    decreases |x.fields| - j
    ensures ScalarsFrom(x, j) == []
    ensures |PointsFrom(x, j)| == |x.fields| - j
    ensures forall k | 0 <= k < |x.fields| - j :: PointsFrom(x, j)[k] == x.fields[j + k].p
  {
    if j < |x.fields| {
      PointFieldsLists(x, j + 1);
    }
  }

  /** A value of `shape` lists `num_scalars` scalars and `num_points` points. */
  lemma {:induction false} ListLengths(x: Instance, shape: InstanceShape)
    requires Conforms(x, shape)
    decreases shape, 1
    ensures |Scalars(x)| == NumScalars(shape)
    ensures |Points(x)| == NumPoints(shape)
  {
    if shape.style != Unit {
      ListLengthsFrom(x, shape, 0, 0);
    }
  }

  lemma {:induction false} ListLengthsFrom(x: Instance, shape: InstanceShape, i: nat, j: nat)
    requires FieldsConform(x, shape, i) && j <= |x.fields|
    decreases shape, 0, |x.fields| - j
    ensures |ScalarsFrom(x, j)| == ScalarCountFrom(shape, i + j)
    ensures |PointsFrom(x, j)| == PointCountFrom(shape, i + j)
  {
    if j < |x.fields| {
      FieldListLengths(x.fields[j], shape.fields[i + j]);
      ListLengthsFrom(x, shape, i, j + 1);
    }
  }

  lemma {:induction false} FieldListLengths(v: InstanceValue, f: InstanceField)
    requires FieldConforms(v, f)
    decreases f
    ensures |FieldScalars(v)| == FieldScalarCount(f)
    ensures |FieldPoints(v)| == FieldPointCount(f)
  {
    match f
    case ScalarField(_) =>
    case PointField(_) =>
    case NestedField(_, s) => ListLengths(v.x, s);
  }

  lemma {:induction false} ListsShift(h: InstanceValue, t: Instance, j: nat)
    requires j <= |t.fields|
    decreases |t.fields| - j
    ensures ScalarsFrom(Instance([h] + t.fields), j + 1) == ScalarsFrom(t, j)
    ensures PointsFrom(Instance([h] + t.fields), j + 1) == PointsFrom(t, j)
  {
    if j < |t.fields| {
      assert Instance([h] + t.fields).fields[j + 1] == t.fields[j];
      ListsShift(h, t, j + 1);
    }
  }

  /** Prepending a field prepends its scalars and its points. */
  lemma ListsCons(h: InstanceValue, t: Instance)
    ensures Scalars(Instance([h] + t.fields)) == FieldScalars(h) + Scalars(t)
    ensures Points(Instance([h] + t.fields)) == FieldPoints(h) + Points(t)
  {
    assert Instance([h] + t.fields).fields[0] == h;
    ListsShift(h, t, 0);
  }

  // ---- from_values ----

  /**
   * `from_values`: scalar and point fields each take the next value of
   * their own list, nested fields take exactly their `num_scalars` and
   * `num_points` values. Succeeds exactly on inputs of the advertised
   * lengths, whose values the result lists back. A scalar or point field
   * that finds its list exhausted is `InsufficientScalars` or
   * `InsufficientPoints`; a nested field that does panics (an unchecked
   * slice). Leftover values of either kind are
   * `TooManyScalars { expected: num_scalars, actual: #scalars }`.
   */
  function FromValues(shape: InstanceShape, scalars: seq<Group.Scalar>, points: seq<Group.Point>): (r: Outcome<Instance>)
    decreases shape, 1
    ensures r.Done? <==> |scalars| == NumScalars(shape) && |points| == NumPoints(shape)
    ensures r.Done? ==> Conforms(r.value, shape)
    ensures r.Done? ==> EvalScalars(Scalars(r.value)) == Ok(scalars) && EvalPoints(Points(r.value)) == Ok(points)
    ensures r.Done? ==> Scalars(r.value) == ConstScalars(scalars) && Points(r.value) == ConstPoints(points)
    ensures |scalars| >= NumScalars(shape) && |points| >= NumPoints(shape) && !r.Done? ==>
      r == Raise(TooManyScalars(NumScalars(shape), |scalars|))
    ensures r.Raise? && (|scalars| < NumScalars(shape) || |points| < NumPoints(shape)) ==>
      r.error == InsufficientScalars || r.error == InsufficientPoints
  {
    if shape.style == Unit then
      if |scalars| == 0 && |points| == 0 then
        assert Scalars(Instance([])) == [] == ConstScalars(scalars);
        assert Points(Instance([])) == [] == ConstPoints(points);
        Done(Instance([]))
      else Raise(TooManyScalars(0, |scalars|))
    else
      var d :- DecodeFrom(shape, 0, scalars, points, 0, 0);
      if d.1 == |scalars| && d.2 == |points| then
        assert scalars[0..d.1] == scalars;
        assert points[0..d.2] == points;
        Done(d.0)
      else Raise(TooManyScalars(d.1, |scalars|))
  }

  /** Decodes the fields of `shape` from position `i` on, reading the lists from cursors `sc` and `pc`. */
  function DecodeFrom(shape: InstanceShape, i: nat, scalars: seq<Group.Scalar>, points: seq<Group.Point>, sc: nat, pc: nat)
    : (r: Outcome<(Instance, nat, nat)>)
    requires i <= |shape.fields| && sc <= |scalars| && pc <= |points|
    decreases shape, 0, |shape.fields| - i
    ensures r.Done? <==> sc + ScalarCountFrom(shape, i) <= |scalars| && pc + PointCountFrom(shape, i) <= |points|
    ensures r.Done? ==> r.value.1 == sc + ScalarCountFrom(shape, i) && r.value.2 == pc + PointCountFrom(shape, i)
    ensures r.Done? ==> FieldsConform(r.value.0, shape, i)
    ensures r.Done? ==> EvalScalars(Scalars(r.value.0)) == Ok(scalars[sc..r.value.1])
    ensures r.Done? ==> EvalPoints(Points(r.value.0)) == Ok(points[pc..r.value.2])
    ensures r.Done? ==> Scalars(r.value.0) == ConstScalars(scalars[sc..r.value.1])
    ensures r.Done? ==> Points(r.value.0) == ConstPoints(points[pc..r.value.2])
    ensures r.Raise? ==> r.error == InsufficientScalars || r.error == InsufficientPoints
  {
    if i == |shape.fields| then
      assert Scalars(Instance([])) == [] && Points(Instance([])) == [];
      assert ConstScalars([]) == [] && ConstPoints([]) == [];
      assert scalars[sc..sc] == [] && points[pc..pc] == [];
      Done((Instance([]), sc, pc))
    else
      var head :- DecodeField(shape.fields[i], scalars, points, sc, pc);
      var rest :- DecodeFrom(shape, i + 1, scalars, points, head.1, head.2);
      FieldsConformCons(head.0, rest.0, shape, i);
      DecodedListsCons(head.0, rest.0, scalars, points, sc, pc, head.1, head.2, rest.1, rest.2);
      ConstListsCons(head.0, rest.0, scalars, points, sc, pc, head.1, head.2, rest.1, rest.2);
      Done((Instance([head.0] + rest.0.fields), rest.1, rest.2))
  }

  /** The leaves `from_values` builds for an instance: every value a constant. */
  function ConstScalars(vs: seq<Group.Scalar>): (leaves: seq<SymScalar>)
    ensures |leaves| == |vs|
  {
    seq(|vs|, (k: int) requires 0 <= k < |vs| => SymScalar.Const(vs[k]))
  }

  function ConstPoints(ps: seq<Group.Point>): (leaves: seq<SymPoint>)
    ensures |leaves| == |ps|
  {
    seq(|ps|, (k: int) requires 0 <= k < |ps| => SymPoint.Const(ps[k]))
  }

  lemma ConstSlices(vs: seq<Group.Scalar>, ps: seq<Group.Point>, lo: nat, mid: nat, hi: nat, plo: nat, pmid: nat, phi: nat)
    requires lo <= mid <= hi <= |vs| && plo <= pmid <= phi <= |ps|
    ensures ConstScalars(vs[lo..mid]) + ConstScalars(vs[mid..hi]) == ConstScalars(vs[lo..hi])
    ensures ConstPoints(ps[plo..pmid]) + ConstPoints(ps[pmid..phi]) == ConstPoints(ps[plo..phi])
  {
    var a, b, c := ConstScalars(vs[lo..mid]), ConstScalars(vs[mid..hi]), ConstScalars(vs[lo..hi]);
    assert forall k | 0 <= k < |c| :: (a + b)[k] == c[k];
    var pa, pb, pc := ConstPoints(ps[plo..pmid]), ConstPoints(ps[pmid..phi]), ConstPoints(ps[plo..phi]);
    assert forall k | 0 <= k < |pc| :: (pa + pb)[k] == pc[k];
  }

  lemma ConstListsCons(h: InstanceValue, t: Instance, scalars: seq<Group.Scalar>, points: seq<Group.Point>,
                       sc: nat, pc: nat, sc1: nat, pc1: nat, sc2: nat, pc2: nat)
    requires sc <= sc1 <= sc2 <= |scalars| && pc <= pc1 <= pc2 <= |points|
    requires FieldScalars(h) == ConstScalars(scalars[sc..sc1]) && FieldPoints(h) == ConstPoints(points[pc..pc1])
    requires Scalars(t) == ConstScalars(scalars[sc1..sc2]) && Points(t) == ConstPoints(points[pc1..pc2])
    ensures Scalars(Instance([h] + t.fields)) == ConstScalars(scalars[sc..sc2])
    ensures Points(Instance([h] + t.fields)) == ConstPoints(points[pc..pc2])
  {
    ListsCons(h, t);
    ConstSlices(scalars, points, sc, sc1, sc2, pc, pc1, pc2);
  }

  lemma DecodedListsCons(h: InstanceValue, t: Instance, scalars: seq<Group.Scalar>, points: seq<Group.Point>,
                         sc: nat, pc: nat, sc1: nat, pc1: nat, sc2: nat, pc2: nat)
    requires sc <= sc1 <= sc2 <= |scalars| && pc <= pc1 <= pc2 <= |points|
    requires EvalScalars(FieldScalars(h)) == Ok(scalars[sc..sc1]) && EvalPoints(FieldPoints(h)) == Ok(points[pc..pc1])
    requires EvalScalars(Scalars(t)) == Ok(scalars[sc1..sc2]) && EvalPoints(Points(t)) == Ok(points[pc1..pc2])
    ensures EvalScalars(Scalars(Instance([h] + t.fields))) == Ok(scalars[sc..sc2])
    ensures EvalPoints(Points(Instance([h] + t.fields))) == Ok(points[pc..pc2])
  {
    ListsCons(h, t);
    ConcatScalars(FieldScalars(h), Scalars(t), scalars, sc, sc1, sc2);
    ConcatPoints(FieldPoints(h), Points(t), points, pc, pc1, pc2);
  }

  /** Adjacent slices join into one. */
  lemma SliceJoin<T>(vs: seq<T>, lo: nat, mid: nat, hi: nat)
    requires lo <= mid <= hi <= |vs|
    ensures vs[lo..mid] + vs[mid..hi] == vs[lo..hi]
  {
    assert forall k | 0 <= k < hi - lo :: (vs[lo..mid] + vs[mid..hi])[k] == vs[lo + k];
  }

  lemma ConcatScalars(a: seq<SymScalar>, b: seq<SymScalar>, vs: seq<Group.Scalar>, lo: nat, mid: nat, hi: nat)
    requires lo <= mid <= hi <= |vs|
    requires EvalScalars(a) == Ok(vs[lo..mid]) && EvalScalars(b) == Ok(vs[mid..hi])
    ensures EvalScalars(a + b) == Ok(vs[lo..hi])
  {
    EvalScalarsConcat(a, b);
    SliceJoin(vs, lo, mid, hi);
  }

  lemma ConcatPoints(a: seq<SymPoint>, b: seq<SymPoint>, vs: seq<Group.Point>, lo: nat, mid: nat, hi: nat)
    requires lo <= mid <= hi <= |vs|
    requires EvalPoints(a) == Ok(vs[lo..mid]) && EvalPoints(b) == Ok(vs[mid..hi])
    ensures EvalPoints(a + b) == Ok(vs[lo..hi])
  {
    EvalPointsConcat(a, b);
    SliceJoin(vs, lo, mid, hi);
  }

  function DecodeField(f: InstanceField, scalars: seq<Group.Scalar>, points: seq<Group.Point>, sc: nat, pc: nat)
    : (r: Outcome<(InstanceValue, nat, nat)>)
    requires sc <= |scalars| && pc <= |points|
    decreases f
    ensures r.Done? <==> sc + FieldScalarCount(f) <= |scalars| && pc + FieldPointCount(f) <= |points|
    ensures r.Done? ==> r.value.1 == sc + FieldScalarCount(f) && r.value.2 == pc + FieldPointCount(f)
    ensures r.Done? ==> FieldConforms(r.value.0, f)
    ensures r.Done? ==> EvalScalars(FieldScalars(r.value.0)) == Ok(scalars[sc..r.value.1])
    ensures r.Done? ==> EvalPoints(FieldPoints(r.value.0)) == Ok(points[pc..r.value.2])
    ensures r.Done? ==> FieldScalars(r.value.0) == ConstScalars(scalars[sc..r.value.1])
    ensures r.Done? ==> FieldPoints(r.value.0) == ConstPoints(points[pc..r.value.2])
    ensures r.Raise? ==> r.error == InsufficientScalars || r.error == InsufficientPoints
    ensures r.Panic? ==> f.NestedField?
  {
    match f
    case ScalarField(_) =>
      if sc >= |scalars| then Raise(InsufficientScalars)
      else
        // one scalar and no point always decode
        var s := Absorb.ScalarInstanceFromValues(scalars[sc..sc + 1], []).value;
        assert points[pc..pc] == [];
        assert s == SymScalar.Const(scalars[sc]);
        assert ConstScalars(scalars[sc..sc + 1]) == [s];
        Done((ScalarValue(s), sc + 1, pc))
    case PointField(_) =>
      if pc >= |points| then Raise(InsufficientPoints)
      else
        // no scalar and one point always decode
        var p := Absorb.PointInstanceFromValues([], points[pc..pc + 1]).value;
        assert scalars[sc..sc] == [];
        assert p == SymPoint.Const(points[pc]);
        assert ConstPoints(points[pc..pc + 1]) == [p];
        Done((PointValue(p), sc, pc + 1))
    case NestedField(_, s) =>
      var ns := NumScalars(s);
      var np := NumPoints(s);
      if sc + ns > |scalars| || pc + np > |points| then Panic
      else
        // slices of exactly the advertised lengths always decode
        var v := FromValues(s, scalars[sc..sc + ns], points[pc..pc + np]).value;
        Done((NestedValue(v), sc + ns, pc + np))
  }

  /** Decoding lists of the advertised lengths succeeds and lists them back. */
  lemma DecodeRoundTrip(shape: InstanceShape, scalars: seq<Group.Scalar>, points: seq<Group.Point>)
    requires |scalars| == NumScalars(shape) && |points| == NumPoints(shape)
    ensures FromValues(shape, scalars, points).Done?
    ensures EvalScalars(Scalars(FromValues(shape, scalars, points).value)) == Ok(scalars)
    ensures EvalPoints(Points(FromValues(shape, scalars, points).value)) == Ok(points)
  {
  }

  /** Decoding the evaluated lists of a bound instance gives an instance with the same values. */
  lemma RoundTrip(x: Instance, shape: InstanceShape)
    requires Conforms(x, shape) && EvalScalars(Scalars(x)).Ok? && EvalPoints(Points(x)).Ok?
    ensures FromValues(shape, EvalScalars(Scalars(x)).value, EvalPoints(Points(x)).value).Done?
    ensures EvalScalars(Scalars(FromValues(shape, EvalScalars(Scalars(x)).value, EvalPoints(Points(x)).value).value))
         == EvalScalars(Scalars(x))
    ensures EvalPoints(Points(FromValues(shape, EvalScalars(Scalars(x)).value, EvalPoints(Points(x)).value).value))
         == EvalPoints(Points(x))
  {
    ListLengths(x, shape);
  }

  /** Every field of `shape` is a scalar or point field. */
  predicate Flat(shape: InstanceShape)
  {
    forall i | 0 <= i < |shape.fields| :: !shape.fields[i].NestedField?
  }

  /** No field of `shape` after a point field is anything but a point field. */
  predicate ScalarsBeforePoints(shape: InstanceShape)
  {
    forall a, b | 0 <= a < b < |shape.fields| :: shape.fields[a].PointField? ==> shape.fields[b].PointField?
  }

  lemma {:induction false} FlatDecodeNeverPanics(shape: InstanceShape, i: nat, scalars: seq<Group.Scalar>, points: seq<Group.Point>, sc: nat, pc: nat)
    requires Flat(shape) && i <= |shape.fields| && sc <= |scalars| && pc <= |points|
    decreases |shape.fields| - i
    ensures !DecodeFrom(shape, i, scalars, points, sc, pc).Panic?
  {
    if i < |shape.fields| {
      var head := DecodeField(shape.fields[i], scalars, points, sc, pc);
      if head.Done? {
        FlatDecodeNeverPanics(shape, i + 1, scalars, points, head.value.1, head.value.2);
      }
    }
  }

  /** Without nested fields, decoding never panics: every failure is an error value. */
  lemma FlatNeverPanics(shape: InstanceShape, scalars: seq<Group.Scalar>, points: seq<Group.Point>)
    requires Flat(shape)
    ensures !FromValues(shape, scalars, points).Panic?
  {
    if shape.style != Unit {
      FlatDecodeNeverPanics(shape, 0, scalars, points, 0, 0);
    }
  }

  /** An instance with one scalar field. */
  const InnerShape: InstanceShape := InstanceShape(Named, [ScalarField("k")])

  /** An instance with a nested `InnerShape` field and a point field. */
  const OuterShape: InstanceShape := InstanceShape(Named, [NestedField("inner", InnerShape), PointField("p")])

  /**
   * Too few scalars for a nested field panic, while too few for a direct
   * field are an error; leftover points are reported as too many scalars.
   */
  lemma DecodeFailureExamples(p: Group.Point)
    ensures FromValues(OuterShape, [], [p]).Panic?
    ensures FromValues(InnerShape, [], []) == Raise(InsufficientScalars)
    ensures FromValues(InstanceShape(Tuple, [PointField("q")]), [], [p, p]) == Raise(TooManyScalars(0, 0))
  {
    assert NumScalars(InnerShape) == 1;
    assert DecodeField(OuterShape.fields[0], [], [p], 0, 0).Panic?;
    assert DecodeFrom(OuterShape, 0, [], [p], 0, 0).Panic?;
  }
}
