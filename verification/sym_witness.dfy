/**
 * What `#[derive(SymWitness)]` generates for a struct whose fields are
 * `SymScalar`s or nested witnesses: `rand`, `values`, `from_values`,
 * `num_scalars` and `get_var_name`.
 *
 * A struct is described by its `WitnessShape` (the declaration the macro
 * sees) and a value of it by a `Witness` (the fields in declaration order).
 */
module SymWitnessDerive {
  import opened Errors
  import Group
  import opened Equations
  import Absorb
  import opened Derive

  /** A witness struct declaration; a unit struct has no fields. */
  datatype WitnessShape = WitnessShape(style: Style, fields: seq<WitnessField>)

  /** A field is a `SymScalar` or a nested witness struct. */
  datatype WitnessField = ScalarField(name: string) | NestedField(name: string, shape: WitnessShape)

  /** A value of a witness struct: its fields in declaration order. */
  datatype Witness = Witness(fields: seq<WitnessValue>)

  datatype WitnessValue = ScalarValue(s: SymScalar) | NestedValue(w: Witness)

  // ---- shape of a value ----

  /** `w` is a value of the struct declared by `shape`. */
  predicate Conforms(w: Witness, shape: WitnessShape)
    decreases shape, 1
  {
    if shape.style == Unit then w.fields == [] else FieldsConform(w, shape, 0)
  }

  /** The fields of `w` are values of the fields of `shape` from position `i` on. */
  predicate FieldsConform(w: Witness, shape: WitnessShape, i: nat)
    decreases shape, 0
  {
    && i <= |shape.fields|
    && |w.fields| == |shape.fields| - i
    && forall k | 0 <= k < |w.fields| :: FieldConforms(w.fields[k], shape.fields[i + k])
  }

  predicate FieldConforms(v: WitnessValue, f: WitnessField)
    decreases f
  {
    match f
    case ScalarField(_) => v.ScalarValue?
    case NestedField(_, s) => v.NestedValue? && Conforms(v.w, s)
  }

  lemma FieldsConformCons(v: WitnessValue, t: Witness, shape: WitnessShape, i: nat)
    requires i < |shape.fields|
    requires FieldConforms(v, shape.fields[i]) && FieldsConform(t, shape, i + 1)
    ensures FieldsConform(Witness([v] + t.fields), shape, i)
  {
    var w := Witness([v] + t.fields);
    forall k | 0 <= k < |w.fields|
      ensures FieldConforms(w.fields[k], shape.fields[i + k])
    {
      if k > 0 {
        assert w.fields[k] == t.fields[k - 1];
      }
    }
  }

  // ---- num_scalars ----

  /** `num_scalars`: one per scalar field plus the count of every nested field. */
  function NumScalars(shape: WitnessShape): nat
    decreases shape, 1
  {
    if shape.style == Unit then 0 else CountFrom(shape, 0)
  }

  function CountFrom(shape: WitnessShape, i: nat): nat
    decreases shape, 0, |shape.fields| - i
  {
    if i >= |shape.fields| then 0 else FieldCount(shape.fields[i]) + CountFrom(shape, i + 1)
  }

  function FieldCount(f: WitnessField): nat
    decreases f
  {
    match f
    case ScalarField(_) => 1
    case NestedField(_, s) => NumScalars(s)
  }

  // ---- values ----

  /** The scalar trees of `w`, depth first in declaration order. */
  function Flatten(w: Witness): seq<SymScalar>
  {
    FlattenFrom(w, 0)
  }

  function FlattenFrom(w: Witness, i: nat): seq<SymScalar>
    decreases w, |w.fields| - i
  {
    if i >= |w.fields| then [] else FieldFlatten(w.fields[i]) + FlattenFrom(w, i + 1)
  }

  function FieldFlatten(v: WitnessValue): seq<SymScalar>
    decreases v
  {
    match v
    case ScalarValue(s) => [s]
    case NestedValue(w) => FlattenFrom(w, 0)
  }

  /**
   * `values`: a scalar field pushes its evaluation (an unbound variable is
   * `UninstantiatedScalar`), a nested field extends the list with its own
   * values; the first failure is returned. This is the evaluation of the
   * scalar leaves of the struct, taken depth first.
   */
  function Values(w: Witness): (r: Result<seq<Group.Scalar>>)
    ensures r == EvalScalars(Flatten(w))
  {
    ValuesFrom(w, 0)
  }

  function ValuesFrom(w: Witness, i: nat): (r: Result<seq<Group.Scalar>>)
    decreases w, |w.fields| - i
    ensures r == EvalScalars(FlattenFrom(w, i))
  {
    if i >= |w.fields| then Ok([])
    else
      EvalScalarsConcat(FieldFlatten(w.fields[i]), FlattenFrom(w, i + 1));
      var head :- FieldValues(w.fields[i]);
      var tail :- ValuesFrom(w, i + 1);
      Ok(head + tail)
  }

  /** A scalar field is handled exactly as a bare `SymScalar` witness is. */
  function FieldValues(v: WitnessValue): (r: Result<seq<Group.Scalar>>)
    decreases v
    ensures r == EvalScalars(FieldFlatten(v))
  {
    match v
    case ScalarValue(s) =>
      ScalarFieldAgrees(s);
      Absorb.ScalarWitnessValues(s)
    case NestedValue(w) => ValuesFrom(w, 0)
  }

  lemma ScalarFieldAgrees(s: SymScalar)
    ensures Absorb.ScalarWitnessValues(s) == EvalScalars([s])
  {
    assert [s][0] == s && [s][1..] == [];
    assert EvalScalars([s][1..]) == Ok([]);
    if EvalScalar(s).Ok? {
      var x := EvalScalar(s).value;
      assert [x] + [] == [x];
      assert EvalScalars([s]) == Ok([x]);
      assert Absorb.ScalarWitnessValues(s) == Ok([x]);
    } else {
      assert EvalScalars([s]) == Err(UninstantiatedScalar);
    }
  }

  /** Every scalar tree of a value of `shape` is counted by `num_scalars`. */
  lemma {:induction false} FlattenLength(w: Witness, shape: WitnessShape)
    requires Conforms(w, shape)
    decreases shape, 1
    ensures |Flatten(w)| == NumScalars(shape)
  {
    if shape.style != Unit {
      FlattenFromLength(w, shape, 0, 0);
    }
  }

  lemma {:induction false} FlattenFromLength(w: Witness, shape: WitnessShape, i: nat, j: nat)
    requires FieldsConform(w, shape, i) && j <= |w.fields|
    decreases shape, 0, |w.fields| - j
    ensures |FlattenFrom(w, j)| == CountFrom(shape, i + j)
  {
    if j < |w.fields| {
      FieldFlattenLength(w.fields[j], shape.fields[i + j]);
      FlattenFromLength(w, shape, i, j + 1);
    }
  }

  lemma {:induction false} FieldFlattenLength(v: WitnessValue, f: WitnessField)
    requires FieldConforms(v, f)
    decreases f
    ensures |FieldFlatten(v)| == FieldCount(f)
  {
    match f
    case ScalarField(_) =>
    case NestedField(_, s) => FlattenLength(v.w, s);
  }

  /** When `values` succeeds on a value of `shape` it lists `num_scalars` scalars. */
  lemma ValuesLength(w: Witness, shape: WitnessShape)
    requires Conforms(w, shape) && Values(w).Ok?
    ensures |Values(w).value| == NumScalars(shape)
  {
    FlattenLength(w, shape);
  }

  lemma {:induction false} FlattenShift(h: WitnessValue, t: Witness, j: nat)
    requires j <= |t.fields|
    decreases |t.fields| - j
    ensures FlattenFrom(Witness([h] + t.fields), j + 1) == FlattenFrom(t, j)
  {
    if j < |t.fields| {
      assert Witness([h] + t.fields).fields[j + 1] == t.fields[j];
      FlattenShift(h, t, j + 1);
    }
  }

  /** A witness whose fields are all scalars lists them in declaration order. */
  lemma {:induction false} ScalarFieldsFlatten(w: Witness, j: nat)
    requires forall k | 0 <= k < |w.fields| :: w.fields[k].ScalarValue?
    requires j <= |w.fields|
    decreases |w.fields| - j
    ensures |FlattenFrom(w, j)| == |w.fields| - j
    ensures forall k | 0 <= k < |w.fields| - j :: FlattenFrom(w, j)[k] == w.fields[j + k].s
  {
    if j < |w.fields| {
      ScalarFieldsFlatten(w, j + 1);
    }
  }

  /** The leaves `from_values` builds: every value bound to a variable. */
  function Bound(vs: seq<Group.Scalar>): (leaves: seq<SymScalar>)
    ensures |leaves| == |vs|
  {
    seq(|vs|, (k: int) requires 0 <= k < |vs| => SymScalar.Var(Some(vs[k])))
  }

  /** Values and leaves of a decoded field followed by the decoded rest. */
  lemma DecodedCons(h: WitnessValue, t: Witness, scalars: seq<Group.Scalar>, lo: nat, mid: nat, hi: nat)
    requires lo <= mid <= hi <= |scalars|
    requires FieldValues(h) == Ok(scalars[lo..mid]) && Values(t) == Ok(scalars[mid..hi])
    requires FieldFlatten(h) == Bound(scalars[lo..mid]) && Flatten(t) == Bound(scalars[mid..hi])
    ensures Values(Witness([h] + t.fields)) == Ok(scalars[lo..hi])
    ensures Flatten(Witness([h] + t.fields)) == Bound(scalars[lo..hi])
  {
    ValuesSlices(h, t, scalars, lo, mid, hi);
    BoundCons(h, t, scalars, lo, mid, hi);
  }

  lemma ValuesSlices(h: WitnessValue, t: Witness, scalars: seq<Group.Scalar>, lo: nat, mid: nat, hi: nat)
    requires lo <= mid <= hi <= |scalars|
    requires FieldValues(h) == Ok(scalars[lo..mid]) && Values(t) == Ok(scalars[mid..hi])
    ensures Values(Witness([h] + t.fields)) == Ok(scalars[lo..hi])
  {
    ValuesCons(h, t);
    var a, b := scalars[lo..mid], scalars[mid..hi];
    assert FieldValues(h).value + Values(t).value == a + b;
    assert a + b == scalars[lo..hi];
  }

  lemma BoundSlices(vs: seq<Group.Scalar>, lo: nat, mid: nat, hi: nat)
    requires lo <= mid <= hi <= |vs|
    ensures Bound(vs[lo..mid]) + Bound(vs[mid..hi]) == Bound(vs[lo..hi])
  {
    var a, b, c := Bound(vs[lo..mid]), Bound(vs[mid..hi]), Bound(vs[lo..hi]);
    assert forall k | 0 <= k < |c| :: (a + b)[k] == c[k];
  }

  /** The bound leaves of two adjacent slices are those of their union. */
  lemma BoundCons(h: WitnessValue, t: Witness, scalars: seq<Group.Scalar>, lo: nat, mid: nat, hi: nat)
    requires lo <= mid <= hi <= |scalars|
    requires FieldFlatten(h) == Bound(scalars[lo..mid]) && Flatten(t) == Bound(scalars[mid..hi])
    ensures Flatten(Witness([h] + t.fields)) == Bound(scalars[lo..hi])
  {
    var w := Witness([h] + t.fields);
    assert w.fields[0] == h;
    assert Flatten(w) == FieldFlatten(h) + Flatten(t) by {
      FlattenShift(h, t, 0);
    }
    BoundSlices(scalars, lo, mid, hi);
  }

  /** Prepending a field prepends its values. */
  lemma ValuesCons(h: WitnessValue, t: Witness)
    requires FieldValues(h).Ok? && Values(t).Ok?
    ensures Values(Witness([h] + t.fields)) == Ok(FieldValues(h).value + Values(t).value)
  {
    var w := Witness([h] + t.fields);
    assert w.fields[0] == h;
    FlattenShift(h, t, 0);
    assert Flatten(w) == FieldFlatten(h) + Flatten(t);
    EvalScalarsConcat(FieldFlatten(h), Flatten(t));
  }

  // ---- rand ----

  /** The `n` values the random source yields from position `pos` on. */
  function Draws(rng: nat -> Group.Scalar, pos: nat, n: nat): (d: seq<Group.Scalar>)
    ensures |d| == n
  {
    seq(n, (k: int) requires 0 <= k < n => rng(pos + k))
  }

  lemma DrawsSplit(rng: nat -> Group.Scalar, pos: nat, a: nat, b: nat)
    ensures Draws(rng, pos, a) + Draws(rng, pos + a, b) == Draws(rng, pos, a + b)
  {
  }

  /**
   * `rand`: every scalar field takes the next value of the random source,
   * every nested field draws its own; returns the value and the position of
   * the next unused draw. The drawn witness lists exactly the drawn values.
   */
  function Rand(shape: WitnessShape, rng: nat -> Group.Scalar, pos: nat): (r: (Witness, nat))
    decreases shape, 1
    ensures Conforms(r.0, shape)
    ensures r.1 == pos + NumScalars(shape)
    ensures Values(r.0) == Ok(Draws(rng, pos, NumScalars(shape)))
  {
    if shape.style == Unit then (Witness([]), pos) else RandFrom(shape, 0, rng, pos)
  }

  function RandFrom(shape: WitnessShape, i: nat, rng: nat -> Group.Scalar, pos: nat): (r: (Witness, nat))
    requires i <= |shape.fields|
    decreases shape, 0, |shape.fields| - i
    ensures FieldsConform(r.0, shape, i)
    ensures r.1 == pos + CountFrom(shape, i)
    ensures Values(r.0) == Ok(Draws(rng, pos, CountFrom(shape, i)))
  {
    if i == |shape.fields| then (Witness([]), pos)
    else
      var head := RandField(shape.fields[i], rng, pos);
      var rest := RandFrom(shape, i + 1, rng, head.1);
      FieldsConformCons(head.0, rest.0, shape, i);
      ValuesCons(head.0, rest.0);
      DrawsSplit(rng, pos, FieldCount(shape.fields[i]), CountFrom(shape, i + 1));
      (Witness([head.0] + rest.0.fields), rest.1)
  }

  function RandField(f: WitnessField, rng: nat -> Group.Scalar, pos: nat): (r: (WitnessValue, nat))
    decreases f
    ensures FieldConforms(r.0, f)
    ensures r.1 == pos + FieldCount(f)
    ensures FieldValues(r.0) == Ok(Draws(rng, pos, FieldCount(f)))
  {
    match f
    case ScalarField(_) =>
      assert Draws(rng, pos, 1) == [rng(pos)];
      (ScalarValue(Absorb.ScalarWitnessRand(rng(pos))), pos + 1)
    case NestedField(_, s) =>
      var inner := Rand(s, rng, pos);
      (NestedValue(inner.0), inner.1)
  }

  // ---- from_values ----

  /**
   * `from_values` with each nested field given exactly its own
   * `num_scalars` values: accepts exactly `num_scalars` values and lists them
   * back; fewer is `InsufficientScalars`, more is
   * `TooManyScalars { expected: num_scalars, actual }`.
   */
  function FromValues(shape: WitnessShape, scalars: seq<Group.Scalar>): (r: Result<Witness>)
    decreases shape, 1
    ensures r.Ok? <==> |scalars| == NumScalars(shape)
    ensures r.Ok? ==> Conforms(r.value, shape) && Values(r.value) == Ok(scalars)
    ensures r.Ok? ==> Flatten(r.value) == Bound(scalars)
    ensures |scalars| < NumScalars(shape) ==> r == Err(InsufficientScalars)
    ensures |scalars| > NumScalars(shape) ==> r == Err(TooManyScalars(NumScalars(shape), |scalars|))
  {
    if shape.style == Unit then
      if |scalars| == 0 then
        assert Flatten(Witness([])) == [] == Bound(scalars);
        Ok(Witness([]))
      else Err(TooManyScalars(0, |scalars|))
    else
      var d :- DecodeFrom(shape, 0, scalars, 0);
      if d.1 == |scalars| then
        assert scalars[0..d.1] == scalars;
        Ok(d.0)
      else Err(TooManyScalars(d.1, |scalars|))
  }

  /** Decodes the fields of `shape` from position `i` on, reading `scalars` from `cursor`. */
  function DecodeFrom(shape: WitnessShape, i: nat, scalars: seq<Group.Scalar>, cursor: nat): (r: Result<(Witness, nat)>)
    requires i <= |shape.fields| && cursor <= |scalars|
    decreases shape, 0, |shape.fields| - i
    ensures r.Ok? <==> cursor + CountFrom(shape, i) <= |scalars|
    ensures r.Ok? ==> r.value.1 == cursor + CountFrom(shape, i)
    ensures r.Ok? ==> FieldsConform(r.value.0, shape, i) && Values(r.value.0) == Ok(scalars[cursor..r.value.1])
    ensures r.Ok? ==> Flatten(r.value.0) == Bound(scalars[cursor..r.value.1])
    ensures r.Err? ==> r.error == InsufficientScalars
  {
    if i == |shape.fields| then
      assert Values(Witness([])) == Ok([]);
      assert Flatten(Witness([])) == [] == Bound([]);
      assert scalars[cursor..cursor] == [];
      Ok((Witness([]), cursor))
    else
      var head :- DecodeField(shape.fields[i], scalars, cursor);
      var rest :- DecodeFrom(shape, i + 1, scalars, head.1);
      FieldsConformCons(head.0, rest.0, shape, i);
      DecodedCons(head.0, rest.0, scalars, cursor, head.1, rest.1);
      Ok((Witness([head.0] + rest.0.fields), rest.1))
  }

  function DecodeField(f: WitnessField, scalars: seq<Group.Scalar>, cursor: nat): (r: Result<(WitnessValue, nat)>)
    requires cursor <= |scalars|
    decreases f
    ensures r.Ok? <==> cursor + FieldCount(f) <= |scalars|
    ensures r.Ok? ==> r.value.1 == cursor + FieldCount(f)
    ensures r.Ok? ==> FieldConforms(r.value.0, f) && FieldValues(r.value.0) == Ok(scalars[cursor..r.value.1])
    ensures r.Ok? ==> FieldFlatten(r.value.0) == Bound(scalars[cursor..r.value.1])
    ensures r.Err? ==> r.error == InsufficientScalars
  {
    match f
    case ScalarField(_) =>
      if cursor >= |scalars| then Err(InsufficientScalars)
      else
        // a one-element slice always decodes
        var s := Absorb.ScalarWitnessFromValues(scalars[cursor..cursor + 1]).value;
        assert s == SymScalar.Var(Some(scalars[cursor]));
        assert Bound(scalars[cursor..cursor + 1]) == [s];
        Ok((ScalarValue(s), cursor + 1))
    case NestedField(_, s) =>
      var n := NumScalars(s);
      if cursor + n > |scalars| then Err(InsufficientScalars)
      else
        // a slice of exactly `num_scalars` values always decodes
        var v := FromValues(s, scalars[cursor..cursor + n]).value;
        Ok((NestedValue(v), cursor + n))
  }

  /** Decoding the values of a well-formed witness gives back a witness with the same values. */
  lemma RoundTrip(w: Witness, shape: WitnessShape)
    requires Conforms(w, shape) && Values(w).Ok?
    ensures FromValues(shape, Values(w).value).Ok?
    ensures Values(FromValues(shape, Values(w).value).value) == Values(w)
  {
    ValuesLength(w, shape);
  }

  /** Listing the values of a decoded witness gives back the input. */
  lemma DecodeRoundTrip(shape: WitnessShape, scalars: seq<Group.Scalar>)
    requires |scalars| == NumScalars(shape)
    ensures FromValues(shape, scalars).Ok?
    ensures Values(FromValues(shape, scalars).value) == Ok(scalars)
  {
  }

  // ---- from_values as the macro generates it ----

  /**
   * The generated `from_values`: a scalar field takes one value at the
   * cursor (none left is `InsufficientScalars`), a nested field is handed
   * ALL the remaining values and the cursor advances by the length of its
   * `values()`; the final cursor must reach the end, otherwise
   * `TooManyScalars { expected: cursor, actual }`.
   */
  function FromValuesAsWritten(shape: WitnessShape, scalars: seq<Group.Scalar>): (r: Result<Witness>)
    decreases shape, 1
    ensures r.Ok? ==> Conforms(r.value, shape) && Values(r.value) == Ok(scalars)
    ensures r.Err? ==> r.error == InsufficientScalars || r.error.TooManyScalars?
  {
    if shape.style == Unit then
      if |scalars| == 0 then Ok(Witness([])) else Err(TooManyScalars(0, |scalars|))
    else
      var d :- DecodeFromAsWritten(shape, 0, scalars, 0);
      if d.1 == |scalars| then
        assert scalars[0..d.1] == scalars;
        Ok(d.0)
      else Err(TooManyScalars(d.1, |scalars|))
  }

  function DecodeFromAsWritten(shape: WitnessShape, i: nat, scalars: seq<Group.Scalar>, cursor: nat): (r: Result<(Witness, nat)>)
    requires i <= |shape.fields| && cursor <= |scalars|
    decreases shape, 0, |shape.fields| - i
    ensures r.Ok? ==> cursor <= r.value.1 <= |scalars|
    ensures r.Ok? ==> FieldsConform(r.value.0, shape, i) && Values(r.value.0) == Ok(scalars[cursor..r.value.1])
    ensures r.Err? ==> r.error == InsufficientScalars || r.error.TooManyScalars?
  {
    if i == |shape.fields| then
      assert Values(Witness([])) == Ok([]);
      assert scalars[cursor..cursor] == [];
      Ok((Witness([]), cursor))
    else
      var head :- DecodeFieldAsWritten(shape.fields[i], scalars, cursor);
      var rest :- DecodeFromAsWritten(shape, i + 1, scalars, head.1);
      FieldsConformCons(head.0, rest.0, shape, i);
      ValuesSlices(head.0, rest.0, scalars, cursor, head.1, rest.1);
      Ok((Witness([head.0] + rest.0.fields), rest.1))
  }

  function DecodeFieldAsWritten(f: WitnessField, scalars: seq<Group.Scalar>, cursor: nat): (r: Result<(WitnessValue, nat)>)
    requires cursor <= |scalars|
    decreases f
    ensures r.Ok? ==> cursor <= r.value.1 <= |scalars|
    ensures r.Ok? ==> FieldConforms(r.value.0, f) && FieldValues(r.value.0) == Ok(scalars[cursor..r.value.1])
    ensures r.Err? ==> r.error == InsufficientScalars || r.error.TooManyScalars?
  {
    match f
    case ScalarField(_) => DecodeField(f, scalars, cursor)
    case NestedField(_, s) =>
      var v :- FromValuesAsWritten(s, scalars[cursor..]);
      // `values()?` cannot fail on a decoded witness: it lists the remaining values
      var count := |Values(v).value|;
      assert scalars[cursor..cursor + count] == scalars[cursor..];
      Ok((NestedValue(v), cursor + count))
  }

  /** The generated decoder accepts only `num_scalars` values. */
  lemma AsWrittenAcceptsOnlyExact(shape: WitnessShape, scalars: seq<Group.Scalar>)
    requires FromValuesAsWritten(shape, scalars).Ok?
    ensures |scalars| == NumScalars(shape)
  {
    ValuesLength(FromValuesAsWritten(shape, scalars).value, shape);
  }

  /** Every field of `shape` is a scalar field. */
  predicate Flat(shape: WitnessShape)
  {
    forall i | 0 <= i < |shape.fields| :: shape.fields[i].ScalarField?
  }

  lemma {:induction false} FlatDecodersAgree(shape: WitnessShape, i: nat, scalars: seq<Group.Scalar>, cursor: nat)
    requires Flat(shape) && i <= |shape.fields| && cursor <= |scalars|
    decreases |shape.fields| - i
    ensures DecodeFromAsWritten(shape, i, scalars, cursor) == DecodeFrom(shape, i, scalars, cursor)
  {
    if i < |shape.fields| {
      var head := DecodeField(shape.fields[i], scalars, cursor);
      assert DecodeFieldAsWritten(shape.fields[i], scalars, cursor) == head;
      if head.Ok? {
        FlatDecodersAgree(shape, i + 1, scalars, head.value.1);
      }
    }
  }

  /** Without nested fields the generated decoder is the corrected one. */
  lemma FlatFromValuesAgree(shape: WitnessShape, scalars: seq<Group.Scalar>)
    requires Flat(shape)
    ensures FromValuesAsWritten(shape, scalars) == FromValues(shape, scalars)
  {
    if shape.style != Unit {
      FlatDecodersAgree(shape, 0, scalars, 0);
    }
  }

  // ---- which structs the generated decoder can decode ----

  /**
   * Every nested field of `shape`, at any depth, is followed only by fields
   * that hold no scalars: the generated decoder hands a nested field all the
   * remaining values, so that is the only place where it gets exactly its own.
   */
  predicate NestedLast(shape: WitnessShape)
    decreases shape, 1
  {
    shape.style == Unit || NestedLastFrom(shape, 0)
  }

  predicate NestedLastFrom(shape: WitnessShape, i: nat)
    decreases shape, 0, |shape.fields| - i
  {
    i >= |shape.fields| ||
    (&& (shape.fields[i].NestedField? ==> CountFrom(shape, i + 1) == 0 && NestedLast(shape.fields[i].shape))
     && NestedLastFrom(shape, i + 1))
  }

  /**
   * On exactly `num_scalars` values the generated decoder succeeds exactly
   * for the structs whose nested fields come last, and then it builds the
   * same witness as the corrected one.
   */
  lemma {:induction false} AsWrittenExact(shape: WitnessShape, scalars: seq<Group.Scalar>)
    requires |scalars| == NumScalars(shape)
    decreases shape, 1
    ensures FromValuesAsWritten(shape, scalars).Ok? <==> NestedLast(shape)
    ensures NestedLast(shape) ==> FromValuesAsWritten(shape, scalars) == FromValues(shape, scalars)
  {
    if shape.style != Unit {
      AsWrittenExactFrom(shape, 0, scalars, 0);
    }
  }

  lemma {:induction false} AsWrittenExactFrom(shape: WitnessShape, i: nat, scalars: seq<Group.Scalar>, cursor: nat)
    requires i <= |shape.fields| && cursor + CountFrom(shape, i) == |scalars|
    decreases shape, 0, |shape.fields| - i
    ensures DecodeFromAsWritten(shape, i, scalars, cursor).Ok? <==> NestedLastFrom(shape, i)
    ensures NestedLastFrom(shape, i) ==> DecodeFromAsWritten(shape, i, scalars, cursor) == DecodeFrom(shape, i, scalars, cursor)
  {
    if i < |shape.fields| {
      var f := shape.fields[i];
      AsWrittenExactField(f, scalars, cursor, CountFrom(shape, i + 1));
      var head := DecodeFieldAsWritten(f, scalars, cursor);
      if head.Ok? {
        AsWrittenExactFrom(shape, i + 1, scalars, head.value.1);
      }
    }
  }

  lemma {:induction false} AsWrittenExactField(f: WitnessField, scalars: seq<Group.Scalar>, cursor: nat, rest: nat)
    requires cursor + FieldCount(f) + rest == |scalars|
    decreases f
    ensures DecodeFieldAsWritten(f, scalars, cursor).Ok? <==> (f.NestedField? ==> rest == 0 && NestedLast(f.shape))
    ensures DecodeFieldAsWritten(f, scalars, cursor).Ok? ==> DecodeFieldAsWritten(f, scalars, cursor) == DecodeField(f, scalars, cursor)
  {
    match f
    case ScalarField(_) =>
    case NestedField(_, s) =>
      var remaining := scalars[cursor..];
      if rest == 0 {
        AsWrittenExact(s, remaining);
        assert scalars[cursor..cursor + NumScalars(s)] == remaining;
      } else if FromValuesAsWritten(s, remaining).Ok? {
        AsWrittenAcceptsOnlyExact(s, remaining);
        assert false;
      }
  }

  /**
   * The generated decoder succeeds exactly on `num_scalars` values of a
   * struct whose nested fields come last, and agrees with the corrected one
   * whenever it succeeds.
   */
  lemma AsWrittenDecodes(shape: WitnessShape, scalars: seq<Group.Scalar>)
    ensures FromValuesAsWritten(shape, scalars).Ok? <==> |scalars| == NumScalars(shape) && NestedLast(shape)
    ensures FromValuesAsWritten(shape, scalars).Ok? ==> FromValuesAsWritten(shape, scalars) == FromValues(shape, scalars)
  {
    if FromValuesAsWritten(shape, scalars).Ok? {
      AsWrittenAcceptsOnlyExact(shape, scalars);
    }
    if |scalars| == NumScalars(shape) {
      AsWrittenExact(shape, scalars);
    }
  }

  lemma {:induction false} FlatNestedLastFrom(shape: WitnessShape, i: nat)
    requires Flat(shape)
    decreases |shape.fields| - i
    ensures NestedLastFrom(shape, i)
  {
    if i < |shape.fields| {
      FlatNestedLastFrom(shape, i + 1);
    }
  }

  /** A struct of scalar fields has no nested field to misplace. */
  lemma FlatNestedLast(shape: WitnessShape)
    requires Flat(shape)
    ensures NestedLast(shape)
  {
    FlatNestedLastFrom(shape, 0);
  }

  /**
   * A witness with one scalar field `a`: `#[derive(SymWitness)] struct Inner { a: SymScalar }`.
   * The derive accepts a nested field only when its type path ends in
   * `SymWitness`, so a nested use names it through an alias such as
   * `mod inner { pub type SymWitness = super::Inner; }`.
   */
  const InnerShape: WitnessShape := WitnessShape(Named, [ScalarField("a")])

  /**
   * A witness with a nested `InnerShape` field followed by a scalar field
   * `b`: `#[derive(SymWitness)] struct Outer { inner: inner::SymWitness, b: SymScalar }`,
   * with `inner::SymWitness` the alias of `Inner` above.
   */
  const OuterShape: WitnessShape := WitnessShape(Named, [NestedField("inner", InnerShape), ScalarField("b")])

  /**
   * The generated decoder rejects every input for `OuterShape`: the nested
   * field is handed all values, so it decodes only when exactly one is left,
   * and then nothing is left for `b`.
   */
  lemma NestedThenScalarNeverDecodes(scalars: seq<Group.Scalar>)
    ensures FromValuesAsWritten(OuterShape, scalars).Err?
  {
    assert NumScalars(InnerShape) == 1;
    var head := DecodeFieldAsWritten(OuterShape.fields[0], scalars, 0);
    if head.Ok? {
      AsWrittenAcceptsOnlyExact(InnerShape, scalars[0..]);
      assert head.value.1 == |scalars|;
      assert DecodeFromAsWritten(OuterShape, 1, scalars, head.value.1).Err?;
    }
  }

  /** `OuterShape` is a struct whose nested field does not come last. */
  lemma OuterShapeNestedFirst()
    ensures !NestedLast(OuterShape)
  {
    assert NumScalars(InnerShape) == 1;
    assert CountFrom(OuterShape, 2) == 0;
    assert CountFrom(OuterShape, 1) == 1;
  }

  /** So the round trip fails on `OuterShape` for the generated decoder and holds for the corrected one. */
  lemma NestedRoundTripCounterexample()
    ensures NumScalars(OuterShape) == 2
    ensures FromValuesAsWritten(OuterShape, [1, 2]).Err?
    ensures FromValues(OuterShape, [1, 2]).Ok?
    ensures Values(FromValues(OuterShape, [1, 2]).value) == Ok([1, 2])
  {
    assert NumScalars(InnerShape) == 1;
    assert CountFrom(OuterShape, 2) == 0;
    assert CountFrom(OuterShape, 1) == 1;
    assert CountFrom(OuterShape, 0) == 2;
    NestedThenScalarNeverDecodes([1, 2]);
  }

  // ---- get_var_name ----

  /**
   * `get_var_name`: indexes FIELDS, not scalars. A scalar field of a named
   * struct gives its name, of a tuple struct `field_<i>`; a nested field
   * gives "nested_field"; past the last field "unknown"; a unit struct "unit".
   */
  function GetVarName(shape: WitnessShape, index: nat): (name: string)
    ensures shape.style == Unit ==> name == "unit"
    ensures shape.style != Unit && index >= |shape.fields| ==> name == "unknown"
    ensures shape.style != Unit && index < |shape.fields| && shape.fields[index].NestedField? ==> name == "nested_field"
  {
    if shape.style == Unit then "unit"
    else if index >= |shape.fields| then "unknown"
    else
      match shape.fields[index]
      case NestedField(_, _) => "nested_field"
      case ScalarField(fieldName) =>
        if shape.style == Named then fieldName else TupleFieldName(index)
  }

  lemma {:induction false} FlatCount(shape: WitnessShape, i: nat)
    requires Flat(shape) && i <= |shape.fields|
    decreases |shape.fields| - i
    ensures CountFrom(shape, i) == |shape.fields| - i
  {
    if i < |shape.fields| {
      FlatCount(shape, i + 1);
    }
  }

  /**
   * For a named struct of scalar fields, the names of the `num_scalars`
   * values are the field names in order; for a tuple struct they are pairwise
   * distinct.
   */
  lemma FlatVarNames(shape: WitnessShape)
    requires Flat(shape) && shape.style != Unit
    ensures NumScalars(shape) == |shape.fields|
    ensures shape.style == Named ==> forall i | 0 <= i < NumScalars(shape) :: GetVarName(shape, i) == shape.fields[i].name
    ensures shape.style == Tuple ==> forall i, j | 0 <= i < j < NumScalars(shape) :: GetVarName(shape, i) != GetVarName(shape, j)
  {
    FlatCount(shape, 0);
    if shape.style == Tuple {
      forall i, j | 0 <= i < j < NumScalars(shape)
        ensures GetVarName(shape, i) != GetVarName(shape, j)
      {
        TupleFieldNamesDistinct(i, j);
      }
    }
  }
}
