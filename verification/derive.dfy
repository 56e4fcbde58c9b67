/**
 * What the two derive macros share: the struct styles they accept, the
 * field-type check each one performs before generating code, and the names
 * they give to the positional fields of tuple structs.
 */
module Derive {
  import opened Errors

  /** How a struct declares its fields: `Fields::Named`, `Fields::Unnamed`, `Fields::Unit`. */
  datatype Style = Named | Tuple | Unit

  /**
   * The item a derive is attached to. For a struct, `fieldTypes` holds the
   * last path segment of each field's type, which is all the check looks at.
   */
  datatype Item = StructItem(style: Style, fieldTypes: seq<string>) | EnumItem | UnionItem

  /** Why a derive refuses an item (the macro panics, so the crate does not compile). */
  datatype Rejection = UnsupportedField(index: nat) | EnumNotSupported | UnionNotSupported

  /** `is_sym_witness_type`. */
  predicate IsSymWitnessType(ident: string)
  {
    ident == "SymScalar" || ident == "SymWitness"
  }

  /** `is_sym_instance_type`. */
  predicate IsSymInstanceType(ident: string)
  {
    ident == "SymScalar" || ident == "SymPoint" || ident == "SymInstance"
  }

  /** The first field at or after `from` whose type `accepts` refuses, if any. */
  function FirstUnsupported(types: seq<string>, accepts: string -> bool, from: nat): (r: Option<nat>)
    decreases |types| - from
    ensures r.None? <==> forall i | from <= i < |types| :: accepts(types[i])
    ensures r.Some? ==> from <= r.value < |types| && !accepts(types[r.value])
    ensures r.Some? ==> forall i | from <= i < r.value :: accepts(types[i])
  {
    if from >= |types| then None
    else if !accepts(types[from]) then Some(from)
    else FirstUnsupported(types, accepts, from + 1)
  }

  /**
   * The check both macros run before generating anything: enums and unions
   * are refused, and so is a struct with named or positional fields as soon
   * as one field's type is not accepted (the first such field is reported).
   * A unit struct has no field to check.
   */
  function CheckDerive(item: Item, accepts: string -> bool): (r: Option<Rejection>)
    ensures r.None? <==> item.StructItem? && (item.style == Unit || forall i | 0 <= i < |item.fieldTypes| :: accepts(item.fieldTypes[i]))
    ensures r == Some(EnumNotSupported) <==> item.EnumItem?
    ensures r == Some(UnionNotSupported) <==> item.UnionItem?
    ensures r.Some? && r.value.UnsupportedField? ==>
      && item.StructItem?
      && r.value.index < |item.fieldTypes|
      && !accepts(item.fieldTypes[r.value.index])
      && forall i | 0 <= i < r.value.index :: accepts(item.fieldTypes[i])
  {
    match item
    case EnumItem => Some(EnumNotSupported)
    case UnionItem => Some(UnionNotSupported)
    case StructItem(style, types) =>
      if style == Unit then None
      else
        match FirstUnsupported(types, accepts, 0)
        case None => None
        case Some(i) => Some(UnsupportedField(i))
  }

  /** The check of `#[derive(SymWitness)]`: every field is a `SymScalar` or `SymWitness`. */
  function CheckWitnessDerive(item: Item): (r: Option<Rejection>)
    ensures r.None? <==> item.StructItem? && (item.style == Unit || forall i | 0 <= i < |item.fieldTypes| :: IsSymWitnessType(item.fieldTypes[i]))
  {
    CheckDerive(item, IsSymWitnessType)
  }

  /** The check of `#[derive(SymInstance)]`: every field is a `SymScalar`, `SymPoint` or `SymInstance`. */
  function CheckInstanceDerive(item: Item): (r: Option<Rejection>)
    ensures r.None? <==> item.StructItem? && (item.style == Unit || forall i | 0 <= i < |item.fieldTypes| :: IsSymInstanceType(item.fieldTypes[i]))
  {
    CheckDerive(item, IsSymInstanceType)
  }

  /**
   * A `SymPoint` field of a struct with fields makes the witness derive
   * refuse the struct, at that field or an earlier one; the instance derive
   * never reports it.
   */
  lemma PointFieldOnlyInInstances(item: Item, i: nat)
    requires item.StructItem? && item.style != Unit
    requires i < |item.fieldTypes| && item.fieldTypes[i] == "SymPoint"
    ensures CheckWitnessDerive(item).Some? && CheckWitnessDerive(item).value.UnsupportedField?
    ensures CheckWitnessDerive(item).value.index <= i
    ensures CheckInstanceDerive(item) != Some(UnsupportedField(i))
  {
    assert !IsSymWitnessType(item.fieldTypes[i]);
  }

  // ---- positional field names ----

  function DigitChar(d: nat): char
    requires d < 10
  {
    "0123456789"[d]
  }

  function DigitValue(c: char): nat
  {
    if '0' <= c <= '9' then (c as int - '0' as int) as nat else 0
  }

  /** The decimal rendering of `n` that `format!("{}", n)` produces. */
  function Decimal(n: nat): (s: string)
    ensures |s| >= 1
    ensures forall i | 0 <= i < |s| :: '0' <= s[i] <= '9'
  {
    if n < 10 then [DigitChar(n)] else Decimal(n / 10) + [DigitChar(n % 10)]
  }

  /** Reads a string of decimal digits back as a number. */
  function ParseDecimal(s: string): nat
  {
    if |s| == 0 then 0 else 10 * ParseDecimal(s[..|s| - 1]) + DigitValue(s[|s| - 1])
  }

  lemma {:induction false} DecimalRoundTrip(n: nat)
    ensures ParseDecimal(Decimal(n)) == n
  {
    var s := Decimal(n);
    if n < 10 {
      assert s[..|s| - 1] == [];
    } else {
      DecimalRoundTrip(n / 10);
      assert s[..|s| - 1] == Decimal(n / 10);
      assert s[|s| - 1] == DigitChar(n % 10);
    }
  }

  /** `format!("field_{}", i)`: the name of the i-th field of a tuple struct. */
  function TupleFieldName(i: nat): string
  {
    "field_" + Decimal(i)
  }

  /** Distinct positions get distinct names. */
  lemma TupleFieldNamesDistinct(i: nat, j: nat)
    requires i != j
    ensures TupleFieldName(i) != TupleFieldName(j)
  {
    DecimalRoundTrip(i);
    DecimalRoundTrip(j);
    assert Decimal(i) == TupleFieldName(i)[6..];
    assert Decimal(j) == TupleFieldName(j)[6..];
  }
}
