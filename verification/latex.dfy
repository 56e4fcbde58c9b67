/**
 * The LaTeX rendering behind `spec()`: escaping of identifiers, the walks
 * that print scalar and point expressions, and the dummy values that make
 * those walks name the witness and instance fields.
 *
 */
module Latex {
  import opened Errors
  import Group
  import ModArith
  import opened Equations
  import W = SymWitnessDerive
  import I = SymInstanceDerive
  import C = Compiler
  import opened Derive
  import Sigmas

  /** How often `c` occurs in `s`. */
  function Occurrences(c: char, s: string): nat
  {
    if |s| == 0 then 0 else (if s[0] == c then 1 else 0) + Occurrences(c, s[1..])
  }

  lemma {:induction false} OccurrencesConcat(c: char, a: string, b: string)
    ensures Occurrences(c, a + b) == Occurrences(c, a) + Occurrences(c, b)
  {
    if |a| > 0 {
      assert (a + b)[1..] == a[1..] + b;
      OccurrencesConcat(c, a[1..], b);
    } else {
      assert a + b == b;
    }
  }

  // ---- latex_var ----

  const Texttt: string := "\\texttt{"

  /** Every `_` of `name` preceded by a backslash. */
  function Escape(name: string): (r: string)
    ensures |r| == |name| + Occurrences('_', name)
    ensures forall c | c != '\\' :: Occurrences(c, r) == Occurrences(c, name)
    ensures forall i | 0 <= i < |r| && r[i] == '_' :: i > 0 && r[i - 1] == '\\'
  {
    if |name| == 0 then []
    else
      assert name == [name[0]] + name[1..];
      var head := if name[0] == '_' then "\\_" else [name[0]];
      var rest := Escape(name[1..]);
      OccurrencesConcatAll(head, rest);
      assert forall i | |head| <= i < |head + rest| :: (head + rest)[i] == rest[i - |head|];
      head + rest
  }

  lemma OccurrencesConcatAll(a: string, b: string)
    ensures forall c :: Occurrences(c, a + b) == Occurrences(c, a) + Occurrences(c, b)
  {
    forall c {
      OccurrencesConcat(c, a, b);
    }
  }

  /** Reads an escaped name back: a backslash followed by `_` stands for `_`. */
  function Unescape(s: string): string
  {
    if |s| == 0 then []
    else if |s| >= 2 && s[0] == '\\' && s[1] == '_' then "_" + Unescape(s[2..])
    else [s[0]] + Unescape(s[1..])
  }

  lemma {:induction false} EscapeRoundTrip(name: string)
    ensures Unescape(Escape(name)) == name
  {
    if |name| > 0 {
      var rest := Escape(name[1..]);
      EscapeRoundTrip(name[1..]);
      if name[0] == '_' {
        assert Escape(name) == "\\_" + rest;
        assert Escape(name)[2..] == rest;
      } else {
        assert Escape(name) == [name[0]] + rest;
        assert Escape(name)[1..] == rest;
        assert |rest| > 0 ==> rest[0] != '_';
      }
      assert name == [name[0]] + name[1..];
    }
  }

  /** `latex_var`: the escaped name inside `\texttt{...}`. */
  function LatexVar(name: string): (r: string)
    ensures |r| == |Texttt| + |Escape(name)| + 1
    ensures r[..|Texttt|] == Texttt && r[|r| - 1] == '}'
    ensures r[|Texttt|..|r| - 1] == Escape(name)
    ensures Occurrences('?', r) == Occurrences('?', name)
    ensures Occurrences('(', r) == Occurrences('(', name) && Occurrences(')', r) == Occurrences(')', name)
  {
    var r := Texttt + Escape(name) + "}";
    OccurrencesConcatAll(Texttt, Escape(name));
    OccurrencesConcatAll(Texttt + Escape(name), "}");
    Uncounted(Texttt);
    Uncounted("}");
    assert r[..|Texttt|] == Texttt;
    assert r[|Texttt|..|r| - 1] == Escape(name);
    r
  }

  /** The name is recovered from its rendering, so distinct names render differently. */
  lemma LatexVarInjective(a: string, b: string)
    ensures LatexVar(a) == LatexVar(b) <==> a == b
  {
    if LatexVar(a) == LatexVar(b) {
      var ra, rb := LatexVar(a), LatexVar(b);
      assert Escape(a) == ra[|Texttt|..|ra| - 1] == rb[|Texttt|..|rb| - 1] == Escape(b);
      EscapeRoundTrip(a);
      EscapeRoundTrip(b);
    }
  }

  // ---- the expression walks ----

  /** The dummy point `k * G` that `spec()` uses to tag instance points. */
  function DummyPoint(k: nat): Group.Point
  {
    Group.Scale(Group.FromNat(k), Group.Basepoint)
  }

  /** `symscalar_to_latex`. */
  function ScalarToLatex(s: SymScalar, names: seq<string>): string
  {
    match s
    case Const(v) =>
      if v == 1 then "1" else if v == 2 then "2" else if v == 3 then "3"
      else if v == 4 then "4" else if v == 5 then "5" else "c"
    case Var(b) =>
      if b.None? then "?"
      else if 1 <= b.value <= 5 && |names| >= b.value then LatexVar(names[b.value - 1])
      else "v"
    case Add(l, r) => "(" + ScalarToLatex(l, names) + " + " + ScalarToLatex(r, names) + ")"
    case Sub(l, r) => "(" + ScalarToLatex(l, names) + " - " + ScalarToLatex(r, names) + ")"
    case Neg(e) => "(-" + ScalarToLatex(e, names) + ")"
    case Mul(l, r) => "(" + ScalarToLatex(l, names) + " \\cdot " + ScalarToLatex(r, names) + ")"
  }

  /**
   * `sympoint_to_latex_with_context`: the base point prints as `G`, other
   * points as `P`, an unbound point as `?`; the base of a scaling that is one
   * of the dummy points `2G`, `3G`, `4G` prints as `pubkey`, `commitment`,
   * `handle`. (The `is_instance` flag changes nothing.)
   */
  function PointToLatex(p: SymPoint, names: seq<string>): string
    decreases p, 0
  {
    match p
    case Const(v) => if v == Group.Basepoint then "G" else "P"
    case Var(b) => if b.None? then "?" else "P"
    case Add(l, r) => "(" + PointToLatex(l, names) + " + " + PointToLatex(r, names) + ")"
    case Sub(l, r) => "(" + PointToLatex(l, names) + " - " + PointToLatex(r, names) + ")"
    case Neg(e) => "(-" + PointToLatex(e, names) + ")"
    case Scale(k, q) => ScalarToLatex(k, names) + " \\cdot " + ScaledBaseToLatex(q, names)
  }

  /** The names the scaling walk gives the dummy points `2G`, `3G`, `4G`. */
  const DummyNames: seq<string> := ["pubkey", "commitment", "handle"]

  /** `Some(j)` when `q` is the constant dummy point `(j + 2) * G`, for `j < 3`. */
  function DummyIndex(q: SymPoint): (r: Option<nat>)
    ensures r.Some? ==> r.value < 3 && q == SymPoint.Const(DummyPoint(r.value + 2))
    ensures r.None? ==> q != SymPoint.Const(DummyPoint(2)) && q != SymPoint.Const(DummyPoint(3)) && q != SymPoint.Const(DummyPoint(4))
  {
    if q == SymPoint.Const(DummyPoint(2)) then Some(0)
    else if q == SymPoint.Const(DummyPoint(3)) then Some(1)
    else if q == SymPoint.Const(DummyPoint(4)) then Some(2)
    else None
  }

  function ScaledBaseToLatex(q: SymPoint, names: seq<string>): string
    decreases q, 1
  {
    match DummyIndex(q)
    case Some(j) => LatexVar(DummyNames[j])
    case None => PointToLatex(q, names)
  }

  /** The number of parenthesised operator nodes of a scalar tree. */
  function ScalarOps(s: SymScalar): nat
  {
    match s
    case Const(_) => 0
    case Var(_) => 0
    case Add(l, r) => 1 + ScalarOps(l) + ScalarOps(r)
    case Sub(l, r) => 1 + ScalarOps(l) + ScalarOps(r)
    case Neg(e) => 1 + ScalarOps(e)
    case Mul(l, r) => 1 + ScalarOps(l) + ScalarOps(r)
  }

  /** The number of parenthesised operator nodes of a point tree (a scaling adds none of its own). */
  function PointOps(p: SymPoint): nat
  {
    match p
    case Const(_) => 0
    case Var(_) => 0
    case Add(l, r) => 1 + PointOps(l) + PointOps(r)
    case Sub(l, r) => 1 + PointOps(l) + PointOps(r)
    case Neg(e) => 1 + PointOps(e)
    case Scale(k, q) => ScalarOps(k) + PointOps(q)
  }

  /** No name contains `?`, `(` or `)`, as no Rust identifier does. */
  predicate PlainNames(names: seq<string>)
  {
    forall i | 0 <= i < |names| :: Occurrences('?', names[i]) == 0 && Occurrences('(', names[i]) == 0 && Occurrences(')', names[i]) == 0
  }

  /** Occurrences in `open + a + mid + b + close`, part by part. */
  lemma Wrapped(c: char, open: string, a: string, mid: string, b: string, close: string)
    ensures Occurrences(c, open + a + mid + b + close)
            == Occurrences(c, open) + Occurrences(c, a) + Occurrences(c, mid) + Occurrences(c, b) + Occurrences(c, close)
  {
    OccurrencesConcat(c, open, a);
    OccurrencesConcat(c, open + a, mid);
    OccurrencesConcat(c, open + a + mid, b);
    OccurrencesConcat(c, open + a + mid + b, close);
  }

  /** A character that does not occur is counted zero times. */
  lemma {:induction false} Absent(c: char, s: string)
    requires c !in s
    ensures Occurrences(c, s) == 0
  {
    if |s| > 0 {
      assert s[0] in s;
      assert forall k | 0 <= k < |s| - 1 :: s[1..][k] == s[k + 1];
      Absent(c, s[1..]);
    }
  }

  /** A string without `?` and parentheses counts none of them. */
  lemma Uncounted(t: string)
    requires forall k | 0 <= k < |t| :: t[k] != '?' && t[k] != '(' && t[k] != ')'
    ensures Occurrences('?', t) == 0 && Occurrences('(', t) == 0 && Occurrences(')', t) == 0
  {
    Absent('?', t);
    Absent('(', t);
    Absent(')', t);
  }

  /** The opening and closing strings of the operator nodes. */
  lemma Parens()
    ensures Occurrences('?', "(") == 0 && Occurrences('(', "(") == 1 && Occurrences(')', "(") == 0
    ensures Occurrences('?', ")") == 0 && Occurrences('(', ")") == 0 && Occurrences(')', ")") == 1
    ensures Occurrences('?', "(-") == 0 && Occurrences('(', "(-") == 1 && Occurrences(')', "(-") == 0
  {
    Uncounted("-");
    assert "(-"[1..] == "-";
    assert "("[1..] == "" && ")"[1..] == "";
  }

  /** The three counted characters in a rendering `open + a + mid + b + close`. */
  lemma WrappedCounts(open: string, a: string, mid: string, b: string, close: string)
    ensures Occurrences('?', open + a + mid + b + close)
            == Occurrences('?', open) + Occurrences('?', a) + Occurrences('?', mid) + Occurrences('?', b) + Occurrences('?', close)
    ensures Occurrences('(', open + a + mid + b + close)
            == Occurrences('(', open) + Occurrences('(', a) + Occurrences('(', mid) + Occurrences('(', b) + Occurrences('(', close)
    ensures Occurrences(')', open + a + mid + b + close)
            == Occurrences(')', open) + Occurrences(')', a) + Occurrences(')', mid) + Occurrences(')', b) + Occurrences(')', close)
  {
    Wrapped('?', open, a, mid, b, close);
    Wrapped('(', open, a, mid, b, close);
    Wrapped(')', open, a, mid, b, close);
  }

  /** The same for `open + a + close`. */
  lemma EnclosedCounts(open: string, a: string, close: string)
    ensures Occurrences('?', open + a + close) == Occurrences('?', open) + Occurrences('?', a) + Occurrences('?', close)
    ensures Occurrences('(', open + a + close) == Occurrences('(', open) + Occurrences('(', a) + Occurrences('(', close)
    ensures Occurrences(')', open + a + close) == Occurrences(')', open) + Occurrences(')', a) + Occurrences(')', close)
  {
    OccurrencesConcatAll(open, a);
    OccurrencesConcatAll(open + a, close);
  }

  /** The counts of a binary node's rendering `(a sep b)`. */
  lemma BinaryCounts(a: string, sep: string, b: string)
    requires sep == " + " || sep == " - " || sep == " \\cdot "
    ensures Occurrences('?', "(" + a + sep + b + ")") == Occurrences('?', a) + Occurrences('?', b)
    ensures Occurrences('(', "(" + a + sep + b + ")") == 1 + Occurrences('(', a) + Occurrences('(', b)
    ensures Occurrences(')', "(" + a + sep + b + ")") == 1 + Occurrences(')', a) + Occurrences(')', b)
  {
    Uncounted(sep);
    Parens();
    WrappedCounts("(", a, sep, b, ")");
  }

  /** The counts of a negation's rendering `(-a)`. */
  lemma NegCounts(a: string)
    ensures Occurrences('?', "(-" + a + ")") == Occurrences('?', a)
    ensures Occurrences('(', "(-" + a + ")") == 1 + Occurrences('(', a)
    ensures Occurrences(')', "(-" + a + ")") == 1 + Occurrences(')', a)
  {
    Parens();
    EnclosedCounts("(-", a, ")");
  }

  /** A leaf with no counted character. */
  lemma PlainLeaf(t: string)
    requires t == "1" || t == "2" || t == "3" || t == "4" || t == "5" || t == "c" || t == "v" || t == "P" || t == "G"
    ensures Occurrences('?', t) == 0 && Occurrences('(', t) == 0 && Occurrences(')', t) == 0
  {
    Uncounted(t);
  }

  /** The hole marker `?` counts once and holds no parenthesis. */
  lemma HoleLeaf()
    ensures Occurrences('?', "?") == 1 && Occurrences('(', "?") == 0 && Occurrences(')', "?") == 0
  {
    assert "?"[1..] == "";
  }

  /** The counts of a scalar leaf's rendering. */
  lemma ScalarLeafCounts(s: SymScalar, names: seq<string>)
    requires PlainNames(names)
    requires s.Const? || s.Var?
    ensures Occurrences('?', ScalarToLatex(s, names)) == |ScalarHoles(s)|
    ensures Occurrences('(', ScalarToLatex(s, names)) == 0 && Occurrences(')', ScalarToLatex(s, names)) == 0
  {
    var t := ScalarToLatex(s, names);
    if s.Const? {
      PlainLeaf(t);
    } else if s.binding.None? {
      HoleLeaf();
    } else if 1 <= s.binding.value <= 5 && |names| >= s.binding.value {
      var r := LatexVar(names[s.binding.value - 1]);
    } else {
      PlainLeaf(t);
    }
  }

  /**
   * The rendering of a scalar tree shows one `?` per unbound leaf, and one
   * pair of parentheses per operator node.
   */
  lemma {:induction false} ScalarRendering(s: SymScalar, names: seq<string>)
    requires PlainNames(names)
    ensures Occurrences('?', ScalarToLatex(s, names)) == |ScalarHoles(s)|
    ensures Occurrences('(', ScalarToLatex(s, names)) == ScalarOps(s)
    ensures Occurrences(')', ScalarToLatex(s, names)) == ScalarOps(s)
  {
    match s
    case Const(v) =>
      ScalarLeafCounts(s, names);
    case Var(b) =>
      ScalarLeafCounts(s, names);
    case Add(l, r) =>
      ScalarRendering(l, names);
      ScalarRendering(r, names);
      BinaryCounts(ScalarToLatex(l, names), " + ", ScalarToLatex(r, names));
    case Sub(l, r) =>
      ScalarRendering(l, names);
      ScalarRendering(r, names);
      BinaryCounts(ScalarToLatex(l, names), " - ", ScalarToLatex(r, names));
    case Neg(e) =>
      ScalarRendering(e, names);
      NegCounts(ScalarToLatex(e, names));
    case Mul(l, r) =>
      ScalarRendering(l, names);
      ScalarRendering(r, names);
      BinaryCounts(ScalarToLatex(l, names), " \\cdot ", ScalarToLatex(r, names));
  }

  /**
   * The rendering of a point tree shows one `?` per unbound leaf, scalar or
   * point, and one pair of parentheses per operator node.
   */
  lemma {:induction false} PointRendering(p: SymPoint, names: seq<string>)
    requires PlainNames(names)
    ensures Occurrences('?', PointToLatex(p, names)) == |PointHoles(p)|
    ensures Occurrences('(', PointToLatex(p, names)) == PointOps(p)
    ensures Occurrences(')', PointToLatex(p, names)) == PointOps(p)
  {
    match p
    case Const(v) =>
      PlainLeaf(PointToLatex(p, names));
    case Var(b) =>
      if b.None? {
        HoleLeaf();
      } else {
        PlainLeaf(PointToLatex(p, names));
      }
    case Add(l, r) =>
      PointRendering(l, names);
      PointRendering(r, names);
      BinaryCounts(PointToLatex(l, names), " + ", PointToLatex(r, names));
    case Sub(l, r) =>
      PointRendering(l, names);
      PointRendering(r, names);
      BinaryCounts(PointToLatex(l, names), " - ", PointToLatex(r, names));
    case Neg(e) =>
      PointRendering(e, names);
      NegCounts(PointToLatex(e, names));
    case Scale(k, q) =>
      ScalarRendering(k, names);
      PointRendering(q, names);
      ScaledCounts(k, q, names);
  }

  lemma DummyNameCounts(j: nat)
    requires j < 3
    ensures PlainNames([DummyNames[j]])
  {
    var name := DummyNames[j];
    assert '?' !in name && '(' !in name && ')' !in name;
    Absent('?', name);
    Absent('(', name);
    Absent(')', name);
  }

  /** The base of a scaling prints with the counts of the point, or with none for a dummy name. */
  lemma BaseCounts(q: SymPoint, names: seq<string>)
    requires Occurrences('?', PointToLatex(q, names)) == |PointHoles(q)|
    requires Occurrences('(', PointToLatex(q, names)) == PointOps(q) && Occurrences(')', PointToLatex(q, names)) == PointOps(q)
    ensures Occurrences('?', ScaledBaseToLatex(q, names)) == |PointHoles(q)|
    ensures Occurrences('(', ScaledBaseToLatex(q, names)) == PointOps(q)
    ensures Occurrences(')', ScaledBaseToLatex(q, names)) == PointOps(q)
  {
    if DummyIndex(q).Some? {
      var j := DummyIndex(q).value;
      DummyNameCounts(j);
      assert [DummyNames[j]][0] == DummyNames[j];
      var r := LatexVar(DummyNames[j]);
    }
  }

  /** The step of `PointRendering` for a scaling, from the counts of its parts. */
  lemma ScaledCounts(k: SymScalar, q: SymPoint, names: seq<string>)
    requires Occurrences('?', ScalarToLatex(k, names)) == |ScalarHoles(k)|
    requires Occurrences('(', ScalarToLatex(k, names)) == ScalarOps(k) && Occurrences(')', ScalarToLatex(k, names)) == ScalarOps(k)
    requires Occurrences('?', PointToLatex(q, names)) == |PointHoles(q)|
    requires Occurrences('(', PointToLatex(q, names)) == PointOps(q) && Occurrences(')', PointToLatex(q, names)) == PointOps(q)
    ensures Occurrences('?', PointToLatex(SymPoint.Scale(k, q), names)) == |PointHoles(SymPoint.Scale(k, q))|
    ensures Occurrences('(', PointToLatex(SymPoint.Scale(k, q), names)) == PointOps(SymPoint.Scale(k, q))
    ensures Occurrences(')', PointToLatex(SymPoint.Scale(k, q), names)) == PointOps(SymPoint.Scale(k, q))
  {
    Uncounted(" \\cdot ");
    BaseCounts(q, names);
    var base := ScaledBaseToLatex(q, names);
    assert PointToLatex(SymPoint.Scale(k, q), names) == ScalarToLatex(k, names) + " \\cdot " + base;
    EnclosedCounts(ScalarToLatex(k, names), " \\cdot ", base);
  }

  /** A name without `_` is its own escape. */
  lemma {:induction false} EscapePlain(name: string)
    requires '_' !in name
    ensures Escape(name) == name
  {
    if |name| > 0 {
      assert name[0] in name;
      assert forall k | 0 <= k < |name| - 1 :: name[1..][k] == name[k + 1];
      EscapePlain(name[1..]);
      assert name == [name[0]] + name[1..];
    }
  }

  // ---- spec() ----

  function Min(a: nat, b: nat): nat
  {
    if a < b then a else b
  }

  /** The dummy values `1, 2, ..., n`. */
  function DummyScalars(n: nat): (vs: seq<Group.Scalar>)
    ensures |vs| == n && forall k | 0 <= k < n :: vs[k] == Group.FromNat(k + 1)
  {
    seq(n, (k: int) requires 0 <= k < n => Group.FromNat(k + 1))
  }

  /** The dummy instance points `2G, 3G, ...`. */
  function DummyPoints(n: nat): (ps: seq<Group.Point>)
    ensures |ps| == n && forall k | 0 <= k < n :: ps[k] == DummyPoint(k + 2)
  {
    seq(n, (k: int) requires 0 <= k < n => DummyPoint(k + 2))
  }

  lemma DummyPointsDistinct()
    ensures Group.Basepoint != DummyPoint(2) && Group.Basepoint != DummyPoint(3) && Group.Basepoint != DummyPoint(4)
    ensures DummyPoint(2) != DummyPoint(3) && DummyPoint(2) != DummyPoint(4) && DummyPoint(3) != DummyPoint(4)
  {
    assert Group.Basepoint.log == 1;
    assert DummyPoint(2).log == 2 && DummyPoint(3).log == 3 && DummyPoint(4).log == 4;
  }

  /** The dummy point `(j + 2) * G` is recognised as the `j`-th one, for `j < 3`. */
  lemma DummyRecognised(j: nat)
    requires j < 3
    ensures DummyIndex(SymPoint.Const(DummyPoint(j + 2))) == Some(j)
  {
    DummyPointsDistinct();
  }

  /**
   * The witness of `shape` whose k-th scalar leaf is bound to the dummy
   * value `k + 1`: what the corrected `from_values` builds from
   * `1, 2, ..., num_scalars`.
   */
  function DummyWitness(shape: W.WitnessShape): (w: W.Witness)
    ensures W.Conforms(w, shape)
    ensures W.Flatten(w) == W.Bound(DummyScalars(W.NumScalars(shape)))
  {
    W.FromValues(shape, DummyScalars(W.NumScalars(shape))).value
  }

  /**
   * The generated `from_values` that `spec()` calls on the dummy values
   * builds that witness when the nested fields of the struct come last, and
   * fails otherwise.
   */
  lemma DummyWitnessDecodes(shape: W.WitnessShape)
    ensures W.FromValuesAsWritten(shape, DummyScalars(W.NumScalars(shape))).Ok? <==> W.NestedLast(shape)
    ensures W.NestedLast(shape) ==> W.FromValuesAsWritten(shape, DummyScalars(W.NumScalars(shape))) == Ok(DummyWitness(shape))
  {
    W.AsWrittenExact(shape, DummyScalars(W.NumScalars(shape)));
  }

  /**
   * The instance `spec()` builds: scalars `1, 2, ...` and points
   * `2G, 3G, ...`, as constant leaves; `from_values` always succeeds on them.
   */
  function DummyInstance(shape: I.InstanceShape): (x: I.Instance)
    ensures I.Conforms(x, shape)
    ensures I.Scalars(x) == I.ConstScalars(DummyScalars(I.NumScalars(shape)))
    ensures I.Points(x) == I.ConstPoints(DummyPoints(I.NumPoints(shape)))
  {
    I.FromValues(shape, DummyScalars(I.NumScalars(shape)), DummyPoints(I.NumPoints(shape))).value
  }

  /** `var_names`: `get_var_name(i)` for every `i < num_scalars`. */
  function VarNames(shape: W.WitnessShape): (names: seq<string>)
    ensures |names| == W.NumScalars(shape)
  {
    seq(W.NumScalars(shape), (i: int) requires 0 <= i => W.GetVarName(shape, i))
  }

  /**
   * A dummy witness leaf prints as the name `get_var_name` gives its
   * position, for the first five; later ones print as `v`.
   */
  lemma WitnessLeafNamed(shape: W.WitnessShape, k: nat)
    requires k < W.NumScalars(shape) && k + 1 < Group.L
    ensures k < 5 ==> ScalarToLatex(W.Flatten(DummyWitness(shape))[k], VarNames(shape)) == LatexVar(W.GetVarName(shape, k))
    ensures k >= 5 ==> ScalarToLatex(W.Flatten(DummyWitness(shape))[k], VarNames(shape)) == "v"
  {
    var n := W.NumScalars(shape);
    var v := DummyScalars(n)[k];
    assert W.Flatten(DummyWitness(shape))[k] == SymScalar.Var(Some(v));
    assert v == k + 1 by {
      ModArith.ModUnique(k + 1, Group.L, 0, k + 1);
    }
  }

  /** The index of the `j`-th point field of `fields`, counting from position `i`. */
  function PointFieldIndex(fields: seq<I.InstanceField>, i: nat, j: nat): (r: Option<nat>)
    decreases |fields| - i
    ensures r.Some? ==> i <= r.value < |fields| && fields[r.value].PointField?
  {
    if i >= |fields| then None
    else if fields[i].PointField? then (if j == 0 then Some(i) else PointFieldIndex(fields, i + 1, j - 1))
    else PointFieldIndex(fields, i + 1, j)
  }

  const FallbackLabels: seq<string> := ["P_1", "P_2", "P_3"]

  /**
   * How `spec()` prints an output of `f`: the dummy point `(j + 2) * G` is
   * labelled with the name of the instance field that holds it (the `j`-th
   * point field), or `P_{j+1}` when there is none; anything else is printed
   * as an expression.
   */
  function FLabel(point: SymPoint, shape: I.InstanceShape, varNames: seq<string>): string
  {
    match DummyIndex(point)
    case None => PointToLatex(point, varNames)
    case Some(j) =>
      match PointFieldIndex(shape.fields, 0, j)
      case Some(k) => if shape.style == Unit then FallbackLabels[j] else LatexVar(I.FieldNames(shape)[k])
      case None => FallbackLabels[j]
  }

  /**
   * The same as the source writes it: the `j`-th dummy point is labelled
   * with the field name at position `f_scalars_in + j`, as if every scalar
   * field came before every point field.
   */
  function FLabelAsWritten(point: SymPoint, fieldNames: seq<string>, fScalarsIn: nat, varNames: seq<string>): string
  {
    match DummyIndex(point)
    case None => PointToLatex(point, varNames)
    case Some(j) => if |fieldNames| > fScalarsIn + j then LatexVar(fieldNames[fScalarsIn + j]) else FallbackLabels[j]
  }

  /** In a flat instance the `j`-th listed point is the value of the `j`-th point field. */
  lemma {:induction false} PointsFromIndex(x: I.Instance, shape: I.InstanceShape, i: nat, j: nat)
    requires I.Flat(shape) && I.FieldsConform(x, shape, 0) && i <= |x.fields|
    requires PointFieldIndex(shape.fields, i, j).Some?
    decreases |x.fields| - i
    ensures j < |I.PointsFrom(x, i)|
    ensures x.fields[PointFieldIndex(shape.fields, i, j).value].PointValue?
    ensures I.PointsFrom(x, i)[j] == x.fields[PointFieldIndex(shape.fields, i, j).value].p
  {
    assert I.FieldConforms(x.fields[i], shape.fields[i]);
    if shape.fields[i].PointField? {
      if j > 0 {
        PointsFromIndex(x, shape, i + 1, j - 1);
      }
    } else {
      PointsFromIndex(x, shape, i + 1, j);
    }
    var k := PointFieldIndex(shape.fields, i, j).value;
    assert I.FieldConforms(x.fields[k], shape.fields[k]);
  }

  /**
   * In the dummy instance of a flat struct, the `j`-th point field (`j < 3`)
   * holds `(j + 2) * G`, and that point is labelled with the field's own name.
   */
  lemma DummyPointLabelled(shape: I.InstanceShape, varNames: seq<string>, j: nat, k: nat)
    requires shape.style != Unit && I.Flat(shape)
    requires j < 3 && PointFieldIndex(shape.fields, 0, j) == Some(k)
    ensures DummyInstance(shape).fields[k] == I.PointValue(SymPoint.Const(DummyPoint(j + 2)))
    ensures FLabel(SymPoint.Const(DummyPoint(j + 2)), shape, varNames) == LatexVar(I.FieldNames(shape)[k])
  {
    var x := DummyInstance(shape);
    PointsFromIndex(x, shape, 0, j);
    assert I.Points(x)[j] == x.fields[k].p;
    DummyRecognised(j);
  }

  /** A struct declaring a point field before a scalar field. */
  const PointThenScalar: I.InstanceShape := I.InstanceShape(Named, [I.PointField("p"), I.ScalarField("s")])

  /**
   * For that struct the source labels the point `2G`, which field `p`
   * holds, with the name of field `s`.
   */
  lemma PointThenScalarMislabelled()
    ensures DummyInstance(PointThenScalar).fields[0] == I.PointValue(SymPoint.Const(DummyPoint(2)))
    ensures I.NumScalars(PointThenScalar) == 1
    ensures FLabelAsWritten(SymPoint.Const(DummyPoint(2)), I.FieldNames(PointThenScalar), I.NumScalars(PointThenScalar), [])
            == LatexVar("s")
    ensures FLabel(SymPoint.Const(DummyPoint(2)), PointThenScalar, []) == LatexVar("p")
  {
    assert I.Flat(PointThenScalar);
    assert PointFieldIndex(PointThenScalar.fields, 0, 0) == Some(0);
    DummyPointLabelled(PointThenScalar, [], 0, 0);
    assert I.NumScalars(PointThenScalar) == 1 by {
      assert I.ScalarCountFrom(PointThenScalar, 2) == 0;
      assert I.ScalarCountFrom(PointThenScalar, 1) == 1;
    }
    DummyRecognised(0);
    var names := I.FieldNames(PointThenScalar);
    assert names[1] == "s" && names[0] == "p";
  }

  /** One line of the checks list: `* $psi = f$`. */
  function CheckLine(psi: string, f: string): string
  {
    "* $" + psi + " = " + f + "$"
  }

  /** The check lines pair the i-th output of `psi` with the i-th output of `f`, up to the shorter list. */
  function CheckLines(psis: seq<string>, fs: seq<string>): (lines: seq<string>)
    ensures |lines| == Min(|psis|, |fs|)
    ensures forall i | 0 <= i < |lines| :: lines[i] == CheckLine(psis[i], fs[i])
  {
    seq(Min(|psis|, |fs|), (i: int) requires 0 <= i < Min(|psis|, |fs|) => CheckLine(psis[i], fs[i]))
  }

  /** The printed outputs of `psi` on given witness and instance values. */
  function PsiTexts(proto: C.Protocol, w: W.Witness, x: I.Instance): seq<string>
  {
    var names, images := VarNames(proto.witnessShape), proto.psi(w, x);
    seq(|images|, (i: int) requires 0 <= i < |images| => PointToLatex(images[i], names))
  }

  /** The labels of the outputs of `f` as the source prints them, from `f_scalars_in` on. */
  function FLabelsAsWritten(proto: C.Protocol, x: I.Instance): seq<string>
  {
    var xshape, names, outputs := proto.instanceShape, VarNames(proto.witnessShape), proto.f(x);
    seq(|outputs|, (i: int) requires 0 <= i < |outputs| =>
      FLabelAsWritten(outputs[i], I.FieldNames(xshape), I.NumScalars(xshape), names))
  }

  /** The labels of the outputs of `f`, each dummy point named by the field that holds it. */
  function FLabels(proto: C.Protocol, x: I.Instance): seq<string>
  {
    var names, outputs := VarNames(proto.witnessShape), proto.f(x);
    seq(|outputs|, (i: int) requires 0 <= i < |outputs| => FLabel(outputs[i], proto.instanceShape, names))
  }

  /** The checks section of `spec()`: the check lines, or the "could not generate" message. */
  datatype ChecksSection = CouldNotGenerate | Lines(lines: seq<string>)

  /**
   * The checks section of `spec()`: the dummy witness is built by the
   * generated `from_values`, and on failure the "could not generate"
   * message replaces the whole analysis; otherwise the outputs of `psi` and
   * `f` on the dummy values are printed side by side, `f`'s dummy points
   * labelled from `f_scalars_in` on. The message appears exactly when a
   * nested field of the witness struct is followed by scalars.
   */
  function SpecChecks(proto: C.Protocol): (r: ChecksSection)
    ensures r == CouldNotGenerate <==> !W.NestedLast(proto.witnessShape)
    ensures r.Lines? ==>
      var x := DummyInstance(proto.instanceShape);
      r.lines == CheckLines(PsiTexts(proto, DummyWitness(proto.witnessShape), x), FLabelsAsWritten(proto, x))
  {
    var wshape, xshape := proto.witnessShape, proto.instanceShape;
    DummyWitnessDecodes(wshape);
    match W.FromValuesAsWritten(wshape, DummyScalars(W.NumScalars(wshape)))
    case Err(_) => CouldNotGenerate
    case Ok(w) =>
      match I.FromValues(xshape, DummyScalars(I.NumScalars(xshape)), DummyPoints(I.NumPoints(xshape)))
      case Done(x) => Lines(CheckLines(PsiTexts(proto, w, x), FLabelsAsWritten(proto, x)))
      case Raise(_) => CouldNotGenerate
      case Panic => assert false; CouldNotGenerate
  }

  /**
   * The checks section with both corrections: the dummy witness always
   * decodes, and every dummy point is labelled with the field that holds it.
   */
  function CorrectedSpecChecks(proto: C.Protocol): ChecksSection
  {
    var x := DummyInstance(proto.instanceShape);
    Lines(CheckLines(PsiTexts(proto, DummyWitness(proto.witnessShape), x), FLabels(proto, x)))
  }

  /** A point field is followed only by point fields, which hold no scalar. */
  lemma {:induction false} NoScalarsAfterPoint(shape: I.InstanceShape, i: nat)
    requires I.Flat(shape) && I.ScalarsBeforePoints(shape)
    requires i < |shape.fields| && shape.fields[i].PointField?
    decreases |shape.fields| - i
    ensures I.ScalarCountFrom(shape, i) == 0
  {
    if i + 1 < |shape.fields| {
      NoScalarsAfterPoint(shape, i + 1);
    }
  }

  /** When the scalar fields come first, the `j`-th point field follows all of them. */
  lemma {:induction false} PointFieldIndexSorted(shape: I.InstanceShape, i: nat, j: nat)
    requires I.Flat(shape) && I.ScalarsBeforePoints(shape) && i <= |shape.fields|
    decreases |shape.fields| - i
    ensures PointFieldIndex(shape.fields, i, j)
            == if i + I.ScalarCountFrom(shape, i) + j < |shape.fields| then Some(i + I.ScalarCountFrom(shape, i) + j) else None
  {
    if i < |shape.fields| {
      if shape.fields[i].PointField? {
        NoScalarsAfterPoint(shape, i);
        if j > 0 {
          PointFieldIndexSorted(shape, i + 1, j - 1);
          if i + 1 < |shape.fields| {
            NoScalarsAfterPoint(shape, i + 1);
          }
        }
      } else {
        PointFieldIndexSorted(shape, i + 1, j);
      }
    }
  }

  /**
   * When no scalar field follows a point field of a flat instance, the
   * source's `f_scalars_in + j` labelling names the field that holds the
   * dummy point.
   */
  lemma LabelsAgree(point: SymPoint, shape: I.InstanceShape, varNames: seq<string>)
    requires I.Flat(shape) && I.ScalarsBeforePoints(shape)
    ensures FLabelAsWritten(point, I.FieldNames(shape), I.NumScalars(shape), varNames) == FLabel(point, shape, varNames)
  {
    match DummyIndex(point)
    case None =>
    case Some(j) =>
      if shape.style != Unit {
        var names, n := I.FieldNames(shape), I.ScalarCountFrom(shape, 0);
        assert I.NumScalars(shape) == n && |names| == |shape.fields|;
        PointFieldIndexSorted(shape, 0, j);
        if n + j < |shape.fields| {
          assert PointFieldIndex(shape.fields, 0, j) == Some(n + j);
          assert FLabelAsWritten(point, names, n, varNames) == LatexVar(names[n + j]);
        } else {
          assert PointFieldIndex(shape.fields, 0, j) == None;
        }
      }
  }

  /**
   * `spec()` prints the corrected checks section exactly for a witness
   * struct whose nested fields come last, when the instance is flat and
   * declares its scalar fields before its point fields.
   */
  lemma SpecChecksAgree(proto: C.Protocol)
    requires I.Flat(proto.instanceShape) && I.ScalarsBeforePoints(proto.instanceShape)
    ensures SpecChecks(proto) == CorrectedSpecChecks(proto) <==> W.NestedLast(proto.witnessShape)
  {
    var x := DummyInstance(proto.instanceShape);
    forall i | 0 <= i < |proto.f(x)|
      ensures FLabelsAsWritten(proto, x)[i] == FLabels(proto, x)[i]
    {
      LabelsAgree(proto.f(x)[i], proto.instanceShape, VarNames(proto.witnessShape));
    }
    assert FLabelsAsWritten(proto, x) == FLabels(proto, x);
  }

  /** A protocol whose witness struct is `Outer` gets the "could not generate" message. */
  lemma OuterWitnessSpecFallback(proto: C.Protocol)
    requires proto.witnessShape == W.OuterShape
    ensures SpecChecks(proto) == CouldNotGenerate
  {
    W.OuterShapeNestedFirst();
  }

  // ---- the struct shapes of the concrete protocols ----

  /** A plain name is wrapped as it is. */
  lemma LatexVarPlain(name: string)
    requires '_' !in name
    ensures LatexVar(name) == Texttt + name + "}"
  {
    EscapePlain(name);
  }

  /** In a witness struct of named scalars the k-th dummy leaf (`k < 5`) prints as the k-th name. */
  lemma NamedWitnessLeaf(names: seq<string>, k: nat)
    requires k < |names| && k < 5
    ensures Sigmas.ScalarOf(DummyWitness(Sigmas.ScalarWitnessShape(names)), k) == SymScalar.Var(Some(k + 1))
    ensures ScalarToLatex(Sigmas.ScalarOf(DummyWitness(Sigmas.ScalarWitnessShape(names)), k), VarNames(Sigmas.ScalarWitnessShape(names)))
            == LatexVar(names[k])
  {
    var shape := Sigmas.ScalarWitnessShape(names);
    DummyLeafOf(names, k);
    WitnessLeafNamed(shape, k);
  }

  /** The k-th field of the dummy witness of named scalars is its k-th flattened leaf. */
  lemma DummyLeafOf(names: seq<string>, k: nat)
    requires k < |names| && k < 5
    ensures var w := DummyWitness(Sigmas.ScalarWitnessShape(names));
      k < |W.Flatten(w)| && Sigmas.ScalarOf(w, k) == W.Flatten(w)[k] == SymScalar.Var(Some(k + 1))
  {
    var shape := Sigmas.ScalarWitnessShape(names);
    var w := DummyWitness(shape);
    Sigmas.ScalarWitnessValues(w, names);
    W.ScalarFieldsFlatten(w, 0);
    assert W.Flatten(w) == W.FlattenFrom(w, 0);
    W.FlattenLength(w, shape);
    assert Group.FromNat(k + 1) == k + 1 by {
      ModArith.ModUnique(k + 1, Group.L, 0, k + 1);
    }
  }

  /**
   * In an instance struct of named points the j-th field (`j < 3`) holds the
   * dummy point `(j + 2) * G`, which `f` outputs print as the j-th name.
   */
  lemma NamedInstancePoint(names: seq<string>, j: nat, varNames: seq<string>)
    requires j < |names| && j < 3
    ensures Sigmas.PointOf(DummyInstance(Sigmas.PointInstanceShape(names)), j) == SymPoint.Const(DummyPoint(j + 2))
    ensures FLabel(SymPoint.Const(DummyPoint(j + 2)), Sigmas.PointInstanceShape(names), varNames) == LatexVar(names[j])
  {
    var shape := Sigmas.PointInstanceShape(names);
    DummyPointOf(names, j);
    DummyRecognised(j);
    PointFieldIndexAllPoints(shape.fields, 0, j);
    assert PointFieldIndex(shape.fields, 0, j) == Some(j);
    assert I.FieldNames(shape)[j] == names[j];
    assert FLabel(SymPoint.Const(DummyPoint(j + 2)), shape, varNames) == LatexVar(I.FieldNames(shape)[j]);
  }

  /** The j-th field of the dummy instance of named points holds the dummy point `(j + 2) * G`. */
  lemma DummyPointOf(names: seq<string>, j: nat)
    requires j < |names| && j < 3
    ensures Sigmas.PointOf(DummyInstance(Sigmas.PointInstanceShape(names)), j) == SymPoint.Const(DummyPoint(j + 2))
  {
    var x := DummyInstance(Sigmas.PointInstanceShape(names));
    Sigmas.PointInstanceLists(x, names);
    assert I.Points(x)[j] == SymPoint.Const(DummyPoints(I.NumPoints(Sigmas.PointInstanceShape(names)))[j]);
  }

  lemma {:induction false} PointFieldIndexAllPoints(fields: seq<I.InstanceField>, i: nat, j: nat)
    requires forall k | 0 <= k < |fields| :: fields[k].PointField?
    requires i + j < |fields|
    decreases j
    ensures PointFieldIndex(fields, i, j) == Some(i + j)
  {
    if j > 0 {
      PointFieldIndexAllPoints(fields, i + 1, j - 1);
    }
  }

  /** `k * G` prints as the scalar, `\cdot` and `G`. */
  lemma ScaledBasepoint(k: SymScalar, names: seq<string>)
    ensures PointToLatex(SymPoint.Scale(k, Sigmas.G), names) == ScalarToLatex(k, names) + " \\cdot " + "G"
  {
    DummyPointsDistinct();
    assert DummyIndex(Sigmas.G) == None;
  }

  /** `k * P` for the dummy point `P = (j + 2) * G` prints `P` under its fixed name. */
  lemma ScaledDummy(k: SymScalar, j: nat, names: seq<string>)
    requires j < 3
    ensures PointToLatex(SymPoint.Scale(k, SymPoint.Const(DummyPoint(j + 2))), names)
            == ScalarToLatex(k, names) + " \\cdot " + LatexVar(DummyNames[j])
  {
    DummyRecognised(j);
    var q := SymPoint.Const(DummyPoint(j + 2));
    var base := LatexVar(DummyNames[j]);
    assert ScaledBaseToLatex(q, names) == base;
    ScaledText(k, q, names);
  }

  /** One unfolding of the printer on `k * q`, kept apart so callers do not unfold the whole printer. */
  lemma ScaledText(k: SymScalar, q: SymPoint, names: seq<string>)
    ensures PointToLatex(SymPoint.Scale(k, q), names) == ScalarToLatex(k, names) + " \\cdot " + ScaledBaseToLatex(q, names)
  {
    var p := SymPoint.Scale(k, q);
    match p
    case Scale(k1, q1) =>
      assert k1 == k && q1 == q;
  }

  /**
   * In a protocol over scalar witness fields `wNames` and point instance
   * fields `xNames`, the k-th witness scalar times the j-th instance point
   * prints as the scalar's field name times the name the walk gives that
   * dummy point.
   */
  lemma NamedScaledInstance(wNames: seq<string>, xNames: seq<string>, k: nat, j: nat)
    requires k < |wNames| && k < 5 && j < |xNames| && j < 3
    ensures var w, x := DummyWitness(Sigmas.ScalarWitnessShape(wNames)), DummyInstance(Sigmas.PointInstanceShape(xNames));
      PointToLatex(SymPoint.Scale(Sigmas.ScalarOf(w, k), Sigmas.PointOf(x, j)), VarNames(Sigmas.ScalarWitnessShape(wNames)))
      == LatexVar(wNames[k]) + " \\cdot " + LatexVar(DummyNames[j])
  {
    var w, x := DummyWitness(Sigmas.ScalarWitnessShape(wNames)), DummyInstance(Sigmas.PointInstanceShape(xNames));
    var names := VarNames(Sigmas.ScalarWitnessShape(wNames));
    NamedWitnessLeaf(wNames, k);
    NamedInstancePoint(xNames, j, names);
    ScaledDummy(Sigmas.ScalarOf(w, k), j, names);
  }

  /**
   * The k-th witness scalar times a constant point that is not one of the
   * dummy instance points prints as the field name times `G` or `P`.
   */
  lemma NamedScaledConst(wNames: seq<string>, k: nat, p: Group.Point)
    requires k < |wNames| && k < 5
    requires p != DummyPoint(2) && p != DummyPoint(3) && p != DummyPoint(4)
    ensures PointToLatex(SymPoint.Scale(Sigmas.ScalarOf(DummyWitness(Sigmas.ScalarWitnessShape(wNames)), k), SymPoint.Const(p)),
                         VarNames(Sigmas.ScalarWitnessShape(wNames)))
            == LatexVar(wNames[k]) + " \\cdot " + (if p == Group.Basepoint then "G" else "P")
  {
    var w := DummyWitness(Sigmas.ScalarWitnessShape(wNames));
    var names := VarNames(Sigmas.ScalarWitnessShape(wNames));
    NamedWitnessLeaf(wNames, k);
    assert DummyIndex(SymPoint.Const(p)) == None;
    ScaledText(Sigmas.ScalarOf(w, k), SymPoint.Const(p), names);
  }

  /** One unfolding of the printer on `a + b`. */
  lemma SumText(a: SymPoint, b: SymPoint, names: seq<string>)
    ensures PointToLatex(SymPoint.Add(a, b), names) == "(" + PointToLatex(a, names) + " + " + PointToLatex(b, names) + ")"
  {
  }

  /** The checks section from the texts of the individual outputs. */
  lemma ChecksFromTexts(proto: C.Protocol, psiStrs: seq<string>, fStrs: seq<string>)
    requires W.NestedLast(proto.witnessShape) && I.Flat(proto.instanceShape) && I.ScalarsBeforePoints(proto.instanceShape)
    requires var w, x := DummyWitness(proto.witnessShape), DummyInstance(proto.instanceShape);
      && |proto.psi(w, x)| == |psiStrs| && |proto.f(x)| == |fStrs|
      && (forall i | 0 <= i < |psiStrs| :: PointToLatex(proto.psi(w, x)[i], VarNames(proto.witnessShape)) == psiStrs[i])
      && (forall i | 0 <= i < |fStrs| :: FLabel(proto.f(x)[i], proto.instanceShape, VarNames(proto.witnessShape)) == fStrs[i])
    ensures SpecChecks(proto) == Lines(CheckLines(psiStrs, fStrs))
  {
    var w, x := DummyWitness(proto.witnessShape), DummyInstance(proto.instanceShape);
    SpecChecksAgree(proto);
    assert PsiTexts(proto, w, x) == psiStrs;
    assert FLabels(proto, x) == fStrs;
  }

  /** `CheckLines` of one and of two pairs, unfolded once. */
  lemma OneCheck(psi: string, f: string)
    ensures CheckLines([psi], [f]) == [CheckLine(psi, f)]
  {
  }

  lemma TwoChecks(psi1: string, psi2: string, f1: string, f2: string)
    ensures CheckLines([psi1, psi2], [f1, f2]) == [CheckLine(psi1, f1), CheckLine(psi2, f2)]
  {
  }

  /** A protocol with one equation has one check line. */
  lemma SingleCheck(proto: C.Protocol, psiStr: string, fStr: string)
    requires W.NestedLast(proto.witnessShape) && I.Flat(proto.instanceShape) && I.ScalarsBeforePoints(proto.instanceShape)
    requires var w, x := DummyWitness(proto.witnessShape), DummyInstance(proto.instanceShape);
      && |proto.psi(w, x)| == 1 && |proto.f(x)| == 1
      && PointToLatex(proto.psi(w, x)[0], VarNames(proto.witnessShape)) == psiStr
      && FLabel(proto.f(x)[0], proto.instanceShape, VarNames(proto.witnessShape)) == fStr
    ensures SpecChecks(proto) == Lines([CheckLine(psiStr, fStr)])
  {
    ChecksFromTexts(proto, [psiStr], [fStr]);
    OneCheck(psiStr, fStr);
  }

  /** A protocol with two equations has two check lines. */
  lemma DoubleCheck(proto: C.Protocol, psi1: string, psi2: string, f1: string, f2: string)
    requires W.NestedLast(proto.witnessShape) && I.Flat(proto.instanceShape) && I.ScalarsBeforePoints(proto.instanceShape)
    requires var w, x := DummyWitness(proto.witnessShape), DummyInstance(proto.instanceShape);
      && |proto.psi(w, x)| == 2 && |proto.f(x)| == 2
      && PointToLatex(proto.psi(w, x)[0], VarNames(proto.witnessShape)) == psi1
      && PointToLatex(proto.psi(w, x)[1], VarNames(proto.witnessShape)) == psi2
      && FLabel(proto.f(x)[0], proto.instanceShape, VarNames(proto.witnessShape)) == f1
      && FLabel(proto.f(x)[1], proto.instanceShape, VarNames(proto.witnessShape)) == f2
    ensures SpecChecks(proto) == Lines([CheckLine(psi1, f1), CheckLine(psi2, f2)])
  {
    ChecksFromTexts(proto, [psi1, psi2], [f1, f2]);
    TwoChecks(psi1, psi2, f1, f2);
  }
}
