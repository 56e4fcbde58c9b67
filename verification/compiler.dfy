/**
 * The sigma-protocol compiler: from a protocol's `f` (instance to points)
 * and `psi` (witness and instance to points), the non-interactive `prove`
 * and `verify` of the `SigmaProof` trait.
 *
 * The transcript is modelled by what it does for these two functions: the
 * challenge is an `Oracle` applied to the protocol label and the messages
 * absorbed before it, and the proof string is the commitment points
 * followed by the response scalars, as `Codec` writes and reads them.
 * The prover's random blinding values come from `rng`, read from `pos` on.
 */
module Compiler {
  import opened Errors
  import Group
  import opened Equations
  import W = SymWitnessDerive
  import I = SymInstanceDerive
  import Codec

  /** A value absorbed into the transcript before the challenge is drawn. */
  datatype Message = PointMessage(p: Group.Point) | ScalarMessage(s: Group.Scalar)

  /** The challenge as a function of the protocol label and everything absorbed so far. */
  type Oracle = (string, seq<Message>) -> Group.Scalar

  /**
   * A protocol: `LABEL`, the witness and instance structs, and the two
   * functions `f` and `psi`.
   */
  datatype Protocol = Protocol(
    domainLabel: string,
    witnessShape: W.WitnessShape,
    instanceShape: I.InstanceShape,
    f: I.Instance -> seq<SymPoint>,
    psi: (W.Witness, I.Instance) -> seq<SymPoint>)

  function PointMessages(ps: seq<Group.Point>): (ms: seq<Message>)
    ensures |ms| == |ps| && forall i | 0 <= i < |ps| :: ms[i] == PointMessage(ps[i])
  {
    seq(|ps|, (i: int) requires 0 <= i < |ps| => PointMessage(ps[i]))
  }

  function ScalarMessages(ss: seq<Group.Scalar>): (ms: seq<Message>)
    ensures |ms| == |ss| && forall i | 0 <= i < |ss| :: ms[i] == ScalarMessage(ss[i])
  {
    seq(|ss|, (i: int) requires 0 <= i < |ss| => ScalarMessage(ss[i]))
  }

  /**
   * What prover and verifier both absorb first: the instance's points, then
   * its scalars, each evaluated (not `f` of the instance). An unbound point
   * is reported before an unbound scalar.
   */
  function AbsorbInstance(x: I.Instance): (r: Result<seq<Message>>)
    ensures r.Ok? <==> EvalPoints(I.Points(x)).Ok? && EvalScalars(I.Scalars(x)).Ok?
    ensures r.Ok? ==> r.value == PointMessages(EvalPoints(I.Points(x)).value) + ScalarMessages(EvalScalars(I.Scalars(x)).value)
    ensures EvalPoints(I.Points(x)).Err? ==> r == Err(EvalPoints(I.Points(x)).error)
    ensures EvalPoints(I.Points(x)).Ok? && EvalScalars(I.Scalars(x)).Err? ==> r == Err(UninstantiatedScalar)
  {
    var points :- EvalPoints(I.Points(x));
    var scalars :- EvalScalars(I.Scalars(x));
    Ok(PointMessages(points) + ScalarMessages(scalars))
  }

  /** The challenge after the shared messages and the commitment points. */
  function Challenge(proto: Protocol, oracle: Oracle, absorbed: seq<Message>, commitment: seq<Group.Point>): Group.Scalar
  {
    oracle(proto.domainLabel, absorbed + PointMessages(commitment))
  }

  /** `z_i = s_i * e + a_i`, pairing witness and blinding values by position (`zip` stops at the shorter). */
  function Responses(s: seq<Group.Scalar>, a: seq<Group.Scalar>, e: Group.Scalar): (z: seq<Group.Scalar>)
    ensures |z| == if |s| <= |a| then |s| else |a|
    ensures forall i | 0 <= i < |z| :: z[i] == Group.Add(Group.Mul(s[i], e), a[i])
  {
    var n := if |s| <= |a| then |s| else |a|;
    seq(n, (i: int) requires 0 <= i < n => Group.Add(Group.Mul(s[i], e), a[i]))
  }

  /** The blinding witness `alphas`, drawn from `rng` at `pos`. */
  function Alphas(proto: Protocol, rng: nat -> Group.Scalar, pos: nat): W.Witness
  {
    W.Rand(proto.witnessShape, rng, pos).0
  }

  /**
   * `prove`: absorb the instance, commit to `psi(alphas)`, draw the
   * challenge, answer with the responses. Fails on an unbound instance
   * value, an unbound commitment, or an unbound witness scalar, in that order.
   */
  function Prove(proto: Protocol, oracle: Oracle, w: W.Witness, x: I.Instance, rng: nat -> Group.Scalar, pos: nat)
    : (r: Result<seq<Codec.Byte>>)
    ensures r.Ok? <==> AbsorbInstance(x).Ok? && EvalPoints(proto.psi(Alphas(proto, rng, pos), x)).Ok? && W.Values(w).Ok?
    ensures AbsorbInstance(x).Err? ==> r == Err(AbsorbInstance(x).error)
    ensures AbsorbInstance(x).Ok? && EvalPoints(proto.psi(Alphas(proto, rng, pos), x)).Err?
            ==> r == Err(EvalPoints(proto.psi(Alphas(proto, rng, pos), x)).error)
    ensures AbsorbInstance(x).Ok? && EvalPoints(proto.psi(Alphas(proto, rng, pos), x)).Ok? && W.Values(w).Err?
            ==> r == Err(W.Values(w).error)
    ensures r.Ok? ==> |r.value| % Codec.WordSize == 0
  {
    var absorbed :- AbsorbInstance(x);
    var alphas := Alphas(proto, rng, pos);
    var commitment :- EvalPoints(proto.psi(alphas, x));
    var e := Challenge(proto, oracle, absorbed, commitment);
    var s :- W.Values(w);
    // the drawn witness always lists its draws
    var a := W.Values(alphas).value;
    var z := Responses(s, a, e);
    ProofWords(commitment, z);
    Ok(Codec.EncodePoints(commitment) + Codec.EncodeScalars(z))
  }

  /** A proof string is a whole number of words. */
  lemma ProofWords(commitment: seq<Group.Point>, z: seq<Group.Scalar>)
    ensures |Codec.EncodePoints(commitment) + Codec.EncodeScalars(z)| % Codec.WordSize == 0
  {
    var n := |commitment| + |z|;
    assert |Codec.EncodePoints(commitment) + Codec.EncodeScalars(z)| == Codec.WordSize * n;
    Codec.WholeWords(n);
  }

  /** The check of one output: `psi(z)_i == A_i + e * X_i`. */
  predicate Holds(bigX: Group.Point, bigA: Group.Point, output: SymPoint, e: Group.Scalar)
  {
    EvalPoint(output) == Ok(Group.PAdd(bigA, Group.Scale(e, bigX)))
  }

  /** Every check of `zip(X, A, outputs)` holds. */
  predicate AllHold(bigX: seq<Group.Point>, bigA: seq<Group.Point>, outputs: seq<SymPoint>, e: Group.Scalar)
  {
    forall i | 0 <= i < |bigX| && i < |bigA| && i < |outputs| :: Holds(bigX[i], bigA[i], outputs[i], e)
  }

  /**
   * Position `i` is the first check that fails, and `err` is what the loop
   * reports there: the evaluation error, or `EquationCheckFailed`.
   */
  predicate FirstFailure(bigX: seq<Group.Point>, bigA: seq<Group.Point>, outputs: seq<SymPoint>, e: Group.Scalar,
                         err: SigmaProofError, i: nat)
  {
    && i < |bigX| && i < |bigA| && i < |outputs|
    && (forall j | 0 <= j < i :: Holds(bigX[j], bigA[j], outputs[j], e))
    && !Holds(bigX[i], bigA[i], outputs[i], e)
    && (EvalPoint(outputs[i]).Err? ==> err == EvalPoint(outputs[i]).error)
    && (EvalPoint(outputs[i]).Ok? ==> err == EquationCheckFailed)
  }

  /** What the loop reports for the tails carries over to the whole when the first check holds. */
  lemma CheckStep(bigX: seq<Group.Point>, bigA: seq<Group.Point>, outputs: seq<SymPoint>, e: Group.Scalar, rest: Result<()>)
    requires |bigX| > 0 && |bigA| > 0 && |outputs| > 0
    requires Holds(bigX[0], bigA[0], outputs[0], e)
    requires rest.Ok? <==> AllHold(bigX[1..], bigA[1..], outputs[1..], e)
    requires rest.Err? ==> exists i :: FirstFailure(bigX[1..], bigA[1..], outputs[1..], e, rest.error, i)
    ensures rest.Ok? <==> AllHold(bigX, bigA, outputs, e)
    ensures rest.Err? ==> exists i :: FirstFailure(bigX, bigA, outputs, e, rest.error, i)
  {
    if rest.Err? {
      var i: nat :| FirstFailure(bigX[1..], bigA[1..], outputs[1..], e, rest.error, i);
      assert !Holds(bigX[i + 1], bigA[i + 1], outputs[i + 1], e);
      forall j | 0 <= j < i + 1
        ensures Holds(bigX[j], bigA[j], outputs[j], e)
      {
        if j > 0 {
          assert Holds(bigX[1..][j - 1], bigA[1..][j - 1], outputs[1..][j - 1], e);
        }
      }
      assert FirstFailure(bigX, bigA, outputs, e, rest.error, i + 1);
    } else {
      forall i | 0 <= i < |bigX| && i < |bigA| && i < |outputs|
        ensures Holds(bigX[i], bigA[i], outputs[i], e)
      {
        if i > 0 {
          assert Holds(bigX[1..][i - 1], bigA[1..][i - 1], outputs[1..][i - 1], e);
        }
      }
    }
  }

  /**
   * The final loop of `verify` over `zip(X, A, psi(z))`: evaluates each
   * output in turn; an output that does not evaluate returns its error, one
   * that differs from `A_i + e * X_i` returns `EquationCheckFailed`.
   */
  function CheckEquations(bigX: seq<Group.Point>, bigA: seq<Group.Point>, outputs: seq<SymPoint>, e: Group.Scalar)
    : (r: Result<()>)
    decreases |outputs|
    ensures r.Ok? <==> AllHold(bigX, bigA, outputs, e)
    ensures r.Err? ==> exists i :: FirstFailure(bigX, bigA, outputs, e, r.error, i)
  {
    if |bigX| == 0 || |bigA| == 0 || |outputs| == 0 then Ok(())
    else
      match EvalPoint(outputs[0])
      case Err(err) =>
        assert FirstFailure(bigX, bigA, outputs, e, err, 0);
        Err(err)
      case Ok(lhs) =>
        if lhs != Group.PAdd(bigA[0], Group.Scale(e, bigX[0])) then
          assert FirstFailure(bigX, bigA, outputs, e, EquationCheckFailed, 0);
          Err(EquationCheckFailed)
        else
          var rest := CheckEquations(bigX[1..], bigA[1..], outputs[1..], e);
          CheckStep(bigX, bigA, outputs, e, rest);
          rest
  }

  /**
   * The responses `zs` answer the challenge `e`: the generated `from_values`
   * decodes them into a witness whose `psi` has the arity of `f`, and every
   * equation holds.
   */
  predicate Answers(proto: Protocol, x: I.Instance, bigX: seq<Group.Point>, bigA: seq<Group.Point>, e: Group.Scalar,
                    zs: seq<Group.Scalar>)
  {
    && W.FromValuesAsWritten(proto.witnessShape, zs).Ok?
    && var outputs := proto.psi(W.FromValuesAsWritten(proto.witnessShape, zs).value, x);
       && |outputs| == |bigX|
       && AllHold(bigX, bigA, outputs, e)
  }

  /**
   * The part of `verify` after the challenge: every remaining word read as
   * a response, the responses decoded into a witness by the generated
   * `from_values`, the arity of `psi`
   * compared with that of `f`, and every equation checked.
   */
  function CheckResponses(proto: Protocol, x: I.Instance, bigX: seq<Group.Point>, bigA: seq<Group.Point>,
                          e: Group.Scalar, rest: seq<Codec.Byte>): (r: Result<()>)
    ensures r.Ok? <==> Codec.ReceiveAllScalars(rest).Ok? && Answers(proto, x, bigX, bigA, e, Codec.ReceiveAllScalars(rest).value)
    ensures Codec.ReceiveAllScalars(rest).Ok? && W.FromValuesAsWritten(proto.witnessShape, Codec.ReceiveAllScalars(rest).value).Err?
            ==> r == Err(W.FromValuesAsWritten(proto.witnessShape, Codec.ReceiveAllScalars(rest).value).error)
    ensures Codec.ReceiveAllScalars(rest).Err? ==> r == Err(Codec.ReceiveAllScalars(rest).error)
    ensures Codec.ReceiveAllScalars(rest).Ok? && W.FromValuesAsWritten(proto.witnessShape, Codec.ReceiveAllScalars(rest).value).Ok?
            && |proto.psi(W.FromValuesAsWritten(proto.witnessShape, Codec.ReceiveAllScalars(rest).value).value, x)| != |bigX|
            ==> r == Err(PsiOutputLengthMismatch)
  {
    var sigmas :- Codec.ReceiveAllScalars(rest);
    var z :- W.FromValuesAsWritten(proto.witnessShape, sigmas);
    var outputs := proto.psi(z, x);
    if |bigX| != |outputs| then Err(PsiOutputLengthMismatch)
    else CheckEquations(bigX, bigA, outputs, e)
  }

  /**
   * `verify`, step by step: a proof whose length is not a whole number of
   * words is refused first; then `f(X)` is evaluated, the instance
   * absorbed, `|f(X)|` commitment points read, the challenge drawn, and the
   * responses checked.
   */
  function Verify(proto: Protocol, oracle: Oracle, x: I.Instance, proof: seq<Codec.Byte>): (r: Result<()>)
    ensures |proof| % Codec.WordSize != 0 ==> r == Err(TranscriptFinalizationFailed)
    ensures |proof| % Codec.WordSize == 0 && EvalPoints(proto.f(x)).Err? ==> r == Err(EvalPoints(proto.f(x)).error)
    ensures (|proof| % Codec.WordSize == 0 && EvalPoints(proto.f(x)).Ok? && AbsorbInstance(x).Ok?
             && |proof| < Codec.WordSize * |proto.f(x)|) ==> r == Err(TranscriptError)
    ensures |proof| % Codec.WordSize == 0 && EvalPoints(proto.f(x)).Ok? && AbsorbInstance(x).Err?
            ==> r == Err(AbsorbInstance(x).error)
  {
    if |proof| % Codec.WordSize != 0 then Err(TranscriptFinalizationFailed)
    else
      var bigX :- EvalPoints(proto.f(x));
      var absorbed :- AbsorbInstance(x);
      var received :- Codec.ReceivePoints(proof, |bigX|);
      var e := Challenge(proto, oracle, absorbed, received.0);
      CheckResponses(proto, x, bigX, received.0, e, received.1)
  }

  /** Once the commitment is read, what `verify` returns is what the check of the responses returns. */
  lemma VerifyUnfold(proto: Protocol, oracle: Oracle, x: I.Instance, proof: seq<Codec.Byte>)
    requires |proof| % Codec.WordSize == 0
    requires EvalPoints(proto.f(x)).Ok? && AbsorbInstance(x).Ok?
    requires Codec.ReceivePoints(proof, |EvalPoints(proto.f(x)).value|).Ok?
    ensures
      var received := Codec.ReceivePoints(proof, |EvalPoints(proto.f(x)).value|).value;
      Verify(proto, oracle, x, proof) ==
      CheckResponses(proto, x, EvalPoints(proto.f(x)).value, received.0,
                     Challenge(proto, oracle, AbsorbInstance(x).value, received.0), received.1)
  {
  }

  /**
   * The commitment points `bigA` and responses `zs` form an accepting
   * transcript: the instance is bound, there is one commitment per output
   * of `f`, and the responses answer the challenge these messages determine.
   */
  predicate Accepting(proto: Protocol, oracle: Oracle, x: I.Instance, bigA: seq<Group.Point>, zs: seq<Group.Scalar>)
  {
    && EvalPoints(proto.f(x)).Ok?
    && AbsorbInstance(x).Ok?
    && |bigA| == |proto.f(x)|
    && Answers(proto, x, EvalPoints(proto.f(x)).value, bigA, Challenge(proto, oracle, AbsorbInstance(x).value, bigA), zs)
  }

  /** `verify` accepts only proofs that encode an accepting transcript. */
  lemma VerifySound(proto: Protocol, oracle: Oracle, x: I.Instance, proof: seq<Codec.Byte>)
    requires Verify(proto, oracle, x, proof).Ok?
    ensures exists bigA, zs :: proof == Codec.EncodePoints(bigA) + Codec.EncodeScalars(zs) && Accepting(proto, oracle, x, bigA, zs)
  {
    var bigX := EvalPoints(proto.f(x)).value;
    var received := Codec.ReceivePoints(proof, |bigX|).value;
    VerifyUnfold(proto, oracle, x, proof);
    var zs := Codec.ReceiveAllScalars(received.1).value;
    assert proof == Codec.EncodePoints(received.0) + Codec.EncodeScalars(zs);
    assert Accepting(proto, oracle, x, received.0, zs);
  }

  /**
   * On a proof that is a commitment of the right length followed by whole
   * responses, `verify` accepts exactly the accepting transcripts.
   */
  lemma VerifyEncoded(proto: Protocol, oracle: Oracle, x: I.Instance, bigA: seq<Group.Point>, zs: seq<Group.Scalar>)
    requires EvalPoints(proto.f(x)).Ok? && AbsorbInstance(x).Ok? && |bigA| == |proto.f(x)|
    ensures Verify(proto, oracle, x, Codec.EncodePoints(bigA) + Codec.EncodeScalars(zs)).Ok? <==> Accepting(proto, oracle, x, bigA, zs)
  {
    var proof := Codec.EncodePoints(bigA) + Codec.EncodeScalars(zs);
    var bigX := EvalPoints(proto.f(x)).value;
    assert |proof| % Codec.WordSize == 0 by {
      Codec.WholeWords(|bigA| + |zs|);
    }
    assert Codec.ReceivePoints(proof, |bigX|) == Ok((bigA, Codec.EncodeScalars(zs))) by {
      Codec.ReceiveRoundTrip(bigA, zs);
    }
    VerifyUnfold(proto, oracle, x, proof);
    Codec.ReceiveScalarsRoundTrip(zs);
  }

  /** `verify` accepts every proof that encodes an accepting transcript. */
  lemma VerifyComplete(proto: Protocol, oracle: Oracle, x: I.Instance, bigA: seq<Group.Point>, zs: seq<Group.Scalar>)
    requires Accepting(proto, oracle, x, bigA, zs)
    ensures Verify(proto, oracle, x, Codec.EncodePoints(bigA) + Codec.EncodeScalars(zs)) == Ok(())
  {
    VerifyEncoded(proto, oracle, x, bigA, zs);
    var r := Verify(proto, oracle, x, Codec.EncodePoints(bigA) + Codec.EncodeScalars(zs));
    assert r.value == ();
  }

  // ---- linearity and completeness ----

  /** `w1`, `w2`, `w3` are witnesses whose values are `s`, `a` and `s * e + a` position by position. */
  predicate Combination(proto: Protocol, w1: W.Witness, w2: W.Witness, w3: W.Witness, e: Group.Scalar)
  {
    && W.Conforms(w1, proto.witnessShape) && W.Conforms(w2, proto.witnessShape) && W.Conforms(w3, proto.witnessShape)
    && W.Values(w1).Ok? && W.Values(w2).Ok? && W.Values(w3).Ok?
    && W.Values(w3).value == Responses(W.Values(w1).value, W.Values(w2).value, e)
  }

  /**
   * `psi(., x)` maps such a combination to the same combination of its
   * outputs: all three evaluate, with one arity, and `psi(w3) = psi(w2) + e * psi(w1)`.
   */
  predicate LinearAt(proto: Protocol, x: I.Instance, w1: W.Witness, w2: W.Witness, w3: W.Witness, e: Group.Scalar)
  {
    Combination(proto, w1, w2, w3, e) ==>
      var o1, o2, o3 := EvalPoints(proto.psi(w1, x)), EvalPoints(proto.psi(w2, x)), EvalPoints(proto.psi(w3, x));
      && o1.Ok? && o2.Ok? && o3.Ok?
      && |o1.value| == |o2.value| == |o3.value|
      && forall i | 0 <= i < |o3.value| :: o3.value[i] == Group.PAdd(o2.value[i], Group.Scale(e, o1.value[i]))
  }

  /** `psi` is a homomorphism in the witness for the instance `x`. */
  ghost predicate Linear(proto: Protocol, x: I.Instance)
  {
    forall w1, w2, w3, e :: LinearAt(proto, x, w1, w2, w3, e)
  }

  /** The challenge the prover draws. */
  function ProverChallenge(proto: Protocol, oracle: Oracle, x: I.Instance, rng: nat -> Group.Scalar, pos: nat): Group.Scalar
    requires AbsorbInstance(x).Ok? && EvalPoints(proto.psi(Alphas(proto, rng, pos), x)).Ok?
  {
    Challenge(proto, oracle, AbsorbInstance(x).value, EvalPoints(proto.psi(Alphas(proto, rng, pos), x)).value)
  }

  /**
   * The witness whose values are the responses to `e`, when `w` is a
   * witness of the protocol. The corrected decoder always rebuilds it from
   * the responses; the generated one does exactly when the nested fields of
   * the witness struct come last.
   */
  function ResponseWitness(proto: Protocol, w: W.Witness, rng: nat -> Group.Scalar, pos: nat, e: Group.Scalar): (z: W.Witness)
    requires W.Conforms(w, proto.witnessShape) && W.Values(w).Ok?
    ensures Combination(proto, w, Alphas(proto, rng, pos), z, e)
    ensures W.FromValues(proto.witnessShape, Responses(W.Values(w).value, W.Values(Alphas(proto, rng, pos)).value, e)) == Ok(z)
    ensures W.NestedLast(proto.witnessShape) ==>
      W.FromValuesAsWritten(proto.witnessShape, Responses(W.Values(w).value, W.Values(Alphas(proto, rng, pos)).value, e)) == Ok(z)
    ensures !W.NestedLast(proto.witnessShape) ==>
      W.FromValuesAsWritten(proto.witnessShape, Responses(W.Values(w).value, W.Values(Alphas(proto, rng, pos)).value, e)).Err?
  {
    var alphas := Alphas(proto, rng, pos);
    W.ValuesLength(w, proto.witnessShape);
    W.ValuesLength(alphas, proto.witnessShape);
    var zs := Responses(W.Values(w).value, W.Values(alphas).value, e);
    W.AsWrittenExact(proto.witnessShape, zs);
    W.FromValues(proto.witnessShape, zs).value
  }

  /** For a linear `psi`, the prover's commitment and the image of the witness both evaluate. */
  lemma CommitmentEvaluates(proto: Protocol, w: W.Witness, x: I.Instance, rng: nat -> Group.Scalar, pos: nat)
    requires Linear(proto, x)
    requires W.Conforms(w, proto.witnessShape) && W.Values(w).Ok?
    ensures EvalPoints(proto.psi(w, x)).Ok?
    ensures EvalPoints(proto.psi(Alphas(proto, rng, pos), x)).Ok?
  {
    var z := ResponseWitness(proto, w, rng, pos, 0);
    assert LinearAt(proto, x, w, Alphas(proto, rng, pos), z, 0);
  }

  /** The honest proof: the commitment to `psi(alphas)`, then the responses. */
  lemma ProveUnfold(proto: Protocol, oracle: Oracle, w: W.Witness, x: I.Instance, rng: nat -> Group.Scalar, pos: nat)
    requires AbsorbInstance(x).Ok? && EvalPoints(proto.psi(Alphas(proto, rng, pos), x)).Ok? && W.Values(w).Ok?
    ensures Prove(proto, oracle, w, x, rng, pos) == Ok(
      Codec.EncodePoints(EvalPoints(proto.psi(Alphas(proto, rng, pos), x)).value)
      + Codec.EncodeScalars(Responses(W.Values(w).value, W.Values(Alphas(proto, rng, pos)).value,
                                      ProverChallenge(proto, oracle, x, rng, pos))))
  {
  }

  /**
   * What happens to an honestly computed proof for ANY witness `w`, true or
   * not: it is accepted exactly when the nested fields of the witness struct
   * come last and `e * psi(w)_i == e * X_i` for every output, where `e` is
   * the prover's challenge.
   */
  lemma HonestVerification(proto: Protocol, oracle: Oracle, w: W.Witness, x: I.Instance, rng: nat -> Group.Scalar, pos: nat)
    requires Linear(proto, x)
    requires W.Conforms(w, proto.witnessShape) && W.Values(w).Ok?
    requires AbsorbInstance(x).Ok? && EvalPoints(proto.f(x)).Ok?
    requires |proto.psi(w, x)| == |proto.f(x)|
    ensures EvalPoints(proto.psi(w, x)).Ok? && EvalPoints(proto.psi(Alphas(proto, rng, pos), x)).Ok?
    ensures Prove(proto, oracle, w, x, rng, pos).Ok?
    ensures
      var bigX := EvalPoints(proto.f(x)).value;
      var image := EvalPoints(proto.psi(w, x)).value;
      var e := ProverChallenge(proto, oracle, x, rng, pos);
      Verify(proto, oracle, x, Prove(proto, oracle, w, x, rng, pos).value).Ok? <==>
        && W.NestedLast(proto.witnessShape)
        && forall i | 0 <= i < |bigX| :: Group.Scale(e, image[i]) == Group.Scale(e, bigX[i])
  {
    HonestAccepting(proto, oracle, w, x, rng, pos);
    var alphas := Alphas(proto, rng, pos);
    var bigA := EvalPoints(proto.psi(alphas, x)).value;
    var e := ProverChallenge(proto, oracle, x, rng, pos);
    var z := Responses(W.Values(w).value, W.Values(alphas).value, e);
    ProveUnfold(proto, oracle, w, x, rng, pos);
    assert Prove(proto, oracle, w, x, rng, pos).value == Codec.EncodePoints(bigA) + Codec.EncodeScalars(z);
    VerifyEncoded(proto, oracle, x, bigA, z);
  }

  /** The honest transcript is accepting exactly under the condition above. */
  lemma HonestAccepting(proto: Protocol, oracle: Oracle, w: W.Witness, x: I.Instance, rng: nat -> Group.Scalar, pos: nat)
    requires Linear(proto, x)
    requires W.Conforms(w, proto.witnessShape) && W.Values(w).Ok?
    requires AbsorbInstance(x).Ok? && EvalPoints(proto.f(x)).Ok?
    requires |proto.psi(w, x)| == |proto.f(x)|
    ensures EvalPoints(proto.psi(w, x)).Ok? && EvalPoints(proto.psi(Alphas(proto, rng, pos), x)).Ok?
    ensures |EvalPoints(proto.psi(Alphas(proto, rng, pos), x)).value| == |proto.f(x)|
    ensures
      var alphas := Alphas(proto, rng, pos);
      var bigX := EvalPoints(proto.f(x)).value;
      var image := EvalPoints(proto.psi(w, x)).value;
      var e := ProverChallenge(proto, oracle, x, rng, pos);
      Accepting(proto, oracle, x, EvalPoints(proto.psi(alphas, x)).value, Responses(W.Values(w).value, W.Values(alphas).value, e)) <==>
        && W.NestedLast(proto.witnessShape)
        && forall i | 0 <= i < |bigX| :: Group.Scale(e, image[i]) == Group.Scale(e, bigX[i])
  {
    CommitmentEvaluates(proto, w, x, rng, pos);
    var alphas := Alphas(proto, rng, pos);
    var bigA := EvalPoints(proto.psi(alphas, x)).value;
    var e := ProverChallenge(proto, oracle, x, rng, pos);
    var z := Responses(W.Values(w).value, W.Values(alphas).value, e);
    var zw := ResponseWitness(proto, w, rng, pos, e);
    assert LinearAt(proto, x, w, alphas, zw, e);
    var bigX := EvalPoints(proto.f(x)).value;
    var image := EvalPoints(proto.psi(w, x)).value;
    var outputs := proto.psi(zw, x);
    var combined := EvalPoints(outputs).value;
    assert |outputs| == |bigX| == |bigA|;
    HoldsExactlyWhenImageMatches(bigX, bigA, outputs, image, e);
    assert Accepting(proto, oracle, x, bigA, z) <==> W.NestedLast(proto.witnessShape) && AllHold(bigX, bigA, outputs, e);
  }

  /** Checks on the outputs `A_i + e * psi(w)_i` hold exactly when `e * psi(w)_i == e * X_i`. */
  lemma HoldsExactlyWhenImageMatches(bigX: seq<Group.Point>, bigA: seq<Group.Point>, outputs: seq<SymPoint>,
                                     image: seq<Group.Point>, e: Group.Scalar)
    requires |outputs| == |bigX| == |bigA| == |image|
    requires EvalPoints(outputs).Ok? && |EvalPoints(outputs).value| == |outputs|
    requires forall i | 0 <= i < |outputs| :: EvalPoints(outputs).value[i] == Group.PAdd(bigA[i], Group.Scale(e, image[i]))
    ensures AllHold(bigX, bigA, outputs, e) <==> forall i | 0 <= i < |bigX| :: Group.Scale(e, image[i]) == Group.Scale(e, bigX[i])
  {
    var combined := EvalPoints(outputs).value;
    forall i | 0 <= i < |bigX|
      ensures Holds(bigX[i], bigA[i], outputs[i], e) <==> Group.Scale(e, image[i]) == Group.Scale(e, bigX[i])
    {
      assert EvalPoint(outputs[i]) == Ok(combined[i]);
      Group.PAddCancel(bigA[i], Group.Scale(e, image[i]), Group.Scale(e, bigX[i]));
    }
  }

  /**
   * The same in the form `e * (psi(w)_i - X_i) = 0`: an honest proof is
   * accepted exactly when the witness struct can be decoded and the
   * challenge annihilates every difference between the image of the witness
   * and the statement.
   */
  lemma HonestVerificationDifference(proto: Protocol, oracle: Oracle, w: W.Witness, x: I.Instance, rng: nat -> Group.Scalar, pos: nat)
    requires Linear(proto, x)
    requires W.Conforms(w, proto.witnessShape) && W.Values(w).Ok?
    requires AbsorbInstance(x).Ok? && EvalPoints(proto.f(x)).Ok?
    requires |proto.psi(w, x)| == |proto.f(x)|
    ensures EvalPoints(proto.psi(w, x)).Ok? && EvalPoints(proto.psi(Alphas(proto, rng, pos), x)).Ok?
    ensures Prove(proto, oracle, w, x, rng, pos).Ok?
    ensures
      var bigX := EvalPoints(proto.f(x)).value;
      var image := EvalPoints(proto.psi(w, x)).value;
      var e := ProverChallenge(proto, oracle, x, rng, pos);
      Verify(proto, oracle, x, Prove(proto, oracle, w, x, rng, pos).value).Ok? <==>
        && W.NestedLast(proto.witnessShape)
        && forall i | 0 <= i < |bigX| :: Group.Scale(e, Group.PSub(image[i], bigX[i])) == Group.Identity
  {
    HonestVerification(proto, oracle, w, x, rng, pos);
    var bigX := EvalPoints(proto.f(x)).value;
    var image := EvalPoints(proto.psi(w, x)).value;
    var e := ProverChallenge(proto, oracle, x, rng, pos);
    forall i | 0 <= i < |bigX|
      ensures Group.Scale(e, image[i]) == Group.Scale(e, bigX[i]) <==> Group.Scale(e, Group.PSub(image[i], bigX[i])) == Group.Identity
    {
      Group.ScaleEqualIffDifference(e, image[i], bigX[i]);
    }
  }

  /**
   * Completeness: if `psi` is linear in the witness and `psi(w) = f(X)`,
   * `prove` succeeds, and `verify` accepts its proof, whatever the blinding
   * values and whatever the challenge function, exactly when the nested
   * fields of the witness struct come last. For any other witness struct
   * the generated `from_values` cannot decode the responses.
   */
  lemma Completeness(proto: Protocol, oracle: Oracle, w: W.Witness, x: I.Instance, rng: nat -> Group.Scalar, pos: nat)
    requires Linear(proto, x)
    requires W.Conforms(w, proto.witnessShape) && W.Values(w).Ok?
    requires AbsorbInstance(x).Ok? && EvalPoints(proto.f(x)).Ok?
    requires EvalPoints(proto.psi(w, x)) == EvalPoints(proto.f(x))
    ensures Prove(proto, oracle, w, x, rng, pos).Ok?
    ensures Verify(proto, oracle, x, Prove(proto, oracle, w, x, rng, pos).value) == Ok(()) <==> W.NestedLast(proto.witnessShape)
  {
    HonestVerification(proto, oracle, w, x, rng, pos);
    var r := Verify(proto, oracle, x, Prove(proto, oracle, w, x, rng, pos).value);
    if r.Ok? {
      assert r.value == ();
    }
  }

  /**
   * `verify` accepts no proof at all for a protocol whose witness struct has
   * a nested field followed by a field holding scalars.
   */
  lemma VerifyNeedsNestedLast(proto: Protocol, oracle: Oracle, x: I.Instance, proof: seq<Codec.Byte>)
    ensures Verify(proto, oracle, x, proof).Ok? ==> W.NestedLast(proto.witnessShape)
  {
    if Verify(proto, oracle, x, proof).Ok? {
      VerifySound(proto, oracle, x, proof);
      var bigA, zs :| proof == Codec.EncodePoints(bigA) + Codec.EncodeScalars(zs) && Accepting(proto, oracle, x, bigA, zs);
      W.AsWrittenDecodes(proto.witnessShape, zs);
    }
  }

  /** In particular `verify` rejects every proof when the witness struct is `Outer`. */
  lemma OuterWitnessRejected(proto: Protocol, oracle: Oracle, x: I.Instance, proof: seq<Codec.Byte>)
    requires proto.witnessShape == W.OuterShape
    ensures Verify(proto, oracle, x, proof).Err?
  {
    W.OuterShapeNestedFirst();
    VerifyNeedsNestedLast(proto, oracle, x, proof);
  }

  /**
   * Prover and verifier draw the same challenge: on the honest proof the
   * verifier reads back the prover's commitment, and both have absorbed the
   * same instance messages before it.
   */
  lemma ChallengesAgree(proto: Protocol, oracle: Oracle, w: W.Witness, x: I.Instance, rng: nat -> Group.Scalar, pos: nat)
    requires Prove(proto, oracle, w, x, rng, pos).Ok?
    requires EvalPoints(proto.f(x)).Ok?
    requires |proto.psi(Alphas(proto, rng, pos), x)| == |proto.f(x)|
    ensures
      var proof := Prove(proto, oracle, w, x, rng, pos).value;
      var received := Codec.ReceivePoints(proof, |proto.f(x)|);
      && received.Ok?
      && received.value.0 == EvalPoints(proto.psi(Alphas(proto, rng, pos), x)).value
      && Challenge(proto, oracle, AbsorbInstance(x).value, received.value.0) == ProverChallenge(proto, oracle, x, rng, pos)
  {
    var alphas := Alphas(proto, rng, pos);
    var bigA := EvalPoints(proto.psi(alphas, x)).value;
    var e := ProverChallenge(proto, oracle, x, rng, pos);
    var z := Responses(W.Values(w).value, W.Values(alphas).value, e);
    assert Prove(proto, oracle, w, x, rng, pos).value == Codec.EncodePoints(bigA) + Codec.EncodeScalars(z);
    Codec.ReceiveRoundTrip(bigA, z);
  }

  /** `psi` has the arity of `f` on the witness `w`. */
  predicate ArityAgreesAt(proto: Protocol, x: I.Instance, w: W.Witness)
  {
    W.Conforms(w, proto.witnessShape) ==> |proto.psi(w, x)| == |proto.f(x)|
  }

  /** When `psi` and `f` always have the same arity, `verify` never reports `PsiOutputLengthMismatch`. */
  lemma NoArityMismatch(proto: Protocol, oracle: Oracle, x: I.Instance, proof: seq<Codec.Byte>)
    requires forall w :: ArityAgreesAt(proto, x, w)
    ensures Verify(proto, oracle, x, proof) != Err(PsiOutputLengthMismatch)
  {
    if |proof| % Codec.WordSize == 0 && EvalPoints(proto.f(x)).Ok? && AbsorbInstance(x).Ok? {
      var bigX := EvalPoints(proto.f(x)).value;
      var received := Codec.ReceivePoints(proof, |bigX|);
      if received.Ok? {
        var sigmas := Codec.ReceiveAllScalars(received.value.1);
        if sigmas.Ok? {
          var z := W.FromValuesAsWritten(proto.witnessShape, sigmas.value);
          if z.Ok? {
            assert ArityAgreesAt(proto, x, z.value);
          }
        }
      }
    }
  }
}
