/**
 * The proof string as the verifier reads it: a sequence of 32-byte words,
 * first the commitment points, then every response scalar.
 *
 * A scalar is written as its 32-byte little-endian encoding and only the
 * canonical encodings (values below the group order) are accepted back.
 * A point is written through its representation in `Group`, with the same
 * canonicity rule; this stands in for Ristretto compression, which is a
 * bijection between points and the canonical 32-byte strings it accepts.
 */
module Codec {
  import opened Errors
  import Group
  import ModArith

  type Byte = b: int | 0 <= b < 256

  /** Every scalar and every point occupies one word of this many bytes. */
  const WordSize: nat := 32

  function Pow256(n: nat): (p: nat)
    ensures p >= 1
  {
    if n == 0 then 1 else 256 * Pow256(n - 1)
  }

  /** The value of a little-endian byte string. */
  function FromLE(bs: seq<Byte>): (n: nat)
    ensures n < Pow256(|bs|)
  {
    if |bs| == 0 then 0 else bs[0] + 256 * FromLE(bs[1..])
  }

  /** The `len` little-endian bytes of `n` reduced modulo `256^len`. */
  function ToLE(n: nat, len: nat): (bs: seq<Byte>)
    ensures |bs| == len
  {
    if len == 0 then [] else [n % 256] + ToLE(n / 256, len - 1)
  }

  lemma {:induction false} FromToLE(n: nat, len: nat)
    requires n < Pow256(len)
    ensures FromLE(ToLE(n, len)) == n
  {
    if len > 0 {
      FromToLE(n / 256, len - 1);
      assert ToLE(n, len)[1..] == ToLE(n / 256, len - 1);
    }
  }

  lemma {:induction false} ToFromLE(bs: seq<Byte>)
    ensures ToLE(FromLE(bs), |bs|) == bs
  {
    if |bs| > 0 {
      var q := FromLE(bs[1..]);
      var n := bs[0] + 256 * q;
      ModArith.ModUnique(n, 256, q, bs[0]);
      assert n == (n / 256) * 256 + n % 256;
      assert n / 256 == q;
      ToFromLE(bs[1..]);
      assert bs == [bs[0]] + bs[1..];
    }
  }

  lemma {:induction false} Pow256Add(a: nat, b: nat)
    ensures Pow256(a + b) == Pow256(a) * Pow256(b)
  {
    if a > 0 {
      Pow256Add(a - 1, b);
      assert Pow256(a + b) == 256 * Pow256(a - 1 + b);
    }
  }

  /** A word is wide enough for every scalar. */
  lemma WordHoldsScalars()
    ensures Group.L < Pow256(WordSize)
  {
    assert Pow256(2) == 65536;
    Pow256Add(2, 2);
    Pow256Add(4, 4);
    Pow256Add(8, 8);
    Pow256Add(16, 16);
    assert Pow256(32) == 115792089237316195423570985008687907853269984665640564039457584007913129639936;
  }

  /** A whole number of words is a multiple of the word size. */
  lemma WholeWords(n: nat)
    ensures (WordSize * n) % WordSize == 0
  {
    ModArith.ModUnique(WordSize * n, WordSize, n, 0);
  }

  // ---- one word ----

  function EncodeScalar(s: Group.Scalar): (bs: seq<Byte>)
    ensures |bs| == WordSize
  {
    ToLE(s, WordSize)
  }

  /** Reads a word back as a scalar; a value at or above the group order is refused. */
  function DecodeScalar(bs: seq<Byte>): (r: Option<Group.Scalar>)
    requires |bs| == WordSize
    ensures r.Some? <==> FromLE(bs) < Group.L
    ensures r.Some? ==> EncodeScalar(r.value) == bs
  {
    ToFromLE(bs);
    var n := FromLE(bs);
    if n < Group.L then Some(n) else None
  }

  lemma ScalarCodec(s: Group.Scalar)
    ensures DecodeScalar(EncodeScalar(s)) == Some(s)
  {
    WordHoldsScalars();
    FromToLE(s, WordSize);
  }

  function EncodePoint(p: Group.Point): (bs: seq<Byte>)
    ensures |bs| == WordSize
  {
    EncodeScalar(p.log)
  }

  function DecodePoint(bs: seq<Byte>): (r: Option<Group.Point>)
    requires |bs| == WordSize
    ensures r.Some? <==> DecodeScalar(bs).Some?
    ensures r.Some? ==> EncodePoint(r.value) == bs
  {
    match DecodeScalar(bs)
    case None => None
    case Some(n) => Some(Group.FromLog(n))
  }

  lemma PointCodec(p: Group.Point)
    ensures DecodePoint(EncodePoint(p)) == Some(p)
  {
    ScalarCodec(p.log);
  }

  // ---- lists of words ----

  function EncodeScalars(ss: seq<Group.Scalar>): (bs: seq<Byte>)
    ensures |bs| == WordSize * |ss|
  {
    if |ss| == 0 then [] else EncodeScalar(ss[0]) + EncodeScalars(ss[1..])
  }

  function EncodePoints(ps: seq<Group.Point>): (bs: seq<Byte>)
    ensures |bs| == WordSize * |ps|
  {
    if |ps| == 0 then [] else EncodePoint(ps[0]) + EncodePoints(ps[1..])
  }

  /** Reads every word of `bs` as a scalar; fails if one is not canonical. */
  function DecodeScalars(bs: seq<Byte>): (r: Option<seq<Group.Scalar>>)
    requires |bs| % WordSize == 0
    decreases |bs|
    ensures r.Some? ==> EncodeScalars(r.value) == bs
  {
    if |bs| == 0 then Some([])
    else
      match DecodeScalar(bs[..WordSize])
      case None => None
      case Some(s) =>
        match DecodeScalars(bs[WordSize..])
        case None => None
        case Some(rest) =>
          assert ([s] + rest)[1..] == rest;
          assert bs == bs[..WordSize] + bs[WordSize..];
          Some([s] + rest)
  }

  lemma {:induction false} ScalarsCodec(ss: seq<Group.Scalar>)
    ensures DecodeScalars(EncodeScalars(ss)) == Some(ss)
  {
    if |ss| > 0 {
      var bs := EncodeScalars(ss);
      assert bs[..WordSize] == EncodeScalar(ss[0]);
      assert bs[WordSize..] == EncodeScalars(ss[1..]);
      ScalarCodec(ss[0]);
      ScalarsCodec(ss[1..]);
      assert [ss[0]] + ss[1..] == ss;
    }
  }

  /** Reads `n` words as points; fails if one is not a point encoding. */
  function DecodePoints(bs: seq<Byte>, n: nat): (r: Option<seq<Group.Point>>)
    requires |bs| == WordSize * n
    ensures r.Some? ==> |r.value| == n && EncodePoints(r.value) == bs
  {
    if n == 0 then Some([])
    else
      match DecodePoint(bs[..WordSize])
      case None => None
      case Some(p) =>
        match DecodePoints(bs[WordSize..], n - 1)
        case None => None
        case Some(rest) =>
          assert ([p] + rest)[1..] == rest;
          assert bs == bs[..WordSize] + bs[WordSize..];
          Some([p] + rest)
  }

  lemma {:induction false} PointsCodec(ps: seq<Group.Point>)
    ensures DecodePoints(EncodePoints(ps), |ps|) == Some(ps)
  {
    if |ps| > 0 {
      var bs := EncodePoints(ps);
      assert bs[..WordSize] == EncodePoint(ps[0]);
      assert bs[WordSize..] == EncodePoints(ps[1..]);
      PointCodec(ps[0]);
      PointsCodec(ps[1..]);
      assert [ps[0]] + ps[1..] == ps;
    }
  }

  // ---- the verifier's reads ----

  /**
   * `verifier_receive_points(n)`: the next `n` words as points and the
   * unread rest; too few bytes or a word that is not a point encoding is a
   * `TranscriptError`.
   */
  function ReceivePoints(proof: seq<Byte>, n: nat): (r: Result<(seq<Group.Point>, seq<Byte>)>)
    ensures |proof| < WordSize * n ==> r == Err(TranscriptError)
    ensures r.Err? ==> r.error == TranscriptError
    ensures r.Ok? ==> |r.value.0| == n && proof == EncodePoints(r.value.0) + r.value.1
  {
    if |proof| < WordSize * n then Err(TranscriptError)
    else
      assert proof == proof[..WordSize * n] + proof[WordSize * n..];
      match DecodePoints(proof[..WordSize * n], n)
      case None => Err(TranscriptError)
      case Some(ps) => Ok((ps, proof[WordSize * n..]))
  }

  /**
   * `verifier_receives_all_scalars`: every remaining word as a scalar; a
   * partial word or a non-canonical scalar is a `TranscriptError`.
   */
  function ReceiveAllScalars(rest: seq<Byte>): (r: Result<seq<Group.Scalar>>)
    ensures r.Err? ==> r.error == TranscriptError
    ensures r.Ok? ==> rest == EncodeScalars(r.value)
  {
    if |rest| % WordSize != 0 then Err(TranscriptError)
    else
      match DecodeScalars(rest)
      case None => Err(TranscriptError)
      case Some(ss) => Ok(ss)
  }

  /** What the prover writes is read back unchanged by the verifier. */
  lemma ReceiveRoundTrip(ps: seq<Group.Point>, ss: seq<Group.Scalar>)
    ensures ReceivePoints(EncodePoints(ps) + EncodeScalars(ss), |ps|) == Ok((ps, EncodeScalars(ss)))
    ensures ReceiveAllScalars(EncodeScalars(ss)) == Ok(ss)
  {
    var proof := EncodePoints(ps) + EncodeScalars(ss);
    assert proof[..WordSize * |ps|] == EncodePoints(ps);
    assert proof[WordSize * |ps|..] == EncodeScalars(ss);
    PointsCodec(ps);
    ReceiveScalarsRoundTrip(ss);
  }

  /** The responses the prover writes are read back unchanged. */
  lemma ReceiveScalarsRoundTrip(ss: seq<Group.Scalar>)
    ensures ReceiveAllScalars(EncodeScalars(ss)) == Ok(ss)
  {
    WholeWords(|ss|);
    ScalarsCodec(ss);
  }
}
