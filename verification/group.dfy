/** Modular-arithmetic facts used to derive the field and module laws of `Group`. */
module ModArith {

  /** Euclidean division has a unique remainder. */
  lemma ModUnique(n: int, m: int, q: int, r: int)
    requires m > 0 && 0 <= r < m && n == q * m + r
    ensures n % m == r
  {
    var d := q - n / m;
    assert n == (n / m) * m + n % m;
    assert d * m == n % m - r;
    if d > 0 {
      MulAtLeast(d, m);
    } else if d < 0 {
      MulAtLeast(-d, m);
    }
  }

  lemma MulAtLeast(d: int, m: int)
    requires d >= 1 && m > 0
    ensures d * m >= m
  {
    assert d * m == (d - 1) * m + m;
  }

  /** Adding a multiple of the modulus does not change the remainder. */
  lemma ModAddMultiple(k: int, t: int, m: int)
    requires m > 0
    ensures (k * m + t) % m == t % m
  {
    ModUnique(k * m + t, m, k + t / m, t % m);
  }

  /** Reducing a left factor first does not change the remainder of a product. */
  lemma ModMulLeft(x: int, y: int, m: int)
    requires m > 0
    ensures ((x % m) * y) % m == (x * y) % m
  {
    var q := x / m;
    assert x * y == (q * y) * m + (x % m) * y;
    ModAddMultiple(q * y, (x % m) * y, m);
  }

  /** Reducing either summand first does not change the remainder of a sum. */
  lemma ModAddLeft(x: int, y: int, m: int)
    requires m > 0
    ensures ((x % m) + y) % m == (x + y) % m
  {
    ModAddMultiple(x / m, (x % m) + y, m);
  }

  /** Multiplication distributes over addition modulo `m`. */
  lemma ModMulDistrib(a: int, b: int, c: int, m: int)
    requires m > 0
    ensures (((a + b) % m) * c) % m == ((a * c) % m + (b * c) % m) % m
  {
    ModMulLeft(a + b, c, m);
    assert (a + b) * c == a * c + b * c;
    ModAddLeft(a * c, b * c, m);
    ModAddLeft(b * c, (a * c) % m, m);
  }
}

/**
 * The prime-order group the protocols run over (the Ristretto group of
 * curve25519) together with its scalar field.
 *
 * Every cyclic group of prime order `L` is isomorphic to the additive group
 * of integers modulo `L`, so a point is represented by its discrete logarithm
 * with respect to the basepoint. Nothing in the model ever extracts that
 * logarithm: points are only added, negated, scaled and compared.
 */
module Group {
  import ModArith

  /** The order of the Ristretto group (and the modulus of its scalar field). */
  const L: int := 7237005577332262213973186563042994240857116359379907606001950938285454250989

  type Scalar = x: int | 0 <= x < L

  function Add(a: Scalar, b: Scalar): Scalar { (a + b) % L }
  function Sub(a: Scalar, b: Scalar): Scalar { (a - b) % L }
  function Neg(a: Scalar): Scalar { (L - a) % L }
  function Mul(a: Scalar, b: Scalar): Scalar { (a * b) % L }

  /** `Scalar::from(n)`: the residue of a machine integer. */
  function FromNat(n: nat): Scalar { n % L }

  datatype Point = FromLog(log: Scalar)

  /** `RISTRETTO_BASEPOINT_POINT`. */
  const Basepoint: Point := FromLog(1)

  const Identity: Point := FromLog(0)

  function PAdd(p: Point, q: Point): Point { FromLog(Add(p.log, q.log)) }
  function PSub(p: Point, q: Point): Point { FromLog(Sub(p.log, q.log)) }
  function PNeg(p: Point): Point { FromLog(Neg(p.log)) }

  /** Scalar multiplication `k * P`. */
  function Scale(k: Scalar, p: Point): Point { FromLog(Mul(k, p.log)) }

  lemma AddComm(a: Scalar, b: Scalar)
    ensures Add(a, b) == Add(b, a)
  {
  }

  lemma AddAssoc(a: Scalar, b: Scalar, c: Scalar)
    ensures Add(Add(a, b), c) == Add(a, Add(b, c))
  {
    ModArith.ModAddLeft(a + b, c, L);
    ModArith.ModAddLeft(b + c, a, L);
  }

  lemma MulComm(a: Scalar, b: Scalar)
    ensures Mul(a, b) == Mul(b, a)
  {
  }

  lemma MulAssoc(a: Scalar, b: Scalar, c: Scalar)
    ensures Mul(Mul(a, b), c) == Mul(a, Mul(b, c))
  {
    ModArith.ModMulLeft(a * b, c, L);
    ModArith.ModMulLeft(b * c, a, L);
    assert (a * b) * c == (b * c) * a;
  }

  lemma MulDistrib(a: Scalar, b: Scalar, c: Scalar)
    ensures Mul(Add(a, b), c) == Add(Mul(a, c), Mul(b, c))
  {
    var ab, ac, bc := Add(a, b), Mul(a, c), Mul(b, c);
    assert ab == (a + b) % L && ac == (a * c) % L && bc == (b * c) % L;
    ModArith.ModMulDistrib(a, b, c, L);
    assert Mul(ab, c) == (ab * c) % L;
    assert Add(ac, bc) == (ac + bc) % L;
  }

  /** Points form a commutative group under `PAdd`. */
  lemma PAddComm(p: Point, q: Point)
    ensures PAdd(p, q) == PAdd(q, p)
  {
  }

  lemma PAddAssoc(p: Point, q: Point, r: Point)
    ensures PAdd(PAdd(p, q), r) == PAdd(p, PAdd(q, r))
  {
    AddAssoc(p.log, q.log, r.log);
  }

  /** Adding the same point on the left is injective. */
  lemma PAddCancel(a: Point, p: Point, q: Point)
    ensures PAdd(a, p) == PAdd(a, q) <==> p == q
  {
    if PAdd(a, p) == PAdd(a, q) {
      var x, y := a.log + p.log, a.log + q.log;
      assert x % L == y % L;
      if x >= L {
        ModArith.ModUnique(x, L, 1, x - L);
      } else {
        ModArith.ModUnique(x, L, 0, x);
      }
      if y >= L {
        ModArith.ModUnique(y, L, 1, y - L);
      } else {
        ModArith.ModUnique(y, L, 0, y);
      }
    }
  }

  /** The identity is neutral. */
  lemma PAddIdentity(p: Point)
    ensures PAdd(p, Identity) == p
  {
  }

  /** `(P - Q) + Q == P`. */
  lemma PSubAdd(p: Point, q: Point)
    ensures PAdd(PSub(p, q), q) == p
  {
    ModArith.ModAddLeft(p.log - q.log, q.log, L);
  }

  /** `(A + B) + (C + D) == (A + C) + (B + D)`. */
  lemma PAddInterchange(a: Point, b: Point, c: Point, d: Point)
    ensures PAdd(PAdd(a, b), PAdd(c, d)) == PAdd(PAdd(a, c), PAdd(b, d))
  {
    PAddAssoc(a, b, PAdd(c, d));
    PAddAssoc(b, c, d);
    PAddComm(b, c);
    PAddAssoc(c, b, d);
    PAddAssoc(a, c, PAdd(b, d));
  }

  /** `(a + b) * P == a * P + b * P`. */
  lemma ScaleAddScalars(a: Scalar, b: Scalar, p: Point)
    ensures Scale(Add(a, b), p) == PAdd(Scale(a, p), Scale(b, p))
  {
    MulDistrib(a, b, p.log);
  }

  /** `k * (P + Q) == k * P + k * Q`. */
  lemma ScaleAddPoints(k: Scalar, p: Point, q: Point)
    ensures Scale(k, PAdd(p, q)) == PAdd(Scale(k, p), Scale(k, q))
  {
    MulComm(k, Add(p.log, q.log));
    MulDistrib(p.log, q.log, k);
    MulComm(p.log, k);
    MulComm(q.log, k);
  }

  /** `(a * b) * P == b * (a * P)`. */
  lemma ScaleMul(a: Scalar, b: Scalar, p: Point)
    ensures Scale(Mul(a, b), p) == Scale(b, Scale(a, p))
  {
    MulAssoc(a, b, p.log);
    MulComm(a, b);
    MulAssoc(b, a, p.log);
  }

  /** `1 * P == P` and `0 * P` is the identity. */
  lemma ScaleOneZero(p: Point)
    ensures Scale(1, p) == p
    ensures Scale(0, p) == Identity
  {
  }

  /** `k * (P - Q) == k * P - k * Q`. */
  lemma ScaleSubPoints(k: Scalar, p: Point, q: Point)
    ensures PAdd(Scale(k, PSub(p, q)), Scale(k, q)) == Scale(k, p)
  {
    ScaleAddPoints(k, PSub(p, q), q);
    PSubAdd(p, q);
  }

  /** `k * P == k * Q` exactly when `k * (P - Q)` is the identity. */
  lemma ScaleEqualIffDifference(k: Scalar, p: Point, q: Point)
    ensures Scale(k, p) == Scale(k, q) <==> Scale(k, PSub(p, q)) == Identity
  {
    ScaleSubPoints(k, p, q);
    PAddComm(Scale(k, PSub(p, q)), Scale(k, q));
    PAddIdentity(Scale(k, q));
    PAddCancel(Scale(k, q), Scale(k, PSub(p, q)), Identity);
  }
}
