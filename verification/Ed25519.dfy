/**
 Ed25519 over the Edwards formulas: scalar multiplication, signing and verification.

 The curve's constants, hash and point codings are parameters.  The hypotheses say that points stand
 for the elements of a commutative group whose sum is what the addition formulas compute, that
 decoding undoes encoding, and that the base point has the stated order.  From them the ladder is
 shown to compute multiples, and both sides of the verification equation to agree on what was signed.
 */
module Ed25519 {
  import opened Outcomes
  import opened Edwards
  import opened Base58
  import opened Positional

  type Bytes = seq<Byte>
  type Digest64 = d: Bytes | |d| == 64 witness Repeat(0, 64)

  /** The modulus, the group order, the curve constant, the base point and the hash. */
  datatype Curve = Curve(p: nat, l: nat, d: int, base: Point, sha512: Bytes -> Digest64)

  predicate Sized(c: Curve) { 8 < c.p < TWO_255 && 0 < c.l < TWO_255 }

  const TWO_254 := 0x4000000000000000000000000000000000000000000000000000000000000000
  const TWO_255 := 0x8000000000000000000000000000000000000000000000000000000000000000
  const TWO_256 := 0x1_0000000000000000000000000000000000000000000000000000000000000000

  // ---------- little-endian bytes ----------

  function FromLittle(data: seq<nat>): nat {
    if data == [] then 0 else data[0] + 256 * FromLittle(data[1..])
  }

  function ToLittle(n: nat, k: nat): (r: Bytes)
    ensures |r| == k
  {
    if k == 0 then [] else [n % 256] + ToLittle(n / 256, k - 1)
  }

  lemma {:induction false} LittleBack(n: nat, k: nat)
    requires n < Up(1, 256, k)
    ensures FromLittle(ToLittle(n, k)) == n
  {
    if k > 0 { LittleBack(n / 256, k - 1); }
  }

  // ---------- field helpers ----------

  function PowMod(b: int, e: nat, m: nat): (r: nat)
    requires m > 0
    ensures r < m
  {
    if e == 0 then 1 % m else b * PowMod(b, e - 1, m) % m
  }

  function Inverse(c: Curve, z: int): nat
    requires Sized(c)
  {
    PowMod(z, c.p - 2, c.p)
  }

  /** The x with the given y and parity, if (x, y) is on the curve. */
  function RecoverX(c: Curve, y: nat, sign: nat): Option<nat>
    requires Sized(c)
  {
    if y >= c.p then None else
    var xx := (y * y - 1) * Inverse(c, c.d * y * y + 1) % c.p;
    var root := PowMod(xx, (c.p + 3) / 8, c.p);
    var x := if (root * root - xx) % c.p != 0 then root * PowMod(2, (c.p - 1) / 4, c.p) % c.p else root;
    if (x * x - xx) % c.p != 0 then None
    else if x == 0 && sign != 0 then None
    else if x % 2 != sign then Some(c.p - x)
    else Some(x)
  }

  function EncodePoint(c: Curve, q: Point): (r: Bytes)
    requires Sized(c)
    ensures |r| == 32
  {
    var zi := Inverse(c, q.z);
    var x, y := q.x * zi % c.p, q.y * zi % c.p;
    ToLittle(y + x % 2 * TWO_255, 32)
  }

  function DecodePoint(c: Curve, data: Bytes): Option<Point>
    requires Sized(c)
  {
    if |data| != 32 then None else
    var value := FromLittle(data);
    var y := value % TWO_255;
    var x :- RecoverX(c, y, value / TWO_255);
    Some(Point(x, y, 1, x * y % c.p))
  }

  function Plus(c: Curve, p: Point, q: Point): Point
    requires Sized(c)
  {
    AddPoints(c.p, c.d, p, q)
  }

  /** Equal affine coordinates, by cross multiplication. */
  predicate PointsEqual(c: Curve, p: Point, q: Point)
    requires Sized(c)
  {
    (p.x * q.z - q.x * p.z) % c.p == 0 && (p.y * q.z - q.y * p.z) % c.p == 0
  }

  // ---------- the ladder ----------

  const LADDER_BITS: nat := 256

  /** `bits` steps of double-and-add from the low end of n. */
  function Ladder(c: Curve, result: Point, addend: Point, n: nat, bits: nat): Point
    requires Sized(c)
    decreases bits
  {
    if bits == 0 then result
    else Ladder(c, if n % 2 == 1 then Plus(c, result, addend) else result, Plus(c, addend, addend), n / 2, bits - 1)
  }

  function Times(c: Curve, p: Point, n: nat): Point
    requires Sized(c)
  {
    Ladder(c, IDENTITY, p, n, LADDER_BITS)
  }

  method Multiply(c: Curve, p: Point, scalar: nat) returns (result: Point)
    requires Sized(c)
    ensures result == Times(c, p, scalar)
  {
    result := IDENTITY;
    var addend, n := p, scalar;
    for i := 0 to LADDER_BITS
      invariant Ladder(c, result, addend, n, LADDER_BITS - i) == Times(c, p, scalar)
    {
      if n % 2 == 1 { result := Plus(c, result, addend); }
      addend := Plus(c, addend, addend);
      n := n / 2;
    }
  }

  // ---------- keys and signatures ----------

  /** Clear the low three bits and the top two, then set bit 254. */
  function Clamp(h: nat): (a: nat)
    ensures TWO_254 <= a < TWO_255 && a % 8 == 0
  {
    var low := h % TWO_254;
    low - low % 8 + TWO_254
  }

  function SecretScalar(c: Curve, seed: Bytes): nat { Clamp(FromLittle(c.sha512(seed)[..32])) }

  function PublicKey(c: Curve, seed: Bytes): (r: Bytes)
    requires Sized(c)
    ensures |r| == 32
  {
    EncodePoint(c, Times(c, c.base, SecretScalar(c, seed)))
  }

  function HashScalar(c: Curve, data: Bytes): nat
    requires Sized(c)
  {
    FromLittle(c.sha512(data)) % c.l
  }

  function MulAdd(r: nat, k: nat, a: nat): nat { r + k * a }

  function ResponseScalar(c: Curve, r: nat, k: nat, a: nat): (s: nat)
    requires Sized(c)
    ensures s < c.l
  {
    MulAdd(r, k, a) % c.l
  }

  /** The second half of signing, for a secret scalar a and a nonce r. */
  function Respond(c: Curve, message: Bytes, publicKey: Bytes, r: nat, a: nat): Bytes
    requires Sized(c)
  {
    var bigR := EncodePoint(c, Times(c, c.base, r));
    var k := HashScalar(c, bigR + publicKey + message);
    bigR + ToLittle(ResponseScalar(c, r, k, a), 32)
  }

  function Sign(c: Curve, message: Bytes, seed: Bytes): Bytes
    requires Sized(c) && |seed| == 32
  {
    var a, prefix := SecretScalar(c, seed), c.sha512(seed)[32..];
    var publicKey := EncodePoint(c, Times(c, c.base, a));
    Respond(c, message, publicKey, HashScalar(c, prefix + message), a)
  }

  /** [8][S]B == [8]R + [8][k]A, section 5.1.7 of RFC 8032. */
  predicate Equation(c: Curve, s: nat, bigR: Point, bigA: Point, k: nat)
    requires Sized(c)
  {
    PointsEqual(c, Times(c, c.base, s * 8 % c.l), Plus(c, Times(c, bigR, 8), Times(c, bigA, k * 8 % c.l)))
  }

  /** False for every malformed input. */
  predicate Verify(c: Curve, signature: Bytes, message: Bytes, publicKey: Bytes)
    requires Sized(c)
  {
    |signature| == 64 && |publicKey| == 32 &&
    var s := FromLittle(signature[32..]);
    s < c.l &&
    var bigA := DecodePoint(c, publicKey);
    bigA.Some? &&
    var bigR := DecodePoint(c, signature[..32]);
    bigR.Some? &&
    var k := HashScalar(c, signature[..32] + publicKey + message);
    Equation(c, s, bigR.value, bigA.value, k)
  }

  // ---------- the group the points stand for ----------

  /** An abelian group and the affine reading of extended coordinates in it. */
  datatype Group<!G> = Group(zero: G, plus: (G, G) -> G, affine: Point -> G)

  ghost predicate Good(c: Curve, p: Point)
    requires Sized(c)
  {
    OnCurve(c.p, c.d, p) && p.z % c.p != 0
  }

  // Each law is a predicate of its own, so that a proof names the instances it uses.

  ghost predicate Associates<G>(g: Group<G>, x: G, y: G, z: G) {
    g.plus(g.plus(x, y), z) == g.plus(x, g.plus(y, z))
  }

  ghost predicate Commutes<G>(g: Group<G>, x: G, y: G) { g.plus(x, y) == g.plus(y, x) }

  ghost predicate HasUnit<G>(g: Group<G>, x: G) { g.plus(g.zero, x) == x && g.plus(x, g.zero) == x }

  ghost predicate Abelian<G(!new)>(g: Group<G>) {
    && (forall x, y, z :: Associates(g, x, y, z))
    && (forall x, y :: Commutes(g, x, y))
    && (forall x :: HasUnit(g, x))
  }

  /** n-fold sum. */
  function Multiple<G>(g: Group<G>, x: G, n: nat): G {
    if n == 0 then g.zero else g.plus(x, Multiple(g, x, n - 1))
  }

  /** The formulas are complete and compute the group's sum. */
  ghost predicate SumLaw<G>(c: Curve, g: Group<G>, p: Point, q: Point)
    requires Sized(c)
  {
    Good(c, p) && Good(c, q) ==>
      Plus(c, p, q).z % c.p != 0 && g.affine(Plus(c, p, q)) == g.plus(g.affine(p), g.affine(q))
  }

  /** Equal readings are equal affine points. */
  ghost predicate EqualLaw<G>(c: Curve, g: Group<G>, p: Point, q: Point)
    requires Sized(c)
  {
    Good(c, p) && Good(c, q) && g.affine(p) == g.affine(q) ==> PointsEqual(c, p, q)
  }

  /** A point survives encoding and decoding. */
  ghost predicate CodecLaw<G>(c: Curve, g: Group<G>, p: Point)
    requires Sized(c)
  {
    Good(c, p) ==>
      var q := DecodePoint(c, EncodePoint(c, p));
      q.Some? && Good(c, q.value) && g.affine(q.value) == g.affine(p)
  }

  /**
   What is taken from the theory of the curve: points read as elements of an abelian group, with the
   laws above, and a base point whose order divides l.
   */
  ghost predicate Theory<G(!new)>(c: Curve, g: Group<G>)
    requires Sized(c)
  {
    && Abelian(g)
    && g.affine(IDENTITY) == g.zero
    && (forall p, q :: SumLaw(c, g, p, q))
    && (forall p, q :: EqualLaw(c, g, p, q))
    && (forall p :: CodecLaw(c, g, p))
    && Multiple(g, g.affine(c.base), c.l) == g.zero
  }

  /** The theory, and parameters it is about.  That sums stay on the curve is proved, not assumed. */
  ghost predicate CurveLaws<G(!new)>(c: Curve, g: Group<G>) { Sized(c) && Good(c, c.base) && Theory(c, g) }

  // ---------- multiples ----------

  lemma {:induction false} MultipleSum<G(!new)>(g: Group<G>, x: G, m: nat, n: nat)
    requires Abelian(g)
    ensures Multiple(g, x, m + n) == g.plus(Multiple(g, x, m), Multiple(g, x, n))
  {
    if m > 0 {
      MultipleSum(g, x, m - 1, n);
      assert Associates(g, x, Multiple(g, x, m - 1), Multiple(g, x, n));
    } else {
      assert HasUnit(g, Multiple(g, x, n));
    }
  }

  /** m * n by repeated addition, to keep the group lemmas linear. */
  function Product(m: nat, n: nat): nat { if n == 0 then 0 else m + Product(m, n - 1) }

  lemma {:induction false} ProductIs(m: nat, n: nat)
    ensures Product(m, n) == m * n
  {
    if n > 0 {
      ProductIs(m, n - 1);
      assert m * n == m + m * (n - 1);
    }
  }

  lemma {:induction false} MultipleOf<G(!new)>(g: Group<G>, x: G, m: nat, n: nat)
    requires Abelian(g)
    ensures Multiple(g, Multiple(g, x, m), n) == Multiple(g, x, Product(m, n))
    decreases n
  {
    if n > 0 {
      MultipleOf(g, x, m, n - 1);
      MultipleSum(g, x, m, Product(m, n - 1));
    }
  }

  lemma {:induction false} MultipleZero<G(!new)>(g: Group<G>, n: nat)
    requires Abelian(g)
    ensures Multiple(g, g.zero, n) == g.zero
  {
    if n > 0 {
      MultipleZero(g, n - 1);
      assert HasUnit(g, g.zero);
    }
  }

  lemma DivideBy(n: nat, l: nat)
    requires l > 0
    ensures n == Product(l, n / l) + n % l
  {
    ProductIs(l, n / l);
  }

  /** Whole multiples of the order vanish. */
  lemma MultipleWhole<G(!new)>(g: Group<G>, x: G, l: nat, q: nat, r: nat)
    requires Abelian(g) && Multiple(g, x, l) == g.zero
    ensures Multiple(g, x, Product(l, q) + r) == Multiple(g, x, r)
  {
    MultipleSum(g, x, Product(l, q), r);
    MultipleOf(g, x, l, q);
    MultipleZero(g, q);
    assert HasUnit(g, Multiple(g, x, r));
  }

  /** Scalars count modulo the order. */
  lemma MultipleReduced<G(!new)>(g: Group<G>, x: G, n: nat, l: nat)
    requires Abelian(g) && l > 0 && Multiple(g, x, l) == g.zero
    ensures Multiple(g, x, n % l) == Multiple(g, x, n)
  {
    DivideBy(n, l);
    MultipleWhole(g, x, l, n / l, n % l);
  }

  lemma DoubleMultiple<G(!new)>(g: Group<G>, x: G, h: nat)
    requires Abelian(g)
    ensures Multiple(g, g.plus(x, x), h) == Multiple(g, x, 2 * h)
  {
    assert HasUnit(g, x);
    assert Multiple(g, x, 1) == x;
    assert Multiple(g, x, 2) == g.plus(x, x);
    MultipleOf(g, x, 2, h);
    ProductIs(2, h);
  }

  // ---------- the ladder computes multiples ----------

  lemma PlusGood<G(!new)>(c: Curve, g: Group<G>, p: Point, q: Point)
    requires CurveLaws(c, g) && Good(c, p) && Good(c, q)
    ensures Good(c, Plus(c, p, q)) && g.affine(Plus(c, p, q)) == g.plus(g.affine(p), g.affine(q))
  {
    AddOnCurve(c.p, c.d, p, q);
    assert SumLaw(c, g, p, q);
  }

  lemma IdentityGood(c: Curve)
    requires Sized(c)
    ensures Good(c, IDENTITY)
  {
    IdentityOnCurve(c.p, c.d);
  }

  /** One doubling step of a scalar, in the group. */
  lemma Halve<G(!new)>(g: Group<G>, r: G, x: G, n: nat)
    requires Abelian(g)
    ensures g.plus(if n % 2 == 1 then g.plus(r, x) else r, Multiple(g, g.plus(x, x), n / 2)) ==
            g.plus(r, Multiple(g, x, n))
  {
    DoubleMultiple(g, x, n / 2);
    if n % 2 == 1 {
      assert Associates(g, r, x, Multiple(g, x, n - 1));
      assert n - 1 == 2 * (n / 2);
    } else {
      assert n == 2 * (n / 2);
    }
  }

  lemma {:induction false} LadderSum<G(!new)>(c: Curve, g: Group<G>, result: Point, addend: Point, n: nat, bits: nat)
    requires CurveLaws(c, g) && Good(c, result) && Good(c, addend) && n < Up(1, 2, bits)
    ensures var r := Ladder(c, result, addend, n, bits);
      Good(c, r) && g.affine(r) == g.plus(g.affine(result), Multiple(g, g.affine(addend), n))
    decreases bits
  {
    if bits > 0 {
      var result' := if n % 2 == 1 then Plus(c, result, addend) else result;
      if n % 2 == 1 { PlusGood(c, g, result, addend); }
      PlusGood(c, g, addend, addend);
      LadderSum(c, g, result', Plus(c, addend, addend), n / 2, bits - 1);
      Halve(g, g.affine(result), g.affine(addend), n);
    } else {
      assert HasUnit(g, g.affine(result));
    }
  }

  lemma FirstPower()
    ensures Up(1, 2, 1) == 2
  {
  }

  lemma Power256()
    ensures Up(1, 2, 256) == TWO_256
  {
    hide Up;
    FirstPower();
    UpPower(2, 1, 1);
    UpPower(2, 2, 2);
    UpPower(2, 4, 4);
    UpPower(2, 8, 8);
    UpPower(2, 16, 16);
    UpPower(2, 32, 32);
    UpPower(2, 64, 64);
    UpPower(2, 128, 128);
  }

  /** For every scalar below 2^256 the ladder returns the n-fold sum, on the curve. */
  lemma TimesIsMultiple<G(!new)>(c: Curve, g: Group<G>, p: Point, n: nat)
    requires CurveLaws(c, g) && Good(c, p) && n < TWO_256
    ensures Good(c, Times(c, p, n)) && g.affine(Times(c, p, n)) == Multiple(g, g.affine(p), n)
  {
    IdentityGood(c);
    Power256();
    LadderSum(c, g, IDENTITY, p, n, LADDER_BITS);
    assert HasUnit(g, Multiple(g, g.affine(p), n));
  }

  // ---------- signatures verify ----------

  lemma BytesBack(n: nat)
    requires n < TWO_256
    ensures FromLittle(ToLittle(n, 32)) == n
  {
    Bytes32();
    LittleBack(n, 32);
  }

  /** A decoded public point behaves like the point it was made from. */
  lemma DecodedPoint<G(!new)>(c: Curve, g: Group<G>, n: nat) returns (q: Point)
    requires CurveLaws(c, g) && n < TWO_256
    ensures DecodePoint(c, EncodePoint(c, Times(c, c.base, n))) == Some(q)
    ensures Good(c, q) && g.affine(q) == Multiple(g, g.affine(c.base), n)
  {
    TimesIsMultiple(c, g, c.base, n);
    assert CodecLaw(c, g, Times(c, c.base, n));
    q := DecodePoint(c, EncodePoint(c, Times(c, c.base, n))).value;
  }

  /** The order of the base point kills every multiple of it. */
  lemma OrderKills<G(!new)>(c: Curve, g: Group<G>, a: nat)
    requires CurveLaws(c, g)
    ensures Multiple(g, Multiple(g, g.affine(c.base), a), c.l) == g.zero
  {
    var b := g.affine(c.base);
    MultipleOf(g, b, a, c.l);
    MultipleOf(g, b, c.l, a);
    ProductIs(a, c.l);
    ProductIs(c.l, a);
    MultipleZero(g, a);
  }

  /** 8s of the base is 8r of the base plus 8k of its a-fold, when s = r + k a. */
  lemma ScalarEquation<G(!new)>(g: Group<G>, b: G, s: nat, r: nat, k: nat, a: nat, l: nat)
    requires Abelian(g) && l > 0 && Multiple(g, b, l) == g.zero && s == r + k * a
    ensures Multiple(g, Multiple(g, b, s % l), 8) ==
            g.plus(Multiple(g, Multiple(g, b, r), 8), Multiple(g, Multiple(g, b, a), 8 * k))
  {
    MultipleReduced(g, b, s, l);
    EightFold(g, b, s, r, k, a);
  }

  lemma EightFold<G(!new)>(g: Group<G>, b: G, s: nat, r: nat, k: nat, a: nat)
    requires Abelian(g) && s == r + k * a
    ensures Multiple(g, Multiple(g, b, s), 8) ==
            g.plus(Multiple(g, Multiple(g, b, r), 8), Multiple(g, Multiple(g, b, a), 8 * k))
  {
    MultipleOf(g, b, s, 8);
    MultipleOf(g, b, r, 8);
    MultipleOf(g, b, a, 8 * k);
    EightProducts(s, r, k, a);
    MultipleSum(g, b, Product(r, 8), Product(a, 8 * k));
  }

  lemma EightProducts(s: nat, r: nat, k: nat, a: nat)
    requires s == r + k * a
    ensures Product(s, 8) == Product(r, 8) + Product(a, 8 * k)
  {
    ProductIs(s, 8);
    ProductIs(r, 8);
    ProductIs(a, 8 * k);
    Regroup(a, k);
  }

  lemma Regroup(a: nat, k: nat)
    ensures a * (8 * k) == (k * a) * 8
  {
  }

  /** Scaling by 8 and reducing, as the verifier does. */
  lemma TimesEight<G(!new)>(c: Curve, g: Group<G>, p: Point, n: nat)
    requires CurveLaws(c, g) && Good(c, p) && Multiple(g, g.affine(p), c.l) == g.zero
    ensures var q := Times(c, p, n * 8 % c.l);
      Good(c, q) && g.affine(q) == Multiple(g, g.affine(p), 8 * n)
  {
    TimesIsMultiple(c, g, p, n * 8 % c.l);
    MultipleReduced(g, g.affine(p), n * 8, c.l);
  }

  /** Both sides of the verification equation read as the same group element. */
  lemma EquationHolds<G(!new)>(c: Curve, g: Group<G>, bigR: Point, bigA: Point, sum: nat, r: nat, k: nat, a: nat)
    requires CurveLaws(c, g) && Good(c, bigR) && Good(c, bigA) && sum == MulAdd(r, k, a)
    requires g.affine(bigR) == Multiple(g, g.affine(c.base), r)
    requires g.affine(bigA) == Multiple(g, g.affine(c.base), a)
    ensures Equation(c, sum % c.l, bigR, bigA, k)
  {
    var b := g.affine(c.base);
    var s := sum % c.l;
    TimesEight(c, g, c.base, s);
    TimesIsMultiple(c, g, bigR, 8);
    OrderKills(c, g, a);
    TimesEight(c, g, bigA, k);
    PlusGood(c, g, Times(c, bigR, 8), Times(c, bigA, k * 8 % c.l));
    MultipleOf(g, b, s, 8);
    ProductIs(s, 8);
    ScalarEquation(g, b, sum, r, k, a, c.l);
    assert EqualLaw(c, g, Times(c, c.base, s * 8 % c.l), Plus(c, Times(c, bigR, 8), Times(c, bigA, k * 8 % c.l)));
  }

  lemma VerifyParts(c: Curve, rBytes: Bytes, s: nat, message: Bytes, publicKey: Bytes, bigR: Point, bigA: Point)
    requires Sized(c) && |rBytes| == 32 && |publicKey| == 32 && s < c.l
    requires DecodePoint(c, rBytes) == Some(bigR) && DecodePoint(c, publicKey) == Some(bigA)
    requires Equation(c, s, bigR, bigA, HashScalar(c, rBytes + publicKey + message))
    ensures Verify(c, rBytes + ToLittle(s, 32), message, publicKey)
  {
    var signature := rBytes + ToLittle(s, 32);
    assert signature[..32] == rBytes && signature[32..] == ToLittle(s, 32);
    BytesBack(s);
  }

  /** The decoded points of a response, and the equation between them. */
  lemma ResponseEquation<G(!new)>(c: Curve, g: Group<G>, r: nat, k: nat, a: nat) returns (bigR: Point, bigA: Point)
    requires CurveLaws(c, g) && r < TWO_256 && a < TWO_256
    ensures DecodePoint(c, EncodePoint(c, Times(c, c.base, r))) == Some(bigR)
    ensures DecodePoint(c, EncodePoint(c, Times(c, c.base, a))) == Some(bigA)
    ensures Equation(c, ResponseScalar(c, r, k, a), bigR, bigA, k)
  {
    bigR := DecodedPoint(c, g, r);
    bigA := DecodedPoint(c, g, a);
    EquationHolds(c, g, bigR, bigA, MulAdd(r, k, a), r, k, a);
  }

  lemma ResponseVerifies<G(!new)>(c: Curve, g: Group<G>, message: Bytes, r: nat, a: nat)
    requires CurveLaws(c, g) && r < TWO_256 && a < TWO_256
    ensures var publicKey := EncodePoint(c, Times(c, c.base, a));
      Verify(c, Respond(c, message, publicKey, r, a), message, publicKey)
  {
    var publicKey := EncodePoint(c, Times(c, c.base, a));
    var rBytes := EncodePoint(c, Times(c, c.base, r));
    var k := HashScalar(c, rBytes + publicKey + message);
    var bigR, bigA := ResponseEquation(c, g, r, k, a);
    VerifyParts(c, rBytes, ResponseScalar(c, r, k, a), message, publicKey, bigR, bigA);
  }

  /** Every signature verifies under the signer's public key. */
  lemma SignVerifies<G(!new)>(c: Curve, g: Group<G>, message: Bytes, seed: Bytes)
    requires CurveLaws(c, g) && |seed| == 32
    ensures Verify(c, Sign(c, message, seed), message, PublicKey(c, seed))
  {
    var r := HashScalar(c, c.sha512(seed)[32..] + message);
    ResponseVerifies(c, g, message, r, SecretScalar(c, seed));
  }
}
