/**
 What Ed25519 verification accepts, and that it accepts nothing else.

 For a nonce point and a key pair, the one response that verifies on a message is r + k·a modulo the
 group order, k being the hash of nonce point, public key and message; so a signature carries over to
 another message only when the two hashes agree up to the order, no second response verifies, and no
 response beyond the order does.  This rests on the base point having exactly the stated order.
 */
module SignatureLaws {
  import opened Outcomes
  import opened Congruence
  import opened Edwards
  import opened Ed25519
  import Curve25519

  /** Equal cross products are equal elements. */
  ghost predicate CrossLaw<G>(c: Curve, g: Group<G>, p: Point, q: Point)
    requires Sized(c)
  {
    Good(c, p) && Good(c, q) && PointsEqual(c, p, q) ==> g.affine(p) == g.affine(q)
  }

  ghost predicate OrderLaw<G>(c: Curve, g: Group<G>, n: nat)
    requires Sized(c)
  {
    Multiple(g, g.affine(c.base), n) == g.zero ==> n % c.l == 0
  }

  /** The theory of the curve, with an odd order that is exactly the base point's. */
  ghost predicate ExactLaws<G(!new)>(c: Curve, g: Group<G>) {
    CurveLaws(c, g) && c.l % 2 == 1 && (forall p, q :: CrossLaw(c, g, p, q)) && forall n :: OrderLaw(c, g, n)
  }

  // ---------- multiples of the base point ----------

  lemma Wraps(i: nat, j: nat, l: nat)
    requires i < j < l
    ensures (l - i + j) % l != 0
  {
    assert l < l - i + j < 2 * l;
  }

  lemma SmallMultiplesDiffer<G(!new)>(c: Curve, g: Group<G>, i: nat, j: nat)
    requires ExactLaws(c, g) && i < j < c.l
    ensures Multiple(g, g.affine(c.base), i) != Multiple(g, g.affine(c.base), j)
  {
    var b := g.affine(c.base);
    if Multiple(g, b, i) == Multiple(g, b, j) {
      MultipleSum(g, b, c.l - i, i);
      MultipleSum(g, b, c.l - i, j);
      assert c.l - i + i == c.l;
      assert OrderLaw(c, g, c.l - i + j);
      Wraps(i, j, c.l);
    }
  }

  /** Multiples of the base point are equal exactly when the factors agree up to the order. */
  lemma MultiplesEqualIff<G(!new)>(c: Curve, g: Group<G>, m: nat, n: nat)
    requires ExactLaws(c, g)
    ensures Multiple(g, g.affine(c.base), m) == Multiple(g, g.affine(c.base), n) <==> m % c.l == n % c.l
  {
    MultipleReduced(g, g.affine(c.base), m, c.l);
    MultipleReduced(g, g.affine(c.base), n, c.l);
    if m % c.l < n % c.l { SmallMultiplesDiffer(c, g, m % c.l, n % c.l); }
    if n % c.l < m % c.l { SmallMultiplesDiffer(c, g, n % c.l, m % c.l); }
  }

  // ---------- the cofactor ----------

  lemma Halved(l: int, q: int, d: int)
    requires 2 * d == l * q && l % 2 == 1
    ensures q % 2 == 0 && d == l * (q / 2)
  {
    var k, j := l / 2, q / 2;
    assert l == 2 * k + 1 && q == 2 * j + q % 2;
    assert l * q == l * (2 * j) + l * (q % 2);
    assert l * (2 * j) == 2 * (l * j);
  }

  /** An odd number that divides 8 d divides d. */
  lemma EightCancels(l: int, q: int, d: int) returns (h: int)
    requires 8 * d == l * q && l % 2 == 1
    ensures d == l * h
  {
    Halved(l, q, 4 * d);
    Halved(l, q / 2, 2 * d);
    Halved(l, q / 2 / 2, d);
    h := q / 2 / 2 / 2;
  }

  lemma Quotients(m: nat, n: nat, l: nat)
    requires l > 0 && m % l == n % l
    ensures m - n == l * (m / l - n / l)
  {
    assert m == l * (m / l) + m % l && n == l * (n / l) + n % l;
  }

  lemma SameRemainder(m: nat, n: nat, l: nat, h: int)
    requires l > 0 && m - n == l * h
    ensures m % l == n % l
  {
    var i := m / l - n / l;
    assert m == l * (m / l) + m % l && n == l * (n / l) + n % l;
    assert m % l - n % l == l * (h - i) && n % l - m % l == l * (i - h);
    if m % l >= n % l { SmallMultiple(l, h - i, m % l - n % l); } else { SmallMultiple(l, i - h, n % l - m % l); }
  }

  lemma EightfoldIff(m: nat, n: nat, l: nat)
    requires l % 2 == 1
    ensures (8 * m) % l == (8 * n) % l <==> m % l == n % l
  {
    if (8 * m) % l == (8 * n) % l {
      Quotients(8 * m, 8 * n, l);
      var h := EightCancels(l, 8 * m / l - 8 * n / l, m - n);
      SameRemainder(m, n, l, h);
    }
    if m % l == n % l {
      Quotients(m, n, l);
      assert 8 * m - 8 * n == 8 * (l * (m / l - n / l)) == l * (8 * (m / l - n / l));
      SameRemainder(8 * m, 8 * n, l, 8 * (m / l - n / l));
    }
  }

  // ---------- the equation ----------

  /** The two sides of the equation, as multiples of the base point. */
  lemma EquationSides<G(!new)>(c: Curve, g: Group<G>, s: nat, bigR: Point, bigA: Point, k: nat, r: nat, a: nat)
    requires CurveLaws(c, g) && Good(c, bigR) && Good(c, bigA)
    requires g.affine(bigR) == Multiple(g, g.affine(c.base), r) && g.affine(bigA) == Multiple(g, g.affine(c.base), a)
    ensures var left, right := Times(c, c.base, s * 8 % c.l), Plus(c, Times(c, bigR, 8), Times(c, bigA, k * 8 % c.l));
      Good(c, left) && Good(c, right) &&
      g.affine(left) == Multiple(g, g.affine(c.base), 8 * s) &&
      g.affine(right) == Multiple(g, g.affine(c.base), 8 * MulAdd(r, k, a))
  {
    var b := g.affine(c.base);
    TimesEight(c, g, c.base, s);
    TimesIsMultiple(c, g, bigR, 8);
    OrderKills(c, g, a);
    TimesEight(c, g, bigA, k);
    PlusGood(c, g, Times(c, bigR, 8), Times(c, bigA, k * 8 % c.l));
    EightFold(g, b, MulAdd(r, k, a), r, k, a);
    MultipleOf(g, b, MulAdd(r, k, a), 8);
    ProductIs(MulAdd(r, k, a), 8);
  }

  lemma EquationIff<G(!new)>(c: Curve, g: Group<G>, s: nat, bigR: Point, bigA: Point, k: nat, r: nat, a: nat)
    requires ExactLaws(c, g) && Good(c, bigR) && Good(c, bigA)
    requires g.affine(bigR) == Multiple(g, g.affine(c.base), r) && g.affine(bigA) == Multiple(g, g.affine(c.base), a)
    ensures Equation(c, s, bigR, bigA, k) <==> s % c.l == MulAdd(r, k, a) % c.l
  {
    var left, right := Times(c, c.base, s * 8 % c.l), Plus(c, Times(c, bigR, 8), Times(c, bigA, k * 8 % c.l));
    EquationSides(c, g, s, bigR, bigA, k, r, a);
    assert EqualLaw(c, g, left, right) && CrossLaw(c, g, left, right);
    MultiplesEqualIff(c, g, 8 * s, 8 * MulAdd(r, k, a));
    EightfoldIff(s, MulAdd(r, k, a), c.l);
  }

  // ---------- what verifies ----------

  /** The challenge: the hash of nonce point, public key and message, reduced by the order. */
  function Challenge(c: Curve, nonce: Bytes, publicKey: Bytes, message: Bytes): nat
    requires Sized(c)
  {
    FromLittle(c.sha512(nonce + publicKey + message)) % c.l
  }

  lemma VerifyIsEquation(c: Curve, nonce: Bytes, s: nat, message: Bytes, publicKey: Bytes, bigR: Point, bigA: Point)
    requires Sized(c) && |nonce| == 32 && |publicKey| == 32 && s < TWO_256
    requires DecodePoint(c, nonce) == Some(bigR) && DecodePoint(c, publicKey) == Some(bigA)
    ensures Verify(c, nonce + ToLittle(s, 32), message, publicKey) <==>
            s < c.l && Equation(c, s, bigR, bigA, Challenge(c, nonce, publicKey, message))
  {
    hide Equation, DecodePoint;
    var signature := nonce + ToLittle(s, 32);
    assert signature[..32] == nonce && signature[32..] == ToLittle(s, 32);
    BytesBack(s);
  }

  /**
   The nonce point [r]B with a response s verifies on a message under the key of a seed exactly when s is
   r + k a reduced by the order, k being the challenge and a the seed's scalar.
   */
  lemma VerifiesIff<G(!new)>(c: Curve, g: Group<G>, seed: Bytes, message: Bytes, r: nat, s: nat)
    requires ExactLaws(c, g) && |seed| == 32 && r < TWO_256 && s < TWO_256
    ensures var nonce, publicKey := EncodePoint(c, Times(c, c.base, r)), PublicKey(c, seed);
      Verify(c, nonce + ToLittle(s, 32), message, publicKey) <==>
      s == (r + Challenge(c, nonce, publicKey, message) * SecretScalar(c, seed)) % c.l
  {
    hide Equation, DecodePoint, EncodePoint, Times, SecretScalar, Challenge, Verify, ExactLaws, CurveLaws, MulAdd,
         ToLittle;
    LawsSized(c, g);
    var a, nonce, publicKey := SecretScalar(c, seed), EncodePoint(c, Times(c, c.base, r)), PublicKey(c, seed);
    var k := Challenge(c, nonce, publicKey, message);
    ScalarIs(c, seed);
    var bigR := DecodedPoint(c, g, r);
    var bigA := DecodedPoint(c, g, a);
    VerifyIsEquation(c, nonce, s, message, publicKey, bigR, bigA);
    EquationIff(c, g, s, bigR, bigA, k, r, a);
    ResponseIs(r, k, a, c.l, s);
  }

  lemma ResponseIs(r: nat, k: nat, a: nat, l: nat, s: nat)
    requires l > 0
    ensures s < l && s % l == MulAdd(r, k, a) % l <==> s == (r + k * a) % l
  {
    Bounded(MulAdd(r, k, a), l);
    if s < l { Below(s, l); }
    assert MulAdd(r, k, a) == r + k * a;
  }

  lemma Bounded(n: nat, l: nat)
    requires l > 0
    ensures n % l < l
  {
  }

  lemma Below(s: nat, l: nat)
    requires s < l
    ensures s % l == s
  {
  }

  /**
   The scalar of a seed: the lower half of its hash with the low three bits and the top one cleared and
   bit 254 set.
   */
  lemma ScalarIs(c: Curve, seed: Bytes)
    ensures var h, a := FromLittle(c.sha512(seed)[..32]), SecretScalar(c, seed);
      TWO_254 <= a < 2 * TWO_254 && a % 8 == 0 && a / 8 % (TWO_254 / 8) == h / 8 % (TWO_254 / 8)
  {
    hide FromLittle, Clamp;
    ClampBits(FromLittle(c.sha512(seed)[..32]));
  }

  lemma Eighth(w: nat, v: nat)
    requires v < 8
    ensures (8 * w + v) / 8 == w && (8 * w + v) % 8 == v
  {
  }

  lemma ClampBits(h: nat)
    ensures var a := Clamp(h);
      TWO_254 <= a < 2 * TWO_254 && a % 8 == 0 && a / 8 % (TWO_254 / 8) == h / 8 % (TWO_254 / 8)
  {
    var size := TWO_254 / 8;
    var x, low := h / TWO_254, h % TWO_254;
    var u := low / 8;
    assert h == 8 * (size * x + u) + low % 8;
    Eighth(size * x + u, low % 8);
    assert Clamp(h) == 8 * (size * 1 + u) + 0;
    Eighth(size * 1 + u, 0);
    SameRemainder(size * x + u, u, size, x);
    SameRemainder(size * 1 + u, u, size, 1);
  }

  /** What signing makes is the one response that verifies, for the nonce hashed from the seed and the message. */
  lemma SignIs(c: Curve, message: Bytes, seed: Bytes)
    requires Sized(c) && |seed| == 32
    ensures var prefix, publicKey := c.sha512(seed)[32..], PublicKey(c, seed);
      var r := FromLittle(c.sha512(prefix + message)) % c.l;
      var nonce := EncodePoint(c, Times(c, c.base, r));
      Sign(c, message, seed) ==
      nonce + ToLittle((r + Challenge(c, nonce, publicKey, message) * SecretScalar(c, seed)) % c.l, 32)
  {
    hide EncodePoint, Times, FromLittle, ToLittle, Clamp;
  }

  /** A signature verifies on another message exactly when the two challenges, times the scalar, agree by the order. */
  lemma CarriesOverIff<G(!new)>(c: Curve, g: Group<G>, seed: Bytes, message: Bytes, other: Bytes)
    requires ExactLaws(c, g) && |seed| == 32
    ensures var signature, publicKey := Sign(c, message, seed), PublicKey(c, seed);
      Verify(c, signature, other, publicKey) <==>
      (Challenge(c, signature[..32], publicKey, message) * SecretScalar(c, seed)) % c.l ==
      (Challenge(c, signature[..32], publicKey, other) * SecretScalar(c, seed)) % c.l
  {
    hide EncodePoint, Times, FromLittle, ToLittle, Challenge, Verify, SecretScalar, Sign, PublicKey, ExactLaws;
    LawsSized(c, g);
    var prefix, publicKey, a := c.sha512(seed)[32..], PublicKey(c, seed), SecretScalar(c, seed);
    var r := FromLittle(c.sha512(prefix + message)) % c.l;
    var nonce := EncodePoint(c, Times(c, c.base, r));
    var k, k' := Challenge(c, nonce, publicKey, message), Challenge(c, nonce, publicKey, other);
    var s := (r + k * a) % c.l;
    SignIs(c, message, seed);
    assert Sign(c, message, seed)[..32] == nonce;
    VerifiesIff(c, g, seed, other, r, s);
    ShiftedRemainders(r, k * a, k' * a, c.l);
  }

  lemma LawsSized<G(!new)>(c: Curve, g: Group<G>)
    requires ExactLaws(c, g)
    ensures Sized(c) && CurveLaws(c, g)
  {
  }

  lemma ShiftedRemainders(r: nat, x: nat, y: nat, l: nat)
    requires l > 0
    ensures (r + x) % l == (r + y) % l <==> x % l == y % l
  {
    if (r + x) % l == (r + y) % l {
      Quotients(r + x, r + y, l);
      SameRemainder(x, y, l, (r + x) / l - (r + y) / l);
    }
    if x % l == y % l {
      Quotients(x, y, l);
      SameRemainder(r + x, r + y, l, x / l - y / l);
    }
  }

  /** Of all responses to one nonce and message at most one verifies; none that reaches the order does. */
  lemma OneResponse<G(!new)>(c: Curve, g: Group<G>, seed: Bytes, message: Bytes, r: nat, s: nat, t: nat)
    requires ExactLaws(c, g) && |seed| == 32 && r < TWO_256 && s < TWO_256 && t < TWO_256
    ensures var nonce, publicKey := EncodePoint(c, Times(c, c.base, r)), PublicKey(c, seed);
      Verify(c, nonce + ToLittle(s, 32), message, publicKey) ==>
        s < c.l && (Verify(c, nonce + ToLittle(t, 32), message, publicKey) ==> t == s)
  {
    hide EncodePoint, Times, ToLittle, Challenge, Verify, SecretScalar, PublicKey, ExactLaws;
    LawsSized(c, g);
    VerifiesIff(c, g, seed, message, r, s);
    VerifiesIff(c, g, seed, message, r, t);
  }

  /** What is not two points' encodings and a response below the order never verifies. */
  lemma MalformedRejected(c: Curve, signature: Bytes, message: Bytes, publicKey: Bytes)
    requires Sized(c)
    requires |signature| != 64 || |publicKey| != 32 || FromLittle(signature[32..]) >= c.l ||
             DecodePoint(c, publicKey).None? || DecodePoint(c, signature[..32]).None?
    ensures !Verify(c, signature, message, publicKey)
  {
    hide Equation, DecodePoint, FromLittle;
  }

  /** The order of the literal curve is odd, so over it only the theory of the curve is assumed. */
  lemma SourceVerifiesIff<G(!new)>(sha512: Bytes -> Digest64, g: Group<G>, seed: Bytes, message: Bytes, r: nat, s: nat)
    requires |seed| == 32 && r < TWO_256 && s < TWO_256
    requires Sized(Curve25519.Source(sha512)) && Theory(Curve25519.Source(sha512), g)
    requires forall p, q :: CrossLaw(Curve25519.Source(sha512), g, p, q)
    requires forall n :: OrderLaw(Curve25519.Source(sha512), g, n)
    ensures var c := Curve25519.Source(sha512);
      var nonce, publicKey := EncodePoint(c, Times(c, c.base, r)), PublicKey(c, seed);
      Verify(c, nonce + ToLittle(s, 32), message, publicKey) <==>
      s == (r + Challenge(c, nonce, publicKey, message) * SecretScalar(c, seed)) % Curve25519.L
  {
    hide Theory, Verify, PublicKey, EncodePoint, Times, SecretScalar, Challenge, CrossLaw, OrderLaw;
    Curve25519.SourceFits(sha512);
    VerifiesIff(Curve25519.Source(sha512), g, seed, message, r, s);
  }
}
