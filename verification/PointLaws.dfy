/**
 What a 32-byte text of a point means.

 Decoding takes y from the lower 255 bits and the parity of x from the top one, refuses y out of range
 and the sign of a zero x, and gives a point of the curve; and the text is the only one the point has,
 for encoding what was decoded gives the same bytes back.
 */
module PointLaws {
  import opened Congruence
  import opened Ed25519
  import Edwards
  import opened Positional

  // ---------- bytes ----------

  lemma LowByte(low: nat, high: nat)
    requires low < 256
    ensures (low + 256 * high) % 256 == low && (low + 256 * high) / 256 == high
  {
  }

  lemma {:induction false} LittleForth(data: Bytes)
    ensures ToLittle(FromLittle(data), |data|) == data
  {
    if data != [] {
      LittleForth(data[1..]);
      LowByte(data[0], FromLittle(data[1..]));
      assert data == [data[0]] + data[1..];
    }
  }

  lemma {:induction false} LittleBelow(data: Bytes)
    ensures FromLittle(data) < Up(1, 256, |data|)
  {
    if data != [] { LittleBelow(data[1..]); }
  }

  // ---------- coordinates ----------

  lemma {:induction false} PowerOfOne(e: nat, m: nat)
    requires m > 1
    ensures PowMod(1, e, m) == 1
  {
    if e > 0 { PowerOfOne(e - 1, m); }
  }

  lemma Odd(p: int, x: int)
    requires p % 2 == 1
    ensures (p - x) % 2 != x % 2
  {
  }

  /** The x that is recovered: in range, of the asked parity, and a root of the quotient the code forms. */
  lemma RecoveredIs(c: Curve, y: nat, sign: nat)
    requires Sized(c) && c.p % 2 == 1 && sign < 2 && RecoverX(c, y, sign).Some?
    ensures var x := RecoverX(c, y, sign).value;
      0 <= x < c.p && x % 2 == sign && y < c.p &&
      Cong(c.p, x * x, (y * y - 1) * Inverse(c, c.d * y * y + 1))
  {
    hide PowMod, Inverse;
    var q := (y * y - 1) * Inverse(c, c.d * y * y + 1);
    var xx := q % c.p;
    var root := PowMod(xx, (c.p + 3) / 8, c.p);
    var x := if (root * root - xx) % c.p != 0 then root * PowMod(2, (c.p - 1) / 4, c.p) % c.p else root;
    Rooted(c.p, x, q);
    Odd(c.p, x);
    if x % 2 != sign { OtherRoot(c.p, x, q); }
  }

  lemma Rooted(p: nat, x: int, q: int)
    requires p > 0 && (x * x - q % p) % p == 0
    ensures Cong(p, x * x, q)
  {
    var k := (x * x - q % p) / p;
    assert x * x - q % p == p * k;
    Witness(p, x * x, q % p, k);
    Reduced(p, q);
    Trans(p, x * x, q % p, q);
  }

  lemma OtherRoot(p: nat, x: int, q: int)
    requires Cong(p, x * x, q)
    ensures Cong(p, (p - x) * (p - x), q)
  {
    assert (p - x) * (p - x) - x * x == p * (p - 2 * x);
    Witness(p, (p - x) * (p - x), x * x, p - 2 * x);
    Trans(p, (p - x) * (p - x), x * x, q);
  }

  /** Raising to p - 2 inverts this number. */
  predicate Invertible(c: Curve, z: int)
    requires Sized(c)
  {
    (z * Inverse(c, z)) % c.p == 1
  }

  lemma QuotientOnCurve(c: Curve, x: int, y: nat)
    requires Sized(c) && Cong(c.p, x * x, (y * y - 1) * Inverse(c, c.d * y * y + 1))
    requires Invertible(c, c.d * y * y + 1)
    ensures Cong(c.p, x * x * (c.d * y * y + 1), y * y - 1)
  {
    hide Inverse;
    var z, i, n := c.d * y * y + 1, Inverse(c, c.d * y * y + 1), y * y - 1;
    Refl(c.p, z);
    Mul(c.p, x * x, n * i, z, z);
    Reduced(c.p, z * i);
    Refl(c.p, n);
    Mul(c.p, n, n, z * i, 1);
    Regrouped(n, i, z);
    assert n * 1 == n;
    Trans(c.p, x * x * z, n * i * z, n);
  }

  lemma Regrouped(n: int, i: int, z: int)
    ensures n * i * z == n * (z * i)
  {
    assert n * i * z == n * (i * z);
  }

  /** A decoded point: y and the parity of x are read off the bytes, and it is on the curve. */
  lemma DecodedIs(c: Curve, data: Bytes)
    requires Sized(c) && c.p % 2 == 1 && DecodePoint(c, data).Some?
    ensures |data| == 32
    ensures var q := DecodePoint(c, data).value;
      q.z == 1 && 0 <= q.x < c.p && 0 <= q.y < c.p && q.t == q.x * q.y % c.p &&
      FromLittle(data) == q.y + q.x % 2 * TWO_255 &&
      (Invertible(c, c.d * q.y * q.y + 1) ==> Cong(c.p, q.x * q.x * (c.d * q.y * q.y + 1), q.y * q.y - 1))
  {
    hide RecoverX, Inverse, FromLittle;
    var value := FromLittle(data);
    Bytes32();
    LittleBelow(data);
    assert value < TWO_256;
    var y, sign := value % TWO_255, value / TWO_255;
    assert sign < 2;
    RecoveredIs(c, y, sign);
    var x := RecoverX(c, y, sign).value;
    if Invertible(c, c.d * y * y + 1) { QuotientOnCurve(c, x, y); }
  }

  /** The bytes a point was decoded from are the bytes it encodes to. */
  lemma EncodeDecoded(c: Curve, data: Bytes)
    requires Sized(c) && c.p % 2 == 1 && DecodePoint(c, data).Some?
    ensures EncodePoint(c, DecodePoint(c, data).value) == data
  {
    hide DecodePoint, FromLittle, ToLittle, PowMod;
    DecodedIs(c, data);
    var q := DecodePoint(c, data).value;
    PowerOfOne(c.p - 2, c.p);
    Below(q.x, c.p);
    Below(q.y, c.p);
    LittleForth(data);
  }

  lemma Below(n: int, p: nat)
    requires 0 <= n < p
    ensures n * 1 % p == n
  {
  }

  // ---------- equality ----------

  /** Factors that multiples of the modulus can be relieved of, as a nonzero one can where it is prime. */
  ghost predicate Cancels(m: nat, z: int) { forall k :: Cong(m, k * z, 0) ==> Cong(m, k, 0) }

  /** Cross products of the fractions x / z and y / w, of values a and b, agree exactly when a and b do. */
  lemma CrossIff(m: nat, x: int, z: int, y: int, w: int, a: int, b: int)
    requires m > 0 && Cong(m, a * z, x) && Cong(m, b * w, y) && Cancels(m, z * w)
    ensures (x * w - y * z) % m == 0 <==> Cong(m, a, b)
  {
    Refl(m, w);
    Refl(m, z);
    Mul(m, a * z, x, w, w);
    Mul(m, b * w, y, z, z);
    Sub(m, a * z * w, x * w, b * w * z, y * z);
    Common(a, b, z, w);
    if (x * w - y * z) % m == 0 {
      Reduced(m, x * w - y * z);
      Trans(m, (a - b) * (z * w), x * w - y * z, 0);
      var k :| IsMultiple(a - b, 0, m, k);
      Witness(m, a, b, k);
    }
    if Cong(m, a, b) {
      Refl(m, b);
      Sub(m, a, b, b, b);
      Refl(m, z * w);
      Mul(m, a - b, 0, z * w, z * w);
      Sym(m, (a - b) * (z * w), x * w - y * z);
      Trans(m, x * w - y * z, (a - b) * (z * w), 0);
      ModZero(m, x * w - y * z);
    }
  }

  lemma Common(a: int, b: int, z: int, w: int)
    ensures a * z * w - b * w * z == (a - b) * (z * w)
  {
  }

  /** Points are equal to the program exactly when their affine coordinates (x, y) and (v, w) agree. */
  lemma EqualIff(c: Curve, p: Edwards.Point, q: Edwards.Point, x: int, y: int, v: int, w: int)
    requires Sized(c) && Cancels(c.p, p.z * q.z)
    requires Cong(c.p, x * p.z, p.x) && Cong(c.p, y * p.z, p.y)
    requires Cong(c.p, v * q.z, q.x) && Cong(c.p, w * q.z, q.y)
    ensures PointsEqual(c, p, q) <==> Cong(c.p, x, v) && Cong(c.p, y, w)
  {
    CrossIff(c.p, p.x, p.z, q.x, q.z, x, v);
    CrossIff(c.p, p.y, p.z, q.y, q.z, y, w);
  }
}
