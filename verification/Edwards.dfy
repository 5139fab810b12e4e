/**
 The twisted Edwards curve of RFC 8032 in extended coordinates, over any modulus.

 Nothing is asked of the modulus or of d, so what is proved is an identity of polynomials read as a
 congruence.  The addition formulas are split into their products; the products satisfy the curve
 equation up to a multiple of what the two points fail to satisfy, and that vanishes for points on
 the curve.  Long identities are proved one regrouping at a time.
 */
module Edwards {
  import opened Congruence

  /** x = X/Z, y = Y/Z, xy = T/Z. */
  datatype Point = Point(x: int, y: int, z: int, t: int)

  const IDENTITY := Point(0, 1, 1, 0)

  /** Section 5.1.4 of RFC 8032. */
  function AddPoints(m: nat, d: int, p: Point, q: Point): Point
    requires m > 0
  {
    var a := (p.y - p.x) * (q.y - q.x) % m;
    var b := (p.y + p.x) * (q.y + q.x) % m;
    var c := 2 * p.t * q.t * d % m;
    var dd := 2 * p.z * q.z % m;
    var e, f, g, h := b - a, dd - c, dd + c, b + a;
    Point(e * f % m, g * h % m, f * g % m, e * h % m)
  }

  /** XY = ZT, and -X^2 + Y^2 = Z^2 + d T^2. */
  ghost predicate OnCurve(m: nat, d: int, p: Point) {
    && Cong(m, p.x * p.y, p.z * p.t)
    && Cong(m, p.y * p.y - p.x * p.x, p.z * p.z + d * (p.t * p.t))
  }

  // ---------- the ring identities ----------

  lemma SquareSum(a: int, b: int)
    ensures (a + b) * (a + b) == a * a + 2 * (a * b) + b * b
    ensures (a - b) * (a - b) == a * a - 2 * (a * b) + b * b
    ensures (a + b) * (a - b) == a * a - b * b
  {
  }

  /** (x1 y2 + x2 y1)^2 and (y1 y2 + x1 x2)^2 by squares and the product x1 y1 x2 y2. */
  lemma CrossSquares(x1: int, y1: int, x2: int, y2: int)
    ensures var q := (x1 * y1) * (x2 * y2);
      var a, b := x1 * y2 + x2 * y1, y1 * y2 + x1 * x2;
      a * a == (x1 * x1) * (y2 * y2) + (x2 * x2) * (y1 * y1) + 2 * q &&
      b * b == (y1 * y1) * (y2 * y2) + (x1 * x1) * (x2 * x2) + 2 * q
  {
    SquareSum(x1 * y2, x2 * y1);
    SquareSum(y1 * y2, x1 * x2);
    Products(x1, y2, x2, y1);
    Products(y1, y2, x1, x2);
  }

  lemma Products(a: int, b: int, c: int, d: int)
    ensures (a * b) * (a * b) == (a * a) * (b * b)
    ensures (c * d) * (c * d) == (c * c) * (d * d)
    ensures (a * b) * (c * d) == (a * d) * (c * b) == (a * c) * (b * d)
  {
  }

  /** The product of the two sums of squares, by differences and products. */
  lemma AlphaBeta(a1: int, b1: int, a2: int, b2: int)
    ensures var p1, p2 := b1 - a1, b2 - a2;
      var alpha, beta := a1 * b2 + a2 * b1, b1 * b2 + a1 * a2;
      beta - alpha == p1 * p2 &&
      alpha * beta == (a1 * b1) * (p2 * p2) + (a2 * b2) * (p1 * p1) + 4 * ((a1 * b1) * (a2 * b2))
  {
    var q1, q2 := a1 * b1, a2 * b2;
    SquareSum(b1, a1);
    SquareSum(b2, a2);
    var alpha, beta := a1 * b2 + a2 * b1, b1 * b2 + a1 * a2;
    assert alpha * beta == (a1 * b2) * (b1 * b2) + (a1 * b2) * (a1 * a2) + (a2 * b1) * (b1 * b2) +
        (a2 * b1) * (a1 * a2);
    assert (a1 * b2) * (b1 * b2) == q1 * (b2 * b2);
    assert (a2 * b1) * (a1 * a2) == q1 * (a2 * a2);
    assert (a1 * b2) * (a1 * a2) == q2 * (a1 * a1);
    assert (a2 * b1) * (b1 * b2) == q2 * (b1 * b1);
    Regroup(q1, q2, b2 * b2, a2 * a2, b1 * b1, a1 * a1);
  }

  lemma Regroup(q1: int, q2: int, b2: int, a2: int, b1: int, a1: int)
    ensures q1 * b2 + q1 * a2 + q2 * a1 + q2 * b1 ==
            q1 * (b2 + a2 - 2 * q2) + q2 * (b1 + a1 - 2 * q1) + 4 * (q1 * q2)
  {
  }

  /** The curve equation of the sum, up to the factor 16. */
  function Defect(g2: int, f2: int, fg2: int, a2: int, b2: int, d: int): int {
    g2 * b2 - f2 * a2 - fg2 - d * (a2 * b2)
  }

  /** The defect after multiplying out, with u^2, w^2 and uw kept as they are. */
  lemma DefectExpanded(u2: int, v: int, w2: int, fg2: int, al: int, be: int, q: int, d: int)
    ensures Defect(u2 + 2 * v + w2, u2 - 2 * v + w2, fg2, al + 2 * q, be + 2 * q, d) ==
            (u2 + w2) * (be - al) + 2 * (v * (al + be + 4 * q)) - fg2 - d * (al * be)
            - 2 * ((d * q) * (al + be + 2 * q))
  {
    ExpandLeft(u2 + w2, v, al, be, q);
    ExpandRight(d, al, be, q);
  }

  lemma ExpandLeft(r: int, v: int, al: int, be: int, q: int)
    ensures (r + 2 * v) * (be + 2 * q) - (r - 2 * v) * (al + 2 * q) == r * (be - al) + 2 * (v * (al + be + 4 * q))
  {
    var x, y := al + 2 * q, be + 2 * q;
    assert (r + 2 * v) * y == r * y + 2 * (v * y);
    assert (r - 2 * v) * x == r * x - 2 * (v * x);
    assert r * y - r * x == r * (y - x);
    assert v * y + v * x == v * (y + x);
  }

  lemma ExpandRight(d: int, al: int, be: int, q: int)
    ensures d * ((al + 2 * q) * (be + 2 * q)) == d * (al * be) + 2 * ((d * q) * (al + be + 2 * q))
  {
    ProductShift(al, be, q);
    Spread(d, al * be, q * (al + be + 2 * q));
    Associate(d, q, al + be + 2 * q);
  }

  lemma Spread(d: int, a: int, b: int)
    ensures d * (a + 2 * b) == d * a + 2 * (d * b)
  {
  }

  lemma Associate(a: int, b: int, c: int)
    ensures a * (b * c) == (a * b) * c
  {
  }

  lemma ProductShift(al: int, be: int, q: int)
    ensures (al + 2 * q) * (be + 2 * q) == al * be + 2 * (q * (al + be + 2 * q))
  {
  }

  /** What remains vanishes when both points satisfy the curve equation exactly. */
  lemma Vanishes(z1: int, t1: int, z2: int, t2: int, d: int)
    ensures var e1, e2 := z1 + d * t1, z2 + d * t2;
      var u2, w2 := z1 * z2, (d * d) * (t1 * t2);
      (u2 + w2) * (e1 * e2) - (u2 - w2) * (u2 - w2) - d * ((z1 * t1) * (e2 * e2) + (z2 * t2) * (e1 * e1)) == 0
  {
    var s1, s2 := d * t1, d * t2;
    var e1, e2 := z1 + s1, z2 + s2;
    Absorb2(d, t1, t2);
    VanishesScaled(z1, s1, z2, s2);
    Absorb(d, z1, t1, e2 * e2);
    Absorb(d, z2, t2, e1 * e1);
    Distribute(d, (z1 * t1) * (e2 * e2), (z2 * t2) * (e1 * e1));
  }

  lemma Absorb(d: int, z: int, t: int, k: int)
    ensures d * ((z * t) * k) == (z * (d * t)) * k
  {
    Associate(d, z * t, k);
    assert d * (z * t) == z * (d * t);
  }

  lemma Absorb2(d: int, t1: int, t2: int)
    ensures (d * d) * (t1 * t2) == (d * t1) * (d * t2)
  {
  }

  /** The same with d absorbed into the second coordinate. */
  lemma VanishesScaled(z1: int, s1: int, z2: int, s2: int)
    ensures (z1 * z2 + s1 * s2) * ((z1 + s1) * (z2 + s2)) - (z1 * z2 - s1 * s2) * (z1 * z2 - s1 * s2) ==
            (z1 * s1) * ((z2 + s2) * (z2 + s2)) + (z2 * s2) * ((z1 + s1) * (z1 + s1))
  {
    var a, b, c, e := z1 * z2, s1 * s2, z1 * s2, s1 * z2;
    assert (z1 + s1) * (z2 + s2) == a + c + e + b;
    assert c * e == a * b by { Products(z1, s2, s1, z2); }
    assert (a + b) * (a + c + e + b) - (a - b) * (a - b) == (a + b) * (c + e) + 4 * (a * b);
    assert (z1 * s1) * ((z2 + s2) * (z2 + s2)) == a * e + 2 * (a * b) + b * c by { LeftTerm(z1, s1, z2, s2); }
    assert (z2 * s2) * ((z1 + s1) * (z1 + s1)) == a * c + 2 * (a * b) + b * e by { LeftTerm(z2, s2, z1, s1); }
    assert (a + b) * (c + e) == a * c + a * e + b * c + b * e;
  }

  lemma LeftTerm(z1: int, s1: int, z2: int, s2: int)
    ensures (z1 * s1) * ((z2 + s2) * (z2 + s2)) ==
            (z1 * z2) * (s1 * z2) + 2 * ((z1 * z2) * (s1 * s2)) + (s1 * s2) * (z1 * s2)
  {
    SquareSum(z2, s2);
    var k := z1 * s1;
    assert k * (z2 * z2 + 2 * (z2 * s2) + s2 * s2) == k * (z2 * z2) + 2 * (k * (z2 * s2)) + k * (s2 * s2);
    Products(z1, s1, z2, z2);
    Products(z1, s1, z2, s2);
    Products(z1, s1, s2, s2);
  }

  // ---------- congruences ----------

  /** The reduced intermediate values against the plain ones. */
  lemma SumParts(m: nat, d: int, p: Point, q: Point)
    requires m > 0
    ensures var a := (p.y - p.x) * (q.y - q.x) % m;
      var b := (p.y + p.x) * (q.y + q.x) % m;
      Cong(m, b - a, 2 * (p.x * q.y + q.x * p.y)) && Cong(m, b + a, 2 * (p.y * q.y + p.x * q.x))
    ensures var c, dd := 2 * p.t * q.t * d % m, 2 * p.z * q.z % m;
      var u, w := p.z * q.z, d * (p.t * q.t);
      Cong(m, dd - c, 2 * (u - w)) && Cong(m, dd + c, 2 * (u + w))
  {
    var s, t := (p.y - p.x) * (q.y - q.x), (p.y + p.x) * (q.y + q.x);
    CrossProducts(p.x, p.y, q.x, q.y);
    Reduced(m, s);
    Reduced(m, t);
    Sub(m, t % m, t, s % m, s);
    Add(m, t % m, t, s % m, s);
    var c, dd := 2 * p.t * q.t * d, 2 * p.z * q.z;
    DoubledProducts(p.t, q.t, d);
    DoubledProducts(p.z, q.z, 1);
    Reduced(m, c);
    Reduced(m, dd);
    Sub(m, dd % m, dd, c % m, c);
    Add(m, dd % m, dd, c % m, c);
  }

  lemma CrossProducts(x1: int, y1: int, x2: int, y2: int)
    ensures (y1 + x1) * (y2 + x2) - (y1 - x1) * (y2 - x2) == 2 * (x1 * y2 + x2 * y1)
    ensures (y1 + x1) * (y2 + x2) + (y1 - x1) * (y2 - x2) == 2 * (y1 * y2 + x1 * x2)
  {
  }

  lemma DoubledProducts(a: int, b: int, d: int)
    ensures 2 * a * b * d == 2 * (d * (a * b)) && 2 * a * b == 2 * (a * b)
  {
    assert 2 * a * b == 2 * (a * b);
    Associate(2, a * b, d);
    assert (a * b) * d == d * (a * b);
  }

  lemma DoubleSquare(m: nat, a: int, b: int)
    requires Cong(m, a, 2 * b)
    ensures Cong(m, a * a, 4 * (b * b))
  {
    SquareCong(m, a, 2 * b);
    assert (2 * b) * (2 * b) == 4 * (b * b);
  }

  lemma DefectCong(m: nat, g: int, g': int, f: int, f': int, fg: int, fg': int, a: int, a': int, b: int, b': int,
                   d: int)
    requires Cong(m, g, g') && Cong(m, f, f') && Cong(m, fg, fg') && Cong(m, a, a') && Cong(m, b, b')
    ensures Cong(m, Defect(g, f, fg, a, b, d), Defect(g', f', fg', a', b', d))
  {
    Mul(m, g, g', b, b');
    Mul(m, f, f', a, a');
    Mul(m, a, a', b, b');
    Refl(m, d);
    Mul(m, d, d, a * b, a' * b');
    Sub(m, g * b, g' * b', f * a, f' * a');
    Sub(m, g * b - f * a, g' * b' - f' * a', fg, fg');
    Sub(m, g * b - f * a - fg, g' * b' - f' * a' - fg', d * (a * b), d * (a' * b'));
  }

  lemma DefectScaled(g2: int, f2: int, fg2: int, a2: int, b2: int, d: int)
    ensures Defect(4 * g2, 4 * f2, 16 * fg2, 4 * a2, 4 * b2, d) == 16 * Defect(g2, f2, fg2, a2, b2, d)
  {
    assert (4 * g2) * (4 * b2) == 16 * (g2 * b2);
    assert (4 * f2) * (4 * a2) == 16 * (f2 * a2);
    assert (4 * a2) * (4 * b2) == 16 * (a2 * b2);
    assert d * (16 * (a2 * b2)) == 16 * (d * (a2 * b2));
  }

  /** Replacing each point's p = y^2 - x^2 and (xy)^2 by what the curve equations say. */
  lemma Replaced(m: nat, r: int, fg2: int, d: int, p1: int, e1: int, p2: int, e2: int, q1: int, k1: int, q2: int,
                 k2: int)
    requires Cong(m, p1, e1) && Cong(m, p2, e2) && Cong(m, q1, k1) && Cong(m, q2, k2)
    ensures Cong(m, r * (p1 * p2) - fg2 - d * (q1 * (p2 * p2) + q2 * (p1 * p1)),
                    r * (e1 * e2) - fg2 - d * (k1 * (e2 * e2) + k2 * (e1 * e1)))
  {
    Refl(m, r);
    Refl(m, fg2);
    Refl(m, d);
    Mul(m, p1, e1, p2, e2);
    Mul(m, r, r, p1 * p2, e1 * e2);
    SquareCong(m, p1, e1);
    SquareCong(m, p2, e2);
    Mul(m, q1, k1, p2 * p2, e2 * e2);
    Mul(m, q2, k2, p1 * p1, e1 * e1);
    Add(m, q1 * (p2 * p2), k1 * (e2 * e2), q2 * (p1 * p1), k2 * (e1 * e1));
    Mul(m, d, d, q1 * (p2 * p2) + q2 * (p1 * p1), k1 * (e2 * e2) + k2 * (e1 * e1));
    Sub(m, r * (p1 * p2), r * (e1 * e2), fg2, fg2);
    Sub(m, r * (p1 * p2) - fg2, r * (e1 * e2) - fg2,
        d * (q1 * (p2 * p2) + q2 * (p1 * p1)), d * (k1 * (e2 * e2) + k2 * (e1 * e1)));
  }

  /** With uw = d q the expanded defect loses its mixed terms. */
  lemma MixedTerms(m: nat, r: int, pp: int, v: int, al: int, be: int, q: int, fg2: int, d: int, k: int)
    requires Cong(m, v, d * q) && al * be == k + 4 * (q * q)
    ensures Cong(m, r * pp + 2 * (v * (al + be + 4 * q)) - fg2 - d * (al * be) - 2 * ((d * q) * (al + be + 2 * q)),
                    r * pp - fg2 - d * k)
  {
    var s := al + be + 4 * q;
    Refl(m, s);
    Mul(m, v, d * q, s, s);
    Add(m, v * s, (d * q) * s, v * s, (d * q) * s);
    var rest := r * pp - fg2 - d * (al * be) - 2 * ((d * q) * (al + be + 2 * q));
    Refl(m, rest);
    Add(m, v * s + v * s, (d * q) * s + (d * q) * s, rest, rest);
    Spread(d, k, 2 * (q * q));
    assert (d * q) * s - (d * q) * (al + be + 2 * q) == 2 * ((d * q) * q) by { DifferenceTwo(d * q, al + be, q); }
    Associate(d, q, q);
    assert d * (2 * (q * q)) == 2 * (d * (q * q));
  }

  lemma DifferenceTwo(c: int, a: int, q: int)
    ensures c * (a + 4 * q) - c * (a + 2 * q) == 2 * (c * q)
  {
  }

  /** The defect of the sum vanishes modulo m. */
  lemma DefectVanishes(m: nat, d: int, p: Point, q: Point)
    requires OnCurve(m, d, p) && OnCurve(m, d, q)
    ensures var u, w := p.z * q.z, d * (p.t * q.t);
      var a, b := p.x * q.y + q.x * p.y, p.y * q.y + p.x * q.x;
      Cong(m, Defect((u + w) * (u + w), (u - w) * (u - w), ((u - w) * (u + w)) * ((u - w) * (u + w)),
                     a * a, b * b, d), 0)
  {
    var u, w := p.z * q.z, d * (p.t * q.t);
    var a1, b1, a2, b2 := p.x * p.x, p.y * p.y, q.x * q.x, q.y * q.y;
    var q1, q2 := p.x * p.y, q.x * q.y;
    var al, be := a1 * b2 + a2 * b1, b1 * b2 + a1 * a2;
    var z1, t1, z2, t2 := p.z * p.z, p.t * p.t, q.z * q.z, q.t * q.t;
    var fg2 := (u * u - w * w) * (u * u - w * w);
    SquareSum(u, w);
    assert (u - w) * (u + w) == u * u - w * w;
    CrossSquares(p.x, p.y, q.x, q.y);
    DefectExpanded(u * u, u * w, w * w, fg2, al, be, q1 * q2, d);
    AlphaBeta(a1, b1, a2, b2);
    MixedProduct(m, d, p, q);
    Products(p.x, p.y, p.x, p.y);
    Products(q.x, q.y, q.x, q.y);
    Products(q1, q2, q1, q2);
    assert a1 * b1 == q1 * q1 && a2 * b2 == q2 * q2;
    var k := (q1 * q1) * ((b2 - a2) * (b2 - a2)) + (q2 * q2) * ((b1 - a1) * (b1 - a1));
    MixedTerms(m, u * u + w * w, (b1 - a1) * (b2 - a2), u * w, al, be, q1 * q2, fg2, d, k);
    ProductSquares(m, d, p);
    ProductSquares(m, d, q);
    Replaced(m, u * u + w * w, fg2, d, b1 - a1, z1 + d * t1, b2 - a2, z2 + d * t2, q1 * q1, z1 * t1, q2 * q2, z2 * t2);
    Products(p.z, q.z, p.z, q.z);
    Products(p.t, q.t, p.t, q.t);
    assert w * w == (d * d) * (t1 * t2) by { Products(d, p.t * q.t, d, p.t * q.t); }
    Vanishes(z1, t1, z2, t2, d);
    Trans(m, Defect((u + w) * (u + w), (u - w) * (u - w), fg2, al + 2 * (q1 * q2), be + 2 * (q1 * q2), d),
          (u * u + w * w) * ((b1 - a1) * (b2 - a2)) - fg2 - d * k, 0);
  }

  lemma ProductSquares(m: nat, d: int, p: Point)
    requires OnCurve(m, d, p)
    ensures Cong(m, (p.x * p.y) * (p.x * p.y), (p.z * p.z) * (p.t * p.t))
  {
    SquareCong(m, p.x * p.y, p.z * p.t);
    Products(p.z, p.t, p.z, p.t);
  }

  lemma MixedProduct(m: nat, d: int, p: Point, q: Point)
    requires OnCurve(m, d, p) && OnCurve(m, d, q)
    ensures Cong(m, (p.z * q.z) * (d * (p.t * q.t)), d * ((p.x * p.y) * (q.x * q.y)))
  {
    Mul(m, p.x * p.y, p.z * p.t, q.x * q.y, q.z * q.t);
    Refl(m, d);
    Mul(m, d, d, (p.x * p.y) * (q.x * q.y), (p.z * p.t) * (q.z * q.t));
    Products(p.z, p.t, q.z, q.t);
    assert (p.z * p.t) * (q.z * q.t) == (p.z * q.z) * (p.t * q.t);
    assert (p.z * q.z) * (d * (p.t * q.t)) == d * ((p.z * q.z) * (p.t * q.t));
    Sym(m, d * ((p.x * p.y) * (q.x * q.y)), d * ((p.z * p.t) * (q.z * q.t)));
  }

  // ---------- the addition law stays on the curve ----------

  /** The curve equations for products e f, g h, f g, e h, from a vanishing defect. */
  lemma ProductsOnCurve(m: nat, d: int, e: int, f: int, g: int, h: int)
    requires Cong(m, Defect(g * g, f * f, (f * g) * (f * g), e * e, h * h, d), 0)
    ensures OnCurve(m, d, Point(e * f, g * h, f * g, e * h))
  {
    Products(e, f, g, h);
    assert (e * f) * (g * h) == (f * g) * (e * h) by {
      Products(f, g, e, h);
      Products(e, f, g, h);
      FourProduct(e, f, g, h);
    }
    Refl(m, (e * f) * (g * h));
    Products(g, h, e, f);
    Products(e, h, e, h);
    var left, right := (g * h) * (g * h) - (e * f) * (e * f), (f * g) * (f * g) + d * ((e * h) * (e * h));
    assert (e * f) * (e * f) == (f * f) * (e * e);
    assert (e * h) * (e * h) == (e * e) * (h * h);
    assert left - right == Defect(g * g, f * f, (f * g) * (f * g), e * e, h * h, d);
    Refl(m, right);
    Add(m, left - right, 0, right, right);
  }

  lemma FourProduct(e: int, f: int, g: int, h: int)
    ensures (e * f) * (g * h) == (f * g) * (e * h)
  {
    Associate(e * f, g, h);
    Associate(f * g, e, h);
    assert (e * f) * g == (f * g) * e;
  }

  /** Reducing the coordinates keeps a point on the curve. */
  lemma ReducedOnCurve(m: nat, d: int, p: Point)
    requires m > 0 && OnCurve(m, d, p)
    ensures OnCurve(m, d, Point(p.x % m, p.y % m, p.z % m, p.t % m))
  {
    var x, y, z, t := p.x % m, p.y % m, p.z % m, p.t % m;
    Reduced(m, p.x);
    Reduced(m, p.y);
    Reduced(m, p.z);
    Reduced(m, p.t);
    Mul(m, x, p.x, y, p.y);
    Mul(m, p.z, z, p.t, t);
    Trans(m, x * y, p.x * p.y, p.z * p.t);
    Trans(m, x * y, p.z * p.t, z * t);
    SquareCong(m, x, p.x);
    SquareCong(m, y, p.y);
    SquareCong(m, p.z, z);
    SquareCong(m, p.t, t);
    Refl(m, d);
    Mul(m, d, d, p.t * p.t, t * t);
    Sub(m, y * y, p.y * p.y, x * x, p.x * p.x);
    Add(m, p.z * p.z, z * z, d * (p.t * p.t), d * (t * t));
    Trans(m, y * y - x * x, p.y * p.y - p.x * p.x, p.z * p.z + d * (p.t * p.t));
    Trans(m, y * y - x * x, p.z * p.z + d * (p.t * p.t), z * z + d * (t * t));
  }

  /** The defect of the actual intermediate values is 16 times the sum's, so it vanishes. */
  lemma ActualDefect(m: nat, d: int, e: int, f: int, g: int, h: int, a: int, b: int, u: int, w: int)
    requires Cong(m, e, 2 * a) && Cong(m, h, 2 * b) && Cong(m, f, 2 * (u - w)) && Cong(m, g, 2 * (u + w))
    requires Cong(m, Defect((u + w) * (u + w), (u - w) * (u - w), ((u - w) * (u + w)) * ((u - w) * (u + w)),
                            a * a, b * b, d), 0)
    ensures Cong(m, Defect(g * g, f * f, (f * g) * (f * g), e * e, h * h, d), 0)
  {
    var g2, f2 := (u + w) * (u + w), (u - w) * (u - w);
    var fg := (u - w) * (u + w);
    DoubleSquare(m, e, a);
    DoubleSquare(m, h, b);
    DoubleSquare(m, f, u - w);
    DoubleSquare(m, g, u + w);
    Mul(m, f, 2 * (u - w), g, 2 * (u + w));
    Quadruple(u - w, u + w);
    SquareCong(m, f * g, 4 * fg);
    assert (4 * fg) * (4 * fg) == 16 * (fg * fg);
    DefectCong(m, g * g, 4 * g2, f * f, 4 * f2, (f * g) * (f * g), 16 * (fg * fg), e * e, 4 * (a * a), h * h,
        4 * (b * b), d);
    DefectScaled(g2, f2, fg * fg, a * a, b * b, d);
    var plain := Defect(g2, f2, fg * fg, a * a, b * b, d);
    Refl(m, 16);
    Mul(m, 16, 16, plain, 0);
    Trans(m, Defect(g * g, f * f, (f * g) * (f * g), e * e, h * h, d), 16 * plain, 0);
  }

  lemma Quadruple(a: int, b: int)
    ensures (2 * a) * (2 * b) == 4 * (a * b)
  {
  }

  /** Adding two points of the curve gives a point of the curve. */
  lemma AddOnCurve(m: nat, d: int, p: Point, q: Point)
    requires m > 0 && OnCurve(m, d, p) && OnCurve(m, d, q)
    ensures OnCurve(m, d, AddPoints(m, d, p, q))
  {
    var a := (p.y - p.x) * (q.y - q.x) % m;
    var b := (p.y + p.x) * (q.y + q.x) % m;
    var c := 2 * p.t * q.t * d % m;
    var dd := 2 * p.z * q.z % m;
    var e, f, g, h := b - a, dd - c, dd + c, b + a;
    SumParts(m, d, p, q);
    DefectVanishes(m, d, p, q);
    ActualDefect(m, d, e, f, g, h, p.x * q.y + q.x * p.y, p.y * q.y + p.x * q.x, p.z * q.z, d * (p.t * q.t));
    ProductsOnCurve(m, d, e, f, g, h);
    ReducedOnCurve(m, d, Point(e * f, g * h, f * g, e * h));
  }

  lemma IdentityOnCurve(m: nat, d: int)
    ensures OnCurve(m, d, IDENTITY)
  {
    Refl(m, 0);
    Refl(m, 1);
  }

  // ---------- which point the sum is ----------

  lemma FourTimes(m: nat, e: int, a: int, f: int, b: int)
    requires m > 0 && Cong(m, e, 2 * a) && Cong(m, f, 2 * b)
    ensures Cong(m, e * f % m, 4 * (a * b))
  {
    Mul(m, e, 2 * a, f, 2 * b);
    Quadruple(a, b);
    Reduced(m, e * f);
    Trans(m, e * f % m, e * f, 4 * (a * b));
  }

  /** The coordinates of a sum, four times over. */
  lemma SumCoordinates(m: nat, d: int, p: Point, q: Point)
    requires m > 0
    ensures var r := AddPoints(m, d, p, q);
      var a, b := p.x * q.y + q.x * p.y, p.y * q.y + p.x * q.x;
      var u, w := p.z * q.z, d * (p.t * q.t);
      Cong(m, r.x, 4 * (a * (u - w))) && Cong(m, r.y, 4 * ((u + w) * b)) &&
      Cong(m, r.z, 4 * ((u - w) * (u + w))) && Cong(m, r.t, 4 * (a * b))
  {
    var a, b := p.x * q.y + q.x * p.y, p.y * q.y + p.x * q.x;
    var u, w := p.z * q.z, d * (p.t * q.t);
    var s := (p.y - p.x) * (q.y - q.x) % m;
    var t := (p.y + p.x) * (q.y + q.x) % m;
    var c, dd := 2 * p.t * q.t * d % m, 2 * p.z * q.z % m;
    SumParts(m, d, p, q);
    FourTimes(m, t - s, a, dd - c, u - w);
    FourTimes(m, dd + c, u + w, t + s, b);
    FourTimes(m, dd - c, u - w, dd + c, u + w);
    FourTimes(m, t - s, a, t + s, b);
  }

  lemma CrossTimes(m: nat, x: int, z: int, a: int, v: int, w: int)
    requires Cong(m, x, 4 * (a * v)) && Cong(m, z, 4 * (v * w))
    ensures Cong(m, x * w, a * z)
  {
    Refl(m, w);
    Refl(m, a);
    Mul(m, x, 4 * (a * v), w, w);
    Mul(m, a, a, z, 4 * (v * w));
    Sym(m, a * z, a * (4 * (v * w)));
    Associate(a, v, w);
    assert 4 * (a * v) * w == 4 * ((a * v) * w) && a * (4 * (v * w)) == 4 * (a * (v * w));
    Trans(m, x * w, 4 * (a * v) * w, a * z);
  }

  /**
   The sum is that of the curve: with x = X/Z, y = Y/Z and xy = T/Z, its x is
   (x1 y2 + x2 y1) / (1 + d x1 x2 y1 y2) and its y is (y1 y2 + x1 x2) / (1 - d x1 x2 y1 y2).
   */
  lemma AddIsCurveSum(m: nat, d: int, p: Point, q: Point)
    requires m > 0
    ensures var r := AddPoints(m, d, p, q);
      var u, w := p.z * q.z, d * (p.t * q.t);
      Cong(m, r.x * (u + w), (p.x * q.y + q.x * p.y) * r.z) &&
      Cong(m, r.y * (u - w), (p.y * q.y + p.x * q.x) * r.z)
  {
    var r := AddPoints(m, d, p, q);
    var a, b := p.x * q.y + q.x * p.y, p.y * q.y + p.x * q.x;
    var u, w := p.z * q.z, d * (p.t * q.t);
    SumCoordinates(m, d, p, q);
    CrossTimes(m, r.x, r.z, a, u - w, u + w);
    assert (u + w) * b == b * (u + w) && (u - w) * (u + w) == (u + w) * (u - w);
    CrossTimes(m, r.y, r.z, b, u + w, u - w);
  }
}
