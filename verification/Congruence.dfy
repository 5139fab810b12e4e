/**
 Congruence of integers modulo a fixed positive number.

 The quotient is named instead of comparing remainders: two numbers are congruent when some multiple
 of the modulus separates them.  Sums, differences and products then follow by giving that multiple,
 and no reasoning about division is needed.  Remainders appear only where the code reduces, in the
 lemmas about reduced numbers at the end.
 */
module Congruence {

  predicate IsMultiple(a: int, b: int, p: nat, k: int) { a - b == p * k }

  /** a and b differ by a multiple of p. */
  ghost predicate Cong(p: nat, a: int, b: int) { exists k: int :: IsMultiple(a, b, p, k) }

  lemma Witness(p: nat, a: int, b: int, k: int)
    requires a - b == p * k
    ensures Cong(p, a, b)
  {
    assert IsMultiple(a, b, p, k);
  }

  lemma Refl(p: nat, a: int)
    ensures Cong(p, a, a)
  {
    Witness(p, a, a, 0);
  }

  lemma Sym(p: nat, a: int, b: int)
    requires Cong(p, a, b)
    ensures Cong(p, b, a)
  {
    var k :| IsMultiple(a, b, p, k);
    Negate(p, k);
    Witness(p, b, a, -k);
  }

  lemma Negate(p: nat, k: int)
    ensures p * (-k) == -(p * k)
  {
  }

  lemma Trans(p: nat, a: int, b: int, c: int)
    requires Cong(p, a, b) && Cong(p, b, c)
    ensures Cong(p, a, c)
  {
    var k :| IsMultiple(a, b, p, k);
    var l :| IsMultiple(b, c, p, l);
    Distribute(p, k, l);
    Witness(p, a, c, k + l);
  }

  lemma Distribute(a: int, b: int, c: int)
    ensures a * (b + c) == a * b + a * c
  {
  }

  lemma Add(p: nat, a: int, b: int, c: int, d: int)
    requires Cong(p, a, b) && Cong(p, c, d)
    ensures Cong(p, a + c, b + d)
  {
    var k :| IsMultiple(a, b, p, k);
    var l :| IsMultiple(c, d, p, l);
    Distribute(p, k, l);
    Witness(p, a + c, b + d, k + l);
  }

  lemma Sub(p: nat, a: int, b: int, c: int, d: int)
    requires Cong(p, a, b) && Cong(p, c, d)
    ensures Cong(p, a - c, b - d)
  {
    var k :| IsMultiple(a, b, p, k);
    var l :| IsMultiple(c, d, p, l);
    Distribute(p, k, -l);
    Negate(p, l);
    Witness(p, a - c, b - d, k - l);
  }

  lemma Mul(p: nat, a: int, b: int, c: int, d: int)
    requires Cong(p, a, b) && Cong(p, c, d)
    ensures Cong(p, a * c, b * d)
  {
    var k :| IsMultiple(a, b, p, k);
    var l :| IsMultiple(c, d, p, l);
    MulSplit(p, a, b, c, d, k, l);
    Witness(p, a * c, b * d, a * l + d * k);
  }

  lemma MulSplit(p: nat, a: int, b: int, c: int, d: int, k: int, l: int)
    requires a - b == p * k && c - d == p * l
    ensures a * c - b * d == p * (a * l + d * k)
  {
    assert a * c - b * d == a * (c - d) + d * (a - b);
    assert a * (p * l) == p * (a * l);
    assert d * (p * k) == p * (d * k);
    Distribute(p, a * l, d * k);
  }

  /** Reduction does not change the residue. */
  lemma Reduced(p: nat, a: int)
    requires p > 0
    ensures Cong(p, a % p, a) && Cong(p, a, a % p)
  {
    assert a == p * (a / p) + a % p;
    Witness(p, a, a % p, a / p);
    Sym(p, a, a % p);
  }

  lemma SquareCong(p: nat, a: int, b: int)
    requires Cong(p, a, b)
    ensures Cong(p, a * a, b * b)
  {
    Mul(p, a, b, a, b);
  }

  lemma ModZero(p: nat, a: int)
    requires p > 0 && Cong(p, a, 0)
    ensures a % p == 0
  {
    var k :| IsMultiple(a, 0, p, k);
    var q := a / p;
    assert a == p * q + a % p;
    Distribute(p, k, -q);
    Negate(p, q);
    SmallMultiple(p, k - q, a % p);
  }

  lemma SmallMultiple(p: nat, k: int, r: int)
    requires p * k == r && 0 <= r < p
    ensures r == 0
  {
    if k >= 1 { AtLeast(p, k); }
    if k <= -1 { Negate(p, -k); AtLeast(p, -k); }
  }

  lemma AtLeast(p: nat, k: int)
    requires k >= 1
    ensures p * k >= p
  {
    Distribute(p, k - 1, 1);
  }
}
