/** The Ed25519 parameters of RFC 8032, section 5.1, as literal numbers, and signatures over that curve. */
module Curve25519 {
  import opened Congruence
  import opened Edwards
  import opened Ed25519

  /** 2^255 - 19. */
  const P: nat := 57896044618658097711785492504343953926634992332820282019728792003956564819949

  /** The order of the base point. */
  const L: nat := 7237005577332262213973186563042994240857116359379907606001950938285454250989

  /** -121665/121666 modulo P. */
  const D: int := 37095705934669439343138083508754565189542113879843219016388785533085940283555

  const BASE_X: int := 15112221349535400772501151409588531511454012693041857206046113283949847762202
  const BASE_Y: int := 46316835694926478169428394003475163141307993866256225615783033603165251855960
  const BASE: Point := Point(BASE_X, BASE_Y, 1,
      46827403850823179245072216630277197565144205554125654976674165829533817101731)

  /** D and the base point solve the equations the source solves by inversion, and the point is on the curve. */
  lemma ParametersAgree()
    ensures (121666 * D + 121665) % P == 0
    ensures (5 * BASE_Y - 4) % P == 0 && BASE_X % 2 == 0
    ensures OnCurve(P, D, BASE) && BASE.z == 1
  {
    assert 121666 * D + 121665 == P * 77955;
    assert 5 * BASE_Y - 4 == P * 4;
    Witness(P, BASE.x * BASE.y, BASE.z * BASE.t,
        12089777079628320618000921127670825209163210154433485764836890627159878209761);
    Witness(P, BASE.y * BASE.y - BASE.x * BASE.x, BASE.z * BASE.z + D * (BASE.t * BASE.t),
        -1404995416558591703935402335071871497660573215803886088007472604973677187509378205875315662149191623813929323558907999434574481479439670300926143553417440);
  }

  /** Raising to P - 2 inverts a: Fermat's theorem for this a. */
  predicate Inverts(a: nat) { a * PowMod(a, P - 2, P) % P == 1 }

  /** The one solution of a linear congruence, by way of an inverse. */
  lemma QuotientIs(a: int, num: int, x: int, inv: int)
    requires (a * x - num) % P == 0 && a * inv % P == 1 && 0 <= x < P
    ensures x == num * inv % P
  {
    var k, j := (a * x - num) / P, a * inv / P;
    assert a * x == num + P * k && a * inv == 1 + P * j;
    CrossMultiply(a, num, x, inv, k, j);
    SameRemainder(num * inv, x, k * inv - x * j);
  }

  lemma CrossMultiply(a: int, num: int, x: int, inv: int, k: int, j: int)
    requires a * x == num + P * k && a * inv == 1 + P * j
    ensures x - num * inv == P * (k * inv - x * j)
  {
    assert (a * x) * inv == num * inv + P * (k * inv);
    assert x * (a * inv) == x + P * (x * j);
    assert (a * x) * inv == x * (a * inv);
  }

  lemma SameRemainder(m: int, x: int, k: int)
    requires x - m == P * k && 0 <= x < P
    ensures m % P == x
  {
    Witness(P, x - m, 0, k);
    ModZero(P, x - m);
    assert m == x - P * k;
  }

  /** The literal d and y are the code's, which divides by raising to P - 2. */
  lemma ParametersAreComputed()
    requires Inverts(121666) && Inverts(5)
    ensures D == -121665 * PowMod(121666, P - 2, P) % P
    ensures BASE_Y == 4 * PowMod(5, P - 2, P) % P
  {
    hide PowMod;
    ParametersAgree();
    QuotientIs(121666, -121665, D, PowMod(121666, P - 2, P));
    QuotientIs(5, 4, BASE_Y, PowMod(5, P - 2, P));
  }

  /** The curve of the source. */
  function Source(sha512: Bytes -> Digest64): Curve { Curve(P, L, D, BASE, sha512) }

  /** Its parameters have the sizes and its base point the shape that the theory asks for. */
  lemma SourceFits(sha512: Bytes -> Digest64)
    ensures Sized(Source(sha512)) && Good(Source(sha512), BASE)
  {
    ParametersAgree();
  }

  /** Over the literal curve every signature verifies; only the theory of the curve is assumed. */
  lemma SourceVerifies<G(!new)>(sha512: Bytes -> Digest64, g: Group<G>, message: Bytes, seed: Bytes)
    requires |seed| == 32 && Sized(Source(sha512)) && Theory(Source(sha512), g)
    ensures var c := Source(sha512);
      Verify(c, Sign(c, message, seed), message, PublicKey(c, seed))
  {
    hide Theory, Verify, Sign, PublicKey;
    SourceFits(sha512);
    SignVerifies(Source(sha512), g, message, seed);
  }
}
