/**
 Positional numerals: digit sequences, most significant first, and their values.

 Base58 in its three forms, byte strings read as big-endian numbers and did:key prefixes all rest on
 the same facts: a number has one numeral without leading zeros, appending a digit multiplies and
 adds, a block of digits is worth its value scaled by the length of what follows, and a numeral of
 given length lies between two powers of its base.  Scaling is written so that proofs stay linear.
 */
module Positional {

  predicate DigitsBelow(ds: seq<nat>, b: nat) { forall i | 0 <= i < |ds| :: ds[i] < b }

  /** Digits in range and no leading zero. */
  predicate Proper(ds: seq<nat>, b: nat) { DigitsBelow(ds, b) && (ds != [] ==> ds[0] != 0) }

  /** The number the digits denote in base b. */
  function Val(ds: seq<nat>, b: nat): nat {
    if ds == [] then 0 else b * Val(ds[..|ds| - 1], b) + ds[|ds| - 1]
  }

  /** x * b^k, by repeated multiplication. */
  function Up(x: nat, b: nat, k: nat): nat { if k == 0 then x else b * Up(x, b, k - 1) }

  /** The proper digits of n; none for zero. */
  function DigitsOf(n: nat, b: nat): (ds: seq<nat>)
    requires b >= 2
    ensures Proper(ds, b) && Val(ds, b) == n
    ensures n == 0 <==> ds == []
  {
    if n == 0 then []
    else
      Quotient(n, b);
      var front := DigitsOf(n / b, b);
      Snoc(front, n % b, b);
      assert front == [] ==> n % b == n;
      front + [n % b]
  }

  lemma Quotient(n: nat, b: nat)
    requires b >= 2
    ensures n == b * (n / b) + n % b
    ensures n > 0 ==> n / b < n
  {
  }

  lemma Snoc(ds: seq<nat>, d: nat, b: nat)
    ensures Val(ds + [d], b) == b * Val(ds, b) + d
  {
    assert (ds + [d])[..|ds|] == ds;
  }

  lemma DivideSum(b: nat, q: nat, r: nat)
    requires r < b
    ensures (b * q + r) / b == q && (b * q + r) % b == r
  {
    if (b * q + r) / b != q {
      var p := (b * q + r) / b;
      assert b * p + (b * q + r) % b == b * q + r;
      if p < q { Spread(b, p, q); } else { Spread(b, q, p); }
      assert false;
    }
  }

  lemma {:induction false} Spread(b: nat, p: nat, q: nat)
    requires p < q
    ensures b * p + b <= b * q
    decreases q
  {
    assert b * q == b * (q - 1) + b;
    if p + 1 < q { Spread(b, p, q - 1); }
  }

  /** Proper digits are determined by their value. */
  lemma {:induction false} DigitsUnique(ds: seq<nat>, b: nat)
    requires b >= 2 && Proper(ds, b)
    ensures DigitsOf(Val(ds, b), b) == ds
    decreases |ds|
  {
    if ds != [] {
      var front, d := ds[..|ds| - 1], ds[|ds| - 1];
      assert Proper(front, b);
      DigitsUnique(front, b);
      DivideSum(b, Val(front, b), d);
      assert front + [d] == ds;
      if |front| > 0 { assert Val(front, b) != 0; } else { assert Val(front, b) == 0 && d == ds[0]; }
      PositiveSum(b, Val(front, b), d);
    }
  }

  lemma PositiveSum(b: nat, q: nat, r: nat)
    requires b >= 2 && (q > 0 || r > 0)
    ensures b * q + r > 0
  {
    if q > 0 { Spread(b, 0, q); }
  }

  lemma {:induction false} DropZeros(ds: seq<nat>, b: nat, n: nat)
    requires n <= |ds| && forall i | 0 <= i < n :: ds[i] == 0
    ensures Val(ds, b) == Val(ds[n..], b)
    decreases |ds|
  {
    if n == |ds| {
      if n > 0 {
        assert ds[..n - 1][n - 1..] == [];
        DropZeros(ds[..n - 1], b, n - 1);
      }
    } else {
      assert ds[n..][..|ds| - n - 1] == ds[..|ds| - 1][n..];
      DropZeros(ds[..|ds| - 1], b, n);
    }
  }

  // ---------- scaling, kept linear ----------

  lemma {:induction false} UpSum(x: nat, y: nat, b: nat, k: nat)
    ensures Up(x + y, b, k) == Up(x, b, k) + Up(y, b, k)
  {
    if k > 0 {
      UpSum(x, y, b, k - 1);
      assert b * (Up(x, b, k - 1) + Up(y, b, k - 1)) == b * Up(x, b, k - 1) + b * Up(y, b, k - 1);
    }
  }

  lemma {:induction false} UpTimes(c: nat, x: nat, b: nat, k: nat)
    ensures Up(c * x, b, k) == c * Up(x, b, k)
  {
    if k > 0 {
      UpTimes(c, x, b, k - 1);
      var u := Up(x, b, k - 1);
      assert b * (c * u) == c * (b * u);
    }
  }

  lemma UpStep(x: nat, b: nat, k: nat)
    ensures Up(x, b, k + 1) == Up(b * x, b, k)
  {
    UpTimes(b, x, b, k);
  }

  lemma {:induction false} UpAdd(x: nat, b: nat, j: nat, k: nat)
    ensures Up(Up(x, b, j), b, k) == Up(x, b, j + k)
  {
    if k > 0 { UpAdd(x, b, j, k - 1); }
  }

  /** Powers multiply when exponents add. */
  lemma UpPower(b: nat, j: nat, k: nat)
    ensures Up(1, b, j + k) == Up(1, b, j) * Up(1, b, k)
  {
    UpAdd(1, b, j, k);
    UpTimes(Up(1, b, j), 1, b, k);
  }

  /** Concatenation puts the first digits above the rest. */
  lemma {:induction false} ValConcat(front: seq<nat>, back: seq<nat>, b: nat)
    ensures Val(front + back, b) == Up(Val(front, b), b, |back|) + Val(back, b)
    decreases |back|
  {
    if back == [] {
      assert front + back == front;
    } else {
      var back', d := back[..|back| - 1], back[|back| - 1];
      ValConcat(front, back', b);
      assert (front + back)[..|front + back| - 1] == front + back';
      var u, v := Up(Val(front, b), b, |back'|), Val(back', b);
      assert b * (u + v) == b * u + b * v;
    }
  }

  lemma Single(d: nat, b: nat)
    ensures Val([d], b) == d
  {
    assert [d][..0] == [];
    assert Val([], b) == 0;
  }

  lemma ValCons(d: nat, ds: seq<nat>, b: nat)
    ensures Val([d] + ds, b) == Up(d, b, |ds|) + Val(ds, b)
  {
    ValConcat([d], ds, b);
    Single(d, b);
  }

  /** A k-digit number is below b^k. */
  lemma {:induction false} ValBound(ds: seq<nat>, b: nat)
    requires DigitsBelow(ds, b)
    ensures Val(ds, b) < Up(1, b, |ds|)
    decreases |ds|
  {
    if ds != [] {
      var front := ds[..|ds| - 1];
      ValBound(front, b);
      Spread(b, Val(front, b), Up(1, b, |front|));
    }
  }

  lemma {:induction false} UpOrder(x: nat, y: nat, b: nat, k: nat)
    requires x <= y
    ensures Up(x, b, k) <= Up(y, b, k)
  {
    UpSum(x, y - x, b, k);
  }

  /** A number with a nonzero first digit is at least b^(k-1). */
  lemma ValAtLeast(ds: seq<nat>, b: nat)
    requires ds != [] && ds[0] != 0
    ensures Val(ds, b) >= Up(1, b, |ds| - 1)
  {
    assert ds == [ds[0]] + ds[1..];
    ValCons(ds[0], ds[1..], b);
    UpOrder(1, ds[0], b, |ds| - 1);
  }

  /** 256^32, the bound of 32-byte numbers. */
  lemma Bytes32()
    ensures Up(1, 256, 32) == 0x10000000000000000000000000000000000000000000000000000000000000000
  {
    assert Up(1, 256, 1) == 256;
    UpPower(256, 1, 1);
    UpPower(256, 2, 2);
    UpPower(256, 4, 4);
    UpPower(256, 8, 8);
    UpPower(256, 16, 16);
  }
}
