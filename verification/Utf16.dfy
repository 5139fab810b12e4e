/** UTF-16 code units, the order JavaScript strings and RFC 8785 member names use. */
module Utf16 {
  import opened Ordering

  function UnitsOfChar(c: char): (u: seq<int>)
    ensures u != [] && |u| <= 2
  {
    var n := c as int;
    if n < 0x1_0000 then [n]
    else [0xD800 + (n - 0x1_0000) / 0x400, 0xDC00 + (n - 0x1_0000) % 0x400]
  }

  /** The string as UTF-16 code units. */
  function Units(s: string): seq<int> {
    if s == [] then [] else UnitsOfChar(s[0]) + Units(s[1..])
  }

  /** Member-name order: by code units, not by code points. */
  predicate Before(a: string, b: string) { Less(Units(a), Units(b)) }

  /** A high surrogate never equals the unit of a one-unit character. */
  lemma UnitsOfCharPrefix(c: char, d: char, u: seq<int>, v: seq<int>)
    requires UnitsOfChar(c) + u == UnitsOfChar(d) + v
    ensures c == d && u == v
  {
    var p, q := UnitsOfChar(c), UnitsOfChar(d);
    assert (p + u)[0] == p[0] && (q + v)[0] == q[0];
    if |p| == 2 { assert (p + u)[1] == p[1]; }
    if |q| == 2 { assert (q + v)[1] == q[1]; }
    assert c == d;
    assert u == (p + u)[|p|..] && v == (q + v)[|q|..];
  }

  lemma {:induction false} UnitsInjective(a: string, b: string)
    requires Units(a) == Units(b)
    ensures a == b
  {
    if a != [] && b != [] {
      UnitsOfCharPrefix(a[0], b[0], Units(a[1..]), Units(b[1..]));
      UnitsInjective(a[1..], b[1..]);
      assert a == [a[0]] + a[1..] && b == [b[0]] + b[1..];
    }
  }

  lemma BeforeTotal(a: string, b: string)
    ensures a == b || Before(a, b) || Before(b, a)
  {
    LessTotal(Units(a), Units(b));
    if Units(a) == Units(b) { UnitsInjective(a, b); }
  }

  lemma BeforeStrict(a: string, b: string, c: string)
    ensures !Before(a, a)
    ensures Before(a, b) && Before(b, c) ==> Before(a, c)
    ensures Before(a, c) ==> Before(a, b) || Before(b, c)
  {
    LessIrreflexive(Units(a));
    if Before(a, b) && Before(b, c) { LessTransitive(Units(a), Units(b), Units(c)); }
    if Before(a, c) && !Before(a, b) {
      BeforeTotal(a, b);
      if Before(b, a) { LessTransitive(Units(b), Units(a), Units(c)); }
    }
  }

  /** Three-way comparison, unit by unit. */
  method CompareUtf16(a: string, b: string) returns (r: int)
    ensures -1 <= r <= 1
    ensures r < 0 <==> Before(a, b)
    ensures r == 0 <==> a == b
    ensures r > 0 <==> Before(b, a)
  {
    var ua, ub := Units(a), Units(b);
    if ua == ub { UnitsInjective(a, b); }
    var i := 0;
    while i < |ua| && i < |ub|
      invariant 0 <= i <= |ua| && i <= |ub|
      invariant ua[..i] == ub[..i]
    {
      DecideAt(ua, ub, i);
      if ua[i] != ub[i] {
        return if ua[i] < ub[i] then -1 else 1;
      }
      i := i + 1;
    }
    DecideAt(ua, ub, i);
    r := if |ua| < |ub| then -1 else if |ua| > |ub| then 1 else 0;
  }
}
