/**
 Decimal numbers as JSON spells them.

 A finite number is kept in the normal form that ECMAScript starts from: a sign, the
 significant digits without leading or trailing zeros, and the decimal exponent of
 the first digit.  Zero has no digits.  Rounding to a binary double is outside the
 model; overflow to infinity is not.
 */
module Decimals {
  import opened Outcomes

  // ---------- digit strings ----------

  predicate IsDigit(c: char) { '0' <= c <= '9' }

  predicate AllDigits(s: string) { forall i | 0 <= i < |s| :: IsDigit(s[i]) }

  type Digits = s: string | AllDigits(s)

  function DigitValue(c: char): nat
    requires IsDigit(c)
  {
    c as int - '0' as int
  }

  function DigitChar(n: nat): (c: char)
    requires n < 10
    ensures IsDigit(c) && DigitValue(c) == n
  {
    (n + '0' as int) as char
  }

  /** The natural number a digit string denotes. */
  function NatOf(s: Digits): nat {
    if s == [] then 0 else 10 * NatOf(s[..|s| - 1]) + DigitValue(s[|s| - 1])
  }

  /** Decimal digits of a natural number, as `strconv.Itoa` prints it. */
  function Itoa(n: nat): (s: Digits)
    ensures s != []
    ensures NatOf(s) == n
    ensures n != 0 ==> s[0] != '0'
    ensures n == 0 ==> s == "0"
  {
    if n < 10 then
      assert NatOf([DigitChar(n)]) == 10 * NatOf([]) + n by { assert [DigitChar(n)][..0] == []; }
      [DigitChar(n)]
    else
      var front := Itoa(n / 10);
      assert (front + [DigitChar(n % 10)])[..|front|] == front;
      front + [DigitChar(n % 10)]
  }

  function Zeros(n: nat): (s: Digits)
    ensures |s| == n && forall i | 0 <= i < n :: s[i] == '0'
  {
    seq(n, _ => '0')
  }

  /** x * 10^e. */
  function Shift(x: real, e: int): real
    decreases if e < 0 then -e else e
  {
    if e == 0 then x else if e > 0 then 10.0 * Shift(x, e - 1) else Shift(x, e + 1) / 10.0
  }

  // ---------- numbers ----------

  datatype RawNum = RawNum(neg: bool, digits: string, exp: int)

  predicate Normal(n: RawNum) {
    if n.digits == [] then !n.neg && n.exp == 0
    else AllDigits(n.digits) && n.digits[0] != '0' && n.digits[|n.digits| - 1] != '0'
  }

  type Num = n: RawNum | Normal(n) witness RawNum(false, [], 0)

  const ZERO: Num := RawNum(false, [], 0)

  /** d * 10^e, the value of the digits d read as an integer and scaled. */
  function Scaled(d: Digits, e: int): real { Shift(NatOf(d) as real, e) }

  function Magnitude(n: Num): real { Scaled(n.digits, n.exp - |n.digits| + 1) }

  function ValueOf(n: Num): real { if n.neg then -Magnitude(n) else Magnitude(n) }

  /** 2^1024 - 2^970: half a unit above the largest double. */
  const LIMIT: nat :=
    0xFFFFFFFFFFFFFC00000000000000000000000000000000000000000000000000000000000000000000000000000000000000000000000000000000000000000000000000000000000000000000000000000000000000000000000000000000000000000000000000000000000000000000000000000000000000000000000000

  /** At or beyond the limit, conversion to a double gives infinity. */
  predicate Overflows(n: Num) { Magnitude(n) >= LIMIT as real }

  // ---------- reading ----------

  /** A number literal split at its sign, point and exponent mark. */
  datatype Literal = Literal(neg: bool, whole: Digits, dot: bool, frac: Digits,
                             mark: bool, expNeg: bool, expDigits: Digits)

  function LeadingDigits(t: string): (n: nat)
    ensures n <= |t| && AllDigits(t[..n])
    ensures n < |t| ==> !IsDigit(t[n])
  {
    if t != [] && IsDigit(t[0]) then
      var m := LeadingDigits(t[1..]);
      assert t[..m + 1] == [t[0]] + t[1..][..m];
      m + 1
    else 0
  }

  function TakeDigits(t: string): (r: (Digits, string))
    ensures t == r.0 + r.1
    ensures r.1 != [] ==> !IsDigit(r.1[0])
  {
    var n := LeadingDigits(t);
    (t[..n], t[n..])
  }

  predicate StartsWith(t: string, c: char) { t != [] && t[0] == c }

  /** An optional fraction `.d*`, and what follows it. */
  function LexFraction(t: string): (r: (bool, Digits, string))
    ensures |r.2| <= |t|
  {
    if StartsWith(t, '.') then
      var (frac, rest) := TakeDigits(t[1..]);
      (true, frac, rest)
    else (false, [], t)
  }

  /** An optional exponent `[eE][+-]?d*`, and what follows it. */
  function LexExponent(t: string): (r: (bool, bool, Digits, string))
    ensures |r.3| <= |t|
  {
    if StartsWith(t, 'e') || StartsWith(t, 'E') then
      var neg := StartsWith(t[1..], '-');
      var (digits, rest) := TakeDigits(if neg || StartsWith(t[1..], '+') then t[2..] else t[1..]);
      (true, neg, digits, rest)
    else (false, false, [], t)
  }

  /** Longest prefix of the shape -?d*(.d*)?([eE][+-]?d*)?, and what follows it. */
  function LexNumber(t: string): (Literal, string) {
    var neg := StartsWith(t, '-');
    var (whole, t1) := TakeDigits(if neg then t[1..] else t);
    var (dot, frac, t2) := LexFraction(t1);
    var (mark, expNeg, expDigits, rest) := LexExponent(t2);
    (Literal(neg, whole, dot, frac, mark, expNeg, expDigits), rest)
  }

  function LeadingZeros(s: Digits): (n: nat)
    ensures n <= |s| && forall i | 0 <= i < n :: s[i] == '0'
    ensures n < |s| ==> s[n] != '0'
  {
    if s != [] && s[0] == '0' then 1 + LeadingZeros(s[1..]) else 0
  }

  function StripTrailing(s: Digits): (r: Digits)
    ensures r <= s
    ensures r != [] ==> r[|r| - 1] != '0'
    ensures forall i | |r| <= i < |s| :: s[i] == '0'
  {
    if s != [] && s[|s| - 1] == '0' then StripTrailing(s[..|s| - 1]) else s
  }

  /**
   Significant digits and exponent of whole.frac * 10^e.  Leading zeros move the
   exponent, trailing zeros are dropped.
   */
  function Normalize(neg: bool, whole: Digits, frac: Digits, e: int): Num {
    var all := whole + frac;
    var lead := LeadingZeros(all);
    var digits := StripTrailing(all[lead..]);
    if digits == [] then ZERO else RawNum(neg, digits, e + |whole| - 1 - lead)
  }

  function ExponentOf(l: Literal): int { if l.expNeg then -(NatOf(l.expDigits) as int) else NatOf(l.expDigits) }

  /** At least one mantissa digit, and at least one exponent digit after a mark. */
  predicate WellFormed(l: Literal) {
    l.whole + l.frac != [] && (l.mark ==> l.expDigits != [])
  }

  function ReadLiteral(l: Literal): Option<Num> {
    if WellFormed(l) then Some(Normalize(l.neg, l.whole, l.frac, ExponentOf(l))) else None
  }

  // ---------- writing ----------

  /** ECMAScript Number::toString: plain, pointed, leading-zero or exponent form. */
  function Render(n: Num): string {
    if n == ZERO then "0" else (if n.neg then "-" else "") + RenderMagnitude(n.digits, n.exp + 1)
  }

  function RenderMagnitude(digits: Digits, point: int): string
    requires digits != []
  {
    var k := |digits|;
    if 1 <= point <= 21 then
      if k <= point then digits + Zeros(point - k)
      else digits[..point] + "." + digits[point..]
    else if -5 <= point <= 0 then
      "0." + Zeros(-point) + digits
    else
      RenderScientific(digits, point - 1)
  }

  function RenderScientific(digits: Digits, e: int): string
    requires digits != []
  {
    (if |digits| > 1 then digits[..1] + "." + digits[1..] else digits) +
    (if e < 0 then "e-" + Itoa(-e) else "e+" + Itoa(e))
  }

  // ---------- reading back what was written ----------

  /** The literal that `Render` spells, part by part. */
  function RenderedLiteral(n: Num): Literal {
    if n == ZERO then Literal(false, "0", false, [], false, false, [])
    else RenderedParts(n.neg, n.digits, n.exp + 1)
  }

  function RenderedParts(neg: bool, digits: Digits, point: int): Literal
    requires digits != []
  {
    if -5 <= point <= 21 then PlainParts(neg, digits, point) else ScientificParts(neg, digits, point - 1)
  }

  /** A number without an exponent, wherever its point falls. */
  function PlainParts(neg: bool, digits: Digits, point: int): Literal
    requires digits != []
  {
    if point >= |digits| then Literal(neg, digits + Zeros(point - |digits|), false, [], false, false, [])
    else if point >= 1 then Literal(neg, digits[..point], true, digits[point..], false, false, [])
    else Literal(neg, "0", true, Zeros(-point) + digits, false, false, [])
  }

  function ScientificParts(neg: bool, digits: Digits, e: int): Literal
    requires digits != []
  {
    Literal(neg, digits[..1], |digits| > 1, digits[1..], true, e < 0, Itoa(if e < 0 then -e else e))
  }

  predicate EndsNumber(rest: string) {
    rest == [] || !(IsDigit(rest[0]) || rest[0] == '.' || rest[0] == 'e' || rest[0] == 'E')
  }

  lemma TakeDigitsExact(d: Digits, rest: string)
    requires rest == [] || !IsDigit(rest[0])
    ensures TakeDigits(d + rest) == (d, rest)
  {
    var t := d + rest;
    var n := LeadingDigits(t);
    assert forall i | 0 <= i < |d| :: t[i] == d[i];
    assert t[..|d|] == d && t[|d|..] == rest;
  }

  function SpellFraction(l: Literal): string { if l.dot then "." + l.frac else "" }

  function SpellExponent(l: Literal): string {
    if l.mark then (if l.expNeg then "e-" else "e+") + l.expDigits else ""
  }

  function Spell(l: Literal): string {
    (if l.neg then "-" else "") + l.whole + SpellFraction(l) + SpellExponent(l)
  }

  /** A literal whose absent parts are empty. */
  predicate Tidy(l: Literal) {
    l.whole != [] && (l.dot || l.frac == []) && (l.mark || (!l.expNeg && l.expDigits == []))
  }

  lemma LexExponentSpelled(l: Literal, rest: string)
    requires Tidy(l) && EndsNumber(rest)
    ensures LexExponent(SpellExponent(l) + rest) == (l.mark, l.expNeg, l.expDigits, rest)
    ensures EndsFraction(SpellExponent(l) + rest)
  {
    if l.mark {
      var sign := if l.expNeg then '-' else '+';
      var t := SpellExponent(l) + rest;
      assert t == ['e', sign] + (l.expDigits + rest);
      assert t[1..][0] == sign && t[2..] == l.expDigits + rest;
      TakeDigitsExact(l.expDigits, rest);
    } else {
      assert SpellExponent(l) + rest == rest;
    }
  }

  predicate EndsFraction(rest: string) { rest == [] || !(IsDigit(rest[0]) || rest[0] == '.') }

  lemma LexFractionSpelled(l: Literal, rest: string)
    requires Tidy(l) && EndsFraction(rest)
    ensures LexFraction(SpellFraction(l) + rest) == (l.dot, l.frac, rest)
    ensures SpellFraction(l) + rest == [] || !IsDigit((SpellFraction(l) + rest)[0])
  {
    if l.dot {
      var t := SpellFraction(l) + rest;
      assert t == ['.'] + (l.frac + rest);
      assert t[1..] == l.frac + rest;
      TakeDigitsExact(l.frac, rest);
    } else {
      assert SpellFraction(l) + rest == rest;
    }
  }

  lemma LexSpelled(l: Literal, rest: string)
    requires Tidy(l) && EndsNumber(rest)
    ensures LexNumber(Spell(l) + rest) == (l, rest)
  {
    var t2 := SpellExponent(l) + rest;
    var t1 := SpellFraction(l) + t2;
    var t0 := l.whole + t1;
    var sign := if l.neg then "-" else "";
    JoinParts(sign, l.whole, SpellFraction(l), SpellExponent(l), rest);
    LexExponentSpelled(l, rest);
    LexFractionSpelled(l, t2);
    TakeDigitsExact(l.whole, t1);
    SignFirst(l.neg, l.whole, t1);
  }

  lemma JoinParts(a: string, b: string, c: string, d: string, e: string)
    ensures (a + b + c + d) + e == a + (b + (c + (d + e)))
  {
  }

  /** An optional minus sign in front of digits is told apart from them. */
  lemma SignFirst(neg: bool, whole: Digits, rest: string)
    requires whole != []
    ensures var t := (if neg then "-" else "") + (whole + rest);
      StartsWith(t, '-') == neg && (if neg then t[1..] else t) == whole + rest
  {
    assert (whole + rest)[0] == whole[0] && IsDigit(whole[0]);
  }

  /** The text of a literal's magnitude, in a form that `Spell` prefixes with the sign. */
  function SpellMagnitude(l: Literal): string { l.whole + SpellFraction(l) + SpellExponent(l) }

  lemma RenderSpells(n: Num)
    ensures Tidy(RenderedLiteral(n)) && Spell(RenderedLiteral(n)) == Render(n)
  {
    if n != ZERO {
      var l := RenderedParts(n.neg, n.digits, n.exp + 1);
      PartsSpell(n.neg, n.digits, n.exp + 1);
      SpellSigned(l);
    }
  }

  lemma SpellSigned(l: Literal)
    ensures Spell(l) == (if l.neg then "-" else "") + SpellMagnitude(l)
  {
    JoinFour(if l.neg then "-" else "", l.whole, SpellFraction(l), SpellExponent(l));
  }

  lemma JoinFour(a: string, b: string, c: string, d: string)
    ensures a + b + c + d == a + (b + c + d)
  {
  }

  lemma PartsSpell(neg: bool, digits: Digits, point: int)
    requires digits != []
    ensures var l := RenderedParts(neg, digits, point);
      Tidy(l) && l.neg == neg && SpellMagnitude(l) == RenderMagnitude(digits, point)
  {
    if 1 <= point <= 21 {
      PointedSpells(neg, digits, point);
    } else if -5 <= point <= 0 {
      SmallSpells(neg, digits, point);
    } else {
      ScientificSpells(neg, digits, point - 1);
    }
  }

  lemma PointedSpells(neg: bool, digits: Digits, point: int)
    requires digits != [] && 1 <= point <= 21
    ensures SpellMagnitude(RenderedParts(neg, digits, point)) == RenderMagnitude(digits, point)
  {
    var l := PlainParts(neg, digits, point);
    assert SpellMagnitude(l) == l.whole + SpellFraction(l);
    if |digits| > point { JoinThree(digits[..point], ".", digits[point..]); }
  }

  lemma JoinThree(a: string, b: string, c: string)
    ensures a + b + c == a + (b + c) == a + (b + c) + ""
  {
  }

  lemma SmallSpells(neg: bool, digits: Digits, point: int)
    requires digits != [] && -5 <= point <= 0
    ensures SpellMagnitude(RenderedParts(neg, digits, point)) == RenderMagnitude(digits, point)
  {
    var zeros := Zeros(-point);
    var l := PlainParts(neg, digits, point);
    assert l.whole == "0" && l.frac == zeros + digits && SpellExponent(l) == "";
    JoinThree("0", ".", zeros + digits);
    JoinThree("0.", zeros, digits);
    assert "0" + "." == "0.";
  }

  lemma ScientificSpells(neg: bool, digits: Digits, e: int)
    requires digits != []
    ensures SpellMagnitude(ScientificParts(neg, digits, e)) == RenderScientific(digits, e)
  {
    var l := ScientificParts(neg, digits, e);
    var i := Itoa(if e < 0 then -e else e);
    assert SpellExponent(l) == if e < 0 then "e-" + i else "e+" + i;
    assert l.whole + SpellFraction(l) ==
           if |digits| > 1 then digits[..1] + "." + digits[1..] else digits;
  }

  lemma StripExact(core: Digits, zeros: nat)
    requires core == [] || core[|core| - 1] != '0'
    ensures StripTrailing(core + Zeros(zeros)) == core
    decreases zeros
  {
    if zeros == 0 {
      assert core + Zeros(0) == core;
    } else {
      assert (core + Zeros(zeros))[..|core| + zeros - 1] == core + Zeros(zeros - 1);
      StripExact(core, zeros - 1);
    }
  }

  /** Zeros around a normal digit string do not change what it normalizes to. */
  lemma NormalizePadded(n: Num, whole: Digits, frac: Digits, e: int, before: nat, after: nat)
    requires n != ZERO
    requires whole + frac == Zeros(before) + n.digits + Zeros(after)
    requires e + |whole| - 1 - before == n.exp
    ensures Normalize(n.neg, whole, frac, e) == n
  {
    var all := whole + frac;
    assert forall i | 0 <= i < before :: all[i] == '0';
    assert all[before] == n.digits[0] != '0';
    assert LeadingZeros(all) == before;
    assert all[before..] == n.digits + Zeros(after);
    StripExact(n.digits, after);
  }

  /** Every spelling `Render` chooses denotes the number it was given. */
  lemma ReadRendered(n: Num)
    ensures ReadLiteral(RenderedLiteral(n)) == Some(n)
  {
    var l := RenderedLiteral(n);
    if n == ZERO {
      assert LeadingZeros("0" + []) == 1 by { assert ("0" + [])[1..] == []; }
    } else {
      var before, after := RenderedPadding(n.neg, n.digits, n.exp + 1);
      NormalizePadded(n, l.whole, l.frac, ExponentOf(l), before, after);
    }
  }

  /** The mantissa of a literal is these digits between zeros, with the point at this place. */
  predicate Padded(l: Literal, neg: bool, digits: Digits, point: int, before: nat, after: nat) {
    && l.neg == neg && WellFormed(l)
    && l.whole + l.frac == Zeros(before) + digits + Zeros(after)
    && ExponentOf(l) + |l.whole| - before == point
  }

  lemma RenderedPadding(neg: bool, digits: Digits, point: int) returns (before: nat, after: nat)
    requires digits != []
    ensures Padded(RenderedParts(neg, digits, point), neg, digits, point, before, after)
  {
    if -5 <= point <= 21 {
      before, after := PlainPadding(neg, digits, point);
    } else {
      before, after := 0, 0;
      assert Zeros(0) + digits + Zeros(0) == digits;
      var l := RenderedParts(neg, digits, point);
      assert l.whole + l.frac == digits;
      ScientificExponent(neg, digits, point - 1);
    }
  }

  lemma PlainPadding(neg: bool, digits: Digits, point: int) returns (before: nat, after: nat)
    requires digits != []
    ensures Padded(PlainParts(neg, digits, point), neg, digits, point, before, after)
  {
    before, after := 0, 0;
    var l := PlainParts(neg, digits, point);
    if point >= |digits| {
      after := point - |digits|;
      assert l.whole + l.frac == Zeros(0) + digits + Zeros(after);
    } else if point >= 1 {
      assert Zeros(0) + digits + Zeros(0) == digits;
      assert l.whole + l.frac == digits;
    } else {
      before := 1 - point;
      assert "0" + (Zeros(-point) + digits) == Zeros(before) + digits + Zeros(0);
    }
  }

  lemma ScientificExponent(neg: bool, digits: Digits, e: int)
    requires digits != []
    ensures ExponentOf(ScientificParts(neg, digits, e)) == e
  {
  }

  /** Lexing and reading a rendered number gives it back and stops where it ends. */
  lemma LexRendered(n: Num, rest: string)
    requires EndsNumber(rest)
    ensures LexNumber(Render(n) + rest) == (RenderedLiteral(n), rest)
    ensures ReadLiteral(RenderedLiteral(n)) == Some(n)
  {
    RenderSpells(n);
    LexSpelled(RenderedLiteral(n), rest);
    ReadRendered(n);
  }

  /** Distinct numbers have distinct spellings. */
  lemma RenderInjective(m: Num, n: Num)
    requires Render(m) == Render(n)
    ensures m == n
  {
    assert Render(m) + [] == Render(n) + [];
    LexRendered(m, []);
    LexRendered(n, []);
  }

  // ---------- the value of a literal ----------

  lemma {:induction false} ShiftStep(x: real, e: int)
    ensures Shift(x, e + 1) == 10.0 * Shift(x, e) == Shift(10.0 * x, e)
    decreases if e < 0 then -e else e
  {
    if e < 0 { ShiftStep(x, e + 1); } else if e > 0 { ShiftStep(x, e - 1); }
  }

  lemma {:induction false} ShiftOrder(x: real, y: real, e: int)
    ensures x < y <==> Shift(x, e) < Shift(y, e)
    ensures x == y <==> Shift(x, e) == Shift(y, e)
    ensures Shift(0.0, e) == 0.0
    decreases if e < 0 then -e else e
  {
    if e < 0 { ShiftOrder(x, y, e + 1); } else if e > 0 { ShiftOrder(x, y, e - 1); }
  }

  lemma {:induction false} ShiftAdd(x: real, a: nat, e: int)
    ensures Shift(Shift(x, a), e) == Shift(x, e + a)
    decreases a
  {
    if a > 0 {
      ShiftStep(Shift(x, a - 1), e);
      ShiftAdd(x, a - 1, e);
      ShiftStep(x, e + a - 1);
    }
  }

  lemma {:induction false} UnitMonotone(a: int, b: int)
    requires a <= b
    ensures 0.0 < Shift(1.0, a) <= Shift(1.0, b)
    decreases b - a
  {
    ShiftOrder(0.0, 1.0, a);
    if a < b {
      UnitMonotone(a, b - 1);
      ShiftStep(1.0, b - 1);
    }
  }

  lemma {:induction false} DropLeadingZero(s: Digits)
    requires s != [] && s[0] == '0'
    ensures NatOf(s) == NatOf(s[1..])
    decreases |s|
  {
    if |s| > 1 {
      assert s[..|s| - 1][1..] == s[1..][..|s| - 2];
      DropLeadingZero(s[..|s| - 1]);
    }
  }

  lemma {:induction false} DropLeadingZeros(s: Digits, n: nat)
    requires n <= |s| && forall i | 0 <= i < n :: s[i] == '0'
    ensures NatOf(s) == NatOf(s[n..])
    decreases n
  {
    if n > 0 {
      DropLeadingZeros(s, n - 1);
      DropLeadingZero(s[n - 1..]);
      assert s[n - 1..][1..] == s[n..];
    }
  }

  lemma {:induction false} StripValue(s: Digits, e: int)
    ensures Scaled(s, e) == Scaled(StripTrailing(s), e + |s| - |StripTrailing(s)|)
    decreases |s|
  {
    if s != [] && s[|s| - 1] == '0' {
      var front: Digits := s[..|s| - 1];
      StripValue(front, e + 1);
      ShiftStep(NatOf(front) as real, e);
      assert NatOf(s) as real == 10.0 * NatOf(front) as real;
    }
  }

  /** Normalizing keeps the value: whole.frac * 10^e, read exactly. */
  lemma NormalizeValue(neg: bool, whole: Digits, frac: Digits, e: int)
    ensures Magnitude(Normalize(neg, whole, frac, e)) == Scaled(whole + frac, e - |frac|)
  {
    hide Scaled, StripTrailing, LeadingZeros, NatOf;
    var all: Digits := whole + frac;
    var low := e - |frac|;
    TrimValue(all, low);
    ScaledEmpty(1);
    var core := StripTrailing(all[LeadingZeros(all)..]);
    if core != [] {
      assert Normalize(neg, whole, frac, e) == RawNum(neg, core, e + |whole| - 1 - LeadingZeros(all));
      assert |all| == |whole| + |frac|;
    }
  }

  lemma TrimValue(s: Digits, e: int)
    ensures var core := StripTrailing(s[LeadingZeros(s)..]);
      Scaled(s, e) == if core == [] then 0.0 else Scaled(core, e + |s| - LeadingZeros(s) - |core|)
  {
    hide Scaled, StripTrailing, LeadingZeros;
    var t: Digits := s[LeadingZeros(s)..];
    LeadingKeep(s, e);
    StripValue(t, e);
    ScaledEmpty(e + |t|);
  }

  lemma LeadingKeep(s: Digits, e: int)
    ensures Scaled(s, e) == Scaled(s[LeadingZeros(s)..], e)
  {
    DropLeadingZeros(s, LeadingZeros(s));
  }

  lemma ScaledEmpty(e: int)
    ensures Scaled([], e) == 0.0
  {
    ShiftOrder(0.0, 0.0, e);
  }

  lemma {:induction false} DigitsBound(d: Digits)
    ensures (NatOf(d) + 1) as real <= Shift(1.0, |d|)
    ensures d != [] && d[0] != '0' ==> Shift(1.0, |d| - 1) <= NatOf(d) as real
    decreases |d|
  {
    if d != [] { DigitsBound(d[..|d| - 1]); }
  }

  lemma {:induction false} SameLengthSameDigits(c: Digits, d: Digits)
    requires |c| == |d| && NatOf(c) == NatOf(d)
    ensures c == d
    decreases |c|
  {
    if c != [] {
      var m, n := NatOf(c[..|c| - 1]), NatOf(d[..|d| - 1]);
      assert m == n;
      SameLengthSameDigits(c[..|c| - 1], d[..|d| - 1]);
      assert c == c[..|c| - 1] + [c[|c| - 1]] && d == d[..|d| - 1] + [d[|d| - 1]];
    }
  }

  /** A nonzero number lies between 10^exp and 10^(exp+1). */
  lemma MagnitudeBound(n: Num)
    requires n != ZERO
    ensures 0.0 < Shift(1.0, n.exp) <= Magnitude(n) < Shift(1.0, n.exp + 1)
  {
    var k := |n.digits|;
    var e := n.exp - k + 1;
    var d := NatOf(n.digits) as real;
    DigitsBound(n.digits);
    ShiftAdd(1.0, k, e);
    ShiftAdd(1.0, k - 1, e);
    ShiftOrder(Shift(1.0, k - 1), d, e);
    ShiftOrder(d, Shift(1.0, k), e);
    UnitMonotone(n.exp, n.exp);
  }

  lemma SameMagnitudeSameExponent(m: Num, n: Num)
    requires m != ZERO && n != ZERO && Magnitude(m) == Magnitude(n)
    ensures m.exp == n.exp
  {
    MagnitudeBound(m);
    MagnitudeBound(n);
    if m.exp < n.exp {
      UnitMonotone(m.exp + 1, n.exp);
    } else if n.exp < m.exp {
      UnitMonotone(n.exp + 1, m.exp);
    }
  }

  lemma {:induction false} ShiftNat(a: nat, n: nat) returns (r: nat)
    ensures Shift(a as real, n) == r as real
    ensures n > 0 ==> r % 10 == 0
  {
    if n == 0 { r := a; } else { var q := ShiftNat(a, n - 1); r := 10 * q; }
  }

  lemma LongerHasTrailingZero(m: Num, n: Num)
    requires m != ZERO && n != ZERO && m.exp == n.exp && Magnitude(m) == Magnitude(n)
    requires |m.digits| <= |n.digits|
    ensures m.digits == n.digits
  {
    var extra := |n.digits| - |m.digits|;
    var low := n.exp - |n.digits| + 1;
    var a, b := NatOf(m.digits), NatOf(n.digits);
    ShiftAdd(a as real, extra, low);
    ShiftOrder(Shift(a as real, extra), b as real, low);
    var r := ShiftNat(a, extra);
    assert r == b;
    assert b % 10 == DigitValue(n.digits[|n.digits| - 1]);
    SameLengthSameDigits(m.digits, n.digits);
  }

  /** The normal form is canonical: equal values have equal forms. */
  lemma ValueDetermines(m: Num, n: Num)
    requires ValueOf(m) == ValueOf(n)
    ensures m == n
  {
    ScaledEmpty(1);
    if m != ZERO { MagnitudeBound(m); }
    if n != ZERO { MagnitudeBound(n); }
    if m != ZERO && n != ZERO {
      SameMagnitudeSameExponent(m, n);
      if |m.digits| <= |n.digits| { LongerHasTrailingZero(m, n); } else { LongerHasTrailingZero(n, m); }
    }
  }

  // ---------- which form is chosen ----------

  lemma DigitsPlain(d: Digits)
    ensures 'e' !in d && '.' !in d && '-' !in d
  {
    forall c | c in d
      ensures IsDigit(c)
    {
      var i :| 0 <= i < |d| && d[i] == c;
    }
  }

  lemma MarkInMagnitude(digits: Digits, point: int)
    requires digits != []
    ensures 'e' in RenderMagnitude(digits, point) <==> !(-5 <= point <= 21)
  {
    var t := RenderMagnitude(digits, point);
    DigitsPlain(digits);
    if -5 <= point <= 21 {
      DigitsPlain(Zeros(if point <= 0 then -point else if |digits| <= point then point - |digits| else 0));
    } else {
      var head := if |digits| > 1 then digits[..1] + "." + digits[1..] else digits;
      assert t[|head|] == 'e';
    }
  }

  lemma MarkInRender(n: Num)
    requires n != ZERO
    ensures 'e' in Render(n) <==> !(-6 <= n.exp < 21)
  {
    MarkInMagnitude(n.digits, n.exp + 1);
    var sign := if n.neg then "-" else "";
    var t := RenderMagnitude(n.digits, n.exp + 1);
    assert 'e' in sign + t <==> 'e' in sign || 'e' in t;
  }

  lemma MagnitudeAtLeast(n: Num, e: int)
    requires n != ZERO
    ensures Magnitude(n) >= Shift(1.0, e) <==> n.exp >= e
  {
    MagnitudeBound(n);
    if n.exp >= e { UnitMonotone(e, n.exp); } else { UnitMonotone(n.exp + 1, e); }
  }

  /** Exponent form is used exactly from 10^21 up and below 10^-6. */
  lemma ExponentFormIff(n: Num)
    requires n != ZERO
    ensures 'e' in Render(n) <==> (Magnitude(n) >= Shift(1.0, 21) || Magnitude(n) < Shift(1.0, -6))
  {
    MarkInRender(n);
    MagnitudeAtLeast(n, 21);
    MagnitudeAtLeast(n, -6);
  }

  // ---------- literals without exponents ----------

  /** A number spelled without an exponent. */
  function PlainLiteral(n: Num): Literal {
    if n == ZERO then Literal(false, "0", false, [], false, false, [])
    else PlainParts(n.neg, n.digits, n.exp + 1)
  }

  /** The exponent-free spelling reads back too. */
  lemma PlainReads(n: Num)
    ensures Tidy(PlainLiteral(n)) && !PlainLiteral(n).mark
    ensures ReadLiteral(PlainLiteral(n)) == Some(n)
  {
    var l := PlainLiteral(n);
    if n == ZERO {
      ReadRendered(ZERO);
    } else {
      var before, after := PlainPadding(n.neg, n.digits, n.exp + 1);
      NormalizePadded(n, l.whole, l.frac, ExponentOf(l), before, after);
    }
  }
}
