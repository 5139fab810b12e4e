/** JavaScript numbers as the assertion language meets them: NaN, infinities, finite decimals. */
module JsNumbers {
  import opened Outcomes
  import opened Decimals

  datatype JsNumber = NaN | Infinity(neg: bool) | Finite(num: Num)

  const JS_ZERO := Finite(ZERO)

  /** A decimal as a JavaScript number: too large a magnitude is infinite. */
  function OfNum(n: Num): JsNumber { if Overflows(n) then Infinity(n.neg) else Finite(n) }

  predicate Same(a: JsNumber, b: JsNumber) { a == b && a != NaN }

  predicate Below(a: JsNumber, b: JsNumber) {
    match (a, b)
    case (NaN, _) => false
    case (_, NaN) => false
    case (Infinity(s), Infinity(t)) => s && !t
    case (Infinity(s), Finite(_)) => s
    case (Finite(_), Infinity(t)) => !t
    case (Finite(m), Finite(n)) => ValueOf(m) < ValueOf(n)
  }

  /** Number(text) where the text holds only digits, points and a leading minus. */
  function OfDigits(text: string): JsNumber {
    var (l, rest) := LexNumber(text);
    if rest == "" && ReadLiteral(l).Some? then OfNum(ReadLiteral(l).value) else NaN
  }

  // ---------- Number(string) ----------

  predicate IsWhite(c: char) {
    c in "\t\n\U{B}\U{C}\r \U{A0}\U{1680}\U{2028}\U{2029}\U{202F}\U{205F}\U{3000}\U{FEFF}" ||
    '\U{2000}' <= c <= '\U{200A}'
  }

  function TrimStart(s: string): string { if s != [] && IsWhite(s[0]) then TrimStart(s[1..]) else s }

  function TrimEnd(s: string): string { if s != [] && IsWhite(s[|s| - 1]) then TrimEnd(s[..|s| - 1]) else s }

  function Trim(s: string): string { TrimEnd(TrimStart(s)) }

  function DigitIn(c: char, radix: nat): Option<nat> {
    var n := if IsDigit(c) then c as int - '0' as int
             else if 'a' <= c <= 'f' then c as int - 'a' as int + 10
             else if 'A' <= c <= 'F' then c as int - 'A' as int + 10
             else 99;
    if n < radix then Some(n) else None
  }

  function RadixValue(s: string, radix: nat): Option<nat> {
    if s == [] then Some(0)
    else
      var high :- RadixValue(s[..|s| - 1], radix);
      var low :- DigitIn(s[|s| - 1], radix);
      Some(radix * high + low)
  }

  function OfRadix(s: string, radix: nat): JsNumber {
    if s == [] then NaN
    else match RadixValue(s, radix)
      case Some(n) => OfNum(Normalize(false, Itoa(n), [], 0))
      case None => NaN
  }

  function Negated(n: JsNumber): JsNumber {
    match n
    case NaN => NaN
    case Infinity(s) => Infinity(!s)
    case Finite(m) => if m == ZERO then n else Finite(m.(neg := !m.neg))
  }

  function OfUnsigned(s: string): JsNumber {
    if s == "Infinity" then Infinity(false)
    else if StartsWith(s, '-') then NaN
    else
      var (l, rest) := LexNumber(s);
      if rest == "" && ReadLiteral(l).Some? then OfNum(ReadLiteral(l).value) else NaN
  }

  /** Number(s): blank is zero; decimal, hexadecimal, octal, binary and Infinity are read. */
  function OfString(s: string): JsNumber {
    var t := Trim(s);
    if t == "" then JS_ZERO
    else if |t| >= 2 && t[0] == '0' && (t[1] == 'x' || t[1] == 'X') then OfRadix(t[2..], 16)
    else if |t| >= 2 && t[0] == '0' && (t[1] == 'o' || t[1] == 'O') then OfRadix(t[2..], 8)
    else if |t| >= 2 && t[0] == '0' && (t[1] == 'b' || t[1] == 'B') then OfRadix(t[2..], 2)
    else if t[0] == '+' then OfUnsigned(t[1..])
    else if t[0] == '-' then Negated(OfUnsigned(t[1..]))
    else OfUnsigned(t)
  }
}
