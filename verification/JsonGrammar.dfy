/**
 What the JSON parser computes, as functions from the text that is left to read.

 Each reading returns what it read and the rest of the text, or the error the code stops with, and
 promises that the rest is shorter.  The parser with its moving cursor is proved to compute exactly
 these functions.  A lone half of a surrogate pair reads as the replacement character, and a failed
 second half is left to be read again, as an escape of its own.
 */
module JsonGrammar {
  import opened Outcomes
  import opened Decimals
  import opened Json

  datatype ParseError =
    | UnexpectedEnd | UnexpectedCharacter | InvalidLiteral | InvalidNumber | Trailing
    | ExpectedKey | ExpectedColon | UnterminatedObject | ExpectedCommaOrBrace
    | UnterminatedArray | ExpectedCommaOrBracket
    | UnterminatedString | UnterminatedEscape | InvalidEscape | ControlCharacter
    | TruncatedHex | InvalidHex
    | DuplicateName(name: string)

  /** A value read and the text after it. */
  type Reading<T> = Result<(T, string), ParseError>

  function SkipWs(t: string): (r: string)
    ensures |r| <= |t|
  {
    if t != [] && (t[0] == ' ' || t[0] == '\t' || t[0] == '\n' || t[0] == '\r') then SkipWs(t[1..]) else t
  }

  // ---------- strings ----------

  predicate IsHex(c: char) { IsDigit(c) || 'a' <= c <= 'f' || 'A' <= c <= 'F' }

  function HexValue(c: char): (n: nat)
    requires IsHex(c)
    ensures n < 16
  {
    if IsDigit(c) then c as int - '0' as int
    else if 'a' <= c then c as int - 'a' as int + 10
    else c as int - 'A' as int + 10
  }

  /** Four hexadecimal digits. */
  function Hex4(t: string): (r: Reading<nat>)
    ensures r.Ok? ==> r.value.0 < 0x1_0000 && |t| >= 4 && r.value.1 == t[4..]
  {
    if |t| < 4 then Err(TruncatedHex)
    else if !(IsHex(t[0]) && IsHex(t[1]) && IsHex(t[2]) && IsHex(t[3])) then Err(InvalidHex)
    else Ok((0x1000 * HexValue(t[0]) + 0x100 * HexValue(t[1]) + 0x10 * HexValue(t[2]) + HexValue(t[3]), t[4..]))
  }

  predicate IsSurrogate(n: nat) { 0xD800 <= n <= 0xDFFF }

  predicate IsPair(hi: nat, lo: nat) { 0xD800 <= hi <= 0xDBFF && 0xDC00 <= lo <= 0xDFFF }

  function Combine(hi: nat, lo: nat): char
    requires IsPair(hi, lo)
  {
    (0x1_0000 + (hi - 0xD800) * 0x400 + (lo - 0xDC00)) as char
  }

  const REPLACEMENT := '\U{FFFD}'

  predicate StartsUnicode(t: string) { |t| >= 2 && t[0] == '\\' && t[1] == 'u' }

  /**
   The character a \u escape denotes, from just after the 'u'.  A lead surrogate takes
   the following escape only when the two make a pair; otherwise it alone is replaced
   and the following escape is left to be read.
   */
  function UnicodeEscape(t: string): (r: Reading<char>)
    ensures r.Ok? ==> |r.value.1| < |t|
  {
    var (unit, rest) :- Hex4(t);
    if IsSurrogate(unit) && StartsUnicode(rest) then
      var (second, after) :- Hex4(rest[2..]);
      if IsPair(unit, second) then Ok((Combine(unit, second), after)) else Ok((REPLACEMENT, rest))
    else if IsSurrogate(unit) then Ok((REPLACEMENT, rest))
    else Ok((unit as char, rest))
  }

  /** The character after a backslash, other than 'u'. */
  function SimpleEscape(c: char): Option<char> {
    if c == '"' || c == '\\' || c == '/' then Some(c)
    else if c == 'b' then Some('\U{8}')
    else if c == 'f' then Some('\U{C}')
    else if c == 'n' then Some('\n')
    else if c == 'r' then Some('\r')
    else if c == 't' then Some('\t')
    else None
  }

  /** One character of a string body, at a place that is neither its end nor a quote. */
  function StringChar(t: string): (r: Reading<char>)
    requires t != []
    ensures r.Ok? ==> |r.value.1| < |t|
  {
    if t[0] == '\\' then
      if |t| == 1 then Err(UnterminatedEscape)
      else if t[1] == 'u' then UnicodeEscape(t[2..])
      else if SimpleEscape(t[1]).None? then Err(InvalidEscape)
      else Ok((SimpleEscape(t[1]).value, t[2..]))
    else if t[0] as int < 0x20 then Err(ControlCharacter)
    else Ok((t[0], t[1..]))
  }

  /** The rest of a string, from just after its opening quote. */
  function StringBody(t: string): (r: Reading<string>)
    ensures r.Ok? ==> |r.value.1| < |t|
    decreases |t|
  {
    if t == [] then Err(UnterminatedString)
    else if t[0] == '"' then Ok(("", t[1..]))
    else
      var (c, rest) :- StringChar(t);
      var (s, after) :- StringBody(rest);
      Ok(([c] + s, after))
  }

  // ---------- numbers and words ----------

  lemma LexNumberProgress(t: string)
    requires t != [] && (t[0] == '-' || IsDigit(t[0]))
    ensures |LexNumber(t).1| < |t|
  {
    var neg := StartsWith(t, '-');
    var (whole, t1) := TakeDigits(if neg then t[1..] else t);
    var (dot, frac, t2) := LexFraction(t1);
    var (mark, expNeg, digits, rest) := LexExponent(t2);
    assert |rest| <= |t2| <= |t1|;
  }

  function NumberAt(t: string): (r: Reading<Num>)
    requires t != [] && (t[0] == '-' || IsDigit(t[0]))
    ensures r.Ok? ==> |r.value.1| < |t|
  {
    LexNumberProgress(t);
    var (lit, rest) := LexNumber(t);
    match ReadLiteral(lit)
    case None => Err(InvalidNumber)
    case Some(n) => if Overflows(n) then Err(InvalidNumber) else Ok((n, rest))
  }

  function WordAt(t: string, word: string, v: Value): (r: Reading<Value>)
    requires word != []
    ensures r.Ok? ==> |r.value.1| < |t|
  {
    if word <= t then Ok((v, t[|word|..])) else Err(InvalidLiteral)
  }

  // ---------- values ----------

  function ValueAt(t: string, strict: bool): (r: Reading<Value>)
    ensures r.Ok? ==> |r.value.1| < |t|
    decreases |t|, 1
  {
    if t == [] then Err(UnexpectedEnd)
    else if t[0] == '{' then ObjectAt(t[1..], strict)
    else if t[0] == '[' then ArrayAt(t[1..], strict)
    else if t[0] == '"' then
      var (s, rest) :- StringBody(t[1..]);
      Ok((String(s), rest))
    else if t[0] == 't' then WordAt(t, "true", Bool(true))
    else if t[0] == 'f' then WordAt(t, "false", Bool(false))
    else if t[0] == 'n' then WordAt(t, "null", Null)
    else if t[0] == '-' || IsDigit(t[0]) then
      var (n, rest) :- NumberAt(t);
      Ok((Number(n), rest))
    else Err(UnexpectedCharacter)
  }

  function ObjectAt(t: string, strict: bool): (r: Reading<Value>)
    ensures r.Ok? ==> |r.value.1| < |t|
    decreases |t|, 3
  {
    var u := SkipWs(t);
    if StartsWith(u, '}') then Ok((Object([]), u[1..])) else MembersAt(u, [], strict)
  }

  /** A member name and the text after its colon, refusing a repeated name when strict. */
  function NameAt(t: string, seen: seq<Member>, strict: bool): (r: Reading<string>)
    ensures r.Ok? ==> |r.value.1| < |t|
  {
    var u := SkipWs(t);
    if !StartsWith(u, '"') then Err(ExpectedKey) else
    var (k, rest) :- StringBody(u[1..]);
    if strict && HasKey(seen, k) then Err(DuplicateName(k)) else
    var w := SkipWs(rest);
    if !StartsWith(w, ':') then Err(ExpectedColon) else Ok((k, SkipWs(w[1..])))
  }

  /** Members from the next name on, added to those already read. */
  function MembersAt(t: string, ms: seq<Member>, strict: bool): (r: Reading<Value>)
    ensures r.Ok? ==> |r.value.1| < |t|
    decreases |t|, 2
  {
    var (k, t1) :- NameAt(t, ms, strict);
    var (v, t2) :- ValueAt(t1, strict);
    var u := SkipWs(t2);
    var ms' := SetMember(ms, k, v);
    if u == [] then Err(UnterminatedObject)
    else if u[0] == ',' then MembersAt(u[1..], ms', strict)
    else if u[0] == '}' then Ok((Object(ms'), u[1..]))
    else Err(ExpectedCommaOrBrace)
  }

  function ArrayAt(t: string, strict: bool): (r: Reading<Value>)
    ensures r.Ok? ==> |r.value.1| < |t|
    decreases |t|, 3
  {
    var u := SkipWs(t);
    if StartsWith(u, ']') then Ok((Array([]), u[1..])) else ItemsAt(u, [], strict)
  }

  /** Items from the next one on, added to those already read. */
  function ItemsAt(t: string, items: seq<Value>, strict: bool): (r: Reading<Value>)
    ensures r.Ok? ==> |r.value.1| < |t|
    decreases |t|, 2
  {
    var (v, t1) :- ValueAt(SkipWs(t), strict);
    var u := SkipWs(t1);
    if u == [] then Err(UnterminatedArray)
    else if u[0] == ',' then ItemsAt(u[1..], items + [v], strict)
    else if u[0] == ']' then Ok((Array(items + [v]), u[1..]))
    else Err(ExpectedCommaOrBracket)
  }

  /** A whole document. */
  function Document(t: string, strict: bool): Result<Value, ParseError> {
    var (v, rest) :- ValueAt(SkipWs(t), strict);
    if SkipWs(rest) == [] then Ok(v) else Err(Trailing)
  }
}
