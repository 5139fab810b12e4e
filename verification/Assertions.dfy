/** The assertion language: tokens, grammar and three-valued evaluation. */
module Assertions {
  import opened Outcomes
  import opened Decimals
  import opened JsNumbers
  import Utf16

  // ---------- tokens ----------

  datatype Operator = Lt | Le | Gt | Ge | Eq | Ne

  datatype Literal = Num(n: JsNumber) | Str(s: string) | Boolean(b: bool)

  datatype Token =
    | Lit(lit: Literal) | Sym(name: string) | Op(op: Operator)
    | LParen | RParen | LBrack | RBrack | Comma | And | Or | Not | In

  datatype SyntaxError =
    | UnterminatedString | BadOperator | UnexpectedCharacter(c: char)
    | TrailingTokens | ExpectedParen | ExpectedBracket | ExpectedLiteral | ExpectedSymbol

  predicate IsSymStart(c: char) { 'a' <= c <= 'z' || c == '_' }

  predicate IsSymChar(c: char) { IsSymStart(c) || IsDigit(c) }

  /** Longest prefix of symbol characters. */
  function SymRun(t: string): (n: nat)
    ensures n <= |t| && forall i | 0 <= i < n :: IsSymChar(t[i])
    ensures n < |t| ==> !IsSymChar(t[n])
  {
    if t != [] && IsSymChar(t[0]) then 1 + SymRun(t[1..]) else 0
  }

  predicate IsNumChar(c: char) { IsDigit(c) || c == '.' }

  function NumRun(t: string): (n: nat)
    ensures n <= |t| && forall i | 0 <= i < n :: IsNumChar(t[i])
    ensures n < |t| ==> !IsNumChar(t[n])
  {
    if t != [] && IsNumChar(t[0]) then 1 + NumRun(t[1..]) else 0
  }

  /** Index of the next quote, or the length. */
  function QuoteRun(t: string): (n: nat)
    ensures n <= |t| && forall i | 0 <= i < n :: t[i] != '"'
    ensures n < |t| ==> t[n] == '"'
  {
    if t != [] && t[0] != '"' then 1 + QuoteRun(t[1..]) else 0
  }

  function WordToken(word: string): Token {
    if word == "true" then Lit(Boolean(true))
    else if word == "false" then Lit(Boolean(false))
    else if word == "in" then In
    else Sym(word)
  }

  /** Whether a '-' after this token starts a numeric literal. */
  predicate ValuePosition(prev: Option<Token>) {
    prev.None? || prev.value.Op? || prev.value.LParen? || prev.value.LBrack? || prev.value.Comma? ||
    prev.value.And? || prev.value.Or? || prev.value.Not? || prev.value.In?
  }

  predicate NextIs(t: string, c: char) { |t| >= 2 && t[1] == c }

  /** Operators of one or two characters, at a '<', '>', '=' or '!'. */
  function OperatorAt(t: string): Option<(Operator, nat)>
    requires t != []
  {
    if NextIs(t, '=') then
      if t[0] == '<' then Some((Le, 2))
      else if t[0] == '>' then Some((Ge, 2))
      else if t[0] == '=' then Some((Eq, 2))
      else Some((Ne, 2))
    else if t[0] == '<' then Some((Lt, 1))
    else if t[0] == '>' then Some((Gt, 1))
    else None
  }

  function Single(c: char): Option<Token> {
    if c == '(' then Some(LParen)
    else if c == ')' then Some(RParen)
    else if c == '[' then Some(LBrack)
    else if c == ']' then Some(RBrack)
    else if c == ',' then Some(Comma)
    else None
  }

  /** Whether a number starts here: at a digit, or at a minus sign in value position. */
  predicate StartsNumber(t: string, prev: Option<Token>)
    requires t != []
  {
    IsDigit(t[0]) || (t[0] == '-' && |t| >= 2 && IsNumChar(t[1]) && ValuePosition(prev))
  }

  /** A number, or a word of the language, or a symbol. */
  function OperandAt(t: string, prev: Option<Token>): (r: Result<(Token, nat), SyntaxError>)
    requires t != []
    ensures r.Ok? ==> 0 < r.value.1 <= |t|
  {
    if StartsNumber(t, prev) then
      var n := 1 + NumRun(t[1..]);
      Ok((Lit(Num(OfDigits(t[..n]))), n))
    else if IsSymStart(t[0]) then
      var n := SymRun(t);
      Ok((WordToken(t[..n]), n))
    else Err(UnexpectedCharacter(t[0]))
  }

  /** The token at a character that is not blank, and its length. */
  function TokenAt(t: string, prev: Option<Token>): (r: Result<(Token, nat), SyntaxError>)
    requires t != []
    ensures r.Ok? ==> 0 < r.value.1 <= |t|
  {
    var c := t[0];
    if Single(c).Some? then Ok((Single(c).value, 1))
    else if c == '&' && NextIs(t, '&') then Ok((And, 2))
    else if c == '|' && NextIs(t, '|') then Ok((Or, 2))
    else if c == '!' && !NextIs(t, '=') then Ok((Not, 1))
    else if c == '"' then
      var n := QuoteRun(t[1..]);
      if n + 1 == |t| then Err(UnterminatedString) else Ok((Lit(Str(t[1..n + 1])), n + 2))
    else if c == '<' || c == '>' || c == '=' || c == '!' then
      if OperatorAt(t).None? then Err(BadOperator) else Ok((Op(OperatorAt(t).value.0), OperatorAt(t).value.1))
    else OperandAt(t, prev)
  }

  predicate IsBlank(c: char) { c == ' ' || c == '\t' }

  /** The tokens of the rest of the text, given the token before it. */
  function TokensFrom(t: string, prev: Option<Token>): Result<seq<Token>, SyntaxError>
    decreases |t|
  {
    if t == [] then Ok([])
    else if IsBlank(t[0]) then TokensFrom(t[1..], prev)
    else
      var (tok, n) :- TokenAt(t, prev);
      var rest :- TokensFrom(t[n..], Some(tok));
      Ok([tok] + rest)
  }

  // ---------- grammar ----------

  datatype Ast =
    | Compare(sym: string, op: Operator, val: Literal)
    | Among(sym: string, vals: seq<Literal>)
    | Both(l: Ast, r: Ast)
    | Either(l: Ast, r: Ast)
    | Negate(e: Ast)
    | Truth(sym: string)

  type Parsed<T> = Result<(T, seq<Token>), SyntaxError>

  function First(ts: seq<Token>): Option<Token> { if ts == [] then None else Some(ts[0]) }

  function ParseOr(ts: seq<Token>): (r: Parsed<Ast>)
    ensures r.Ok? ==> |r.value.1| < |ts|
    decreases |ts|, 4
  {
    var (l, rest) :- ParseAnd(ts);
    MoreOr(l, rest)
  }

  function MoreOr(l: Ast, ts: seq<Token>): (r: Parsed<Ast>)
    ensures r.Ok? ==> |r.value.1| <= |ts|
    decreases |ts|, 5
  {
    if First(ts) == Some(Or) then
      var (right, rest) :- ParseAnd(ts[1..]);
      MoreOr(Either(l, right), rest)
    else Ok((l, ts))
  }

  function ParseAnd(ts: seq<Token>): (r: Parsed<Ast>)
    ensures r.Ok? ==> |r.value.1| < |ts|
    decreases |ts|, 2
  {
    var (l, rest) :- ParseUnary(ts);
    MoreAnd(l, rest)
  }

  function MoreAnd(l: Ast, ts: seq<Token>): (r: Parsed<Ast>)
    ensures r.Ok? ==> |r.value.1| <= |ts|
    decreases |ts|, 3
  {
    if First(ts) == Some(And) then
      var (right, rest) :- ParseUnary(ts[1..]);
      MoreAnd(Both(l, right), rest)
    else Ok((l, ts))
  }

  function ParseUnary(ts: seq<Token>): (r: Parsed<Ast>)
    ensures r.Ok? ==> |r.value.1| < |ts|
    decreases |ts|, 1
  {
    if First(ts) == Some(Not) then
      var (e, rest) :- ParseUnary(ts[1..]);
      Ok((Negate(e), rest))
    else ParsePrimary(ts)
  }

  function ParsePrimary(ts: seq<Token>): (r: Parsed<Ast>)
    ensures r.Ok? ==> |r.value.1| < |ts|
    decreases |ts|, 0
  {
    if First(ts) == Some(LParen) then
      var (e, rest) :- ParseOr(ts[1..]);
      if First(rest) == Some(RParen) then Ok((e, rest[1..])) else Err(ExpectedParen)
    else if ts != [] && ts[0].Sym? then ParseAtom(ts[0].name, ts[1..])
    else Err(ExpectedSymbol)
  }

  /** What follows a symbol: a comparison, a membership test, or nothing. */
  function ParseAtom(sym: string, ts: seq<Token>): (r: Parsed<Ast>)
    ensures r.Ok? ==> |r.value.1| <= |ts|
  {
    if ts != [] && ts[0].Op? then
      var (val, rest) :- ParseLiteral(ts[1..]);
      Ok((Compare(sym, ts[0].op, val), rest))
    else if First(ts) == Some(In) then
      if First(ts[1..]) != Some(LBrack) then Err(ExpectedBracket) else
      var (val, rest) :- ParseLiteral(ts[2..]);
      var (vals, rest') :- MoreLiterals([val], rest);
      if First(rest') == Some(RBrack) then Ok((Among(sym, vals), rest'[1..])) else Err(ExpectedBracket)
    else Ok((Truth(sym), ts))
  }

  function ParseLiteral(ts: seq<Token>): (r: Parsed<Literal>)
    ensures r.Ok? ==> |r.value.1| < |ts|
  {
    if ts != [] && ts[0].Lit? then Ok((ts[0].lit, ts[1..])) else Err(ExpectedLiteral)
  }

  function MoreLiterals(vals: seq<Literal>, ts: seq<Token>): (r: Parsed<seq<Literal>>)
    ensures r.Ok? ==> |r.value.1| <= |ts|
    decreases |ts|
  {
    if First(ts) == Some(Comma) then
      var (val, rest) :- ParseLiteral(ts[1..]);
      MoreLiterals(vals + [val], rest)
    else Ok((vals, ts))
  }

  function ParseTokens(ts: seq<Token>): Result<Ast, SyntaxError> {
    var (e, rest) :- ParseOr(ts);
    if rest == [] then Ok(e) else Err(TrailingTokens)
  }

  function Parse(text: string): Result<Ast, SyntaxError> {
    var ts :- TokensFrom(text, None);
    ParseTokens(ts)
  }

  // ---------- evaluation ----------

  datatype TriState = PASS | FAIL | INDETERMINATE

  function And3(a: TriState, b: TriState): TriState {
    if a == FAIL || b == FAIL then FAIL else if a == PASS && b == PASS then PASS else INDETERMINATE
  }

  function Or3(a: TriState, b: TriState): TriState {
    if a == PASS || b == PASS then PASS else if a == FAIL && b == FAIL then FAIL else INDETERMINATE
  }

  function Not3(a: TriState): TriState {
    match a
    case PASS => FAIL
    case FAIL => PASS
    case INDETERMINATE => INDETERMINATE
  }

  function Tri(b: bool): TriState { if b then PASS else FAIL }

  /**
   A symbol's value: that of a literal, or null, an array or an object.  The latter equal no literal
   and are ordered as the primitive they convert to.
   */
  datatype Bound = Plain(lit: Literal) | Foreign(prim: Literal) {
    function Primitive(): Literal { if Plain? then lit else prim }
  }

  /** A symbol that is absent has no evidence. */
  type Symbols = map<string, Bound>

  datatype Reason =
    | NoReceipts(sym: string) | NotBoolean(sym: string)
    | NumericVsString | NumericVsBoolean | StringVsOther
    | ParseFailure(e: SyntaxError)

  predicate StrictEqual(a: Literal, b: Literal) {
    match (a, b)
    case (Num(m), Num(n)) => JsNumbers.Same(m, n)
    case _ => a == b && !a.Num?
  }

  function ToNumber(v: Literal): JsNumber {
    match v
    case Num(n) => n
    case Str(s) => OfString(s)
    case Boolean(b) => if b then Finite(RawNum(false, "1", 0)) else JS_ZERO
  }

  /** a < b: two strings by code units, anything else as numbers. */
  predicate LessThan(a: Literal, b: Literal) {
    if a.Str? && b.Str? then Utf16.Before(a.s, b.s) else Below(ToNumber(a), ToNumber(b))
  }

  /** a <= b: false, like a < b, when either side is not a number. */
  predicate AtMost(a: Literal, b: Literal) {
    if a.Str? && b.Str? then !Utf16.Before(b.s, a.s)
    else
      var (m, n) := (ToNumber(a), ToNumber(b));
      Below(m, n) || JsNumbers.Same(m, n)
  }

  predicate Equals(a: Bound, b: Literal) { a.Plain? && StrictEqual(a.lit, b) }

  predicate CompareValues(a: Bound, op: Operator, b: Literal) {
    match op
    case Eq => Equals(a, b)
    case Ne => !Equals(a, b)
    case Lt => LessThan(a.Primitive(), b)
    case Le => AtMost(a.Primitive(), b)
    case Gt => LessThan(b, a.Primitive())
    case Ge => AtMost(b, a.Primitive())
  }

  /** Types that may not be compared, with the reason reported. */
  function Mismatch(v: Bound, op: Operator, lit: Literal): Option<Reason> {
    if v.Foreign? then None
    else if v.lit.Num? && lit.Str? then Some(NumericVsString)
    else if v.lit.Num? && lit.Boolean? then Some(NumericVsBoolean)
    else if v.lit.Str? && !lit.Str? && op != Eq && op != Ne then Some(StringVsOther)
    else None
  }

  function EvalAtom(a: Ast, syms: Symbols): (TriState, seq<Reason>)
    requires !a.Both? && !a.Either? && !a.Negate?
  {
    if a.sym !in syms then (INDETERMINATE, [NoReceipts(a.sym)])
    else
      var v := syms[a.sym];
      match a
      case Truth(sym) => if v.Plain? && v.lit.Boolean? then (Tri(v.lit.b), []) else (INDETERMINATE, [NotBoolean(sym)])
      case Among(_, vals) => (Tri(exists i | 0 <= i < |vals| :: Equals(v, vals[i])), [])
      case Compare(_, op, lit) =>
        if Mismatch(v, op, lit).Some? then (INDETERMINATE, [Mismatch(v, op, lit).value])
        else (Tri(CompareValues(v, op, lit)), [])
  }

  /** The verdict and the reasons collected left to right. */
  function Eval(a: Ast, syms: Symbols): (TriState, seq<Reason>) {
    match a
    case Both(l, r) =>
      var (x, e) := Eval(l, syms);
      var (y, f) := Eval(r, syms);
      (And3(x, y), e + f)
    case Either(l, r) =>
      var (x, e) := Eval(l, syms);
      var (y, f) := Eval(r, syms);
      (Or3(x, y), e + f)
    case Negate(e) =>
      var (x, f) := Eval(e, syms);
      (Not3(x), f)
    case _ => EvalAtom(a, syms)
  }

  datatype Verdict = Verdict(result: TriState, error: Option<Reason>)

  /** Parse and evaluate; a parse failure is indeterminate. */
  function Evaluate(text: string, syms: Symbols): Verdict {
    match Parse(text)
    case Err(e) => Verdict(INDETERMINATE, Some(ParseFailure(e)))
    case Ok(a) =>
      var (result, reasons) := Eval(a, syms);
      Verdict(result, if result == INDETERMINATE && reasons != [] then Some(reasons[0]) else None)
  }

  // ---------- soundness of the third value ----------

  /** More evidence: every bound symbol keeps its value. */
  predicate Extends(more: Symbols, syms: Symbols) { forall k | k in syms :: k in more && more[k] == syms[k] }

  lemma {:induction false} EvalMonotone(a: Ast, syms: Symbols, more: Symbols)
    requires Extends(more, syms) && Eval(a, syms).0 != INDETERMINATE
    ensures Eval(a, more).0 == Eval(a, syms).0
    decreases a
  {
    match a
    case Both(l, r) =>
      if Eval(l, syms).0 != INDETERMINATE { EvalMonotone(l, syms, more); }
      if Eval(r, syms).0 != INDETERMINATE { EvalMonotone(r, syms, more); }
    case Either(l, r) =>
      if Eval(l, syms).0 != INDETERMINATE { EvalMonotone(l, syms, more); }
      if Eval(r, syms).0 != INDETERMINATE { EvalMonotone(r, syms, more); }
    case Negate(e) => EvalMonotone(e, syms, more);
    case _ =>
  }

  lemma {:induction false} IndeterminateHasReason(a: Ast, syms: Symbols)
    requires Eval(a, syms).0 == INDETERMINATE
    ensures Eval(a, syms).1 != []
    decreases a
  {
    match a
    case Both(l, r) =>
      if Eval(l, syms).0 == INDETERMINATE { IndeterminateHasReason(l, syms); } else { IndeterminateHasReason(r, syms); }
    case Either(l, r) =>
      if Eval(l, syms).0 == INDETERMINATE { IndeterminateHasReason(l, syms); } else { IndeterminateHasReason(r, syms); }
    case Negate(e) => IndeterminateHasReason(e, syms);
    case _ =>
  }

  /** Every atom of the expression has a definite verdict. */
  predicate Definite(a: Ast, syms: Symbols) {
    match a
    case Both(l, r) => Definite(l, syms) && Definite(r, syms)
    case Either(l, r) => Definite(l, syms) && Definite(r, syms)
    case Negate(e) => Definite(e, syms)
    case _ => EvalAtom(a, syms).0 != INDETERMINATE
  }

  /** The two-valued reading. */
  predicate Classical(a: Ast, syms: Symbols) {
    match a
    case Both(l, r) => Classical(l, syms) && Classical(r, syms)
    case Either(l, r) => Classical(l, syms) || Classical(r, syms)
    case Negate(e) => !Classical(e, syms)
    case _ => EvalAtom(a, syms).0 == PASS
  }

  lemma {:induction false} EvalClassical(a: Ast, syms: Symbols)
    requires Definite(a, syms)
    ensures Eval(a, syms).0 == Tri(Classical(a, syms))
    decreases a
  {
    match a
    case Both(l, r) => EvalClassical(l, syms); EvalClassical(r, syms);
    case Either(l, r) => EvalClassical(l, syms); EvalClassical(r, syms);
    case Negate(e) => EvalClassical(e, syms);
    case _ =>
  }

  /** Any way of settling the unsettled atoms agrees with a definite verdict. */
  predicate Settles(choice: Ast -> bool, a: Ast, syms: Symbols) {
    match a
    case Both(l, r) => Settles(choice, l, syms) && Settles(choice, r, syms)
    case Either(l, r) => Settles(choice, l, syms) && Settles(choice, r, syms)
    case Negate(e) => Settles(choice, e, syms)
    case _ => EvalAtom(a, syms).0 != INDETERMINATE ==> (choice(a) <==> EvalAtom(a, syms).0 == PASS)
  }

  predicate Settled(choice: Ast -> bool, a: Ast) {
    match a
    case Both(l, r) => Settled(choice, l) && Settled(choice, r)
    case Either(l, r) => Settled(choice, l) || Settled(choice, r)
    case Negate(e) => !Settled(choice, e)
    case _ => choice(a)
  }

  lemma {:induction false} DefiniteWhateverIsMissing(a: Ast, syms: Symbols, choice: Ast -> bool)
    requires Settles(choice, a, syms) && Eval(a, syms).0 != INDETERMINATE
    ensures Eval(a, syms).0 == Tri(Settled(choice, a))
    decreases a
  {
    match a
    case Both(l, r) =>
      if Eval(l, syms).0 != INDETERMINATE { DefiniteWhateverIsMissing(l, syms, choice); }
      if Eval(r, syms).0 != INDETERMINATE { DefiniteWhateverIsMissing(r, syms, choice); }
    case Either(l, r) =>
      if Eval(l, syms).0 != INDETERMINATE { DefiniteWhateverIsMissing(l, syms, choice); }
      if Eval(r, syms).0 != INDETERMINATE { DefiniteWhateverIsMissing(r, syms, choice); }
    case Negate(e) => DefiniteWhateverIsMissing(e, syms, choice);
    case _ =>
  }

  /**
   For every text: a definite verdict survives more evidence, an indeterminate one has a
   reason, and with every atom definite the verdict is the classical one.
   */
  lemma EvaluateSound(text: string, syms: Symbols, more: Symbols)
    requires Extends(more, syms)
    ensures Evaluate(text, syms).result != INDETERMINATE ==> Evaluate(text, more).result == Evaluate(text, syms).result
    ensures Evaluate(text, syms).result == INDETERMINATE <==> Evaluate(text, syms).error.Some?
    ensures Parse(text).Ok? && Definite(Parse(text).value, syms) ==>
      Evaluate(text, syms).result == Tri(Classical(Parse(text).value, syms))
  {
    if Parse(text).Ok? {
      var a := Parse(text).value;
      if Eval(a, syms).0 != INDETERMINATE { EvalMonotone(a, syms, more); } else { IndeterminateHasReason(a, syms); }
      if Definite(a, syms) { EvalClassical(a, syms); }
    }
  }
}
