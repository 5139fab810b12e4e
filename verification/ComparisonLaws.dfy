/**
 What an assertion's comparisons mean.

 The verdict of a comparison is stated here in terms of the numbers as reals and of the texts as
 sequences of UTF-16 code units, operator by operator, for the very text of the assertion; membership
 is equality with one of the listed literals, a bare symbol is its truth value, and where the language
 refuses to compare, or knows no value, the verdict is indeterminate.
 */
module ComparisonLaws {
  import opened Outcomes
  import opened JsNumbers
  import opened Assertions
  import AssertionRoundTrip
  import D = Decimals
  import Utf16

  // ---------- the meaning of the operators ----------

  predicate NumbersHold(op: Operator, v: real, w: real) {
    match op
    case Lt => v < w
    case Le => v <= w
    case Gt => v > w
    case Ge => v >= w
    case Eq => v == w
    case Ne => v != w
  }

  predicate TextsHold(op: Operator, s: string, t: string) {
    match op
    case Lt => Utf16.Before(s, t)
    case Le => Utf16.Before(s, t) || s == t
    case Gt => Utf16.Before(t, s)
    case Ge => Utf16.Before(t, s) || s == t
    case Eq => s == t
    case Ne => s != t
  }

  /** A definite verdict. */
  function Decided(b: bool): Verdict { Verdict(if b then PASS else FAIL, None) }

  // ---------- the text of a comparison ----------

  function OperatorText(op: Operator): string {
    match op
    case Lt => "<"
    case Le => "<="
    case Gt => ">"
    case Ge => ">="
    case Eq => "=="
    case Ne => "!="
  }

  function ComparisonText(x: string, op: Operator, literal: string): string {
    x + " " + OperatorText(op) + " " + literal
  }

  lemma SkipBlank(t: string, prev: Option<Token>)
    ensures TokensFrom(" " + t, prev) == TokensFrom(t, prev)
  {
    hide TokenAt;
    assert (" " + t)[1..] == t;
  }

  lemma TokensThen(t: string, prev: Option<Token>, tok: Token, n: nat)
    requires t != [] && !IsBlank(t[0]) && TokenAt(t, prev) == Ok((tok, n)) && TokensFrom(t[n..], Some(tok)).Ok?
    ensures TokensFrom(t, prev) == Ok([tok] + TokensFrom(t[n..], Some(tok)).value)
  {
    hide TokenAt;
  }

  lemma TokensOne(t: string, prev: Option<Token>, tok: Token)
    requires t != [] && !IsBlank(t[0]) && TokenAt(t, prev) == Ok((tok, |t|))
    ensures TokensFrom(t, prev) == Ok([tok])
  {
    hide TokenAt;
    assert t[|t|..] == "";
    assert [tok] + [] == [tok];
  }

  /** A literal's text that reads as one token parses to a comparison with it. */
  lemma ComparisonParses(x: string, op: Operator, s: string, lit: Literal)
    requires AssertionRoundTrip.IsName(x) && TokensFrom(s, Some(Op(op))) == Ok([Lit(lit)])
    ensures Parse(ComparisonText(x, op, s)) == Ok(Compare(x, op, lit))
  {
    hide TokenAt, TokensFrom, OperatorText;
    ComparisonTokens(x, op, s, lit);
    var ts := [Sym(x), Op(op), Lit(lit)];
    assert ts[1..] == [Op(op), Lit(lit)] && ts[1..][1..] == [Lit(lit)] && ts[1..][1..][1..] == [];
    AtomTokens(x, op, lit);
  }

  lemma AtomTokens(x: string, op: Operator, lit: Literal)
    ensures ParseTokens([Sym(x), Op(op), Lit(lit)]) == Ok(Compare(x, op, lit))
  {
    var ts := [Sym(x), Op(op), Lit(lit)];
    var a := Compare(x, op, lit);
    assert ts[1..][1..] == [Lit(lit)] && [Lit(lit)][1..] == [];
    assert ParseLiteral([Lit(lit)]) == Ok((lit, []));
    assert ParseAtom(x, ts[1..]) == Ok((a, []));
    assert ParsePrimary(ts) == Ok((a, []));
    assert ParseUnary(ts) == Ok((a, []));
    assert ParseAnd(ts) == Ok((a, [])) && ParseOr(ts) == Ok((a, []));
  }

  lemma OperatorSpelled(op: Operator)
    ensures AssertionRoundTrip.SpellToken(Op(op)) == OperatorText(op) != "" && !IsBlank(OperatorText(op)[0])
  {
  }

  /** The operator and the literal behind it. */
  lemma OperandTokens(op: Operator, s: string, lit: Literal, prev: Token)
    requires TokensFrom(s, Some(Op(op))) == Ok([Lit(lit)])
    ensures TokensFrom(OperatorText(op) + " " + s, Some(prev)) == Ok([Op(op), Lit(lit)])
  {
    hide TokenAt, TokensFrom, OperatorText, IsBlank;
    var spelled := OperatorText(op);
    var t := spelled + " " + s;
    OperatorSpelled(op);
    AssertionRoundTrip.ReadPunctuation(Op(op), s, Some(prev));
    assert t[0] == spelled[0] && t[|spelled|..] == " " + s;
    SkipBlank(s, Some(Op(op)));
    TokensThen(t, Some(prev), Op(op), |spelled|);
    assert [Op(op)] + [Lit(lit)] == [Op(op), Lit(lit)];
  }

  lemma NameFirst(x: string)
    requires AssertionRoundTrip.IsName(x)
    ensures x != "" && !IsBlank(x[0]) && WordToken(x) == Sym(x)
  {
  }

  lemma ComparisonTokens(x: string, op: Operator, s: string, lit: Literal)
    requires AssertionRoundTrip.IsName(x) && TokensFrom(s, Some(Op(op))) == Ok([Lit(lit)])
    ensures TokensFrom(ComparisonText(x, op, s), None) == Ok([Sym(x), Op(op), Lit(lit)])
  {
    hide TokenAt, TokensFrom, OperatorText, IsBlank, WordToken;
    var rest := OperatorText(op) + " " + s;
    var t := x + " " + rest;
    assert t == ComparisonText(x, op, s);
    NameFirst(x);
    AssertionRoundTrip.ReadWord(x, rest, None);
    assert t[0] == x[0] && t[|x|..] == " " + rest;
    SkipBlank(rest, Some(Sym(x)));
    OperandTokens(op, s, lit, Sym(x));
    TokensThen(t, None, Sym(x), |x|);
    assert [Sym(x)] + [Op(op), Lit(lit)] == [Sym(x), Op(op), Lit(lit)];
  }

  function NumberText(n: D.Num): string { AssertionRoundTrip.SpellNumber(n) }

  function QuotedText(s: string): string { "\"" + s + "\"" }

  lemma NumberToken(n: D.Num, op: Operator)
    requires !D.Overflows(n)
    ensures TokensFrom(NumberText(n), Some(Op(op))) == Ok([Lit(Num(Finite(n)))])
  {
    hide TokenAt, OfDigits, D.Overflows;
    var s := NumberText(n);
    D.PlainReads(n);
    AssertionRoundTrip.NumberShape(D.PlainLiteral(n));
    AssertionRoundTrip.NumberValue(n);
    WholeNumber(s, Some(Op(op)));
    TokensOne(s, Some(Op(op)), Lit(Num(Finite(n))));
  }

  lemma WholeNumber(s: string, prev: Option<Token>)
    requires AssertionRoundTrip.IsNumeric(s) && ValuePosition(prev)
    ensures !IsBlank(s[0]) && TokenAt(s, prev) == Ok((Lit(Num(OfDigits(s))), |s|))
  {
    hide OfDigits;
    AssertionRoundTrip.OperandFirst(s, prev);
    AssertionRoundTrip.NumRunExact(s[1..], "");
    assert s[1..] + "" == s[1..] && s[..|s|] == s;
    assert StartsNumber(s, prev) by { if s[0] == '-' { assert IsNumChar(s[1]); } }
  }

  lemma QuotedToken(s: string, op: Operator)
    requires '"' !in s
    ensures TokensFrom(QuotedText(s), Some(Op(op))) == Ok([Lit(Str(s))])
  {
    hide TokenAt;
    AssertionRoundTrip.ReadString(s, "", Some(Op(op)));
    assert QuotedText(s) + "" == QuotedText(s);
    TokensOne(QuotedText(s), Some(Op(op)), Lit(Str(s)));
  }

  // ---------- verdicts ----------

  lemma CompareVerdict(text: string, x: string, op: Operator, lit: Literal, syms: Symbols)
    requires Parse(text) == Ok(Compare(x, op, lit)) && x in syms
    ensures Mismatch(syms[x], op, lit).None? ==> Evaluate(text, syms) == Decided(CompareValues(syms[x], op, lit))
    ensures Mismatch(syms[x], op, lit).Some? ==> Evaluate(text, syms).result == INDETERMINATE
  {
    hide Parse, CompareValues, Mismatch;
  }

  /** A number compares with a numeral as the reals they denote. */
  lemma NumbersCompare(x: string, op: Operator, n: D.Num, m: D.Num, syms: Symbols)
    requires AssertionRoundTrip.IsName(x) && !D.Overflows(n) && x in syms && syms[x] == Plain(Num(Finite(m)))
    ensures Evaluate(ComparisonText(x, op, NumberText(n)), syms) ==
            Decided(NumbersHold(op, D.ValueOf(m), D.ValueOf(n)))
  {
    hide Parse, TokensFrom, D.ValueOf;
    NumberToken(n, op);
    ComparisonParses(x, op, NumberText(n), Num(Finite(n)));
    CompareVerdict(ComparisonText(x, op, NumberText(n)), x, op, Num(Finite(n)), syms);
    if D.ValueOf(m) == D.ValueOf(n) { D.ValueDetermines(m, n); }
  }

  /** A text compares with a quoted text by UTF-16 code units. */
  lemma TextsCompare(x: string, op: Operator, s: string, t: string, syms: Symbols)
    requires AssertionRoundTrip.IsName(x) && '"' !in s && x in syms && syms[x] == Plain(Str(t))
    ensures Evaluate(ComparisonText(x, op, QuotedText(s)), syms) == Decided(TextsHold(op, t, s))
  {
    hide Parse, TokensFrom, Utf16.Before;
    QuotedToken(s, op);
    ComparisonParses(x, op, QuotedText(s), Str(s));
    CompareVerdict(ComparisonText(x, op, QuotedText(s)), x, op, Str(s), syms);
    Utf16.BeforeTotal(s, t);
    Utf16.BeforeStrict(s, t, s);
    Utf16.BeforeStrict(t, s, t);
  }

  /** A number is not compared with a quoted text, nor a text ordered against a numeral; as equals they never are. */
  lemma KindsDiffer(x: string, op: Operator, n: D.Num, s: string, syms: Symbols)
    requires AssertionRoundTrip.IsName(x) && x in syms && syms[x].Plain? && !D.Overflows(n) && '"' !in s
    ensures syms[x].lit.Num? ==> Evaluate(ComparisonText(x, op, QuotedText(s)), syms).result == INDETERMINATE
    ensures syms[x].lit.Str? ==>
      Evaluate(ComparisonText(x, op, NumberText(n)), syms).result ==
      match op
      case Eq => FAIL
      case Ne => PASS
      case _ => INDETERMINATE
  {
    hide Parse, TokensFrom;
    NumberToken(n, op);
    ComparisonParses(x, op, NumberText(n), Num(Finite(n)));
    CompareVerdict(ComparisonText(x, op, NumberText(n)), x, op, Num(Finite(n)), syms);
    QuotedToken(s, op);
    ComparisonParses(x, op, QuotedText(s), Str(s));
    CompareVerdict(ComparisonText(x, op, QuotedText(s)), x, op, Str(s), syms);
  }

  lemma TruthValue()
    ensures D.ValueOf(D.RawNum(false, "1", 0)) == 1.0 && D.ValueOf(D.ZERO) == 0.0
  {
    assert "1"[..0] == [] && D.NatOf("1") == 1;
    assert D.Shift(1.0, 0) == 1.0 && D.Shift(0.0, 1) == 0.0;
  }

  /** A truth value is ordered against a numeral as one or zero, and equals none. */
  lemma TruthsCompare(x: string, op: Operator, n: D.Num, b: bool, syms: Symbols)
    requires AssertionRoundTrip.IsName(x) && !D.Overflows(n) && x in syms && syms[x] == Plain(Boolean(b))
    ensures Evaluate(ComparisonText(x, op, NumberText(n)), syms) ==
            Decided(if op == Eq || op == Ne then op == Ne
                    else NumbersHold(op, if b then 1.0 else 0.0, D.ValueOf(n)))
  {
    hide Parse, TokensFrom, D.ValueOf;
    NumberToken(n, op);
    ComparisonParses(x, op, NumberText(n), Num(Finite(n)));
    CompareVerdict(ComparisonText(x, op, NumberText(n)), x, op, Num(Finite(n)), syms);
    TruthValue();
    var m: D.Num := if b then D.RawNum(false, "1", 0) else D.ZERO;
    if D.ValueOf(m) == D.ValueOf(n) { D.ValueDetermines(m, n); }
  }

  /** Two literals are one value: equal as reals, as texts, or as truth values. */
  predicate OneValue(a: Literal, b: Literal) {
    match (a, b)
    case (Num(Finite(m)), Num(Finite(n))) => D.ValueOf(m) == D.ValueOf(n)
    case (Num(Infinity(s)), Num(Infinity(t))) => s == t
    case (Str(s), Str(t)) => s == t
    case (Boolean(b), Boolean(c)) => b == c
    case _ => false
  }

  lemma EqualIsOneValue(a: Literal, b: Literal)
    ensures StrictEqual(a, b) <==> OneValue(a, b)
  {
    hide D.ValueOf;
    if a.Num? && b.Num? && a.n.Finite? && b.n.Finite? && D.ValueOf(a.n.num) == D.ValueOf(b.n.num) {
      D.ValueDetermines(a.n.num, b.n.num);
    }
  }

  /** Membership is being one value with a listed literal; null, arrays and objects are members of no list. */
  lemma MembershipVerdict(text: string, x: string, vals: seq<Literal>, syms: Symbols)
    requires Parse(text) == Ok(Among(x, vals)) && x in syms
    ensures Evaluate(text, syms) ==
            Decided(syms[x].Plain? && exists i | 0 <= i < |vals| :: OneValue(syms[x].lit, vals[i]))
  {
    hide Parse, StrictEqual, OneValue;
    forall i | 0 <= i < |vals| && syms[x].Plain?
      ensures StrictEqual(syms[x].lit, vals[i]) <==> OneValue(syms[x].lit, vals[i])
    {
      EqualIsOneValue(syms[x].lit, vals[i]);
    }
  }

  /** A bare symbol is its truth value, and without one the verdict is open; so is every atom of an unbound symbol. */
  lemma SymbolVerdict(text: string, a: Ast, syms: Symbols)
    requires Parse(text) == Ok(a) && !a.Both? && !a.Either? && !a.Negate?
    ensures a.sym !in syms ==> Evaluate(text, syms) == Verdict(INDETERMINATE, Some(NoReceipts(a.sym)))
    ensures a.Truth? && a.sym in syms ==>
      Evaluate(text, syms) ==
      if syms[a.sym] == Plain(Boolean(true)) then Decided(true)
      else if syms[a.sym] == Plain(Boolean(false)) then Decided(false)
      else Verdict(INDETERMINATE, Some(NotBoolean(a.sym)))
  {
    hide Parse;
  }

  /** Connectives, on the verdicts of the parts: a failed conjunct or a passed disjunct decides alone. */
  lemma ConnectiveVerdicts(l: Ast, r: Ast, syms: Symbols)
    ensures var x, y := Eval(l, syms).0, Eval(r, syms).0;
      (Eval(Both(l, r), syms).0 == PASS <==> x == PASS && y == PASS) &&
      (Eval(Both(l, r), syms).0 == FAIL <==> x == FAIL || y == FAIL) &&
      (Eval(Either(l, r), syms).0 == PASS <==> x == PASS || y == PASS) &&
      (Eval(Either(l, r), syms).0 == FAIL <==> x == FAIL && y == FAIL) &&
      (Eval(Negate(l), syms).0 == PASS <==> x == FAIL) && (Eval(Negate(l), syms).0 == FAIL <==> x == PASS)
  {
  }
}
