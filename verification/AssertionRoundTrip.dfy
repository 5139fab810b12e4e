/**
 Printing an assertion with the fewest parentheses, and reading it back.

 Two gaps are closed one after the other.  Tokens: an expression is parsed from its own tokens, up to
 those that may still extend it, by induction on the expression.  Text: every token is read back from
 its spelling followed by a space, including a minus sign, which the tokenizer takes for part of a
 number only where a value may stand.
 */
module AssertionRoundTrip {
  import opened Outcomes
  import D = Decimals
  import opened JsNumbers
  import opened Assertions

  // ---------- printing ----------

  /** How tightly the outermost operator binds: 0 for ||, 1 for &&, 2 for the rest. */
  function Binding(a: Ast): nat { if a.Either? then 0 else if a.Both? then 1 else 2 }

  function ListTokens(vals: seq<Literal>): seq<Token>
    requires vals != []
  {
    if |vals| == 1 then [Lit(vals[0])] else [Lit(vals[0]), Comma] + ListTokens(vals[1..])
  }

  /** The expressions that have a spelling. */
  predicate Spellable(a: Ast) {
    match a
    case Both(l, r) => Spellable(l) && Spellable(r)
    case Either(l, r) => Spellable(l) && Spellable(r)
    case Negate(e) => Spellable(e)
    case Truth(sym) => IsName(sym)
    case Compare(sym, _, val) => IsName(sym) && IsSpelled(val)
    case Among(sym, vals) => IsName(sym) && vals != [] && forall i | 0 <= i < |vals| :: IsSpelled(vals[i])
  }

  /** A symbol that is not one of the three words of the language. */
  predicate IsName(s: string) {
    s != [] && IsSymStart(s[0]) && (forall i | 0 <= i < |s| :: IsSymChar(s[i])) &&
    s != "true" && s != "false" && s != "in"
  }

  /** A literal with a spelling: no quote inside a string, and a finite number. */
  predicate IsSpelled(v: Literal) {
    match v
    case Num(n) => n.Finite? && !D.Overflows(n.num)
    case Str(s) => '"' !in s
    case Boolean(_) => true
  }

  /** The tokens of an expression where an operator at least this tight is expected. */
  function Tokens(a: Ast, level: nat): seq<Token>
    requires Spellable(a)
    decreases a, level
  {
    if Binding(a) < level then [LParen] + Tokens(a, 0) + [RParen]
    else match a
      case Either(l, r) => Tokens(l, 0) + [Or] + Tokens(r, 1)
      case Both(l, r) => Tokens(l, 1) + [And] + Tokens(r, 2)
      case Negate(e) => [Not] + Tokens(e, 2)
      case Truth(sym) => [Sym(sym)]
      case Compare(sym, op, val) => [Sym(sym), Op(op), Lit(val)]
      case Among(sym, vals) => [Sym(sym), In, LBrack] + ListTokens(vals) + [RBrack]
  }

  // ---------- parsing the tokens ----------

  /** Tokens that can follow a complete operand. */
  predicate Closes(ts: seq<Token>) { ts == [] || ts[0].RParen? || ts[0].And? || ts[0].Or? }

  lemma {:induction false} ParseList(vals: seq<Literal>, seen: seq<Literal>, rest: seq<Token>)
    requires vals != [] && First(rest) != Some(Comma)
    ensures var ts := ListTokens(vals) + rest;
      ParseLiteral(ts).Ok? && ParseLiteral(ts).value.0 == vals[0] &&
      MoreLiterals(seen + [vals[0]], ParseLiteral(ts).value.1) == Ok((seen + vals, rest))
    decreases |vals|
  {
    var ts := ListTokens(vals) + rest;
    if |vals| == 1 {
      assert ts[1..] == rest && vals == [vals[0]];
    } else {
      var more := ListTokens(vals[1..]) + rest;
      assert ts[1..] == [Comma] + more && ts[1..][1..] == more;
      ParseList(vals[1..], seen + [vals[0]], rest);
      assert seen + [vals[0]] + vals[1..] == seen + vals;
    }
  }

  lemma ParseAmong(sym: string, vals: seq<Literal>, rest: seq<Token>)
    requires vals != []
    ensures ParseAtom(sym, [In, LBrack] + ListTokens(vals) + [RBrack] + rest) == Ok((Among(sym, vals), rest))
  {
    var list := ListTokens(vals) + ([RBrack] + rest);
    var ts := [In, LBrack] + ListTokens(vals) + [RBrack] + rest;
    assert ts == [In, LBrack] + list && ts[2..] == list && ts[1..][0] == LBrack;
    ParseList(vals, [], [RBrack] + rest);
    assert [] + [vals[0]] == [vals[0]] && [] + vals == vals;
    assert ([RBrack] + rest)[1..] == rest;
  }

  lemma ParseLeaf(a: Ast, rest: seq<Token>)
    requires Spellable(a) && (a.Truth? || a.Compare? || a.Among?) && Closes(rest)
    ensures ParseUnary(Tokens(a, 2) + rest) == Ok((a, rest))
  {
    hide ParseAtom;
    var ts := Tokens(a, 2) + rest;
    assert ts[0] == Sym(a.sym);
    assert ParseUnary(ts) == ParseAtom(a.sym, ts[1..]);
    match a
    case Truth(sym) =>
      assert ts[1..] == rest;
      ParseTruth(sym, rest);
    case Compare(sym, op, val) =>
      assert ts[1..] == [Op(op), Lit(val)] + rest;
      ParseCompare(sym, op, val, rest);
    case Among(sym, vals) =>
      assert ts[1..] == [In, LBrack] + ListTokens(vals) + [RBrack] + rest;
      ParseAmong(sym, vals, rest);
  }

  lemma ParseTruth(sym: string, rest: seq<Token>)
    requires Closes(rest)
    ensures ParseAtom(sym, rest) == Ok((Truth(sym), rest))
  {
  }

  lemma ParseCompare(sym: string, op: Operator, val: Literal, rest: seq<Token>)
    ensures ParseAtom(sym, [Op(op), Lit(val)] + rest) == Ok((Compare(sym, op, val), rest))
  {
    var ts := [Op(op), Lit(val)] + rest;
    assert ts[1..] == [Lit(val)] + rest && ts[1..][1..] == rest;
  }

  /** The order in which the three lemmas below call each other on one expression. */
  function Turn(a: Ast, level: nat): nat
    requires level < 3
  {
    (Binding(a) + 3 - level) % 3
  }

  /** A printed operand is parsed whole. */
  lemma {:induction false} ParseOperand(a: Ast, rest: seq<Token>)
    requires Spellable(a) && Closes(rest)
    ensures ParseUnary(Tokens(a, 2) + rest) == Ok((a, rest))
    decreases a, Turn(a, 2)
  {
    var ts := Tokens(a, 2) + rest;
    if Binding(a) < 2 {
      var inner := Tokens(a, 0) + ([RParen] + rest);
      assert ts == [LParen] + inner && ts[1..] == inner;
      ParseSum(a, [RParen] + rest);
      assert ([RParen] + rest)[1..] == rest;
    } else if a.Negate? {
      assert ts[1..] == Tokens(a.e, 2) + rest;
      ParseOperand(a.e, rest);
    } else {
      ParseLeaf(a, rest);
    }
  }

  /** A printed conjunction is parsed up to the tokens that may extend it. */
  lemma {:induction false} ParseProduct(a: Ast, rest: seq<Token>)
    requires Spellable(a) && Closes(rest)
    ensures ParseAnd(Tokens(a, 1) + rest) == MoreAnd(a, rest)
    decreases a, Turn(a, 1)
  {
    if a.Both? {
      var right := Tokens(a.r, 2) + rest;
      assert Tokens(a, 1) + rest == Tokens(a.l, 1) + ([And] + right);
      ParseProduct(a.l, [And] + right);
      assert ([And] + right)[1..] == right;
      ParseOperand(a.r, rest);
    } else {
      assert Tokens(a, 1) == Tokens(a, 2);
      ParseOperand(a, rest);
    }
  }

  lemma {:induction false} ParseSum(a: Ast, rest: seq<Token>)
    requires Spellable(a) && Closes(rest) && First(rest) != Some(And)
    ensures ParseOr(Tokens(a, 0) + rest) == MoreOr(a, rest)
    decreases a, Turn(a, 0)
  {
    if a.Either? {
      var right := Tokens(a.r, 1) + rest;
      assert Tokens(a, 0) + rest == Tokens(a.l, 0) + ([Or] + right);
      ParseSum(a.l, [Or] + right);
      assert ([Or] + right)[1..] == right;
      ParseProduct(a.r, rest);
    } else {
      assert Tokens(a, 0) == Tokens(a, 1);
      ParseProduct(a, rest);
    }
  }

  // ---------- spelling the tokens ----------

  function SpellOperator(op: Operator): string {
    match op
    case Lt => "<"
    case Le => "<="
    case Gt => ">"
    case Ge => ">="
    case Eq => "=="
    case Ne => "!="
  }

  function SpellNumber(n: D.Num): string { D.Spell(D.PlainLiteral(n)) }

  function SpellLiteral(v: Literal): string
    requires IsSpelled(v)
  {
    match v
    case Num(n) => SpellNumber(n.num)
    case Str(s) => "\"" + s + "\""
    case Boolean(b) => if b then "true" else "false"
  }

  predicate IsSpelledToken(tok: Token) {
    match tok
    case Lit(v) => IsSpelled(v)
    case Sym(name) => IsName(name)
    case _ => true
  }

  function SpellToken(tok: Token): string
    requires IsSpelledToken(tok)
  {
    match tok
    case Lit(v) => SpellLiteral(v)
    case Sym(name) => name
    case Op(op) => SpellOperator(op)
    case LParen => "("
    case RParen => ")"
    case LBrack => "["
    case RBrack => "]"
    case Comma => ","
    case And => "&&"
    case Or => "||"
    case Not => "!"
    case In => "in"
  }

  /** A token with a spelling; if a literal, it stands where a minus sign is read as its own. */
  predicate Fits(ts: seq<Token>, i: nat)
    requires i < |ts|
  {
    IsSpelledToken(ts[i]) && (ts[i].Lit? ==> i > 0 && ValuePosition(Some(ts[i - 1])))
  }

  predicate Placed(ts: seq<Token>) { forall i | 0 <= i < |ts| :: Fits(ts, i) }

  predicate AllSpelled(ts: seq<Token>) { forall i | 0 <= i < |ts| :: IsSpelledToken(ts[i]) }

  lemma PlacedSpelled(ts: seq<Token>, i: nat)
    requires Placed(ts) && i <= |ts|
    ensures AllSpelled(ts[i..])
  {
    forall j | 0 <= j < |ts[i..]|
      ensures IsSpelledToken(ts[i..][j])
    {
      assert Fits(ts, i + j);
    }
  }

  /** Tokens separated by spaces. */
  function SpellAll(ts: seq<Token>): string
    requires AllSpelled(ts)
  {
    if ts == [] then "" else SpellToken(ts[0]) + " " + SpellAll(ts[1..])
  }

  // ---------- reading one token back ----------

  lemma {:induction false} SymRunExact(s: string, rest: string)
    requires (forall i | 0 <= i < |s| :: IsSymChar(s[i])) && (rest == [] || !IsSymChar(rest[0]))
    ensures SymRun(s + rest) == |s|
  {
    if s == [] {
      assert s + rest == rest;
    } else {
      assert (s + rest)[1..] == s[1..] + rest;
      SymRunExact(s[1..], rest);
    }
  }

  lemma {:induction false} NumRunExact(s: string, rest: string)
    requires (forall i | 0 <= i < |s| :: IsNumChar(s[i])) && (rest == [] || !IsNumChar(rest[0]))
    ensures NumRun(s + rest) == |s|
  {
    if s == [] {
      assert s + rest == rest;
    } else {
      assert (s + rest)[1..] == s[1..] + rest;
      NumRunExact(s[1..], rest);
    }
  }

  lemma {:induction false} QuoteRunExact(s: string, rest: string)
    requires '"' !in s
    ensures QuoteRun(s + "\"" + rest) == |s|
  {
    if s == [] {
      assert s + "\"" + rest == "\"" + rest;
    } else {
      assert s[0] in s && '"' !in s[1..];
      assert (s + "\"" + rest)[1..] == s[1..] + "\"" + rest;
      QuoteRunExact(s[1..], rest);
    }
  }

  lemma ReadWord(word: string, rest: string, prev: Option<Token>)
    requires word != [] && IsSymStart(word[0]) && forall i | 0 <= i < |word| :: IsSymChar(word[i])
    ensures TokenAt(word + " " + rest, prev) == Ok((WordToken(word), |word|))
  {
    var t := word + " " + rest;
    assert t == word + (" " + rest) && t[0] == word[0] && t[..|word|] == word;
    SymRunExact(word, " " + rest);
  }

  lemma ReadString(s: string, rest: string, prev: Option<Token>)
    requires '"' !in s
    ensures TokenAt("\"" + s + "\"" + rest, prev) == Ok((Lit(Str(s)), |s| + 2))
  {
    var t := "\"" + s + "\"" + rest;
    assert t[1..] == s + "\"" + rest && t[1..|s| + 1] == s;
    QuoteRunExact(s, rest);
  }

  /** Digits and points, after an optional minus sign. */
  predicate IsNumeric(s: string) {
    s != [] && (D.IsDigit(s[0]) || (s[0] == '-' && |s| > 1)) && forall i | 0 < i < |s| :: IsNumChar(s[i])
  }

  lemma NumberShape(l: D.Literal)
    requires D.Tidy(l) && !l.mark
    ensures IsNumeric(D.Spell(l))
  {
    var body := l.whole + D.SpellFraction(l);
    assert D.Spell(l) == (if l.neg then "-" else "") + body;
    assert forall i | 0 <= i < |body| :: IsNumChar(body[i]);
    assert body[0] == l.whole[0];
  }

  lemma OperandFirst(t: string, prev: Option<Token>)
    requires t != [] && (D.IsDigit(t[0]) || t[0] == '-')
    ensures TokenAt(t, prev) == OperandAt(t, prev)
  {
    hide OperandAt;
  }

  lemma ReadDigits(s: string, rest: string, prev: Option<Token>)
    requires IsNumeric(s) && ValuePosition(prev)
    ensures TokenAt(s + (" " + rest), prev) == Ok((Lit(Num(OfDigits(s))), |s|))
  {
    hide OfDigits;
    var t := s + (" " + rest);
    OperandFirst(t, prev);
    assert t[0] == s[0] && t[1..] == s[1..] + (" " + rest);
    NumRunExact(s[1..], " " + rest);
    assert StartsNumber(t, prev) by { if s[0] == '-' { assert t[1] == s[1]; } }
    assert t[..|s|] == s;
  }

  lemma NumberValue(n: D.Num)
    requires !D.Overflows(n)
    ensures OfDigits(SpellNumber(n)) == Finite(n)
  {
    D.PlainReads(n);
    D.LexSpelled(D.PlainLiteral(n), []);
    assert SpellNumber(n) + [] == SpellNumber(n);
  }

  lemma SpelledNumeric(n: D.Num)
    ensures var s := SpellNumber(n);
      IsNumeric(s) && s != [] && !IsBlank(s[0])
  {
    D.PlainReads(n);
    hide D.Overflows;
    NumberShape(D.PlainLiteral(n));
  }

  lemma ReadNumber(n: D.Num, rest: string, prev: Option<Token>)
    requires !D.Overflows(n) && ValuePosition(prev)
    ensures var s := SpellNumber(n);
      s != [] && !IsBlank(s[0]) && TokenAt(s + " " + rest, prev) == Ok((Lit(Num(Finite(n))), |s|))
  {
    hide TokenAt, OfDigits, D.Overflows, IsNumeric, ValuePosition, SpellNumber;
    SpelledNumeric(n);
    var s := SpellNumber(n);
    ReadDigits(s, rest, prev);
    assert s + " " + rest == s + (" " + rest);
    NumberValue(n);
  }

  lemma ReadPunctuation(tok: Token, rest: string, prev: Option<Token>)
    requires !tok.Lit? && !tok.Sym? && !tok.In?
    ensures TokenAt(SpellToken(tok) + " " + rest, prev) == Ok((tok, |SpellToken(tok)|))
  {
    var t := SpellToken(tok) + " " + rest;
    assert t[0] == SpellToken(tok)[0];
    assert t[1] == if |SpellToken(tok)| == 2 then SpellToken(tok)[1] else ' ';
  }

  lemma ReadLit(v: Literal, rest: string, prev: Option<Token>)
    requires IsSpelled(v) && ValuePosition(prev)
    ensures var s := SpellLiteral(v);
      s != [] && !IsBlank(s[0]) && TokenAt(s + " " + rest, prev) == Ok((Lit(v), |s|))
  {
    match v
    case Num(n) => ReadNumber(n.num, rest, prev);
    case Str(s) =>
      ReadString(s, " " + rest, prev);
      assert SpellLiteral(v) + " " + rest == "\"" + s + "\"" + (" " + rest);
    case Boolean(_) => ReadWord(SpellLiteral(v), rest, prev);
  }

  lemma ReadToken(tok: Token, rest: string, prev: Option<Token>)
    requires IsSpelledToken(tok) && (tok.Lit? ==> ValuePosition(prev))
    ensures SpellToken(tok) != [] && !IsBlank(SpellToken(tok)[0])
    ensures TokenAt(SpellToken(tok) + " " + rest, prev) == Ok((tok, |SpellToken(tok)|))
  {
    match tok
    case Lit(v) => ReadLit(v, rest, prev);
    case Sym(name) => ReadWord(name, rest, prev);
    case In => ReadWord("in", rest, prev);
    case _ => ReadPunctuation(tok, rest, prev);
  }

  // ---------- reading all of them back ----------

  lemma {:induction false} ReadTokens(ts: seq<Token>, i: nat)
    requires Placed(ts) && i <= |ts| && AllSpelled(ts[i..])
    ensures TokensFrom(SpellAll(ts[i..]), if i == 0 then None else Some(ts[i - 1])) == Ok(ts[i..])
    decreases |ts| - i
  {
    hide TokenAt, SpellToken;
    if i < |ts| {
      var prev := if i == 0 then None else Some(ts[i - 1]);
      var s, rest := SpellToken(ts[i]), SpellAll(ts[i + 1..]);
      assert ts[i..][1..] == ts[i + 1..] && Fits(ts, i);
      var t := s + " " + rest;
      ReadToken(ts[i], rest, prev);
      assert t[0] == s[0] && t[|s|..] == " " + rest && (" " + rest)[1..] == rest;
      ReadTokens(ts, i + 1);
      assert [ts[i]] + ts[i + 1..] == ts[i..];
    }
  }

  lemma {:induction false} ListPlaced(vals: seq<Literal>, prev: Token)
    requires vals != [] && (forall i | 0 <= i < |vals| :: IsSpelled(vals[i]))
    requires IsSpelledToken(prev) && !prev.Lit? && ValuePosition(Some(prev))
    ensures Placed([prev] + ListTokens(vals))
    decreases |vals|
  {
    if |vals| > 1 {
      ListPlaced(vals[1..], Comma);
      var more := [Comma] + ListTokens(vals[1..]);
      var ts := [prev] + ListTokens(vals);
      assert ts == [prev, Lit(vals[0])] + more;
      forall i | 0 <= i < |ts|
        ensures Fits(ts, i)
      {
        if i >= 2 { assert Fits(more, i - 2); }
      }
    }
  }

  lemma PlacedConcat(a: seq<Token>, b: seq<Token>)
    requires Placed(a) && Placed(b)
    ensures Placed(a + b)
  {
    forall i | 0 <= i < |a + b|
      ensures Fits(a + b, i)
    {
      if i < |a| { assert Fits(a, i); } else { assert Fits(b, i - |a|); }
    }
  }

  lemma PlacedLeaf(a: Ast)
    requires Spellable(a) && (a.Truth? || a.Compare? || a.Among?)
    ensures Placed(Tokens(a, 2))
  {
    if a.Among? {
      ListPlaced(a.vals, LBrack);
      PlacedConcat([Sym(a.sym), In], [LBrack] + ListTokens(a.vals));
      PlacedConcat([Sym(a.sym), In] + ([LBrack] + ListTokens(a.vals)), [RBrack]);
      assert Tokens(a, 2) == [Sym(a.sym), In] + ([LBrack] + ListTokens(a.vals)) + [RBrack];
    }
  }

  lemma {:induction false} TokensPlaced(a: Ast, level: nat)
    requires Spellable(a) && level <= 2
    ensures Placed(Tokens(a, level))
    decreases a, level
  {
    if Binding(a) < level {
      TokensPlaced(a, 0);
      PlacedConcat([LParen], Tokens(a, 0));
      PlacedConcat([LParen] + Tokens(a, 0), [RParen]);
    } else {
      match a
      case Either(l, r) =>
        TokensPlaced(l, 0);
        TokensPlaced(r, 1);
        PlacedConcat(Tokens(l, 0), [Or]);
        PlacedConcat(Tokens(l, 0) + [Or], Tokens(r, 1));
      case Both(l, r) =>
        TokensPlaced(l, 1);
        TokensPlaced(r, 2);
        PlacedConcat(Tokens(l, 1), [And]);
        PlacedConcat(Tokens(l, 1) + [And], Tokens(r, 2));
      case Negate(e) =>
        TokensPlaced(e, 2);
        PlacedConcat([Not], Tokens(e, 2));
      case _ => PlacedLeaf(a); assert Tokens(a, level) == Tokens(a, 2);
    }
  }

  // ---------- the law ----------

  /** The printed form of an expression. */
  function Print(a: Ast): string
    requires Spellable(a)
  {
    TokensPlaced(a, 0);
    PlacedSpelled(Tokens(a, 0), 0);
    SpellAll(Tokens(a, 0)[0..])
  }

  /** Printing with minimal parentheses and parsing gives every expression back. */
  lemma ParsePrint(a: Ast)
    requires Spellable(a)
    ensures Parse(Print(a)) == Ok(a)
  {
    var ts := Tokens(a, 0);
    TokensPlaced(a, 0);
    PlacedSpelled(ts, 0);
    ReadTokens(ts, 0);
    assert ts[0..] == ts;
    ParseSum(a, []);
    assert ts + [] == ts;
  }

  // ---------- what the parser returns ----------

  /** What the tokenizer makes: a finite number does not overflow, a text has no quote, a symbol is a name. */
  predicate IsRead(v: Literal) {
    match v
    case Num(n) => n.Finite? ==> !D.Overflows(n.num)
    case Str(s) => '"' !in s
    case Boolean(_) => true
  }

  predicate IsReadToken(tok: Token) {
    match tok
    case Lit(v) => IsRead(v)
    case Sym(name) => IsName(name)
    case _ => true
  }

  predicate AllRead(ts: seq<Token>) { forall i | 0 <= i < |ts| :: IsReadToken(ts[i]) }

  /** An expression over such tokens. */
  predicate IsReadAst(a: Ast) {
    match a
    case Both(l, r) => IsReadAst(l) && IsReadAst(r)
    case Either(l, r) => IsReadAst(l) && IsReadAst(r)
    case Negate(e) => IsReadAst(e)
    case Truth(sym) => IsName(sym)
    case Compare(sym, _, val) => IsName(sym) && IsRead(val)
    case Among(sym, vals) => IsName(sym) && vals != [] && forall i | 0 <= i < |vals| :: IsRead(vals[i])
  }

  predicate IsFinite(v: Literal) { v.Num? ==> v.n.Finite? }

  /** No numeral of the expression is malformed or too large for a double. */
  predicate FiniteNumerals(a: Ast) {
    match a
    case Both(l, r) => FiniteNumerals(l) && FiniteNumerals(r)
    case Either(l, r) => FiniteNumerals(l) && FiniteNumerals(r)
    case Negate(e) => FiniteNumerals(e)
    case Truth(_) => true
    case Compare(_, _, val) => IsFinite(val)
    case Among(_, vals) => forall i | 0 <= i < |vals| :: IsFinite(vals[i])
  }

  lemma {:induction false} ReadSpellable(a: Ast)
    requires IsReadAst(a)
    ensures Spellable(a) <==> FiniteNumerals(a)
    decreases a
  {
    match a
    case Both(l, r) => ReadSpellable(l); ReadSpellable(r);
    case Either(l, r) => ReadSpellable(l); ReadSpellable(r);
    case Negate(e) => ReadSpellable(e);
    case Truth(_) =>
    case Compare(_, _, val) => ReadSpelled(val);
    case Among(_, vals) => forall i | 0 <= i < |vals| { ReadSpelled(vals[i]); }
  }

  lemma ReadSpelled(v: Literal)
    requires IsRead(v)
    ensures IsSpelled(v) <==> IsFinite(v)
  {
  }

  lemma WordRead(t: string)
    requires t != [] && IsSymStart(t[0])
    ensures IsReadToken(WordToken(t[..SymRun(t)]))
  {
    var n := SymRun(t);
    assert n > 0 && t[..n][0] == t[0];
  }

  lemma DigitsRead(text: string)
    ensures IsRead(Num(OfDigits(text)))
  {
    hide D.Overflows;
  }

  lemma TokenRead(t: string, prev: Option<Token>)
    requires t != [] && TokenAt(t, prev).Ok?
    ensures IsReadToken(TokenAt(t, prev).value.0)
  {
    hide OfDigits, D.Overflows, WordToken;
    if StartsNumber(t, prev) { DigitsRead(t[..1 + NumRun(t[1..])]); }
    if IsSymStart(t[0]) { WordRead(t); }
  }

  lemma {:induction false} TokensRead(t: string, prev: Option<Token>)
    requires TokensFrom(t, prev).Ok?
    ensures AllRead(TokensFrom(t, prev).value)
    decreases |t|
  {
    hide TokenAt, IsReadToken;
    if t != [] {
      if IsBlank(t[0]) {
        TokensRead(t[1..], prev);
      } else {
        TokenRead(t, prev);
        var (tok, n) := TokenAt(t, prev).value;
        TokensRead(t[n..], Some(tok));
      }
    }
  }

  /** A parse that consumes such tokens leaves such tokens, and its expression is over them. */
  predicate Keeps(r: Parsed<Ast>) { r.Ok? ==> IsReadAst(r.value.0) && AllRead(r.value.1) }

  lemma {:induction false} OrRead(ts: seq<Token>)
    requires AllRead(ts)
    ensures Keeps(ParseOr(ts))
    decreases |ts|, 4
  {
    AndRead(ts);
    if ParseAnd(ts).Ok? { MoreOrRead(ParseAnd(ts).value.0, ParseAnd(ts).value.1); }
  }

  lemma {:induction false} MoreOrRead(l: Ast, ts: seq<Token>)
    requires IsReadAst(l) && AllRead(ts)
    ensures Keeps(MoreOr(l, ts))
    decreases |ts|, 5
  {
    if First(ts) == Some(Or) {
      AndRead(ts[1..]);
      if ParseAnd(ts[1..]).Ok? {
        var (right, rest) := ParseAnd(ts[1..]).value;
        MoreOrRead(Either(l, right), rest);
      }
    }
  }

  lemma {:induction false} AndRead(ts: seq<Token>)
    requires AllRead(ts)
    ensures Keeps(ParseAnd(ts))
    decreases |ts|, 2
  {
    UnaryRead(ts);
    if ParseUnary(ts).Ok? { MoreAndRead(ParseUnary(ts).value.0, ParseUnary(ts).value.1); }
  }

  lemma {:induction false} MoreAndRead(l: Ast, ts: seq<Token>)
    requires IsReadAst(l) && AllRead(ts)
    ensures Keeps(MoreAnd(l, ts))
    decreases |ts|, 3
  {
    if First(ts) == Some(And) {
      UnaryRead(ts[1..]);
      if ParseUnary(ts[1..]).Ok? {
        var (right, rest) := ParseUnary(ts[1..]).value;
        MoreAndRead(Both(l, right), rest);
      }
    }
  }

  lemma {:induction false} UnaryRead(ts: seq<Token>)
    requires AllRead(ts)
    ensures Keeps(ParseUnary(ts))
    decreases |ts|, 1
  {
    if First(ts) == Some(Not) { UnaryRead(ts[1..]); } else { PrimaryRead(ts); }
  }

  lemma {:induction false} PrimaryRead(ts: seq<Token>)
    requires AllRead(ts)
    ensures Keeps(ParsePrimary(ts))
    decreases |ts|, 0
  {
    if First(ts) == Some(LParen) {
      OrRead(ts[1..]);
    } else if ts != [] && ts[0].Sym? {
      assert IsReadToken(ts[0]);
      AtomRead(ts[0].name, ts[1..]);
    }
  }

  lemma AtomRead(sym: string, ts: seq<Token>)
    requires IsName(sym) && AllRead(ts)
    ensures Keeps(ParseAtom(sym, ts))
  {
    hide IsName, IsRead;
    if ts != [] && ts[0].Op? {
      LiteralRead(ts[1..]);
    } else if First(ts) == Some(In) && First(ts[1..]) == Some(LBrack) {
      LiteralRead(ts[2..]);
      if ParseLiteral(ts[2..]).Ok? {
        var (val, rest) := ParseLiteral(ts[2..]).value;
        LiteralsRead([val], rest);
      }
    }
  }

  lemma LiteralRead(ts: seq<Token>)
    requires AllRead(ts)
    ensures ParseLiteral(ts).Ok? ==> IsRead(ParseLiteral(ts).value.0) && AllRead(ParseLiteral(ts).value.1)
  {
    if ts != [] { assert IsReadToken(ts[0]); }
  }

  lemma {:induction false} LiteralsRead(vals: seq<Literal>, ts: seq<Token>)
    requires AllRead(ts) && vals != [] && forall i | 0 <= i < |vals| :: IsRead(vals[i])
    ensures var r := MoreLiterals(vals, ts);
      r.Ok? ==> r.value.0 != [] && AllRead(r.value.1) && forall i | 0 <= i < |r.value.0| :: IsRead(r.value.0[i])
    decreases |ts|
  {
    hide IsRead;
    if First(ts) == Some(Comma) {
      LiteralRead(ts[1..]);
      if ParseLiteral(ts[1..]).Ok? {
        var (val, rest) := ParseLiteral(ts[1..]).value;
        LiteralsRead(vals + [val], rest);
      }
    }
  }

  /**
   Every expression the parser returns can be printed and read back, exactly when none of its numerals
   is malformed, as one with two points, or too large.
   */
  lemma PrintParse(text: string)
    requires Parse(text).Ok?
    ensures var a := Parse(text).value;
      (Spellable(a) <==> FiniteNumerals(a)) && (FiniteNumerals(a) ==> Parse(Print(a)) == Ok(a))
  {
    hide TokensFrom, Print;
    TokensRead(text, None);
    OrRead(TokensFrom(text, None).value);
    var a := Parse(text).value;
    ReadSpellable(a);
    if FiniteNumerals(a) { ParsePrint(a); }
  }
}
