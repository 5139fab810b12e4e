/** The assertion tokenizer and parser as they run: a cursor over the text, a cursor over the tokens. */
module AssertionParser {
  import opened Outcomes
  import opened JsNumbers
  import A = Assertions
  import opened Assertions

  // ---------- the tokenizer ----------

  method SymbolEnd(src: string, i: nat) returns (j: nat)
    requires i <= |src|
    ensures j == i + SymRun(src[i..])
  {
    j := i;
    while j < |src| && IsSymChar(src[j])
      invariant i <= j <= |src| && SymRun(src[i..]) == j - i + SymRun(src[j..])
    {
      assert src[j..][1..] == src[j + 1..];
      j := j + 1;
    }
  }

  method NumberEnd(src: string, i: nat) returns (j: nat)
    requires i <= |src|
    ensures j == i + NumRun(src[i..])
  {
    j := i;
    while j < |src| && IsNumChar(src[j])
      invariant i <= j <= |src| && NumRun(src[i..]) == j - i + NumRun(src[j..])
    {
      assert src[j..][1..] == src[j + 1..];
      j := j + 1;
    }
  }

  method StringEnd(src: string, i: nat) returns (j: nat)
    requires i <= |src|
    ensures j == i + QuoteRun(src[i..])
  {
    j := i;
    while j < |src| && src[j] != '"'
      invariant i <= j <= |src| && QuoteRun(src[i..]) == j - i + QuoteRun(src[j..])
    {
      assert src[j..][1..] == src[j + 1..];
      j := j + 1;
    }
  }

  /** A number, word or symbol at the cursor, and the cursor after it. */
  method ReadOperand(src: string, i: nat, prev: Option<Token>) returns (r: Result<Token, SyntaxError>, j: nat)
    requires i < |src|
    ensures Reads(r, j, OperandAt(src[i..], prev), src, i)
  {
    hide OfDigits, WordToken;
    ghost var t := src[i..];
    j := i;
    if StartsNumber(src[i..], prev) {
      j := NumberEnd(src, i + 1);
      assert t[1..] == src[i + 1..] && t[..j - i] == src[i..j];
      r := Ok(Lit(Num(OfDigits(src[i..j]))));
    } else if IsSymStart(src[i]) {
      j := SymbolEnd(src, i);
      assert t[..j - i] == src[i..j];
      r := Ok(WordToken(src[i..j]));
    } else {
      r := Err(UnexpectedCharacter(src[i]));
    }
  }

  /** The outcome the specification gives for the text at i, with its length as a cursor. */
  ghost predicate Reads(r: Result<Token, SyntaxError>, j: nat, spec: Result<(Token, nat), SyntaxError>,
                        src: string, i: nat)
  {
    match spec
    case Ok(p) => r == Ok(p.0) && j == i + p.1
    case Err(e) => r == Err(e)
  }

  method ReadToken(src: string, i: nat, prev: Option<Token>) returns (r: Result<Token, SyntaxError>, j: nat)
    requires i < |src|
    ensures Reads(r, j, TokenAt(src[i..], prev), src, i)
  {
    hide OperandAt;
    var c := src[i];
    ghost var t := src[i..];
    var next := if i + 1 < |src| then src[i + 1] else ' ';
    assert i + 1 < |src| ==> t[1] == next;
    if Single(c).Some? {
      r, j := Ok(Single(c).value), i + 1;
    } else if c == '&' && next == '&' {
      r, j := Ok(And), i + 2;
    } else if c == '|' && next == '|' {
      r, j := Ok(Or), i + 2;
    } else if c == '!' && next != '=' {
      r, j := Ok(Not), i + 1;
    } else if c == '"' {
      var end := StringEnd(src, i + 1);
      assert t[1..] == src[i + 1..];
      if end >= |src| { return Err(UnterminatedString), i; }
      assert t[1..end - i] == src[i + 1..end];
      r, j := Ok(Lit(Str(src[i + 1..end]))), end + 1;
    } else if c == '<' || c == '>' || c == '=' || c == '!' {
      var op := OperatorAt(src[i..]);
      if op.None? { return Err(BadOperator), i; }
      r, j := Ok(Op(op.value.0)), i + op.value.1;
    } else {
      r, j := ReadOperand(src, i, prev);
    }
  }

  function Last(toks: seq<Token>): Option<Token> { if toks == [] then None else Some(toks[|toks| - 1]) }

  function Prefixed(toks: seq<Token>, rest: Result<seq<Token>, SyntaxError>): Result<seq<Token>, SyntaxError> {
    if rest.Ok? then Ok(toks + rest.value) else rest
  }

  lemma TokensStep(src: string, i: nat, toks: seq<Token>)
    requires i < |src| && !IsBlank(src[i])
    ensures var all := Prefixed(toks, TokensFrom(src[i..], Last(toks)));
      match TokenAt(src[i..], Last(toks))
      case Err(e) => all == Err(e)
      case Ok(p) => i + p.1 <= |src| && all == Prefixed(toks + [p.0], TokensFrom(src[i + p.1..], Some(p.0)))
  {
    hide TokenAt;
    var step := TokenAt(src[i..], Last(toks));
    if step.Ok? {
      var (tok, n) := step.value;
      assert src[i..][n..] == src[i + n..];
      var rest := TokensFrom(src[i + n..], Some(tok));
      if rest.Ok? { assert toks + ([tok] + rest.value) == toks + [tok] + rest.value; }
    }
  }

  method Tokenize(src: string) returns (r: Result<seq<Token>, SyntaxError>)
    ensures r == TokensFrom(src, None)
  {
    hide TokenAt;
    var toks: seq<Token> := [];
    var i := 0;
    assert src[0..] == src;
    PrefixedNone(TokensFrom(src, None));
    while i < |src|
      invariant i <= |src| && TokensFrom(src, None) == Prefixed(toks, TokensFrom(src[i..], Last(toks)))
      decreases |src| - i
    {
      if IsBlank(src[i]) {
        assert src[i..][1..] == src[i + 1..];
        i := i + 1;
      } else {
        TokensStep(src, i, toks);
        var tok, j := ReadToken(src, i, Last(toks));
        if tok.Err? { return Err(tok.error); }
        toks := toks + [tok.value];
        i := j;
      }
    }
    assert toks + [] == toks;
    r := Ok(toks);
  }

  lemma PrefixedNone(rest: Result<seq<Token>, SyntaxError>)
    ensures Prefixed([], rest) == rest
  {
    if rest.Ok? { assert [] + rest.value == rest.value; }
  }

  // ---------- the parser ----------

  class Parser {
    const toks: seq<Token>
    var pos: nat

    constructor (tokens: seq<Token>)
      ensures toks == tokens && pos == 0
    {
      toks, pos := tokens, 0;
    }

    ghost function Rest(): seq<Token>
      reads this
    {
      if pos <= |toks| then toks[pos..] else []
    }

    function Peek(): (t: Option<Token>)
      reads this
      ensures t == First(Rest())
    {
      if pos < |toks| then Some(toks[pos]) else None
    }

    /** The token at the cursor, which moves on even at the end. */
    method Next() returns (t: Option<Token>)
      modifies this
      ensures t == old(Peek()) && pos == old(pos) + 1
      ensures t.Some? ==> pos <= |toks| && Rest() == old(Rest())[1..]
    {
      t := Peek();
      pos := pos + 1;
      assert t.Some? ==> toks[pos - 1..][1..] == toks[pos..];
    }

    ghost predicate Parses<T>(r: Result<T, SyntaxError>, spec: Parsed<T>)
      reads this
    {
      match spec
      case Ok(p) => pos <= |toks| && r == Ok(p.0) && Rest() == p.1
      case Err(e) => r == Err(e)
    }

    method ParseOr() returns (r: Result<Ast, SyntaxError>)
      requires pos <= |toks|
      modifies this
      ensures Parses(r, A.ParseOr(old(Rest())))
      decreases |toks| - pos, 4
    {
      var l :- ParseAnd();
      while Peek() == Some(Or)
        invariant old(pos) < pos <= |toks| && A.ParseOr(old(Rest())) == MoreOr(l, Rest())
        decreases |toks| - pos
      {
        var _ := Next();
        var right :- ParseAnd();
        l := Either(l, right);
      }
      r := Ok(l);
    }

    method ParseAnd() returns (r: Result<Ast, SyntaxError>)
      requires pos <= |toks|
      modifies this
      ensures Parses(r, A.ParseAnd(old(Rest())))
      decreases |toks| - pos, 3
    {
      var l :- ParseUnary();
      while Peek() == Some(And)
        invariant old(pos) < pos <= |toks| && A.ParseAnd(old(Rest())) == MoreAnd(l, Rest())
        decreases |toks| - pos
      {
        var _ := Next();
        var right :- ParseUnary();
        l := Both(l, right);
      }
      r := Ok(l);
    }

    method ParseUnary() returns (r: Result<Ast, SyntaxError>)
      requires pos <= |toks|
      modifies this
      ensures Parses(r, A.ParseUnary(old(Rest())))
      decreases |toks| - pos, 2
    {
      if Peek() == Some(Not) {
        var _ := Next();
        var e :- ParseUnary();
        return Ok(Negate(e));
      }
      r := ParsePrimary();
    }

    method ParsePrimary() returns (r: Result<Ast, SyntaxError>)
      requires pos <= |toks|
      modifies this
      ensures Parses(r, A.ParsePrimary(old(Rest())))
      decreases |toks| - pos, 1
    {
      var tk := Peek();
      if tk == Some(LParen) {
        var _ := Next();
        var e :- ParseOr();
        var close := Next();
        return if close == Some(RParen) then Ok(e) else Err(ExpectedParen);
      }
      if tk.Some? && tk.value.Sym? {
        var _ := Next();
        r := ParseAtom(tk.value.name);
        return;
      }
      r := Err(ExpectedSymbol);
    }

    method ParseAtom(sym: string) returns (r: Result<Ast, SyntaxError>)
      requires pos <= |toks|
      modifies this
      ensures Parses(r, A.ParseAtom(sym, old(Rest())))
    {
      var nx := Peek();
      if nx.Some? && nx.value.Op? {
        var _ := Next();
        var val :- ParseLit();
        return Ok(Compare(sym, nx.value.op, val));
      }
      if nx == Some(In) {
        r := ParseMembership(sym);
        return;
      }
      r := Ok(Truth(sym));
    }

    /** From the word `in`. */
    method ParseMembership(sym: string) returns (r: Result<Ast, SyntaxError>)
      requires pos <= |toks| && Peek() == Some(In)
      modifies this
      ensures Parses(r, A.ParseAtom(sym, old(Rest())))
    {
      ghost var start := Rest();
      var _ := Next();
      var open := Next();
      if open != Some(LBrack) { return Err(ExpectedBracket); }
      assert Rest() == start[2..];
      var first :- ParseLit();
      var vals := [first];
      while Peek() == Some(Comma)
        invariant pos <= |toks|
        invariant ParseLiteral(start[2..]).Ok?
        invariant MoreLiterals([first], ParseLiteral(start[2..]).value.1) == MoreLiterals(vals, Rest())
        decreases |toks| - pos
      {
        var _ := Next();
        var val :- ParseLit();
        vals := vals + [val];
      }
      var close := Next();
      r := if close == Some(RBrack) then Ok(Among(sym, vals)) else Err(ExpectedBracket);
    }

    method ParseLit() returns (r: Result<A.Literal, SyntaxError>)
      requires pos <= |toks|
      modifies this
      ensures Parses(r, ParseLiteral(old(Rest())))
      ensures r.Ok? ==> pos == old(pos) + 1
    {
      var tk := Next();
      r := if tk.Some? && tk.value.Lit? then Ok(tk.value.lit) else Err(ExpectedLiteral);
    }
  }

  /** Tokenize, parse, and refuse trailing tokens. */
  method ParseAssertion(text: string) returns (r: Result<Ast, SyntaxError>)
    ensures r == A.Parse(text)
  {
    var toks :- Tokenize(text);
    var p := new Parser(toks);
    assert toks[0..] == toks;
    var e :- p.ParseOr();
    r := if p.pos == |p.toks| then Ok(e) else Err(TrailingTokens);
  }
}
