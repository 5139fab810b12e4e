/** The recursive-descent parser: a cursor over the text, moved by every method. */
module JsonParser {
  import opened Outcomes
  import opened Decimals
  import opened Json
  import opened JsonGrammar

  predicate Matches(keys: seq<string>, vals: map<string, Value>) {
    && (forall i, j | 0 <= i < j < |keys| :: keys[i] != keys[j])
    && (forall k | k in vals :: k in keys)
    && (forall k | k in keys :: k in vals)
  }

  /** The members a key list and a value table stand for. */
  function MembersOf(keys: seq<string>, vals: map<string, Value>): (r: seq<Member>)
    requires Matches(keys, vals)
    ensures |r| == |keys| && forall i | 0 <= i < |keys| :: r[i] == Member(keys[i], vals[keys[i]])
    ensures DistinctKeys(r)
  {
    seq(|keys|, i requires 0 <= i < |keys| => Member(keys[i], vals[keys[i]]))
  }

  lemma MembersOfKeys(keys: seq<string>, vals: map<string, Value>, k: string)
    requires Matches(keys, vals)
    ensures HasKey(MembersOf(keys, vals), k) <==> k in vals
  {
    var r := MembersOf(keys, vals);
    if k in vals {
      var i :| 0 <= i < |keys| && keys[i] == k;
      assert r[i].key == k;
    }
  }

  /** An object under construction: names in first-insertion order, and their values. */
  class MemberTable {
    var keys: seq<string>
    var vals: map<string, Value>

    ghost predicate Valid()
      reads this
    {
      Matches(keys, vals)
    }

    function Members(): (r: seq<Member>)
      requires Valid()
      reads this
      ensures DistinctKeys(r)
    {
      MembersOf(keys, vals)
    }

    constructor ()
      ensures Valid() && Members() == []
    {
      keys, vals := [], map[];
    }

    method Set(k: string, v: Value)
      requires Valid()
      modifies this
      ensures Valid() && Members() == SetMember(old(Members()), k, v)
    {
      if k !in vals {
        SetFresh(keys, vals, k, v);
        keys := keys + [k];
      } else {
        SetKnown(keys, vals, k, v);
      }
      vals := vals[k := v];
    }

    /** Removing a name keeps the order of the others. */
    method Delete(k: string)
      requires Valid()
      modifies this
      ensures Valid() && Members() == DeleteMember(old(Members()), k)
    {
      if k !in vals {
        MembersOfKeys(keys, vals, k);
        DeleteAbsent(Members(), k);
        return;
      }
      var i := IndexOf(keys, k);
      RemovedMembers(keys, vals, i);
      keys, vals := keys[..i] + keys[i + 1..], map x | x in vals && x != k :: vals[x];
    }
  }

  lemma SetFresh(keys: seq<string>, vals: map<string, Value>, k: string, v: Value)
    requires Matches(keys, vals) && k !in vals
    ensures Matches(keys + [k], vals[k := v])
    ensures MembersOf(keys + [k], vals[k := v]) == SetMember(MembersOf(keys, vals), k, v)
  {
    var ms := MembersOf(keys, vals);
    MembersOfKeys(keys, vals, k);
    SetNew(ms, k, v);
    hide SetMember, HasKey;
    var keys', vals' := keys + [k], vals[k := v];
    assert Matches(keys', vals');
    var r := MembersOf(keys', vals');
    forall i | 0 <= i < |keys|
      ensures r[i] == ms[i]
    {
      assert keys'[i] == keys[i] && keys[i] in vals && keys[i] != k;
    }
    assert r == ms + [Member(k, v)];
  }

  lemma SetKnown(keys: seq<string>, vals: map<string, Value>, k: string, v: Value)
    requires Matches(keys, vals) && k in vals
    ensures Matches(keys, vals[k := v])
    ensures MembersOf(keys, vals[k := v]) == SetMember(MembersOf(keys, vals), k, v)
  {
    var ms := MembersOf(keys, vals);
    MembersOfKeys(keys, vals, k);
    SetExisting(ms, k, v);
    var r := SetMember(ms, k, v);
    forall i | 0 <= i < |keys|
      ensures MembersOf(keys, vals[k := v])[i] == r[i]
    {
      assert ms[i] == Member(keys[i], vals[keys[i]]);
    }
  }

  lemma RemovedMembers(keys: seq<string>, vals: map<string, Value>, i: nat)
    requires Matches(keys, vals) && i < |keys|
    ensures var keys', vals' := keys[..i] + keys[i + 1..], map x | x in vals && x != keys[i] :: vals[x];
      Matches(keys', vals') && MembersOf(keys', vals') == DeleteMember(MembersOf(keys, vals), keys[i])
  {
    var ms := MembersOf(keys, vals);
    var keys', vals' := keys[..i] + keys[i + 1..], map x | x in vals && x != keys[i] :: vals[x];
    RemovedMatches(keys, vals, i);
    DeleteAt(ms, i);
    var r := MembersOf(keys', vals');
    forall j | 0 <= j < |r|
      ensures r[j] == (ms[..i] + ms[i + 1..])[j]
    {
      var l := if j < i then j else j + 1;
      assert keys'[j] == keys[l] && keys[l] != keys[i];
    }
    assert r == ms[..i] + ms[i + 1..];
  }

  method IndexOf(keys: seq<string>, k: string) returns (i: nat)
    requires k in keys
    ensures i < |keys| && keys[i] == k && k !in keys[..i]
  {
    i := 0;
    while keys[i] != k
      invariant i < |keys| && k in keys[i..] && k !in keys[..i]
      decreases |keys| - i
    {
      assert keys[i..] == [keys[i]] + keys[i + 1..];
      assert keys[..i + 1] == keys[..i] + [keys[i]];
      i := i + 1;
    }
  }

  lemma RemovedMatches(keys: seq<string>, vals: map<string, Value>, i: nat)
    requires Matches(keys, vals) && i < |keys|
    ensures Matches(keys[..i] + keys[i + 1..], map x | x in vals && x != keys[i] :: vals[x])
  {
    var r := keys[..i] + keys[i + 1..];
    forall k | k in vals && k != keys[i]
      ensures k in r
    {
      var j :| 0 <= j < |keys| && keys[j] == k;
      assert r[if j < i then j else j - 1] == k;
    }
    forall j, l | 0 <= j < l < |r|
      ensures r[j] != r[l]
    {
      assert r[j] == keys[if j < i then j else j + 1];
      assert r[l] == keys[if l < i then l else l + 1];
    }
  }

  lemma {:induction false} SetExisting(ms: seq<Member>, k: string, v: Value)
    requires DistinctKeys(ms) && HasKey(ms, k)
    ensures var r := SetMember(ms, k, v);
      |r| == |ms| && forall i | 0 <= i < |ms| :: r[i] == if ms[i].key == k then Member(k, v) else ms[i]
  {
    if ms[0].key != k {
      HasKeyCons(ms[0], ms[1..]);
      assert [ms[0]] + ms[1..] == ms;
      SetExisting(ms[1..], k, v);
    }
  }

  lemma {:induction false} DeleteAbsent(ms: seq<Member>, k: string)
    requires !HasKey(ms, k)
    ensures DeleteMember(ms, k) == ms
  {
    if ms != [] {
      assert ms[0].key != k;
      HasKeyCons(ms[0], ms[1..]);
      assert [ms[0]] + ms[1..] == ms;
      DeleteAbsent(ms[1..], k);
    }
  }

  lemma {:induction false} DeleteAt(ms: seq<Member>, i: nat)
    requires DistinctKeys(ms) && i < |ms|
    ensures DeleteMember(ms, ms[i].key) == ms[..i] + ms[i + 1..]
  {
    if i > 0 {
      DeleteAt(ms[1..], i - 1);
      assert ms[..i] == [ms[0]] + ms[1..][..i - 1];
      assert ms[1..][i..] == ms[i + 1..];
    }
  }

  class Parser {
    const s: string
    const strict: bool
    var i: nat

    ghost predicate Valid()
      reads this
    {
      i <= |s|
    }

    /** The text still to be read. */
    ghost function Rest(): string
      requires Valid()
      reads this
    {
      s[i..]
    }

    /** The method returned what the grammar says, and stopped where the grammar stops. */
    ghost predicate Reads<T>(r: Result<T, ParseError>, spec: Reading<T>)
      requires Valid()
      reads this
    {
      match spec
      case Ok(p) => r == Ok(p.0) && Rest() == p.1
      case Err(e) => r == Err(e)
    }

    constructor (text: string, strictMode: bool)
      ensures Valid() && s == text && strict == strictMode && Rest() == text
    {
      s, strict, i := text, strictMode, 0;
    }

    method Ws()
      requires Valid()
      modifies this`i
      ensures Valid() && Rest() == SkipWs(old(Rest())) && i >= old(i)
    {
      while i < |s| && (s[i] == ' ' || s[i] == '\t' || s[i] == '\n' || s[i] == '\r')
        invariant Valid() && i >= old(i)
        invariant SkipWs(Rest()) == SkipWs(old(Rest()))
      {
        assert s[i..][1..] == s[i + 1..];
        i := i + 1;
      }
    }

    method Word(word: string, v: Value) returns (r: Result<Value, ParseError>)
      requires Valid() && word != []
      modifies this`i
      ensures Valid() && Reads(r, WordAt(old(Rest()), word, v)) && i >= old(i)
    {
      if !(word <= s[i..]) { return Err(InvalidLiteral); }
      assert s[i..][|word|..] == s[i + |word|..];
      i := i + |word|;
      r := Ok(v);
    }

    method Hex() returns (r: Result<nat, ParseError>)
      requires Valid() && i < |s|
      modifies this`i
      ensures Valid() && i >= old(i)
      ensures r.Ok? ==> i == old(i) + 5
      ensures match Hex4(old(s[i + 1..]))
              case Ok(p) => r == Ok(p.0) && Rest() == p.1
              case Err(e) => r == Err(e)
    {
      if i + 5 > |s| { return Err(TruncatedHex); }
      var d := s[i + 1..i + 5];
      assert forall j | 0 <= j < 4 :: d[j] == s[i + 1..][j];
      if !(IsHex(d[0]) && IsHex(d[1]) && IsHex(d[2]) && IsHex(d[3])) { return Err(InvalidHex); }
      assert s[i + 1..][4..] == s[i + 5..];
      i := i + 5;
      r := Ok(0x1000 * HexValue(d[0]) + 0x100 * HexValue(d[1]) + 0x10 * HexValue(d[2]) + HexValue(d[3]));
    }

    /** From the 'u' of an escape; rewinds six places when a second escape is no trail surrogate. */
    method Unicode() returns (r: Result<char, ParseError>)
      requires Valid() && i < |s|
      modifies this`i
      ensures Valid() && i >= old(i)
      ensures r.Ok? ==> i > old(i)
      ensures Reads(r, UnicodeEscape(old(s[i + 1..])))
    {
      var unit :- Hex();
      ghost var rest := Rest();
      if IsSurrogate(unit) && i + 1 < |s| && s[i] == '\\' && s[i + 1] == 'u' {
        assert StartsUnicode(rest);
        assert rest[2..] == s[i + 2..];
        i := i + 1;
        var second :- Hex();
        if IsPair(unit, second) { return Ok(Combine(unit, second)); }
        i := i - 6;
        assert Rest() == rest;
        return Ok(REPLACEMENT);
      }
      assert !(IsSurrogate(unit) && StartsUnicode(rest));
      if IsSurrogate(unit) { return Ok(REPLACEMENT); }
      r := Ok(unit as char);
    }

    method Character() returns (r: Result<char, ParseError>)
      requires Valid() && i < |s|
      modifies this`i
      ensures Valid() && i >= old(i)
      ensures r.Ok? ==> i > old(i)
      ensures Reads(r, StringChar(old(Rest())))
    {
      var c := s[i];
      if c == '\\' {
        i := i + 1;
        if i >= |s| { return Err(UnterminatedEscape); }
        assert s[i - 1..][1] == s[i];
        assert s[i - 1..][2..] == s[i + 1..];
        if s[i] == 'u' {
          r := Unicode();
          return;
        }
        var e := SimpleEscape(s[i]);
        if e.None? { return Err(InvalidEscape); }
        i := i + 1;
        return Ok(e.value);
      }
      if c as int < 0x20 { return Err(ControlCharacter); }
      assert s[i..][1..] == s[i + 1..];
      i := i + 1;
      r := Ok(c);
    }

    /** From the opening quote. */
    method Str() returns (r: Result<string, ParseError>)
      requires Valid() && i < |s|
      modifies this`i
      ensures Valid() && i >= old(i)
      ensures r.Ok? ==> i > old(i)
      ensures Reads(r, StringBody(old(s[i + 1..])))
    {
      i := i + 1;
      var text := "";
      ghost var spec := StringBody(Rest());
      PrependNothing(spec);
      while i < |s|
        invariant Valid() && i > old(i)
        invariant spec == Prepend(text, StringBody(Rest()))
        decreases |s| - i
      {
        ghost var here := Rest();
        if s[i] == '"' {
          assert here[1..] == s[i + 1..];
          assert text + "" == text;
          i := i + 1;
          return Ok(text);
        }
        var c :- Character();
        PrependMore(text, c, StringBody(Rest()));
        assert StringBody(here) == Prepend([c], StringBody(Rest()));
        text := text + [c];
      }
      r := Err(UnterminatedString);
    }

    /** A run of digits. */
    method DigitRun() returns (d: Digits)
      requires Valid()
      modifies this`i
      ensures Valid() && i >= old(i) && TakeDigits(old(Rest())) == (d, Rest())
    {
      var start := i;
      while i < |s| && IsDigit(s[i])
        invariant Valid() && start <= i && AllDigits(s[start..i])
      {
        assert s[start..i + 1] == s[start..i] + [s[i]];
        i := i + 1;
      }
      d := s[start..i];
      assert s[start..] == d + s[i..];
      TakeDigitsExact(d, s[i..]);
    }

    method Fraction() returns (dot: bool, frac: Digits)
      requires Valid()
      modifies this`i
      ensures Valid() && i >= old(i) && LexFraction(old(Rest())) == (dot, frac, Rest())
    {
      dot, frac := i < |s| && s[i] == '.', [];
      if dot {
        assert s[i..][1..] == s[i + 1..];
        i := i + 1;
        frac := DigitRun();
      }
    }

    method Exponent() returns (mark: bool, neg: bool, digits: Digits)
      requires Valid()
      modifies this`i
      ensures Valid() && i >= old(i) && LexExponent(old(Rest())) == (mark, neg, digits, Rest())
    {
      hide LexExponent, TakeDigits;
      mark, neg, digits := i < |s| && (s[i] == 'e' || s[i] == 'E'), false, [];
      ghost var t := Rest();
      NoExponent(t);
      if mark {
        assert t[1..] == s[i + 1..];
        i := i + 1;
        if i < |s| && (s[i] == '+' || s[i] == '-') {
          assert t[2..] == s[i + 1..];
          neg := s[i] == '-';
          i := i + 1;
        }
        ghost var start := Rest();
        digits := DigitRun();
        ExponentIs(t, neg, start, digits, Rest());
      }
    }

    method Number() returns (r: Result<Num, ParseError>)
      requires Valid() && i < |s| && (s[i] == '-' || IsDigit(s[i]))
      modifies this`i
      ensures Valid() && i >= old(i) && Reads(r, NumberAt(old(Rest())))
    {
      hide Overflows, ReadLiteral, LexFraction, LexExponent, NumberAt;
      var neg := s[i] == '-';
      if neg {
        assert s[i..][1..] == s[i + 1..];
        i := i + 1;
      }
      var whole := DigitRun();
      var dot, frac := Fraction();
      var mark, expNeg, digits := Exponent();
      var lit := Literal(neg, whole, dot, frac, mark, expNeg, digits);
      NumberIs(old(Rest()), lit, Rest());
      var n := ReadLiteral(lit);
      if n.None? || Overflows(n.value) { return Err(InvalidNumber); }
      r := Ok(n.value);
    }

    method ReadValue() returns (r: Result<Value, ParseError>)
      requires Valid()
      modifies this`i
      ensures Valid() && i >= old(i) && (r.Ok? ==> i > old(i))
      ensures Reads(r, ValueAt(old(Rest()), strict))
      decreases |s| - i, 2
    {
      if i >= |s| { return Err(UnexpectedEnd); }
      var c := s[i];
      assert s[i..][1..] == s[i + 1..];
      if c == '{' {
        r := ReadObject();
      } else if c == '[' {
        r := ReadArray();
      } else if c == '"' {
        var text :- Str();
        r := Ok(String(text));
      } else if c == 't' {
        r := Word("true", Bool(true));
      } else if c == 'f' {
        r := Word("false", Bool(false));
      } else if c == 'n' {
        r := Word("null", Null);
      } else if c == '-' || IsDigit(c) {
        var n :- Number();
        r := Ok(Value.Number(n));
      } else {
        r := Err(UnexpectedCharacter);
      }
    }

    /** From the opening brace. */
    method ReadObject() returns (r: Result<Value, ParseError>)
      requires Valid() && i < |s|
      modifies this`i
      ensures Valid() && i >= old(i) && (r.Ok? ==> i > old(i))
      ensures Reads(r, ObjectAt(old(s[i + 1..]), strict))
      decreases |s| - i, 1
    {
      i := i + 1;
      var obj := new MemberTable();
      Ws();
      if i < |s| && s[i] == '}' {
        assert s[i..][1..] == s[i + 1..];
        i := i + 1;
        return Ok(Object(obj.Members()));
      }
      r := MembersInto(obj);
    }

    /** Members up to the closing brace, added to those of the table. */
    method MembersInto(obj: MemberTable) returns (r: Result<Value, ParseError>)
      requires Valid() && obj.Valid()
      modifies this`i, obj
      ensures Valid() && i >= old(i) && (r.Ok? ==> i > old(i))
      ensures Reads(r, MembersAt(old(Rest()), old(obj.Members()), strict))
      decreases |s| - i, 5
    {
      var more := true;
      while more
        invariant Valid() && obj.Valid() && i >= old(i) && (!more ==> i > old(i))
        invariant MembersAt(old(Rest()), old(obj.Members()), strict) ==
                  if more then MembersAt(Rest(), obj.Members(), strict) else Ok((Object(obj.Members()), Rest()))
        decreases more, |s| - i
      {
        MembersAtStep(Rest(), obj.Members(), strict);
        var step :- MemberThenSeparator(obj);
        obj.Set(step.0, step.1);
        more := step.2;
      }
      r := Ok(Object(obj.Members()));
    }

    /** A member, and whether a comma rather than the closing brace follows it. */
    method MemberThenSeparator(seen: MemberTable) returns (r: Result<(string, Value, bool), ParseError>)
      requires Valid() && seen.Valid()
      modifies this`i
      ensures Valid() && i >= old(i) && (r.Ok? ==> i > old(i))
      ensures Reads(r, MemberStep(old(Rest()), seen.Members(), strict))
      decreases |s| - i, 4
    {
      var k :- Name(seen);
      var v :- ReadValue();
      Ws();
      if i >= |s| { return Err(UnterminatedObject); }
      if s[i] != ',' && s[i] != '}' { return Err(ExpectedCommaOrBrace); }
      assert s[i..][1..] == s[i + 1..];
      i := i + 1;
      r := Ok((k, v, s[i - 1] == ','));
    }

    /** A member name and its colon. */
    method Name(seen: MemberTable) returns (r: Result<string, ParseError>)
      requires Valid() && seen.Valid()
      modifies this`i
      ensures Valid() && i >= old(i) && (r.Ok? ==> i > old(i))
      ensures Reads(r, NameAt(old(Rest()), seen.Members(), strict))
    {
      Ws();
      if i >= |s| || s[i] != '"' { return Err(ExpectedKey); }
      assert s[i..][1..] == s[i + 1..];
      var k :- Str();
      MembersOfKeys(seen.keys, seen.vals, k);
      if strict && k in seen.vals { return Err(DuplicateName(k)); }
      Ws();
      if i >= |s| || s[i] != ':' { return Err(ExpectedColon); }
      assert s[i..][1..] == s[i + 1..];
      i := i + 1;
      Ws();
      r := Ok(k);
    }

    /** An item and the white space around it. */
    method Item() returns (r: Result<Value, ParseError>)
      requires Valid()
      modifies this`i
      ensures Valid() && i >= old(i) && (r.Ok? ==> i > old(i))
      ensures match ValueAt(SkipWs(old(Rest())), strict)
              case Ok(p) => r == Ok(p.0) && Rest() == SkipWs(p.1)
              case Err(e) => r == Err(e)
      decreases |s| - i, 3
    {
      Ws();
      var v :- ReadValue();
      Ws();
      r := Ok(v);
    }

    /** An item, and whether a comma rather than the closing bracket follows it. */
    method ItemThenSeparator() returns (r: Result<(Value, bool), ParseError>)
      requires Valid()
      modifies this`i
      ensures Valid() && i >= old(i) && (r.Ok? ==> i > old(i))
      ensures Reads(r, ItemStep(old(Rest()), strict))
      decreases |s| - i, 4
    {
      var v :- Item();
      if i >= |s| { return Err(UnterminatedArray); }
      if s[i] != ',' && s[i] != ']' { return Err(ExpectedCommaOrBracket); }
      assert s[i..][1..] == s[i + 1..];
      i := i + 1;
      r := Ok((v, s[i - 1] == ','));
    }

    /** From the opening bracket. */
    method ReadArray() returns (r: Result<Value, ParseError>)
      requires Valid() && i < |s|
      modifies this`i
      ensures Valid() && i >= old(i) && (r.Ok? ==> i > old(i))
      ensures Reads(r, ArrayAt(old(s[i + 1..]), strict))
      decreases |s| - i, 1
    {
      i := i + 1;
      Ws();
      if i < |s| && s[i] == ']' {
        assert s[i..][1..] == s[i + 1..];
        i := i + 1;
        return Ok(Array([]));
      }
      r := Items();
    }

    /** Items up to the closing bracket. */
    method Items() returns (r: Result<Value, ParseError>)
      requires Valid()
      modifies this`i
      ensures Valid() && i >= old(i) && (r.Ok? ==> i > old(i))
      ensures Reads(r, ItemsAt(old(Rest()), [], strict))
      decreases |s| - i, 5
    {
      var items: seq<Value> := [];
      var more := true;
      while more
        invariant Valid() && i >= old(i) && (!more ==> i > old(i))
        invariant ItemsAt(old(Rest()), [], strict) ==
                  if more then ItemsAt(Rest(), items, strict) else Ok((Array(items), Rest()))
        decreases more, |s| - i
      {
        ItemsAtStep(Rest(), items, strict);
        var step :- ItemThenSeparator();
        items := items + [step.0];
        more := step.1;
      }
      r := Ok(Array(items));
    }
  }

  lemma NoExponent(t: string)
    ensures !StartsWith(t, 'e') && !StartsWith(t, 'E') ==> LexExponent(t) == (false, false, [], t)
  {
  }

  lemma ExponentIs(t: string, neg: bool, start: string, digits: Digits, rest: string)
    requires (StartsWith(t, 'e') || StartsWith(t, 'E')) && neg == StartsWith(t[1..], '-')
    requires start == (if neg || StartsWith(t[1..], '+') then t[2..] else t[1..])
    requires TakeDigits(start) == (digits, rest)
    ensures LexExponent(t) == (true, neg, digits, rest)
  {
    hide TakeDigits;
  }

  lemma NumberIs(t: string, lit: Literal, rest: string)
    requires t != [] && (t[0] == '-' || IsDigit(t[0])) && LexNumber(t) == (lit, rest)
    ensures NumberAt(t) == match ReadLiteral(lit)
                           case None => Err(InvalidNumber)
                           case Some(n) => if Overflows(n) then Err(InvalidNumber) else Ok((n, rest))
  {
    hide LexNumber, ReadLiteral, Overflows;
  }

  /** One member and its separator, as the grammar reads them. */
  function MemberStep(t: string, seen: seq<Member>, strict: bool): Reading<(string, Value, bool)> {
    var (k, t1) :- NameAt(t, seen, strict);
    var (v, t2) :- ValueAt(t1, strict);
    var u := SkipWs(t2);
    if u == [] then Err(UnterminatedObject)
    else if u[0] != ',' && u[0] != '}' then Err(ExpectedCommaOrBrace)
    else Ok(((k, v, u[0] == ','), u[1..]))
  }

  /** The rest of an object, given its next member. */
  function AfterMember(step: Reading<(string, Value, bool)>, ms: seq<Member>, strict: bool): Reading<Value> {
    var ((k, v, more), rest) :- step;
    if more then MembersAt(rest, SetMember(ms, k, v), strict) else Ok((Object(SetMember(ms, k, v)), rest))
  }

  lemma MembersAtStep(t: string, ms: seq<Member>, strict: bool)
    ensures MembersAt(t, ms, strict) == AfterMember(MemberStep(t, ms, strict), ms, strict)
  {
  }

  /** One item and its separator, as the grammar reads them. */
  function ItemStep(t: string, strict: bool): Reading<(Value, bool)> {
    var (v, t1) :- ValueAt(SkipWs(t), strict);
    var u := SkipWs(t1);
    if u == [] then Err(UnterminatedArray)
    else if u[0] != ',' && u[0] != ']' then Err(ExpectedCommaOrBracket)
    else Ok(((v, u[0] == ','), u[1..]))
  }

  /** The rest of an array, given its next item. */
  function AfterItem(step: Reading<(Value, bool)>, items: seq<Value>, strict: bool): Reading<Value> {
    var ((v, more), rest) :- step;
    if more then ItemsAt(rest, items + [v], strict) else Ok((Array(items + [v]), rest))
  }

  lemma ItemsAtStep(t: string, items: seq<Value>, strict: bool)
    ensures ItemsAt(t, items, strict) == AfterItem(ItemStep(t, strict), items, strict)
  {
  }

  /** A whole document; `strict` refuses a repeated member name at any depth. */
  method Parse(text: string, strict: bool) returns (r: Result<Value, ParseError>)
    ensures r == Document(text, strict)
  {
    var p := new Parser(text, strict);
    var v :- p.Item();
    if p.i != |p.s| { return Err(Trailing); }
    r := Ok(v);
  }

  /** The reading with some characters put in front. */
  function Prepend(text: string, r: Reading<string>): Reading<string> {
    match r
    case Ok(p) => Ok((text + p.0, p.1))
    case Err(e) => Err(e)
  }

  lemma PrependNothing(r: Reading<string>)
    ensures Prepend("", r) == r
  {
    if r.Ok? { assert "" + r.value.0 == r.value.0; }
  }

  lemma PrependMore(text: string, c: char, r: Reading<string>)
    ensures Prepend(text, Prepend([c], r)) == Prepend(text + [c], r)
  {
    if r.Ok? { assert text + ([c] + r.value.0) == text + [c] + r.value.0; }
  }
}
