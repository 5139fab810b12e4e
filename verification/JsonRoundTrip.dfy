/** Canonical text and the parser undo each other. */
module JsonRoundTrip {
  import opened Outcomes
  import opened Decimals
  import opened Json
  import opened Canonicalize
  import opened JsonGrammar
  import Ordering
  import Utf16

  // ---------- strings ----------

  lemma HexDigitValue(n: nat)
    requires n < 16
    ensures IsHex(HexDigit(n)) && HexValue(HexDigit(n)) == n
  {
  }

  lemma ReadControl(c: char, rest: string)
    requires (c as int) < SPACE && SimpleEscapes(c).None?
    ensures StringChar(EscapeChar(c) + rest) == Ok((c, rest))
  {
    var n := c as int;
    HexDigitValue(n / 16);
    HexDigitValue(n % 16);
    var hex := "00" + [HexDigit(n / 16), HexDigit(n % 16)];
    var t := EscapeChar(c) + rest;
    assert t == "\\u" + (hex + rest);
    assert t[2..] == hex + rest;
    assert (hex + rest)[4..] == rest;
    assert Hex4(hex + rest) == Ok((n, rest));
  }

  /** The letter the writer puts after a backslash, if it uses one. */
  function SimpleEscapes(c: char): Option<char> {
    if c == '"' || c == '\\' then Some(c)
    else if c == '\U{8}' then Some('b')
    else if c == '\U{C}' then Some('f')
    else if c == '\n' then Some('n')
    else if c == '\r' then Some('r')
    else if c == '\t' then Some('t')
    else None
  }

  lemma ReadEscaped(c: char, rest: string)
    ensures StringChar(EscapeChar(c) + rest) == Ok((c, rest))
    ensures EscapeChar(c) != [] && EscapeChar(c)[0] != '"'
  {
    var t := EscapeChar(c) + rest;
    if SimpleEscapes(c).Some? {
      var e := SimpleEscapes(c).value;
      assert EscapeChar(c) == ['\\', e];
      assert t == ['\\', e] + rest && t[2..] == rest;
      assert SimpleEscape(e) == Some(c);
    } else if c as int < SPACE {
      ReadControl(c, rest);
    } else {
      assert t == [c] + rest && t[1..] == rest;
    }
  }

  lemma JoinBody(first: string, more: string, rest: string)
    ensures first + more + "\"" + rest == first + (more + "\"" + rest)
  {
  }

  lemma {:induction false} ReadBody(s: string, rest: string)
    ensures StringBody(EscapeAll(s) + "\"" + rest) == Ok((s, rest))
  {
    var t := EscapeAll(s) + "\"" + rest;
    if s == [] {
      assert t == "\"" + rest;
    } else {
      var tail := EscapeAll(s[1..]) + "\"" + rest;
      JoinBody(EscapeChar(s[0]), EscapeAll(s[1..]), rest);
      ReadEscaped(s[0], tail);
      assert t[0] == EscapeChar(s[0])[0];
      ReadBody(s[1..], rest);
      assert s == [s[0]] + s[1..];
    }
  }

  /** A quoted string is a quote followed by text that reads back. */
  lemma ReadQuoted(s: string, rest: string)
    ensures StartsWith(Quote(s) + rest, '"')
    ensures StringBody((Quote(s) + rest)[1..]) == Ok((s, rest))
  {
    ReadBody(s, rest);
    assert Quote(s) + rest == "\"" + (EscapeAll(s) + "\"" + rest);
    assert (Quote(s) + rest)[1..] == EscapeAll(s) + "\"" + rest;
  }

  // ---------- values ----------

  /** Text after a value that cannot be taken as more of it. */
  predicate Follows(rest: string) { rest == [] || rest[0] in ",]}" }

  /** The first character of every value's text is neither white space nor a bracket's end. */
  predicate StartsValue(t: string) {
    t != [] && t[0] !in " \t\n\r" && t[0] != ']' && t[0] != '}'
  }

  lemma RenderStarts(n: Num)
    ensures Render(n) != [] && (Render(n)[0] == '-' || IsDigit(Render(n)[0]))
  {
    if n != ZERO && !n.neg {
      assert Render(n) == RenderMagnitude(n.digits, n.exp + 1);
      assert Render(n)[0] == n.digits[0] || Render(n)[0] == '0';
    } else if n != ZERO {
      assert Render(n) == "-" + RenderMagnitude(n.digits, n.exp + 1);
    }
  }

  lemma TextStarts(v: Value)
    ensures StartsValue(Text(v))
  {
    match v
    case Number(n) => RenderStarts(n);
    case _ =>
  }

  lemma SkipNothing(t: string, rest: string)
    requires StartsValue(t)
    ensures SkipWs(t + rest) == t + rest
  {
    assert (t + rest)[0] == t[0];
  }

  lemma ReadNumberText(n: Num, rest: string)
    requires !Overflows(n) && Follows(rest)
    requires Render(n) + rest != [] && ((Render(n) + rest)[0] == '-' || IsDigit((Render(n) + rest)[0]))
    ensures NumberAt(Render(n) + rest) == Ok((n, rest))
  {
    hide Render, Overflows;
    LexRendered(n, rest);
  }

  lemma DispatchNumber(t: string, n: Num, rest: string)
    requires t != [] && (t[0] == '-' || IsDigit(t[0]))
    requires NumberAt(t) == Ok((n, rest))
    ensures ValueAt(t, true) == Ok((Number(n), rest))
  {
    var c := t[0];
    assert c != '{' && c != '[' && c != '"' && c != 't' && c != 'f' && c != 'n';
  }

  lemma ReadNumber(n: Num, rest: string)
    requires !Overflows(n) && Follows(rest)
    ensures ValueAt(Render(n) + rest, true) == Ok((Number(n), rest))
  {
    var t := Render(n) + rest;
    RenderStarts(n);
    assert t[0] == Render(n)[0];
    ReadNumberText(n, rest);
    DispatchNumber(t, n, rest);
  }

  lemma ReadWord(word: string, rest: string, v: Value)
    requires word == "null" || word == "true" || word == "false"
    requires v == if word == "null" then Null else Bool(word == "true")
    ensures ValueAt(word + rest, true) == Ok((v, rest))
  {
    var t := word + rest;
    assert t[0] == word[0];
    assert word <= t && t[|word|..] == rest;
    assert WordAt(t, word, v) == Ok((v, rest));
  }

  lemma ReadString(s: string, rest: string)
    ensures ValueAt(Quote(s) + rest, true) == Ok((String(s), rest))
  {
    ReadQuoted(s, rest);
  }

  lemma JoinEnclosed(open: string, body: string, close: string, rest: string)
    ensures open + body + close + rest == open + (body + close + rest)
  {
  }

  lemma DispatchArray(t: string)
    ensures ValueAt("[" + t, true) == ArrayAt(t, true)
  {
    assert ("[" + t)[1..] == t;
  }

  lemma DispatchObject(t: string)
    ensures ValueAt("{" + t, true) == ObjectAt(t, true)
  {
    assert ("{" + t)[1..] == t;
  }

  /** Text written without white space is read back whole, in either mode. */
  lemma {:induction false} ReadText(v: Value, rest: string)
    requires Unambiguous(v) && Finite(v) && Follows(rest)
    ensures ValueAt(Text(v) + rest, true) == Ok((v, rest))
    decreases v, 2, 0
  {
    match v
    case Null => ReadWord("null", rest, v);
    case Bool(b) => ReadWord(if b then "true" else "false", rest, v);
    case Number(n) => ReadNumber(n, rest);
    case String(s) => ReadString(s, rest);
    case Array(items) =>
      var t := ItemsText(items) + "]" + rest;
      JoinEnclosed("[", ItemsText(items), "]", rest);
      DispatchArray(t);
      ReadArray(v, rest);
    case Object(ms) =>
      var t := MembersText(ms) + "}" + rest;
      JoinEnclosed("{", MembersText(ms), "}", rest);
      DispatchObject(t);
      ReadObject(v, rest);
  }

  lemma EmptyArray(rest: string)
    ensures ArrayAt("]" + rest, true) == Ok((Array([]), rest))
  {
    assert SkipWs("]" + rest) == "]" + rest;
    assert ("]" + rest)[1..] == rest;
  }

  lemma NonEmptyArray(t: string)
    requires StartsValue(t)
    ensures ArrayAt(t, true) == ItemsAt(t, [], true)
  {
  }

  lemma ReadArray(v: Value, rest: string)
    requires v.Array? && Unambiguous(v) && Finite(v)
    ensures ArrayAt(ItemsText(v.items) + "]" + rest, true) == Ok((v, rest))
    decreases v, 1, 0
  {
    var t := ItemsText(v.items) + "]" + rest;
    if v.items == [] {
      assert t == "]" + rest;
      EmptyArray(rest);
    } else {
      ItemsStart(v.items);
      assert t[0] == ItemsText(v.items)[0];
      NonEmptyArray(t);
      ReadItems(v, 0, rest);
      assert v.items[..0] == [] && v.items[0..] == v.items;
    }
  }

  lemma JoinThree(a: string, b: string, c: string)
    ensures a + b + c == a + (b + c)
  {
  }

  lemma JoinList(first: string, more: string, close: string, rest: string)
    ensures first + ("," + more) + close + rest == first + ("," + (more + close + rest))
  {
  }

  /** What the parser does after an item. */
  lemma AfterItem(t: string, items: seq<Value>, x: Value, after: string)
    requires SkipWs(t) == t && ValueAt(t, true) == Ok((x, after))
    requires after != [] && after[0] in ",]"
    ensures ItemsAt(t, items, true) ==
            if after[0] == ',' then ItemsAt(after[1..], items + [x], true)
            else Ok((Array(items + [x]), after[1..]))
  {
    assert SkipWs(after) == after;
  }

  lemma ItemsStart(items: seq<Value>)
    requires items != []
    ensures StartsValue(ItemsText(items))
  {
    TextStarts(items[0]);
    assert ItemsText(items)[0] == Text(items[0])[0];
  }

  lemma {:induction false} ReadItems(v: Value, i: nat, rest: string)
    requires v.Array? && Unambiguous(v) && Finite(v) && i < |v.items|
    ensures ItemsAt(ItemsText(v.items[i..]) + "]" + rest, v.items[..i], true) == Ok((v, rest))
    decreases v, 0, |v.items| - i
  {
    var items := v.items;
    var more := items[i..];
    var t := ItemsText(more) + "]" + rest;
    var x := items[i];
    assert items[..i] + [x] == items[..i + 1];
    assert more[0] == x && more[1..] == items[i + 1..];
    TextStarts(x);
    if i + 1 == |items| {
      var after := "]" + rest;
      assert ItemsText(more) == Text(x);
      JoinThree(Text(x), "]", rest);
      assert t == Text(x) + after;
      ReadText(x, after);
      SkipNothing(Text(x), after);
      AfterItem(t, items[..i], x, after);
      assert after[1..] == rest && items[..i + 1] == items;
    } else {
      var next := ItemsText(items[i + 1..]) + "]" + rest;
      var after := "," + next;
      JoinList(Text(x), ItemsText(items[i + 1..]), "]", rest);
      assert t == Text(x) + after;
      ReadText(x, after);
      SkipNothing(Text(x), after);
      AfterItem(t, items[..i], x, after);
      assert after[1..] == next;
      ReadItems(v, i + 1, rest);
    }
  }

  lemma EmptyObject(rest: string)
    ensures ObjectAt("}" + rest, true) == Ok((Object([]), rest))
  {
    assert SkipWs("}" + rest) == "}" + rest;
    assert ("}" + rest)[1..] == rest;
  }

  lemma NonEmptyObject(t: string)
    requires StartsWith(t, '"')
    ensures ObjectAt(t, true) == MembersAt(t, [], true)
  {
    assert SkipWs(t) == t;
  }

  lemma MembersStart(ms: seq<Member>)
    requires ms != []
    ensures StartsWith(MembersText(ms), '"')
  {
    hide Text;
    var first := MemberText(ms[0]);
    assert first != [] && first[0] == '"' by { assert Quote(ms[0].key) != []; }
    assert first <= MembersText(ms);
  }

  lemma ReadObject(v: Value, rest: string)
    requires v.Object? && Unambiguous(v) && Finite(v)
    ensures ObjectAt(MembersText(v.members) + "}" + rest, true) == Ok((v, rest))
    decreases v, 1, 0
  {
    var t := MembersText(v.members) + "}" + rest;
    if v.members == [] {
      assert t == "}" + rest;
      EmptyObject(rest);
    } else {
      MembersStart(v.members);
      assert t[0] == MembersText(v.members)[0];
      NonEmptyObject(t);
      ReadMembers(v, 0, rest);
      assert v.members[..0] == [] && v.members[0..] == v.members;
    }
  }

  lemma ReadName(k: string, seen: seq<Member>, t: string)
    requires !HasKey(seen, k) && StartsValue(t)
    ensures NameAt(Quote(k) + (":" + t), seen, true) == Ok((k, t))
  {
    var colon := ":" + t;
    ReadQuoted(k, colon);
    assert SkipWs(Quote(k) + colon) == Quote(k) + colon;
    assert SkipWs(colon) == colon && colon[1..] == t;
    assert SkipWs(t) == t;
  }

  /** What the parser does after a member's value. */
  lemma AfterMember(t: string, ms: seq<Member>, m: Member, t1: string, after: string)
    requires NameAt(t, ms, true) == Ok((m.key, t1)) && ValueAt(t1, true) == Ok((m.value, after))
    requires !HasKey(ms, m.key) && after != [] && after[0] in ",}"
    ensures MembersAt(t, ms, true) ==
            if after[0] == ',' then MembersAt(after[1..], ms + [m], true)
            else Ok((Object(ms + [m]), after[1..]))
  {
    SetNew(ms, m.key, m.value);
    assert SkipWs(after) == after;
  }

  /** One member, then whatever the text after it makes of the members so far. */
  lemma ReadMember(v: Value, i: nat, after: string)
    requires v.Object? && Unambiguous(v) && Finite(v) && i < |v.members|
    requires after != [] && after[0] in ",}"
    ensures var m := v.members[i];
      MembersAt(MemberText(m) + after, v.members[..i], true) ==
        if after[0] == ',' then MembersAt(after[1..], v.members[..i + 1], true)
        else Ok((Object(v.members[..i + 1]), after[1..]))
    decreases v, 0, 0
  {
    var ms := v.members;
    var k, x := ms[i].key, ms[i].value;
    var t := Text(x) + after;
    assert !HasKey(ms[..i], k);
    assert ms[..i] + [ms[i]] == ms[..i + 1];
    TextStarts(x);
    assert t[0] == Text(x)[0];
    ReadName(k, ms[..i], t);
    JoinMember(Quote(k), Text(x), after);
    ReadText(x, after);
    AfterMember(MemberText(ms[i]) + after, ms[..i], ms[i], t, after);
  }

  lemma JoinMember(k: string, x: string, after: string)
    ensures k + ":" + x + after == k + (":" + (x + after))
  {
  }

  lemma {:induction false} ReadMembers(v: Value, i: nat, rest: string)
    requires v.Object? && Unambiguous(v) && Finite(v) && i < |v.members|
    ensures MembersAt(MembersText(v.members[i..]) + "}" + rest, v.members[..i], true) == Ok((v, rest))
    decreases v, 0, |v.members| - i
  {
    var ms := v.members;
    var t := MembersText(ms[i..]) + "}" + rest;
    if i + 1 == |ms| {
      var after := "}" + rest;
      assert ms[i..] == [ms[i]];
      assert MembersText(ms[i..]) == MemberText(ms[i]);
      JoinThree(MemberText(ms[i]), "}", rest);
      ReadMember(v, i, after);
      assert after[1..] == rest;
      assert ms[..i + 1] == ms;
    } else {
      var next := MembersText(ms[i + 1..]) + "}" + rest;
      var after := "," + next;
      assert ms[i..][1..] == ms[i + 1..];
      JoinList(MemberText(ms[i]), MembersText(ms[i + 1..]), "}", rest);
      assert t == MemberText(ms[i]) + after;
      ReadMember(v, i, after);
      assert after[1..] == next;
      ReadMembers(v, i + 1, rest);
    }
  }

  // ---------- the laws ----------

  /** Text in the order of the members is read back as it was. */
  lemma ParseText(v: Value)
    requires Unambiguous(v) && Finite(v)
    ensures Document(Text(v), true) == Ok(v)
  {
    assert Text(v) + [] == Text(v);
    TextStarts(v);
    SkipNothing(Text(v), []);
    ReadText(v, []);
  }

  /** Parsing canonical text gives the value back, with its members in canonical order. */
  lemma ParseCanonical(v: Value)
    requires Unambiguous(v) && Finite(v)
    ensures Document(Canonical(v).value, true) == Ok(SortMembers(v))
    ensures Same(v, SortMembers(v))
  {
    SortKeeps(v);
    var w := SortMembers(v);
    ParseText(w);
    SortIdempotent(v);
    SortsSame(v, w);
  }

  /** In every object, at any depth, the names go strictly up by code units. */
  ghost predicate Ascending(v: Value) {
    match v
    case Array(items) => forall i | 0 <= i < |items| :: Ascending(items[i])
    case Object(ms) =>
      (forall i | 0 <= i < |ms| :: Ascending(ms[i].value)) &&
      forall i, j | 0 <= i < j < |ms| :: Ordering.Less(Utf16.Units(ms[i].key), Utf16.Units(ms[j].key))
    case _ => true
  }

  /** What canonical text reads as has its names in code-unit order throughout. */
  lemma {:induction false} CanonicalAscends(v: Value)
    requires Unambiguous(v)
    ensures Ascending(SortMembers(v))
    decreases v
  {
    match v
    case Array(items) =>
      forall i | 0 <= i < |items| { CanonicalAscends(items[i]); }
    case Object(ms) =>
      forall i | 0 <= i < |ms| { CanonicalAscends(ms[i].value); }
      KeyBeforeStrict();
      MembersAscend(SortEach(ms));
    case _ =>
  }

  lemma MembersAscend(each: seq<Member>)
    requires DistinctKeys(each) && forall i | 0 <= i < |each| :: Ascending(each[i].value)
    requires Ordering.StrictOrder(KeyBefore)
    ensures Ascending(Object(Ordering.Sort(KeyBefore, each)))
  {
    var sorted := Ordering.Sort(KeyBefore, each);
    Ordering.SortMultiset(KeyBefore, each);
    Ordering.SortSorted(KeyBefore, each);
    DistinctStays(each, sorted);
    forall i | 0 <= i < |sorted|
      ensures Ascending(sorted[i].value)
    {
      assert sorted[i] in multiset(each);
    }
    forall i, j | 0 <= i < j < |sorted|
      ensures Utf16.Before(sorted[i].key, sorted[j].key)
    {
      Utf16.BeforeTotal(sorted[i].key, sorted[j].key);
      assert !KeyBefore(sorted[j], sorted[i]);
    }
  }

  /** Canonical texts agree exactly when the values are the same up to member order. */
  lemma CanonicalIff(v: Value, w: Value)
    requires Unambiguous(v) && Finite(v) && Unambiguous(w) && Finite(w)
    ensures Canonical(v) == Canonical(w) <==> Same(v, w)
  {
    ParseCanonical(v);
    ParseCanonical(w);
    if Same(v, w) {
      SameSorts(v, w);
    } else if Canonical(v) == Canonical(w) {
      SortsSame(v, w);
    }
  }
}
