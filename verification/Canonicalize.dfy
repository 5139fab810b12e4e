/** RFC 8785 canonical text: the specification and the builder-based writer. */
module Canonicalize {
  import opened Outcomes
  import opened Decimals
  import opened Ordering
  import opened Json
  import Utf16

  // ---------- specification ----------

  function HexDigit(n: nat): char
    requires n < 16
  {
    if n < 10 then (n + '0' as int) as char else (n - 10 + 'a' as int) as char
  }

  const SPACE := 0x20

  /** Section 3.2.2.2 of RFC 8785: two-character escapes, \u00xx, or the character itself. */
  function EscapeChar(c: char): string {
    if c == '"' then "\\\""
    else if c == '\\' then "\\\\"
    else if c == '\U{8}' then "\\b"
    else if c == '\U{C}' then "\\f"
    else if c == '\n' then "\\n"
    else if c == '\r' then "\\r"
    else if c == '\t' then "\\t"
    else if c as int < SPACE then "\\u00" + [HexDigit(c as int / 16), HexDigit(c as int % 16)]
    else [c]
  }

  function EscapeAll(s: string): string {
    if s == [] then [] else EscapeChar(s[0]) + EscapeAll(s[1..])
  }

  function Quote(s: string): string { "\"" + EscapeAll(s) + "\"" }

  /** The text of a value with members in the order given and no white space. */
  function Text(v: Value): string
    decreases v, 0
  {
    match v
    case Null => "null"
    case Bool(b) => if b then "true" else "false"
    case Number(n) => Render(n)
    case String(s) => Quote(s)
    case Array(items) => "[" + ItemsText(items) + "]"
    case Object(ms) => "{" + MembersText(ms) + "}"
  }

  function ItemsText(items: seq<Value>): string
    decreases items, 0
  {
    if items == [] then ""
    else Text(items[0]) + if |items| == 1 then "" else "," + ItemsText(items[1..])
  }

  function MemberText(m: Member): string
    decreases m, 1
  {
    Quote(m.key) + ":" + Text(m.value)
  }

  function MembersText(ms: seq<Member>): string
    decreases ms, 0
  {
    if ms == [] then ""
    else MemberText(ms[0]) + if |ms| == 1 then "" else "," + MembersText(ms[1..])
  }

  /** The canonical text, or none when a number is not finite. */
  function Canonical(v: Value): Option<string> {
    if Finite(v) then Some(Text(SortMembers(v))) else None
  }

  // ---------- the writer ----------

  /** An append-only text buffer. */
  class Builder {
    var text: string

    constructor ()
      ensures text == ""
    {
      text := "";
    }

    method Write(s: string)
      modifies this
      ensures text == old(text) + s
    {
      text := text + s;
    }
  }

  lemma {:induction false} EscapeAllSnoc(s: string, c: char)
    ensures EscapeAll(s + [c]) == EscapeAll(s) + EscapeChar(c)
  {
    if s != [] {
      assert (s + [c])[1..] == s[1..] + [c];
      EscapeAllSnoc(s[1..], c);
    }
  }

  lemma EscapeStep(start: string, s: string, i: nat)
    requires i < |s|
    ensures start + EscapeAll(s[..i + 1]) == start + EscapeAll(s[..i]) + EscapeChar(s[i])
  {
    EscapeAllSnoc(s[..i], s[i]);
    assert s[..i + 1] == s[..i] + [s[i]];
    Associate(start, EscapeAll(s[..i]), EscapeChar(s[i]));
  }

  lemma Associate(a: string, b: string, c: string)
    ensures (a + b) + c == a + (b + c)
  {
  }

  method WriteString(s: string, sb: Builder)
    modifies sb
    ensures sb.text == old(sb.text) + Quote(s)
  {
    sb.Write("\"");
    ghost var start := sb.text;
    for i := 0 to |s|
      invariant sb.text == start + EscapeAll(s[..i])
    {
      EscapeStep(start, s, i);
      sb.Write(EscapeChar(s[i]));
    }
    assert s[..|s|] == s;
    sb.Write("\"");
    QuoteParts(old(sb.text), s);
  }

  lemma QuoteParts(start: string, s: string)
    ensures start + "\"" + EscapeAll(s) + "\"" == start + Quote(s)
  {
    var e := EscapeAll(s);
    assert start + "\"" + e + "\"" == start + ("\"" + e + "\"");
  }

  lemma {:induction false} ItemsTextSnoc(items: seq<Value>, v: Value)
    ensures ItemsText(items + [v]) == ItemsText(items) + (if items == [] then "" else ",") + Text(v)
  {
    if items == [] {
    } else if |items| == 1 {
      assert (items + [v])[1..] == [v];
    } else {
      assert (items + [v])[1..] == items[1..] + [v];
      ItemsTextSnoc(items[1..], v);
    }
  }

  lemma {:induction false} MembersTextSnoc(ms: seq<Member>, m: Member)
    ensures MembersText(ms + [m]) == MembersText(ms) + (if ms == [] then "" else ",") + MemberText(m)
  {
    if ms == [] {
    } else if |ms| == 1 {
      assert (ms + [m])[1..] == [m];
    } else {
      assert (ms + [m])[1..] == ms[1..] + [m];
      MembersTextSnoc(ms[1..], m);
    }
  }

  function Keys(ms: seq<Member>): (r: seq<string>)
    ensures |r| == |ms| && forall i | 0 <= i < |ms| :: r[i] == ms[i].key
  {
    seq(|ms|, i requires 0 <= i < |ms| => ms[i].key)
  }

  lemma {:induction false} InsertKey(m: Member, ms: seq<Member>)
    ensures Keys(Insert(KeyBefore, m, ms)) == Insert(Utf16.Before, m.key, Keys(ms))
  {
    if ms == [] || !KeyBefore(ms[0], m) {
      assert Keys([m] + ms) == [m.key] + Keys(ms);
    } else {
      InsertKey(m, ms[1..]);
      assert Keys(ms)[1..] == Keys(ms[1..]);
      assert Keys([ms[0]] + Insert(KeyBefore, m, ms[1..])) ==
             [ms[0].key] + Keys(Insert(KeyBefore, m, ms[1..]));
    }
  }

  /** Sorting the keys and sorting the members by key agree. */
  lemma {:induction false} SortKeys(ms: seq<Member>)
    ensures Keys(Sort(KeyBefore, ms)) == Sort(Utf16.Before, Keys(ms))
  {
    if ms != [] {
      SortKeys(ms[1..]);
      assert Keys(ms)[1..] == Keys(ms[1..]);
      InsertKey(ms[0], Sort(KeyBefore, ms[1..]));
    }
  }

  /** Looking a sorted key up gives the member that was sorted to its place. */
  lemma SortedLookup(ms: seq<Member>, i: nat)
    requires DistinctKeys(ms) && i < |ms|
    ensures var keys := Sort(Utf16.Before, Keys(ms));
      var sorted := Sort(KeyBefore, SortEach(ms));
      |keys| == |sorted| == |ms| && sorted[i].key == keys[i] &&
      Get(ms, keys[i]).Some? && sorted[i].value == SortMembers(Get(ms, keys[i]).value) &&
      Member(keys[i], Get(ms, keys[i]).value) in ms
  {
    var each := SortEach(ms);
    assert Keys(each) == Keys(ms);
    SortKeys(each);
    SortMultiset(KeyBefore, each);
    var sorted := Sort(KeyBefore, each);
    assert sorted[i] in multiset(each);
    var j :| 0 <= j < |each| && each[j] == sorted[i];
    GetAt(ms, j);
    assert ms[j] in ms;
  }

  method WriteValue(v: Value, sb: Builder) returns (ok: bool)
    requires Unambiguous(v)
    modifies sb
    ensures ok == Finite(v)
    ensures ok ==> sb.text == old(sb.text) + Text(SortMembers(v))
    decreases v, 1
  {
    match v
    case Null => sb.Write("null"); ok := true;
    case Bool(b) => sb.Write(if b then "true" else "false"); ok := true;
    case Number(n) =>
      if Overflows(n) { return false; }
      sb.Write(Render(n));
      ok := true;
    case String(s) => WriteString(s, sb); ok := true;
    case Array(items) =>
      ok := WriteItems(v, sb);
    case Object(ms) =>
      ok := WriteMembers(v, sb);
  }

  lemma ItemsStep(start: string, items: seq<Value>, i: nat)
    requires i < |items|
    ensures start + ItemsText(items[..i + 1]) ==
            (if i > 0 then start + ItemsText(items[..i]) + "," else start + ItemsText(items[..i])) + Text(items[i])
  {
    var front, t := ItemsText(items[..i]), Text(items[i]);
    ItemsTextSnoc(items[..i], items[i]);
    assert items[..i + 1] == items[..i] + [items[i]];
    JoinItem(start, front, if i > 0 then "," else "", t);
  }

  lemma JoinItem(start: string, front: string, comma: string, t: string)
    ensures start + (front + comma + t) == start + front + comma + t
    ensures comma == "" ==> start + front + comma == start + front
  {
  }

  ghost predicate FiniteBelow(items: seq<Value>, n: nat) { forall i | 0 <= i < n && i < |items| :: Finite(items[i]) }

  lemma FiniteBelowStep(items: seq<Value>, n: nat)
    requires n < |items| && FiniteBelow(items, n)
    ensures FiniteBelow(items, n + 1) <==> Finite(items[n])
    ensures Finite(Array(items)) ==> Finite(items[n])
  {
  }

  method WriteItems(v: Value, sb: Builder) returns (ok: bool)
    requires v.Array? && Unambiguous(v)
    modifies sb
    ensures ok == Finite(v)
    ensures ok ==> sb.text == old(sb.text) + Text(SortMembers(v))
    decreases v, 0
  {
    var items := v.items;
    ghost var sorted := SortItems(items);
    sb.Write("[");
    ghost var start := sb.text;
    for i := 0 to |items|
      invariant FiniteBelow(items, i)
      invariant sb.text == start + ItemsText(sorted[..i])
    {
      ItemsStep(start, sorted, i);
      FiniteBelowStep(items, i);
      if i > 0 { sb.Write(","); }
      var wrote := WriteValue(items[i], sb);
      if !wrote { return false; }
    }
    assert sorted[..|items|] == sorted;
    sb.Write("]");
    Bracketed(old(sb.text), "[", ItemsText(sorted), "]");
    ok := true;
  }

  lemma Bracketed(start: string, open: string, body: string, close: string)
    ensures start + open + body + close == start + (open + body + close)
  {
  }

  lemma MembersStep(start: string, ms: seq<Member>, i: nat)
    requires i < |ms|
    ensures start + MembersText(ms[..i + 1]) ==
            (if i > 0 then start + MembersText(ms[..i]) + "," else start + MembersText(ms[..i])) +
            Quote(ms[i].key) + ":" + Text(ms[i].value)
  {
    var front, k, t := MembersText(ms[..i]), Quote(ms[i].key), Text(ms[i].value);
    MembersTextSnoc(ms[..i], ms[i]);
    assert ms[..i + 1] == ms[..i] + [ms[i]];
    hide Text, Quote, MembersText;
    JoinItem(start, front, if i > 0 then "," else "", k + ":" + t);
    JoinMember(if i > 0 then start + front + "," else start + front, k, t);
  }

  lemma JoinMember(start: string, k: string, t: string)
    ensures start + (k + ":" + t) == start + k + ":" + t
  {
  }

  ghost function Values(ms: seq<Member>): (r: seq<Value>)
    ensures |r| == |ms| && forall i | 0 <= i < |ms| :: r[i] == ms[i].value
  {
    seq(|ms|, i requires 0 <= i < |ms| => ms[i].value)
  }

  lemma MembersFinite(ms: seq<Member>)
    requires FiniteBelow(Values(ms), |ms|)
    ensures Finite(Object(ms))
  {
    forall i | 0 <= i < |ms|
      ensures Finite(ms[i].value)
    {
      assert Finite(Values(ms)[i]);
    }
  }

  method WriteMember(k: string, v: Value, sb: Builder) returns (ok: bool)
    requires Unambiguous(v)
    modifies sb
    ensures ok == Finite(v)
    ensures ok ==> sb.text == old(sb.text) + Quote(k) + ":" + Text(SortMembers(v))
    decreases v, 2
  {
    WriteString(k, sb);
    sb.Write(":");
    ok := WriteValue(v, sb);
  }

  method WriteMembers(v: Value, sb: Builder) returns (ok: bool)
    requires v.Object? && Unambiguous(v)
    modifies sb
    ensures ok == Finite(v)
    ensures ok ==> sb.text == old(sb.text) + Text(SortMembers(v))
    decreases v, 0
  {
    var ms := v.members;
    var keys := Sort(Utf16.Before, Keys(ms));
    ghost var sorted := Sort(KeyBefore, SortEach(ms));
    SortMultiset(Utf16.Before, Keys(ms));
    SortMultiset(KeyBefore, SortEach(ms));
    sb.Write("{");
    ghost var start := sb.text;
    for i := 0 to |keys|
      invariant FiniteBelow(Values(sorted), i)
      invariant sb.text == start + MembersText(sorted[..i])
    {
      SortedLookup(ms, i);
      MembersStep(start, sorted, i);
      FiniteBelowStep(Values(sorted), i);
      if i > 0 { sb.Write(","); }
      var val := Get(ms, keys[i]).value;
      MemberSmaller(v, keys[i], val);
      var wrote := WriteMember(keys[i], val, sb);
      SortKeeps(val);
      if !wrote {
        MemberNotFinite(v, keys[i], val);
        return false;
      }
    }
    assert sorted[..|keys|] == sorted;
    sb.Write("}");
    Bracketed(old(sb.text), "{", MembersText(sorted), "}");
    ok := true;
    MembersFinite(sorted);
    SortKeeps(v);
  }

  lemma MemberSmaller(v: Value, k: string, x: Value)
    requires v.Object? && Unambiguous(v) && Member(k, x) in v.members
    ensures x < v && Unambiguous(x)
  {
    var i :| 0 <= i < |v.members| && v.members[i] == Member(k, x);
    assert v.members[i].value < v;
  }

  lemma MemberNotFinite(v: Value, k: string, x: Value)
    requires v.Object? && Member(k, x) in v.members && !Finite(x)
    ensures !Finite(v)
  {
    var i :| 0 <= i < |v.members| && v.members[i] == Member(k, x);
    assert !Finite(v.members[i].value);
  }

  method CanonicalizeValue(v: Value) returns (r: Option<string>)
    requires Unambiguous(v)
    ensures r == Canonical(v)
  {
    var sb := new Builder();
    var ok := WriteValue(v, sb);
    if ok {
      assert "" + Text(SortMembers(v)) == Text(SortMembers(v));
      return Some(sb.text);
    }
    return None;
  }
}
