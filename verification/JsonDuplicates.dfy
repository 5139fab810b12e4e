/**
 What repeated member names do.  A reference reading keeps every member in the order
 written; the lenient parser is that reading with repeats collapsed, and the strict
 parser accepts exactly the texts whose reading repeats no name at any depth.
 */
module JsonDuplicates {
  import opened Outcomes
  import opened Decimals
  import opened Json
  import opened JsonGrammar

  // ---------- the reference reading ----------

  function TreeAt(t: string): (r: Reading<Value>)
    ensures r.Ok? ==> |r.value.1| < |t|
    decreases |t|, 1
  {
    if t != [] && t[0] == '{' then
      var u := SkipWs(t[1..]);
      if StartsWith(u, '}') then Ok((Object([]), u[1..])) else TreeMembersAt(u, [])
    else if t != [] && t[0] == '[' then
      var u := SkipWs(t[1..]);
      if StartsWith(u, ']') then Ok((Array([]), u[1..])) else TreeItemsAt(u, [])
    else ValueAt(t, false)
  }

  function TreeMembersAt(t: string, ms: seq<Member>): (r: Reading<Value>)
    ensures r.Ok? ==> |r.value.1| < |t|
    decreases |t|, 2
  {
    var (k, t1) :- NameAt(t, [], false);
    var (v, t2) :- TreeAt(t1);
    var u := SkipWs(t2);
    var ms' := ms + [Member(k, v)];
    if u == [] then Err(UnterminatedObject)
    else if u[0] == ',' then TreeMembersAt(u[1..], ms')
    else if u[0] == '}' then Ok((Object(ms'), u[1..]))
    else Err(ExpectedCommaOrBrace)
  }

  function TreeItemsAt(t: string, items: seq<Value>): (r: Reading<Value>)
    ensures r.Ok? ==> |r.value.1| < |t|
    decreases |t|, 2
  {
    var (v, t1) :- TreeAt(SkipWs(t));
    var u := SkipWs(t1);
    if u == [] then Err(UnterminatedArray)
    else if u[0] == ',' then TreeItemsAt(u[1..], items + [v])
    else if u[0] == ']' then Ok((Array(items + [v]), u[1..]))
    else Err(ExpectedCommaOrBracket)
  }

  /** The document with every member it spells. */
  function Tree(t: string): Result<Value, ParseError> {
    var (v, rest) :- TreeAt(SkipWs(t));
    if SkipWs(rest) == [] then Ok(v) else Err(Trailing)
  }

  // ---------- collapsing repeats ----------

  /** At every depth, the last value of a name in the place of its first. */
  function Collapse(v: Value): Value
    decreases v
  {
    match v
    case Array(items) => Array(CollapseItems(items))
    case Object(ms) => Object(CollapseMembers(ms))
    case _ => v
  }

  function CollapseItems(items: seq<Value>): (r: seq<Value>)
    ensures |r| == |items| && forall i | 0 <= i < |items| :: r[i] == Collapse(items[i])
    decreases items
  {
    if items == [] then [] else CollapseItems(items[..|items| - 1]) + [Collapse(items[|items| - 1])]
  }

  function CollapseMembers(ms: seq<Member>): seq<Member>
    decreases ms
  {
    if ms == [] then []
    else
      var m := ms[|ms| - 1];
      SetMember(CollapseMembers(ms[..|ms| - 1]), m.key, Collapse(m.value))
  }

  function Collapsed(r: Reading<Value>): Reading<Value> {
    match r
    case Ok(p) => Ok((Collapse(p.0), p.1))
    case Err(e) => Err(e)
  }

  // ---------- lenient ----------

  lemma ScalarTree(t: string)
    requires t == [] || (t[0] != '{' && t[0] != '[')
    ensures TreeAt(t) == ValueAt(t, false) == Collapsed(TreeAt(t))
    ensures ValueAt(t, true) == ValueAt(t, false)
    ensures ValueAt(t, true).Ok? ==> Unambiguous(ValueAt(t, true).value.0)
  {
  }

  lemma CollapseSnoc(ms: seq<Member>, k: string, v: Value)
    ensures CollapseMembers(ms + [Member(k, v)]) == SetMember(CollapseMembers(ms), k, Collapse(v))
  {
    assert (ms + [Member(k, v)])[..|ms|] == ms;
  }

  lemma CollapseItemSnoc(items: seq<Value>, v: Value)
    ensures CollapseItems(items + [v]) == CollapseItems(items) + [Collapse(v)]
  {
  }

  lemma {:induction false} LenientValue(t: string)
    ensures ValueAt(t, false) == Collapsed(TreeAt(t))
    decreases |t|, 1
  {
    if t == [] || (t[0] != '{' && t[0] != '[') {
      ScalarTree(t);
    } else {
      var u := SkipWs(t[1..]);
      if t[0] == '{' {
        LenientMembers(u, []);
      } else {
        LenientItems(u, []);
      }
    }
  }

  lemma LenientName(t: string, seen: seq<Member>)
    ensures NameAt(t, seen, false) == NameAt(t, [], false)
  {
  }

  /** What follows a member's value, in both readings. */
  lemma LenientMembersStep(t: string, ms: seq<Member>)
    requires NameAt(t, [], false).Ok? ==>
      var (k, t1) := NameAt(t, [], false).value;
      ValueAt(t1, false) == Collapsed(TreeAt(t1)) &&
      (TreeAt(t1).Ok? ==>
        var (v, t2) := TreeAt(t1).value;
        var u := SkipWs(t2);
        u != [] && u[0] == ',' ==>
          MembersAt(u[1..], SetMember(CollapseMembers(ms), k, Collapse(v)), false) ==
          Collapsed(TreeMembersAt(u[1..], ms + [Member(k, v)])))
    ensures MembersAt(t, CollapseMembers(ms), false) == Collapsed(TreeMembersAt(t, ms))
  {
    LenientName(t, CollapseMembers(ms));
    if NameAt(t, [], false).Ok? {
      var (k, t1) := NameAt(t, [], false).value;
      if TreeAt(t1).Ok? { CollapseSnoc(ms, k, TreeAt(t1).value.0); }
    }
  }

  lemma {:induction false} LenientMembers(t: string, ms: seq<Member>)
    ensures MembersAt(t, CollapseMembers(ms), false) == Collapsed(TreeMembersAt(t, ms))
    decreases |t|, 2
  {
    if NameAt(t, [], false).Ok? {
      var (k, t1) := NameAt(t, [], false).value;
      LenientValue(t1);
      if TreeAt(t1).Ok? {
        var (v, t2) := TreeAt(t1).value;
        var u := SkipWs(t2);
        CollapseSnoc(ms, k, v);
        if u != [] && u[0] == ',' { LenientMembers(u[1..], ms + [Member(k, v)]); }
      }
    }
    LenientMembersStep(t, ms);
  }

  lemma {:induction false} LenientItems(t: string, items: seq<Value>)
    ensures ItemsAt(t, CollapseItems(items), false) == Collapsed(TreeItemsAt(t, items))
    decreases |t|, 2
  {
    LenientValue(SkipWs(t));
    var tree := TreeAt(SkipWs(t));
    if tree.Ok? {
      var (v, t1) := tree.value;
      var u := SkipWs(t1);
      CollapseItemSnoc(items, v);
      if u != [] && u[0] == ',' { LenientItems(u[1..], items + [v]); }
    }
  }

  // ---------- strict ----------

  /** The tree is read, and repeats no name. */
  predicate Clean(r: Reading<Value>) { r.Ok? && Unambiguous(r.value.0) }

  /** The strict result: the tree when it is clean, otherwise a refusal. */
  predicate StrictOf(strict: Reading<Value>, tree: Reading<Value>) {
    if Clean(tree) then strict == tree else strict.Err?
  }

  lemma {:induction false} StrictValue(t: string)
    ensures StrictOf(ValueAt(t, true), TreeAt(t))
    decreases |t|, 1
  {
    if t == [] || (t[0] != '{' && t[0] != '[') {
      ScalarTree(t);
    } else {
      var u := SkipWs(t[1..]);
      if t[0] == '{' {
        StrictMembers(u, []);
      } else {
        StrictItems(u, []);
      }
    }
  }

  lemma SnocUnambiguous(ms: seq<Member>, k: string, v: Value)
    requires Unambiguous(Object(ms))
    ensures Unambiguous(Object(ms + [Member(k, v)])) <==> !HasKey(ms, k) && Unambiguous(v)
    ensures !HasKey(ms, k) ==> SetMember(ms, k, v) == ms + [Member(k, v)]
  {
    var r := ms + [Member(k, v)];
    assert r[|ms|] == Member(k, v);
    assert forall i | 0 <= i < |ms| :: r[i] == ms[i];
    if HasKey(ms, k) {
      var i :| 0 <= i < |ms| && ms[i].key == k;
      assert r[i].key == r[|ms|].key;
    }
    if !HasKey(ms, k) { SetNew(ms, k, v); }
  }

  /** A repeat among the members already read stays a repeat in the finished object. */
  lemma {:induction false} StaysAmbiguous(t: string, ms: seq<Member>)
    requires !Unambiguous(Object(ms))
    ensures !Clean(TreeMembersAt(t, ms))
    decreases |t|
  {
    var name := NameAt(t, [], false);
    if name.Ok? && TreeAt(name.value.1).Ok? {
      var k := name.value.0;
      var (v, t2) := TreeAt(name.value.1).value;
      var u := SkipWs(t2);
      PrefixAmbiguous(ms, Member(k, v));
      if u != [] && u[0] == ',' { StaysAmbiguous(u[1..], ms + [Member(k, v)]); }
    }
  }

  lemma PrefixAmbiguous(ms: seq<Member>, m: Member)
    ensures Unambiguous(Object(ms + [m])) ==> Unambiguous(Object(ms))
  {
    var r := ms + [m];
    assert forall i | 0 <= i < |ms| :: r[i] == ms[i];
    if Unambiguous(Object(r)) {
      assert DistinctKeys(ms);
      assert forall i | 0 <= i < |ms| :: Unambiguous(r[i].value);
    }
  }

  lemma {:induction false} StrictMembers(t: string, ms: seq<Member>)
    requires Unambiguous(Object(ms))
    ensures StrictOf(MembersAt(t, ms, true), TreeMembersAt(t, ms))
    decreases |t|, 2
  {
    var name := NameAt(t, [], false);
    if name.Ok? {
      var (k, t1) := name.value;
      StrictValue(t1);
      var tree := TreeAt(t1);
      if tree.Ok? {
        var (v, t2) := tree.value;
        var u := SkipWs(t2);
        SnocUnambiguous(ms, k, v);
        if u != [] && u[0] == ',' {
          if HasKey(ms, k) || !Unambiguous(v) {
            StaysAmbiguous(u[1..], ms + [Member(k, v)]);
          } else {
            StrictMembers(u[1..], ms + [Member(k, v)]);
          }
        }
      }
    }
  }

  lemma {:induction false} ItemStaysAmbiguous(t: string, items: seq<Value>)
    requires !Unambiguous(Array(items))
    ensures !Clean(TreeItemsAt(t, items))
    decreases |t|
  {
    var tree := TreeAt(SkipWs(t));
    if tree.Ok? {
      var (v, t1) := tree.value;
      var u := SkipWs(t1);
      ItemPrefix(items, v);
      if u != [] && u[0] == ',' { ItemStaysAmbiguous(u[1..], items + [v]); }
    }
  }

  lemma ItemPrefix(items: seq<Value>, v: Value)
    ensures Unambiguous(Array(items + [v])) <==> Unambiguous(Array(items)) && Unambiguous(v)
  {
    var r := items + [v];
    assert r[|items|] == v;
    assert forall i | 0 <= i < |items| :: r[i] == items[i];
    if Unambiguous(Array(r)) {
      assert forall i | 0 <= i < |items| :: Unambiguous(r[i]);
    }
  }

  lemma {:induction false} StrictItems(t: string, items: seq<Value>)
    requires Unambiguous(Array(items))
    ensures StrictOf(ItemsAt(t, items, true), TreeItemsAt(t, items))
    decreases |t|, 2
  {
    StrictValue(SkipWs(t));
    var tree := TreeAt(SkipWs(t));
    if tree.Ok? {
      var (v, t1) := tree.value;
      var u := SkipWs(t1);
      ItemPrefix(items, v);
      if u != [] && u[0] == ',' {
        if Unambiguous(v) {
          StrictItems(u[1..], items + [v]);
        } else {
          ItemStaysAmbiguous(u[1..], items + [v]);
        }
      }
    }
  }

  // ---------- the laws ----------

  lemma {:induction false} CollapseUnambiguous(v: Value)
    requires Unambiguous(v)
    ensures Collapse(v) == v
    decreases v
  {
    match v
    case Array(items) =>
      forall i | 0 <= i < |items| { CollapseUnambiguous(items[i]); }
      assert CollapseItems(items) == items;
    case Object(ms) =>
      forall i | 0 <= i < |ms| { CollapseUnambiguous(ms[i].value); }
      CollapseDistinct(ms);
    case _ =>
  }

  lemma {:induction false} CollapseDistinct(ms: seq<Member>)
    requires Unambiguous(Object(ms)) && forall i | 0 <= i < |ms| :: Collapse(ms[i].value) == ms[i].value
    ensures CollapseMembers(ms) == ms
    decreases |ms|
  {
    if ms != [] {
      var front, m := ms[..|ms| - 1], ms[|ms| - 1];
      assert front + [m] == ms;
      SnocUnambiguous(front, m.key, m.value);
      PrefixAmbiguous(front, m);
      CollapseDistinct(front);
    }
  }

  lemma {:induction false} CollapseClean(v: Value)
    ensures Unambiguous(Collapse(v))
    decreases v
  {
    match v
    case Array(items) =>
      forall i | 0 <= i < |items| { CollapseClean(items[i]); }
    case Object(ms) => CollapseMembersClean(ms);
    case _ =>
  }

  lemma {:induction false} CollapseMembersClean(ms: seq<Member>)
    ensures Unambiguous(Object(CollapseMembers(ms)))
    decreases ms
  {
    if ms != [] {
      var front, m := ms[..|ms| - 1], ms[|ms| - 1];
      CollapseMembersClean(front);
      CollapseClean(m.value);
      SetUnambiguous(CollapseMembers(front), m.key, Collapse(m.value));
    }
  }

  lemma {:induction false} SetUnambiguous(ms: seq<Member>, k: string, v: Value)
    requires Unambiguous(Object(ms)) && Unambiguous(v)
    ensures Unambiguous(Object(SetMember(ms, k, v)))
    decreases |ms|
  {
    if ms != [] && ms[0].key != k {
      assert Unambiguous(Object(ms[1..])) by {
        assert forall i | 0 <= i < |ms| - 1 :: ms[1..][i] == ms[i + 1];
      }
      SetUnambiguous(ms[1..], k, v);
    }
  }

  /** The lenient parser reads every text the reference does, collapsing repeats. */
  lemma LenientCollapses(t: string)
    ensures match Tree(t)
            case Ok(v) => Document(t, false) == Ok(Collapse(v)) && Unambiguous(Collapse(v))
            case Err(e) => Document(t, false) == Err(e)
  {
    LenientValue(SkipWs(t));
    if TreeAt(SkipWs(t)).Ok? { CollapseClean(TreeAt(SkipWs(t)).value.0); }
  }

  /** Strict accepts exactly the lenient texts without a repeated name, with the same value. */
  lemma StrictIff(t: string)
    ensures Document(t, true).Ok? <==> Document(t, false).Ok? && Tree(t).Ok? && Unambiguous(Tree(t).value)
    ensures Document(t, true).Ok? ==> Document(t, true) == Document(t, false) == Tree(t)
  {
    LenientCollapses(t);
    StrictValue(SkipWs(t));
    if Tree(t).Ok? && Unambiguous(Tree(t).value) { CollapseUnambiguous(Tree(t).value); }
  }
}
