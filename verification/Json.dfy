/**
 JSON values with ordered object members, as the Go package parses them.

 An object is a sequence of members in the order of first insertion, so that order is visible and
 laws about it can be stated.  Two values are the same when they differ in member order only; sorting
 the members of every object by UTF-16 code units gives one representative of each such class.
 A value is unambiguous when no object in it, at any depth, repeats a name.
 */
module Json {
  import opened Outcomes
  import opened Decimals
  import opened Ordering
  import Utf16

  datatype Value =
    | Null
    | Bool(b: bool)
    | Number(num: Num)
    | String(text: string)
    | Array(items: seq<Value>)
    | Object(members: seq<Member>)

  datatype Member = Member(key: string, value: Value)

  // ---------- object members ----------

  predicate DistinctKeys(ms: seq<Member>) {
    forall i, j | 0 <= i < j < |ms| :: ms[i].key != ms[j].key
  }

  predicate HasKey(ms: seq<Member>, k: string) { exists i | 0 <= i < |ms| :: ms[i].key == k }

  function Get(ms: seq<Member>, k: string): (r: Option<Value>)
    ensures r.Some? <==> HasKey(ms, k)
    ensures r.Some? ==> exists i | 0 <= i < |ms| :: ms[i] == Member(k, r.value)
  {
    if ms == [] then None
    else if ms[0].key == k then Some(ms[0].value)
    else
      var r := Get(ms[1..], k);
      assert HasKey(ms[1..], k) ==> HasKey(ms, k);
      assert HasKey(ms, k) ==> HasKey(ms[1..], k) by {
        if HasKey(ms, k) {
          var i :| 0 <= i < |ms| && ms[i].key == k;
          assert ms[1..][i - 1].key == k;
        }
      }
      r
  }

  lemma GetAt(ms: seq<Member>, i: nat)
    requires i < |ms| && DistinctKeys(ms)
    ensures Get(ms, ms[i].key) == Some(ms[i].value)
  {
    assert HasKey(ms, ms[i].key);
    var r := Get(ms, ms[i].key);
    var j :| 0 <= j < |ms| && ms[j] == Member(ms[i].key, r.value);
  }

  /** Insert or replace, keeping the place of the first insertion. */
  function SetMember(ms: seq<Member>, k: string, v: Value): (r: seq<Member>)
    ensures DistinctKeys(ms) ==> DistinctKeys(r)
    ensures forall x :: HasKey(r, x) <==> HasKey(ms, x) || x == k
    ensures |r| == if HasKey(ms, k) then |ms| else |ms| + 1
  {
    if ms == [] then
      var r := [Member(k, v)];
      assert r[0].key == k;
      r
    else if ms[0].key == k then
      var r := [Member(k, v)] + ms[1..];
      assert r[0].key == k && forall i | 0 < i < |ms| :: r[i] == ms[i];
      r
    else
      var rest := SetMember(ms[1..], k, v);
      var r := [ms[0]] + rest;
      SetMemberKeys(ms, k, rest);
      r
  }

  lemma SetMemberKeys(ms: seq<Member>, k: string, rest: seq<Member>)
    requires ms != [] && ms[0].key != k
    requires DistinctKeys(ms[1..]) ==> DistinctKeys(rest)
    requires forall x :: HasKey(rest, x) <==> HasKey(ms[1..], x) || x == k
    ensures DistinctKeys(ms) ==> DistinctKeys([ms[0]] + rest)
    ensures forall x :: HasKey([ms[0]] + rest, x) <==> HasKey(ms, x) || x == k
    ensures HasKey(ms, k) <==> HasKey(ms[1..], k)
  {
    var r := [ms[0]] + rest;
    HasKeyCons(ms[0], rest);
    HasKeyCons(ms[0], ms[1..]);
    assert [ms[0]] + ms[1..] == ms;
    if DistinctKeys(ms) {
      assert !HasKey(ms[1..], ms[0].key);
      assert !HasKey(rest, ms[0].key);
    }
  }

  lemma HasKeyCons(m: Member, ms: seq<Member>)
    ensures forall x :: HasKey([m] + ms, x) <==> m.key == x || HasKey(ms, x)
  {
    forall x
      ensures HasKey([m] + ms, x) <==> m.key == x || HasKey(ms, x)
    {
      assert ([m] + ms)[0] == m;
      if HasKey(ms, x) {
        var i :| 0 <= i < |ms| && ms[i].key == x;
        assert ([m] + ms)[i + 1].key == x;
      }
      if HasKey([m] + ms, x) && m.key != x {
        var i :| 0 <= i < |[m] + ms| && ([m] + ms)[i].key == x;
        assert ms[i - 1].key == x;
      }
    }
  }

  /** Setting a new name appends it. */
  lemma {:induction false} SetNew(ms: seq<Member>, k: string, v: Value)
    requires !HasKey(ms, k)
    ensures SetMember(ms, k, v) == ms + [Member(k, v)]
  {
    if ms != [] {
      assert ms[0].key != k;
      HasKeyCons(ms[0], ms[1..]);
      assert [ms[0]] + ms[1..] == ms;
      SetNew(ms[1..], k, v);
    }
  }

  function DeleteMember(ms: seq<Member>, k: string): seq<Member> {
    if ms == [] then []
    else if ms[0].key == k then ms[1..]
    else [ms[0]] + DeleteMember(ms[1..], k)
  }

  // ---------- whole values ----------

  /** No object repeats a member name, at any depth. */
  predicate Unambiguous(v: Value) {
    match v
    case Array(items) => forall i | 0 <= i < |items| :: Unambiguous(items[i])
    case Object(ms) => DistinctKeys(ms) && forall i | 0 <= i < |ms| :: Unambiguous(ms[i].value)
    case _ => true
  }

  /** No number is too large for a double, at any depth. */
  predicate Finite(v: Value) {
    match v
    case Number(n) => !Overflows(n)
    case Array(items) => forall i | 0 <= i < |items| :: Finite(items[i])
    case Object(ms) => forall i | 0 <= i < |ms| :: Finite(ms[i].value)
    case _ => true
  }

  /** Walk nested objects. */
  function Path(v: Value, keys: seq<string>): Option<Value> {
    if keys == [] then Some(v)
    else if !v.Object? then None
    else
      var next :- Get(v.members, keys[0]);
      Path(next, keys[1..])
  }

  /** The string at a path, "" when absent or not a string. */
  function Str(v: Value, keys: seq<string>): string {
    match Path(v, keys)
    case Some(String(s)) => s
    case _ => ""
  }

  /** Same document up to the order of object members. */
  predicate Same(v: Value, w: Value) {
    match (v, w)
    case (Array(a), Array(b)) => |a| == |b| && forall i | 0 <= i < |a| :: Same(a[i], b[i])
    case (Object(a), Object(b)) =>
      |a| == |b| &&
      forall i | 0 <= i < |a| :: Get(b, a[i].key).Some? && Same(a[i].value, Get(b, a[i].key).value)
    case _ => v == w
  }

  // ---------- member order ----------

  predicate KeyBefore(a: Member, b: Member) { Utf16.Before(a.key, b.key) }

  function SortEach(ms: seq<Member>): (r: seq<Member>)
    ensures |r| == |ms|
    ensures forall i | 0 <= i < |ms| :: r[i] == Member(ms[i].key, SortMembers(ms[i].value))
    decreases ms
  {
    if ms == [] then [] else [Member(ms[0].key, SortMembers(ms[0].value))] + SortEach(ms[1..])
  }

  function SortItems(items: seq<Value>): (r: seq<Value>)
    ensures |r| == |items|
    ensures forall i | 0 <= i < |items| :: r[i] == SortMembers(items[i])
    decreases items
  {
    if items == [] then [] else [SortMembers(items[0])] + SortItems(items[1..])
  }

  /** The value with members sorted by UTF-16 code units at every depth. */
  function SortMembers(v: Value): Value
    decreases v
  {
    match v
    case Array(items) => Array(SortItems(items))
    case Object(ms) => Object(Sort(KeyBefore, SortEach(ms)))
    case _ => v
  }

  lemma KeyBeforeStrict()
    ensures StrictOrder(KeyBefore)
  {
    forall x: Member, y: Member, z: Member
      ensures !KeyBefore(x, x)
      ensures KeyBefore(x, y) && KeyBefore(y, z) ==> KeyBefore(x, z)
      ensures KeyBefore(x, z) ==> KeyBefore(x, y) || KeyBefore(y, z)
    {
      Utf16.BeforeStrict(x.key, y.key, z.key);
    }
  }

  lemma DistinctDecided(ms: seq<Member>)
    requires DistinctKeys(ms)
    ensures Decided(KeyBefore, ms)
  {
    forall x, y | x in ms && y in ms
      ensures x == y || KeyBefore(x, y) || KeyBefore(y, x)
    {
      var i :| 0 <= i < |ms| && ms[i] == x;
      var j :| 0 <= j < |ms| && ms[j] == y;
      if x.key != y.key { Utf16.BeforeTotal(x.key, y.key); } else { assert i == j; }
    }
  }

  function ElementSet<T>(s: seq<T>): set<T> { set x | x in s }

  lemma {:induction false} NoDuplicatesCount<T>(s: seq<T>)
    requires forall i, j | 0 <= i < j < |s| :: s[i] != s[j]
    ensures multiset(s) == multiset(ElementSet(s)) && |ElementSet(s)| == |s|
  {
    if s != [] {
      NoDuplicatesCount(s[1..]);
      assert s == [s[0]] + s[1..];
      assert s[0] !in ElementSet(s[1..]);
      assert ElementSet(s) == {s[0]} + ElementSet(s[1..]);
    }
  }

  /** Duplicate-free, equally long, one inside the other: a permutation. */
  lemma IncludedSameLength<T>(s: seq<T>, t: seq<T>)
    requires forall i, j | 0 <= i < j < |s| :: s[i] != s[j]
    requires forall i, j | 0 <= i < j < |t| :: t[i] != t[j]
    requires |s| == |t| && forall i | 0 <= i < |s| :: s[i] in t
    ensures multiset(s) == multiset(t)
  {
    NoDuplicatesCount(s);
    NoDuplicatesCount(t);
    SubsetSameSize(ElementSet(s), ElementSet(t));
  }

  lemma SubsetSameSize<T>(a: set<T>, b: set<T>)
    requires a <= b && |a| == |b|
    ensures a == b
  {
    assert |b - a| == |b| - |a|;
  }

  lemma {:induction false} SameSorts(v: Value, w: Value)
    requires Unambiguous(v) && Unambiguous(w) && Same(v, w)
    ensures SortMembers(v) == SortMembers(w)
    decreases v
  {
    match (v, w)
    case (Array(a), Array(b)) =>
      forall i | 0 <= i < |a|
        ensures SortMembers(a[i]) == SortMembers(b[i])
      {
        SameSorts(a[i], b[i]);
      }
      assert SortItems(a) == SortItems(b);
    case (Object(a), Object(b)) =>
      var a', b' := SortEach(a), SortEach(b);
      forall i | 0 <= i < |a|
        ensures a'[i] in b'
      {
        var x := Get(b, a[i].key).value;
        var j :| 0 <= j < |b| && b[j] == Member(a[i].key, x);
        SameSorts(a[i].value, x);
        assert b'[j] == a'[i];
      }
      IncludedSameLength(a', b');
      KeyBeforeStrict();
      DistinctDecided(a');
      SortPermuted(KeyBefore, a', b');
    case _ =>
  }

  lemma {:induction false} SortsSame(v: Value, w: Value)
    requires Unambiguous(v) && Unambiguous(w) && SortMembers(v) == SortMembers(w)
    ensures Same(v, w)
    decreases v
  {
    match (v, w)
    case (Array(a), Array(b)) =>
      assert |SortItems(a)| == |SortItems(b)|;
      forall i | 0 <= i < |a|
        ensures Same(a[i], b[i])
      {
        assert SortItems(a)[i] == SortItems(b)[i];
        SortsSame(a[i], b[i]);
      }
    case (Object(a), Object(b)) =>
      var a', b' := SortEach(a), SortEach(b);
      SortMultiset(KeyBefore, a');
      SortMultiset(KeyBefore, b');
      assert |a| == |b|;
      forall i | 0 <= i < |a|
        ensures Get(b, a[i].key).Some? && Same(a[i].value, Get(b, a[i].key).value)
      {
        assert a'[i] in multiset(b');
        var j :| 0 <= j < |b'| && b'[j] == a'[i];
        GetAt(b, j);
        SortsSame(a[i].value, b[j].value);
      }
    case _ =>
  }

  lemma {:induction false} SortKeeps(v: Value)
    requires Unambiguous(v)
    ensures Unambiguous(SortMembers(v))
    ensures Finite(v) <==> Finite(SortMembers(v))
    decreases v
  {
    match v
    case Array(items) =>
      forall i | 0 <= i < |items| { SortKeeps(items[i]); }
      if Finite(SortMembers(v)) {
        forall i | 0 <= i < |items| ensures Finite(items[i]) { assert Finite(SortItems(items)[i]); }
      }
    case Object(ms) =>
      var each := SortEach(ms);
      var sorted := Sort(KeyBefore, each);
      forall i | 0 <= i < |ms| { SortKeeps(ms[i].value); }
      SortMultiset(KeyBefore, each);
      SortedMembersKeep(each, sorted);
      if Finite(SortMembers(v)) {
        forall i | 0 <= i < |ms|
          ensures Finite(ms[i].value)
        {
          assert each[i] in multiset(sorted);
          var j :| 0 <= j < |sorted| && sorted[j] == each[i];
          assert Finite(sorted[j].value);
        }
      }
      if Finite(v) {
        forall j | 0 <= j < |sorted|
          ensures Finite(sorted[j].value)
        {
          assert sorted[j] in multiset(each);
          var i :| 0 <= i < |each| && each[i] == sorted[j];
          assert Finite(ms[i].value);
        }
      }
    case _ =>
  }

  /** Sorting each member's value again changes nothing, if it changes no single value. */
  lemma SortEachAgain(each: seq<Member>, sorted: seq<Member>)
    requires multiset(each) == multiset(sorted)
    requires forall i | 0 <= i < |each| :: SortMembers(each[i].value) == each[i].value
    ensures SortEach(sorted) == sorted
  {
    forall j | 0 <= j < |sorted|
      ensures SortMembers(sorted[j].value) == sorted[j].value
    {
      assert sorted[j] in multiset(each);
    }
  }

  lemma {:induction false} SortIdempotent(v: Value)
    requires Unambiguous(v)
    ensures SortMembers(SortMembers(v)) == SortMembers(v)
    decreases v
  {
    match v
    case Array(items) =>
      forall i | 0 <= i < |items| { SortIdempotent(items[i]); }
      assert SortItems(SortItems(items)) == SortItems(items);
    case Object(ms) =>
      var each := SortEach(ms);
      forall i | 0 <= i < |ms| { SortIdempotent(ms[i].value); }
      SortMultiset(KeyBefore, each);
      SortEachAgain(each, Sort(KeyBefore, each));
      KeyBeforeStrict();
      DistinctDecided(each);
      SortPermuted(KeyBefore, each, Sort(KeyBefore, each));
    case _ =>
  }

  lemma SortedMembersKeep(ms: seq<Member>, sorted: seq<Member>)
    requires multiset(ms) == multiset(sorted) && DistinctKeys(ms)
    requires forall i | 0 <= i < |ms| :: Unambiguous(ms[i].value)
    ensures DistinctKeys(sorted)
    ensures forall i | 0 <= i < |sorted| :: Unambiguous(sorted[i].value)
  {
    DistinctStays(ms, sorted);
    forall i | 0 <= i < |sorted|
      ensures Unambiguous(sorted[i].value)
    {
      assert sorted[i] in multiset(ms);
    }
  }

  lemma DistinctStays(ms: seq<Member>, sorted: seq<Member>)
    requires DistinctKeys(ms) && multiset(ms) == multiset(sorted)
    ensures DistinctKeys(sorted)
  {
    forall i, j | 0 <= i < j < |sorted|
      ensures sorted[i].key != sorted[j].key
    {
      if sorted[i].key == sorted[j].key {
        assert sorted[i] in multiset(ms) && sorted[j] in multiset(ms);
        var x :| 0 <= x < |ms| && ms[x] == sorted[i];
        var y :| 0 <= y < |ms| && ms[y] == sorted[j];
        assert x == y;
        OccursTwice(sorted, i, j);
        NoDuplicatesCount(ms);
        assert false;
      }
    }
  }

  lemma OccursTwice<T>(s: seq<T>, i: nat, j: nat)
    requires i < j < |s| && s[i] == s[j]
    ensures multiset(s)[s[i]] >= 2
  {
    var front := s[..j];
    var back := s[j..];
    assert s == front + back;
    assert front[i] in multiset(front) && back[0] in multiset(back);
  }
}
