/** Applying a partial function to every element, all or nothing. */
module Traversal {
  import opened Outcomes

  function Traverse<A, B>(f: A -> Option<B>, s: seq<A>): (r: Option<seq<B>>)
    ensures r.Some? ==> |r.value| == |s| && forall i | 0 <= i < |s| :: f(s[i]) == Some(r.value[i])
    ensures r.None? ==> exists i | 0 <= i < |s| :: f(s[i]).None?
  {
    if s == [] then Some([])
    else
      var first := f(s[0]);
      var rest := Traverse(f, s[1..]);
      if first.None? then None
      else if rest.None? then
        assert exists i | 0 <= i < |s| :: f(s[i]).None? by {
          var i :| 0 <= i < |s| - 1 && f(s[1..][i]).None?;
          assert f(s[i + 1]).None?;
        }
        None
      else Some([first.value] + rest.value)
  }

  lemma TraverseIs<A, B>(f: A -> Option<B>, s: seq<A>, r: seq<B>)
    requires |r| == |s| && forall i | 0 <= i < |s| :: f(s[i]) == Some(r[i])
    ensures Traverse(f, s) == Some(r)
  {
    var t := Traverse(f, s);
    assert t.Some?;
    assert t.value == r;
  }

  /** Removing an element removes its image. */
  lemma TraverseWithout<A, B>(f: A -> Option<B>, s: seq<A>, j: nat)
    requires j < |s| && Traverse(f, s).Some?
    ensures var d := Traverse(f, s).value;
      Traverse(f, s[..j] + s[j + 1..]) == Some(d[..j] + d[j + 1..])
  {
    var d := Traverse(f, s).value;
    var s', d' := s[..j] + s[j + 1..], d[..j] + d[j + 1..];
    forall i | 0 <= i < |s'|
      ensures f(s'[i]) == Some(d'[i])
    {
      var k := if i < j then i else i + 1;
      assert s'[i] == s[k] && d'[i] == d[k];
    }
    TraverseIs(f, s', d');
  }

  lemma MultisetWithout<A>(s: seq<A>, j: nat)
    requires j < |s|
    ensures multiset(s) == multiset([s[j]]) + multiset(s[..j] + s[j + 1..])
  {
    assert s == s[..j] + [s[j]] + s[j + 1..];
  }

  /** Taking one element out: what is left, and its images. */
  lemma TakeOut<A, B>(f: A -> Option<B>, s: seq<A>, j: nat) returns (rest: seq<A>)
    requires j < |s| && Traverse(f, s).Some?
    ensures |rest| == |s| - 1 && Traverse(f, rest).Some? && f(s[j]).Some?
    ensures multiset(rest) == multiset(s) - multiset([s[j]])
    ensures multiset(Traverse(f, s).value) == multiset([f(s[j]).value]) + multiset(Traverse(f, rest).value)
  {
    rest := s[..j] + s[j + 1..];
    TraverseWithout(f, s, j);
    MultisetWithout(s, j);
    MultisetWithout(Traverse(f, s).value, j);
  }

  /** Permuting the elements permutes the images. */
  lemma {:induction false} TraversePermuted<A, B>(f: A -> Option<B>, a: seq<A>, b: seq<A>)
    requires multiset(a) == multiset(b) && Traverse(f, a).Some? && Traverse(f, b).Some?
    ensures multiset(Traverse(f, a).value) == multiset(Traverse(f, b).value)
    decreases |a|
  {
    if a == [] {
      assert |multiset(b)| == 0;
    } else {
      assert a[0] in multiset(b);
      var j :| 0 <= j < |b| && b[j] == a[0];
      var a' := TakeOut(f, a, 0);
      var b' := TakeOut(f, b, j);
      TraversePermuted(f, a', b');
    }
  }

  lemma SucceedsTogether<A, B>(f: A -> Option<B>, a: seq<A>, b: seq<A>)
    requires multiset(a) == multiset(b) && Traverse(f, a).Some?
    ensures Traverse(f, b).Some?
  {
    forall i | 0 <= i < |b|
      ensures f(b[i]).Some?
    {
      assert b[i] in multiset(a);
      var j :| 0 <= j < |a| && a[j] == b[i];
    }
  }
}
