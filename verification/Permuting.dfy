/** Sequences without repetition that have the same elements, and mapping over them. */
module Permuting {
  import opened Json

  predicate NoRepeats<T(==)>(s: seq<T>) { forall i, j | 0 <= i < j < |s| :: s[i] != s[j] }

  lemma SameElements<T>(s: seq<T>, t: seq<T>)
    requires NoRepeats(s) && NoRepeats(t) && forall x :: x in s <==> x in t
    ensures multiset(s) == multiset(t)
  {
    NoDuplicatesCount(s);
    NoDuplicatesCount(t);
    assert ElementSet(s) == ElementSet(t);
  }

  function Map<A, B>(f: A -> B, s: seq<A>): (r: seq<B>)
    ensures |r| == |s| && forall i | 0 <= i < |s| :: r[i] == f(s[i])
  {
    if s == [] then [] else [f(s[0])] + Map(f, s[1..])
  }

  lemma {:induction false} MapWithout<A, B>(f: A -> B, s: seq<A>, j: nat)
    requires j < |s|
    ensures multiset(Map(f, s)) == multiset([f(s[j])]) + multiset(Map(f, s[..j] + s[j + 1..]))
  {
    var m := Map(f, s);
    assert m == m[..j] + [m[j]] + m[j + 1..];
    assert Map(f, s[..j] + s[j + 1..]) == m[..j] + m[j + 1..];
  }

  /** Taking one element out: what is left, and its images. */
  lemma TakeOne<A, B>(f: A -> B, s: seq<A>, j: nat) returns (rest: seq<A>)
    requires j < |s|
    ensures |rest| == |s| - 1 && multiset(rest) == multiset(s) - multiset([s[j]])
    ensures multiset(Map(f, s)) == multiset([f(s[j])]) + multiset(Map(f, rest))
  {
    rest := s[..j] + s[j + 1..];
    assert s == s[..j] + [s[j]] + s[j + 1..];
    MapWithout(f, s, j);
  }

  /** Permuting the elements permutes the images. */
  lemma {:induction false} MapPermuted<A, B>(f: A -> B, a: seq<A>, b: seq<A>)
    requires multiset(a) == multiset(b)
    ensures multiset(Map(f, a)) == multiset(Map(f, b))
    decreases |a|
  {
    hide Map;
    if a == [] {
      assert |multiset(b)| == 0;
    } else {
      assert a[0] in multiset(b);
      var j :| 0 <= j < |b| && b[j] == a[0];
      var a' := TakeOne(f, a, 0);
      var b' := TakeOne(f, b, j);
      MapPermuted(f, a', b');
    }
  }
}
