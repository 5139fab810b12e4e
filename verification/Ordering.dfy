/** Lexicographic order on integer sequences, and stable sorting by a strict order. */
module Ordering {

  /** First difference decides; a proper prefix comes first. */
  predicate Less(u: seq<int>, v: seq<int>) {
    v != [] && (u == [] || u[0] < v[0] || (u[0] == v[0] && Less(u[1..], v[1..])))
  }

  lemma {:induction false} LessIrreflexive(u: seq<int>)
    ensures !Less(u, u)
  {
    if u != [] { LessIrreflexive(u[1..]); }
  }

  lemma {:induction false} LessTransitive(u: seq<int>, v: seq<int>, w: seq<int>)
    requires Less(u, v) && Less(v, w)
    ensures Less(u, w)
  {
    if u != [] && u[0] == v[0] == w[0] { LessTransitive(u[1..], v[1..], w[1..]); }
  }

  lemma {:induction false} LessTotal(u: seq<int>, v: seq<int>)
    ensures u == v || Less(u, v) || Less(v, u)
  {
    if u != [] && v != [] && u[0] == v[0] {
      LessTotal(u[1..], v[1..]);
      assert u == [u[0]] + u[1..] && v == [v[0]] + v[1..];
    }
  }

  /** Equal prefixes do not affect the comparison. */
  lemma {:induction false} LessAfterPrefix(u: seq<int>, v: seq<int>, n: nat)
    requires n <= |u| && n <= |v| && u[..n] == v[..n]
    ensures Less(u, v) <==> Less(u[n..], v[n..])
  {
    if n > 0 {
      assert u[0] == u[..n][0] && v[0] == v[..n][0];
      assert u[1..][..n - 1] == u[..n][1..] && v[1..][..n - 1] == v[..n][1..];
      LessAfterPrefix(u[1..], v[1..], n - 1);
      assert u[1..][n - 1..] == u[n..] && v[1..][n - 1..] == v[n..];
    }
  }

  /** What a three-way comparison must return. */
  predicate Compares(r: int, u: seq<int>, v: seq<int>) {
    (r < 0 <==> Less(u, v)) && (r == 0 <==> u == v) && (r > 0 <==> Less(v, u))
  }

  /** Where two sequences first differ, or one ends, the order is decided. */
  lemma DecideAt(u: seq<int>, v: seq<int>, i: nat)
    requires i <= |u| && i <= |v| && u[..i] == v[..i]
    ensures i < |u| && i < |v| && u[i] != v[i] ==> Compares(u[i] - v[i], u, v)
    ensures i == |u| || i == |v| ==> Compares(|u| - |v|, u, v)
  {
    LessAfterPrefix(u, v, i);
    LessAfterPrefix(v, u, i);
    if i == |u| == |v| {
      assert u == u[..i] && v == v[..i];
      LessIrreflexive(u);
    }
  }

  // ---------- sorting ----------

  ghost predicate StrictOrder<T(!new)>(lt: (T, T) -> bool) {
    && (forall x :: !lt(x, x))
    && (forall x, y, z :: lt(x, y) && lt(y, z) ==> lt(x, z))
    && (forall x, y, z :: lt(x, z) ==> lt(x, y) || lt(y, z))
  }

  ghost predicate Sorted<T>(lt: (T, T) -> bool, s: seq<T>) {
    forall i, j | 0 <= i < j < |s| :: !lt(s[j], s[i])
  }

  /** Put x before the first element that is not smaller. */
  function Insert<T>(lt: (T, T) -> bool, x: T, s: seq<T>): seq<T> {
    if s == [] || !lt(s[0], x) then [x] + s else [s[0]] + Insert(lt, x, s[1..])
  }

  function Sort<T>(lt: (T, T) -> bool, s: seq<T>): seq<T> {
    if s == [] then [] else Insert(lt, s[0], Sort(lt, s[1..]))
  }

  lemma {:induction false} InsertMultiset<T>(lt: (T, T) -> bool, x: T, s: seq<T>)
    ensures multiset(Insert(lt, x, s)) == multiset([x]) + multiset(s)
  {
    if s == [] {
      assert [x] + s == [x];
    } else if lt(s[0], x) {
      InsertMultiset(lt, x, s[1..]);
      assert s == [s[0]] + s[1..];
    }
  }

  lemma {:induction false} SortMultiset<T>(lt: (T, T) -> bool, s: seq<T>)
    ensures multiset(Sort(lt, s)) == multiset(s)
    ensures |Sort(lt, s)| == |s|
  {
    if s != [] {
      SortMultiset(lt, s[1..]);
      InsertMultiset(lt, s[0], Sort(lt, s[1..]));
      assert s == [s[0]] + s[1..];
    }
    assert |multiset(Sort(lt, s))| == |multiset(s)|;
  }

  lemma {:induction false} InsertSorted<T(!new)>(lt: (T, T) -> bool, x: T, s: seq<T>)
    requires StrictOrder(lt) && Sorted(lt, s)
    ensures Sorted(lt, Insert(lt, x, s))
  {
    if s != [] && lt(s[0], x) {
      var rest := Insert(lt, x, s[1..]);
      InsertSorted(lt, x, s[1..]);
      InsertMultiset(lt, x, s[1..]);
      forall j | 0 <= j < |rest|
        ensures !lt(rest[j], s[0])
      {
        assert rest[j] in multiset(rest);
        assert rest[j] == x || rest[j] in s[1..];
      }
    } else if s != [] {
      assert forall j | 0 <= j < |s| :: !lt(s[j], x);
    }
  }

  lemma {:induction false} SortSorted<T(!new)>(lt: (T, T) -> bool, s: seq<T>)
    requires StrictOrder(lt)
    ensures Sorted(lt, Sort(lt, s))
  {
    if s != [] {
      SortSorted(lt, s[1..]);
      InsertSorted(lt, s[0], Sort(lt, s[1..]));
    }
  }

  /** Distinct elements are ordered one way or the other. */
  ghost predicate Decided<T>(lt: (T, T) -> bool, s: seq<T>) {
    forall x, y | x in s && y in s :: x == y || lt(x, y) || lt(y, x)
  }

  lemma SortedHead<T(!new)>(lt: (T, T) -> bool, s: seq<T>, x: T)
    requires StrictOrder(lt) && Sorted(lt, s) && x in s
    ensures !lt(x, s[0])
  {
  }

  lemma TailMultiset<T>(s: seq<T>)
    requires s != []
    ensures multiset(s[1..]) == multiset(s) - multiset([s[0]])
  {
    assert s == [s[0]] + s[1..];
  }

  /** Sorting decided elements has one outcome, whatever order they arrive in. */
  lemma {:induction false} SortedUnique<T(!new)>(lt: (T, T) -> bool, s: seq<T>, t: seq<T>)
    requires StrictOrder(lt) && Sorted(lt, s) && Sorted(lt, t)
    requires multiset(s) == multiset(t) && Decided(lt, s)
    ensures s == t
  {
    if s == [] {
      assert |multiset(t)| == 0;
    } else {
      assert s[0] in multiset(t) && t != [];
      assert t[0] in multiset(s);
      SortedHead(lt, s, t[0]);
      SortedHead(lt, t, s[0]);
      TailMultiset(s);
      TailMultiset(t);
      SortedUnique(lt, s[1..], t[1..]);
      assert s == [s[0]] + s[1..] && t == [t[0]] + t[1..];
    }
  }

  lemma SortPermuted<T(!new)>(lt: (T, T) -> bool, s: seq<T>, t: seq<T>)
    requires StrictOrder(lt) && multiset(s) == multiset(t) && Decided(lt, s)
    ensures Sort(lt, s) == Sort(lt, t)
  {
    SortMultiset(lt, s);
    SortMultiset(lt, t);
    SortSorted(lt, s);
    SortSorted(lt, t);
    forall x | x in Sort(lt, s)
      ensures x in s
    {
      assert x in multiset(Sort(lt, s));
    }
    SortedUnique(lt, Sort(lt, s), Sort(lt, t));
  }
}
