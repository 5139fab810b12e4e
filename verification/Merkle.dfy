/** Merkle batching of cids and inclusion proofs, over an abstract 32-byte hash. */
module Merkle {
  import opened Outcomes
  import opened Ordering
  import opened Traversal
  import opened Base58
  import opened DidKey

  type Bytes = seq<Byte>
  type Digest = d: Bytes | |d| == 32 witness Repeat(0, 32)
  type Hash = Bytes -> Digest

  /** Two different inputs with one hash. */
  predicate Collision(sha: Hash, x: Bytes, y: Bytes) { x != y && sha(x) == sha(y) }

  predicate BytesBefore(a: Bytes, b: Bytes) { Less(a, b) }

  method ByteCompare(a: Bytes, b: Bytes) returns (r: int)
    ensures Compares(r, a, b)
  {
    var n := if |a| < |b| then |a| else |b|;
    for i := 0 to n
      invariant a[..i] == b[..i]
    {
      DecideAt(a, b, i);
      if a[i] != b[i] { return a[i] as int - b[i] as int; }
    }
    DecideAt(a, b, n);
    r := |a| - |b|;
  }

  /** Two children, the smaller one first. */
  function Ordered(left: Bytes, right: Bytes): Bytes {
    if !BytesBefore(right, left) then left + right else right + left
  }

  function Node(sha: Hash, left: Bytes, right: Bytes): Digest { sha(Ordered(left, right)) }

  /** A node is the hash of the smaller child followed by the larger. */
  lemma SmallerFirst(sha: Hash, a: Bytes, b: Bytes)
    requires Less(a, b)
    ensures Node(sha, a, b) == sha(a + b) == Node(sha, b, a)
  {
    if BytesBefore(b, a) {
      LessTransitive(a, b, a);
      LessIrreflexive(a);
    }
  }

  lemma NodeSymmetric(sha: Hash, a: Bytes, b: Bytes)
    ensures Node(sha, a, b) == Node(sha, b, a)
  {
    LessTotal(a, b);
    if BytesBefore(a, b) && BytesBefore(b, a) {
      LessTransitive(a, b, a);
      LessIrreflexive(a);
    }
  }

  method MerkleNode(sha: Hash, left: Bytes, right: Bytes) returns (d: Digest)
    ensures d == Node(sha, left, right)
  {
    var c := ByteCompare(left, right);
    d := if c <= 0 then sha(left + right) else sha(right + left);
  }

  // ---------- the tree ----------

  /** An odd level gets its last node twice. */
  function Pad(level: seq<Bytes>): (r: seq<Bytes>)
    ensures |r| % 2 == 0 && level <= r
    ensures forall x | x in r :: x in level
  {
    if |level| % 2 == 1 then level + [level[|level| - 1]] else level
  }

  function Pairs(sha: Hash, level: seq<Bytes>): (r: seq<Bytes>)
    requires |level| % 2 == 0
    ensures |r| == |level| / 2
    ensures forall i | 0 <= i < |r| :: r[i] == Node(sha, level[2 * i], level[2 * i + 1])
  {
    seq(|level| / 2, i requires 0 <= i < |level| / 2 => Node(sha, level[2 * i], level[2 * i + 1]))
  }

  function NextLevel(sha: Hash, level: seq<Bytes>): seq<Bytes> { Pairs(sha, Pad(level)) }

  function RootOf(sha: Hash, level: seq<Bytes>): Bytes
    requires level != []
    decreases |level|
  {
    if |level| == 1 then level[0] else RootOf(sha, NextLevel(sha, level))
  }

  /** The bytes of every cid; none when one is not multibase base58. */
  function DecodeAll(cids: seq<string>): Option<seq<Bytes>> { Traverse(FromMultibase, cids) }

  function EncodeRoot(bytes: Bytes): string { ToMultibase([0x12, 0x20] + bytes) }

  /** None where the source throws: no cids, or one that does not decode. */
  function Root(sha: Hash, cids: seq<string>): Option<string> {
    if cids == [] then None
    else
      var leaves :- DecodeAll(cids);
      SortMultiset(BytesBefore, leaves);
      Some(EncodeRoot(RootOf(sha, Sort(BytesBefore, leaves))))
  }

  method HashPairs(sha: Hash, level: seq<Bytes>) returns (next: seq<Bytes>)
    requires |level| % 2 == 0
    ensures next == Pairs(sha, level)
  {
    next := [];
    var i := 0;
    while i < |level|
      invariant 0 <= i <= |level| && i % 2 == 0 && |next| == i / 2
      invariant forall j | 0 <= j < |next| :: next[j] == Node(sha, level[2 * j], level[2 * j + 1])
    {
      var node := MerkleNode(sha, level[i], level[i + 1]);
      next := next + [node];
      i := i + 2;
    }
  }

  /** Hash level by level until one node is left. */
  method ReduceToRoot(sha: Hash, leaves: seq<Bytes>) returns (root: Bytes)
    requires leaves != []
    ensures root == RootOf(sha, leaves)
  {
    var level := leaves;
    while |level| > 1
      invariant level != [] && RootOf(sha, level) == RootOf(sha, leaves)
      decreases |level|
    {
      var padded := level;
      if |level| % 2 == 1 { padded := padded + [level[|level| - 1]]; }
      level := HashPairs(sha, padded);
    }
    root := level[0];
  }

  method MerkleRoot(sha: Hash, cids: seq<string>) returns (r: Option<string>)
    ensures r == Root(sha, cids)
  {
    if |cids| == 0 { return None; }
    var leaves := DecodeAll(cids);
    if leaves.None? { return None; }
    SortMultiset(BytesBefore, leaves.value);
    var root := ReduceToRoot(sha, Sort(BytesBefore, leaves.value));
    r := Some(EncodeRoot(root));
  }

  // ---------- proofs ----------

  /** Combine a value with each sibling in turn. */
  function Fold(sha: Hash, current: Bytes, path: seq<Bytes>): Bytes {
    if path == [] then current
    else Node(sha, Fold(sha, current, path[..|path| - 1]), path[|path| - 1])
  }

  /** None where the source throws on a cid that does not decode. */
  function Included(sha: Hash, leaf: string, path: seq<string>, root: string): Option<bool> {
    var current :- FromMultibase(leaf);
    var siblings :- DecodeAll(path);
    Some(EncodeRoot(Fold(sha, current, siblings)) == root)
  }

  lemma PrefixDecodes(path: seq<string>, i: nat, seen: seq<Bytes>)
    requires i < |path| && DecodeAll(path[..i]) == Some(seen)
    ensures match FromMultibase(path[i])
            case None => DecodeAll(path).None?
            case Some(sibling) => DecodeAll(path[..i + 1]) == Some(seen + [sibling])
  {
    var sibling := FromMultibase(path[i]);
    if sibling.Some? {
      forall j | 0 <= j < i + 1
        ensures FromMultibase(path[..i + 1][j]) == Some((seen + [sibling.value])[j])
      {
        if j < i { assert path[..i + 1][j] == path[..i][j]; }
      }
      TraverseIs(FromMultibase, path[..i + 1], seen + [sibling.value]);
    }
  }

  method VerifyInclusion(sha: Hash, leaf: string, path: seq<string>, root: string) returns (r: Option<bool>)
    ensures r == Included(sha, leaf, path, root)
  {
    var start := FromMultibase(leaf);
    if start.None? { return None; }
    ghost var seen: seq<Bytes> := [];
    var current := start.value;
    for i := 0 to |path|
      invariant DecodeAll(path[..i]) == Some(seen) && current == Fold(sha, start.value, seen)
    {
      var sibling := FromMultibase(path[i]);
      PrefixDecodes(path, i, seen);
      if sibling.None? { return None; }
      assert (seen + [sibling.value])[..|seen|] == seen;
      seen := seen + [sibling.value];
      current := MerkleNode(sha, current, sibling.value);
    }
    assert path[..|path|] == path;
    r := Some(EncodeRoot(current) == root);
  }

  /** The siblings met on the way from the i-th node of a level to the root. */
  function Siblings(sha: Hash, level: seq<Bytes>, i: nat): seq<Bytes>
    requires i < |level|
    decreases |level|
  {
    if |level| == 1 then []
    else
      var sibling := Pad(level)[if i % 2 == 0 then i + 1 else i - 1];
      [sibling] + Siblings(sha, NextLevel(sha, level), i / 2)
  }

  lemma {:induction false} FoldCons(sha: Hash, current: Bytes, first: Bytes, rest: seq<Bytes>)
    ensures Fold(sha, current, [first] + rest) == Fold(sha, Node(sha, current, first), rest)
    decreases |rest|
  {
    if rest == [] {
      assert [first] + rest == [first] && [first][..0] == [];
      assert Fold(sha, current, []) == current;
    } else {
      var front := rest[..|rest| - 1];
      assert ([first] + rest)[..|rest|] == [first] + front;
      FoldCons(sha, current, first, front);
    }
  }

  /** A node and its sibling are hashed into the node above. */
  lemma ParentNode(sha: Hash, level: seq<Bytes>, i: nat)
    requires i < |level| && |level| > 1
    ensures var padded, next := Pad(level), NextLevel(sha, level);
      i / 2 < |next| && Node(sha, level[i], padded[if i % 2 == 0 then i + 1 else i - 1]) == next[i / 2]
  {
    var padded := Pad(level);
    assert padded[i] == level[i];
    NodeSymmetric(sha, padded[2 * (i / 2)], padded[2 * (i / 2) + 1]);
  }

  /** Every leaf's siblings lead to the root. */
  lemma {:induction false} SiblingsReachRoot(sha: Hash, level: seq<Bytes>, i: nat)
    requires i < |level|
    ensures Fold(sha, level[i], Siblings(sha, level, i)) == RootOf(sha, level)
    decreases |level|
  {
    if |level| > 1 {
      var next := NextLevel(sha, level);
      ParentNode(sha, level, i);
      FoldCons(sha, level[i], Pad(level)[if i % 2 == 0 then i + 1 else i - 1], Siblings(sha, next, i / 2));
      SiblingsReachRoot(sha, next, i / 2);
    }
  }

  function EncodePath(path: seq<Bytes>): (r: seq<string>)
    ensures |r| == |path| && forall i | 0 <= i < |path| :: r[i] == ToMultibase(path[i])
  {
    seq(|path|, i requires 0 <= i < |path| => ToMultibase(path[i]))
  }

  lemma MultibaseBack(data: Bytes)
    ensures FromMultibase(ToMultibase(data)) == Some(data)
  {
    DecodeEncode(data);
    assert ToMultibase(data)[1..] == Encode(data);
  }

  lemma DecodePath(path: seq<Bytes>)
    ensures DecodeAll(EncodePath(path)) == Some(path)
  {
    forall i | 0 <= i < |path|
      ensures FromMultibase(EncodePath(path)[i]) == Some(path[i])
    {
      MultibaseBack(path[i]);
    }
    TraverseIs(FromMultibase, EncodePath(path), path);
  }

  /** Completeness: a batched cid has a path that verifies against the batch's root. */
  lemma ProofsComplete(sha: Hash, cids: seq<string>, k: nat) returns (path: seq<string>)
    requires k < |cids| && Root(sha, cids).Some?
    ensures Included(sha, cids[k], path, Root(sha, cids).value) == Some(true)
  {
    var leaves := DecodeAll(cids).value;
    SortMultiset(BytesBefore, leaves);
    var level := Sort(BytesBefore, leaves);
    assert leaves[k] in multiset(level);
    var i :| 0 <= i < |level| && level[i] == leaves[k];
    SiblingsReachRoot(sha, level, i);
    path := EncodePath(Siblings(sha, level, i));
    DecodePath(Siblings(sha, level, i));
  }

  // ---------- soundness ----------

  /** Some level of the tree over `level` holds x. */
  predicate InTree(sha: Hash, x: Bytes, level: seq<Bytes>)
    decreases |level|
  {
    x in level || (|level| > 1 && InTree(sha, x, NextLevel(sha, level)))
  }

  predicate AllLength(level: seq<Bytes>, n: nat) { forall x | x in level :: |x| == n }

  lemma {:induction false} RootInTree(sha: Hash, level: seq<Bytes>)
    requires level != []
    ensures InTree(sha, RootOf(sha, level), level)
    decreases |level|
  {
    if |level| > 1 { RootInTree(sha, NextLevel(sha, level)); }
  }

  /** The k-th level of the tree over `level`. */
  function LevelAt(sha: Hash, level: seq<Bytes>, k: nat): seq<Bytes>
    decreases k
  {
    if k == 0 then level else LevelAt(sha, NextLevel(sha, level), k - 1)
  }

  /** The k-th padded level of the tree has an i-th pair, which is hashed to a node above it. */
  predicate IsPair(sha: Hash, level: seq<Bytes>, k: nat, i: nat) {
    |LevelAt(sha, level, k)| > 1 && 2 * i + 1 < |Pad(LevelAt(sha, level, k))|
  }

  /** The text hashed for that pair. */
  function PairText(sha: Hash, level: seq<Bytes>, k: nat, i: nat): Bytes
    requires IsPair(sha, level, k, i)
  {
    var padded := Pad(LevelAt(sha, level, k));
    Ordered(padded[2 * i], padded[2 * i + 1])
  }

  /** The text hashed at the i-th step of folding a path. */
  function StepText(sha: Hash, current: Bytes, path: seq<Bytes>, i: nat): Bytes
    requires i < |path|
  {
    Ordered(Fold(sha, current, path[..i]), path[i])
  }

  /** A node of the level above is made of a pair of this one. */
  lemma BottomPair(sha: Hash, y: Bytes, level: seq<Bytes>, n: nat) returns (p: Bytes, q: Bytes, i: nat)
    requires |level| > 1 && y in NextLevel(sha, level) && AllLength(level, n)
    ensures p in level && q in level && |p| == |q| && y == Node(sha, p, q)
    ensures IsPair(sha, level, 0, i) && PairText(sha, level, 0, i) == Ordered(p, q)
  {
    hide Node, Ordered;
    var next := NextLevel(sha, level);
    i :| 0 <= i < |next| && next[i] == y;
    p, q := Pad(level)[2 * i], Pad(level)[2 * i + 1];
  }

  /** The pairs of the tree over the next level are pairs of this one. */
  lemma UpperPair(sha: Hash, level: seq<Bytes>, k: nat, i: nat)
    requires IsPair(sha, NextLevel(sha, level), k, i)
    ensures IsPair(sha, level, k + 1, i) && PairText(sha, level, k + 1, i) == PairText(sha, NextLevel(sha, level), k, i)
  {
    hide Pad, Ordered;
    assert LevelAt(sha, level, k + 1) == LevelAt(sha, NextLevel(sha, level), k);
  }

  lemma NextLength(sha: Hash, level: seq<Bytes>)
    ensures AllLength(NextLevel(sha, level), 32)
  {
  }

  /** What is in the tree is a leaf or in the tree over the next level, which is shorter. */
  lemma InTreeStep(sha: Hash, x: Bytes, level: seq<Bytes>)
    ensures InTree(sha, x, level) <==> x in level || (|level| > 1 && InTree(sha, x, NextLevel(sha, level)))
    ensures |level| > 1 ==> |NextLevel(sha, level)| < |level|
  {
    hide Node;
  }

  /** Above the leaves every node is made of a pair of nodes in the tree, as long as each other. */
  lemma {:induction false} Children(sha: Hash, y: Bytes, level: seq<Bytes>, n: nat)
    returns (p: Bytes, q: Bytes, k: nat, i: nat)
    requires InTree(sha, y, level) && y !in level && AllLength(level, n)
    ensures InTree(sha, p, level) && InTree(sha, q, level) && |p| == |q| && y == Node(sha, p, q)
    ensures IsPair(sha, level, k, i) && PairText(sha, level, k, i) == Ordered(p, q)
    decreases |level|
  {
    hide Node, Ordered, IsPair, PairText, AllLength, Pad, InTree, NextLevel, Pairs;
    var next := NextLevel(sha, level);
    InTreeStep(sha, y, level);
    if y in next {
      k := 0;
      p, q, i := BottomPair(sha, y, level, n);
      InTreeStep(sha, p, level);
      InTreeStep(sha, q, level);
    } else {
      NextLength(sha, level);
      p, q, k, i := Children(sha, y, next, 32);
      InTreeStep(sha, p, level);
      InTreeStep(sha, q, level);
      UpperPair(sha, level, k, i);
      k := k + 1;
    }
  }

  /** Equal hashes of equally long pairs: the same pair, or their two texts collide. */
  lemma SamePair(sha: Hash, a: Bytes, b: Bytes, p: Bytes, q: Bytes)
    requires Node(sha, a, b) == Node(sha, p, q) && |a| == |b| && |p| == |q|
    ensures a == p || a == q || Collision(sha, Ordered(a, b), Ordered(p, q))
  {
    var x, y := Ordered(a, b), Ordered(p, q);
    if x == y {
      var h := |a|;
      assert |x| == 2 * h && |y| == 2 * |p|;
      assert x[..h] == y[..h] && x[h..] == y[h..];
      assert a == x[..h] || a == x[h..];
      assert (y[..h] == p || y[..h] == q) && (y[h..] == p || y[h..] == q);
    }
  }

  /** Each sibling is as long as the value it is combined with. */
  predicate TreeShaped(current: Bytes, path: seq<Bytes>) {
    forall i | 0 <= i < |path| :: |path[i]| == if i == 0 then |current| else 32
  }

  /** The text of a step of the path and the text of a pair in the tree have one hash. */
  predicate PathCollides(sha: Hash, current: Bytes, path: seq<Bytes>, level: seq<Bytes>, step: nat, k: nat, i: nat) {
    step < |path| && IsPair(sha, level, k, i) &&
    Collision(sha, StepText(sha, current, path, step), PairText(sha, level, k, i))
  }

  /** One step down: below a node of the tree that the last step hashes to is a node of the tree. */
  lemma StepDown(sha: Hash, below: Bytes, sibling: Bytes, level: seq<Bytes>, n: nat) returns (k: nat, i: nat)
    requires AllLength(level, n) && n != 32 && |below| == |sibling|
    requires InTree(sha, Node(sha, below, sibling), level)
    ensures IsPair(sha, level, k, i)
    ensures InTree(sha, below, level) || Collision(sha, Ordered(below, sibling), PairText(sha, level, k, i))
  {
    hide Collision, PairText, Ordered, InTree, IsPair;
    var p, q;
    p, q, k, i := Children(sha, Node(sha, below, sibling), level, n);
    SamePair(sha, below, sibling, p, q);
  }

  /** A shaped path to a node of the tree starts at a node of the tree. */
  lemma {:induction false} Descend(sha: Hash, current: Bytes, path: seq<Bytes>, level: seq<Bytes>, n: nat)
    returns (step: nat, k: nat, i: nat)
    requires AllLength(level, n) && n != 32 && TreeShaped(current, path)
    requires InTree(sha, Fold(sha, current, path), level)
    ensures InTree(sha, current, level) || PathCollides(sha, current, path, level, step, k, i)
    decreases |path|
  {
    hide Collision, PairText, IsPair, Ordered, InTree, AllLength, Node;
    step, k, i := 0, 0, 0;
    if path != [] {
      step := |path| - 1;
      var front := path[..step];
      var below := Fold(sha, current, front);
      LastLength(sha, current, path);
      k, i := StepDown(sha, below, path[step], level, n);
      if InTree(sha, below, level) {
        step, k, i := Descend(sha, current, front, level, n);
        if step < |front| { assert front[..step] == path[..step]; }
      }
    }
  }

  lemma LastLength(sha: Hash, current: Bytes, path: seq<Bytes>)
    requires path != [] && TreeShaped(current, path)
    ensures |Fold(sha, current, path[..|path| - 1])| == |path[|path| - 1]|
    ensures TreeShaped(current, path[..|path| - 1])
  {
    hide Node;
  }

  lemma {:induction false} OnlyLeavesLong(sha: Hash, x: Bytes, level: seq<Bytes>)
    requires InTree(sha, x, level) && |x| != 32
    ensures x in level
    decreases |level|
  {
    if x !in level {
      OnlyLeavesLong(sha, x, NextLevel(sha, level));
      assert false;
    }
  }

  /** A root is multibase text of the two multihash bytes and the top digest. */
  lemma RootReads(sha: Hash, cids: seq<string>)
    requires Root(sha, cids).Some?
    ensures FromMultibase(Root(sha, cids).value) ==
            Some([0x12, 32] + RootOf(sha, Sort(BytesBefore, DecodeAll(cids).value)))
  {
    hide RootOf;
    Base58.DecodeEncode([0x12, 0x20] + RootOf(sha, Sort(BytesBefore, DecodeAll(cids).value)));
  }

  lemma EncodeRootInjective(a: Bytes, b: Bytes)
    requires EncodeRoot(a) == EncodeRoot(b)
    ensures a == b
  {
    var p: Bytes, q: Bytes := [0x12, 0x20] + a, [0x12, 0x20] + b;
    assert ToMultibase(p)[1..] == Encode(p) && ToMultibase(q)[1..] == Encode(q);
    EncodeInjective(p, q);
    assert p[2..] == a && q[2..] == b;
  }

  lemma MultibaseForth(s: string)
    requires FromMultibase(s).Some?
    ensures ToMultibase(FromMultibase(s).value) == s
  {
    hide Encode, Decode, InAlphabet;
    EncodeDecode(s[1..]);
    assert s == "z" + s[1..];
  }

  lemma FromMultibaseInjective(s: string, t: string)
    requires FromMultibase(s).Some? && FromMultibase(s) == FromMultibase(t)
    ensures s == t
  {
    MultibaseForth(s);
    MultibaseForth(t);
  }

  /** A cid is a multihash: two header bytes and a digest. */
  predicate IsCid(c: string) { FromMultibase(c).Some? && |FromMultibase(c).value| == 34 }

  lemma SortedLeaves(cids: seq<string>)
    requires DecodeAll(cids).Some? && forall c | c in cids :: IsCid(c)
    ensures AllLength(Sort(BytesBefore, DecodeAll(cids).value), 34)
    ensures forall b | b in Sort(BytesBefore, DecodeAll(cids).value) :: exists c | c in cids ::
            FromMultibase(c) == Some(b)
  {
    var leaves := DecodeAll(cids).value;
    SortMultiset(BytesBefore, leaves);
    forall b | b in Sort(BytesBefore, leaves)
      ensures |b| == 34 && exists c | c in cids :: FromMultibase(c) == Some(b)
    {
      assert b in multiset(leaves);
      var i :| 0 <= i < |leaves| && leaves[i] == b;
      assert cids[i] in cids && IsCid(cids[i]);
    }
  }

  /** The sorted leaves of a batch. */
  function LeavesOf(cids: seq<string>): seq<Bytes> { Sort(BytesBefore, DecodeAll(cids).GetOr([])) }

  /**
   Soundness: a cid with a tree-shaped path to a batch's root, of whatever depth, is in the batch,
   or the text hashed at some step of the path collides with the text of some pair of the tree.
   */
  lemma ProofsSound(sha: Hash, cids: seq<string>, leaf: string, path: seq<string>) returns (step: nat, k: nat, i: nat)
    requires Root(sha, cids).Some? && IsCid(leaf) && forall c | c in cids :: IsCid(c)
    requires DecodeAll(path).Some? && TreeShaped(FromMultibase(leaf).value, DecodeAll(path).value)
    requires Included(sha, leaf, path, Root(sha, cids).value) == Some(true)
    ensures leaf in cids ||
            PathCollides(sha, FromMultibase(leaf).value, DecodeAll(path).value, LeavesOf(cids), step, k, i)
  {
    hide PathCollides;
    var leaves := DecodeAll(cids).value;
    var current, siblings := FromMultibase(leaf).value, DecodeAll(path).value;
    SortMultiset(BytesBefore, leaves);
    var level := Sort(BytesBefore, leaves);
    SortedLeaves(cids);
    EncodeRootInjective(Fold(sha, current, siblings), RootOf(sha, level));
    step, k, i := LeafOrCollision(sha, current, siblings, level);
    if current in level {
      var c :| c in cids && FromMultibase(c) == Some(current);
      FromMultibaseInjective(leaf, c);
    }
  }

  lemma LeafOrCollision(sha: Hash, current: Bytes, siblings: seq<Bytes>, level: seq<Bytes>)
    returns (step: nat, k: nat, i: nat)
    requires level != [] && AllLength(level, 34) && |current| == 34 && TreeShaped(current, siblings)
    requires Fold(sha, current, siblings) == RootOf(sha, level)
    ensures current in level || PathCollides(sha, current, siblings, level, step, k, i)
  {
    RootInTree(sha, level);
    step, k, i := Descend(sha, current, siblings, level, 34);
    if !PathCollides(sha, current, siblings, level, step, k, i) { OnlyLeavesLong(sha, current, level); }
  }

  // ---------- order ----------

  lemma BytesBeforeStrict()
    ensures StrictOrder(BytesBefore)
  {
    forall x: Bytes, y: Bytes, z: Bytes
      ensures !BytesBefore(x, x)
      ensures BytesBefore(x, y) && BytesBefore(y, z) ==> BytesBefore(x, z)
      ensures BytesBefore(x, z) ==> BytesBefore(x, y) || BytesBefore(y, z)
    {
      LessIrreflexive(x);
      if Less(x, y) && Less(y, z) { LessTransitive(x, y, z); }
      if Less(x, z) && !Less(x, y) {
        LessTotal(x, y);
        if Less(y, x) { LessTransitive(y, x, z); }
      }
    }
  }

  lemma BytesDecided(s: seq<Bytes>)
    ensures Decided(BytesBefore, s)
  {
    forall x: Bytes, y: Bytes | x in s && y in s
      ensures x == y || BytesBefore(x, y) || BytesBefore(y, x)
    {
      LessTotal(x, y);
    }
  }

  /** The root is a function of the batch, not of the order it is listed in. */
  lemma RootOrderFree(sha: Hash, a: seq<string>, b: seq<string>)
    requires multiset(a) == multiset(b)
    ensures Root(sha, a) == Root(sha, b)
  {
    assert |multiset(a)| == |multiset(b)|;
    if DecodeAll(b).Some? { SucceedsTogether(FromMultibase, b, a); }
    if DecodeAll(a).Some? {
      SucceedsTogether(FromMultibase, a, b);
      TraversePermuted(FromMultibase, a, b);
      BytesBeforeStrict();
      BytesDecided(DecodeAll(a).value);
      SortPermuted(BytesBefore, DecodeAll(a).value, DecodeAll(b).value);
    }
  }
}
