/**
 The group a verifier forms for a call holds exactly the files the gate wrote for it.

 The verifier sorts file names as strings, so the tenth piece of evidence is met before the second,
 and it takes a call's files to be those that agree before the first dash.  Both are undone here:
 for every run and every listing of the directory, the group of a call is a rearrangement of what
 was written for it, with one decision and at most one receipt.  Positions are lost, contents not.
 */
module GroupLaws {
  import opened Outcomes
  import opened Json
  import opened Ordering
  import opened Gate
  import opened FileNames
  import opened GateLaws
  import opened Permuting
  import opened Replay

  // ---------- listings ----------

  lemma {:induction false} InGroup(files: seq<File>, seqNo: string, f: File)
    ensures f in GroupOf(files, seqNo) <==> f in files && Prefix(f.name) == seqNo
  {
    hide Prefix;
    if files != [] {
      InGroup(files[1..], seqNo, f);
      assert f in files <==> f == files[0] || f in files[1..];
    }
  }

  lemma {:induction false} InTimFiles(files: seq<File>, f: File)
    ensures f in TimFiles(files) <==> f in files && IsTimFile(f)
  {
    hide IsTimFile;
    if files != [] {
      InTimFiles(files[1..], f);
      assert f in files <==> f == files[0] || f in files[1..];
    }
  }

  lemma TailNoRepeats<T>(s: seq<T>)
    requires s != []
    ensures NoRepeats(s) <==> NoRepeats(s[1..]) && s[0] !in s[1..]
  {
    if s[0] in s[1..] {
      var j :| 0 <= j < |s[1..]| && s[1..][j] == s[0];
      assert s[j + 1] == s[0];
    }
    forall i, j | 0 <= i < j < |s[1..]|
      ensures s[1..][i] == s[i + 1] && s[1..][j] == s[j + 1]
    {
    }
  }

  lemma ConsNoRepeats<T>(x: T, s: seq<T>)
    requires NoRepeats(s) && x !in s
    ensures NoRepeats([x] + s)
  {
    TailNoRepeats([x] + s);
    assert ([x] + s)[1..] == s;
  }

  lemma {:induction false} GroupNoRepeats(files: seq<File>, seqNo: string)
    requires NoRepeats(files)
    ensures NoRepeats(GroupOf(files, seqNo))
  {
    hide Prefix, NoRepeats;
    if files != [] {
      TailNoRepeats(files);
      GroupNoRepeats(files[1..], seqNo);
      var rest := GroupOf(files[1..], seqNo);
      InGroup(files[1..], seqNo, files[0]);
      ConsNoRepeats(files[0], rest);
      assert [] + rest == rest;
    } else {
      NothingRepeats<File>();
    }
  }

  lemma NothingRepeats<T>()
    ensures NoRepeats<T>([])
  {
  }

  lemma {:induction false} TimsNoRepeats(files: seq<File>)
    requires NoRepeats(files)
    ensures NoRepeats(TimFiles(files))
  {
    hide IsTimFile, NoRepeats;
    if files != [] {
      TailNoRepeats(files);
      TimsNoRepeats(files[1..]);
      var rest := TimFiles(files[1..]);
      InTimFiles(files[1..], files[0]);
      ConsNoRepeats(files[0], rest);
      assert [] + rest == rest;
    } else {
      NothingRepeats<File>();
    }
  }

  lemma PermutedNoRepeats<T>(s: seq<T>, t: seq<T>)
    requires NoRepeats(s) && multiset(s) == multiset(t)
    ensures NoRepeats(t)
  {
    NoDuplicatesCount(s);
    forall i, j | 0 <= i < j < |t|
      ensures t[i] != t[j]
    {
      assert multiset(t)[t[i]] == multiset(ElementSet(s))[t[i]] <= 1;
      if t[i] == t[j] {
        OccursTwice(t, i, j);
        assert false;
      }
    }
  }

  lemma ListedIsPermuted(files: seq<File>)
    ensures multiset(Listed(files)) == multiset(files)
    ensures forall f :: f in Listed(files) <==> f in files
  {
    hide NameBefore;
    SortMultiset(NameBefore, files);
    forall f
      ensures f in Listed(files) <==> f in files
    {
      assert f in Listed(files) <==> f in multiset(Listed(files));
      assert f in files <==> f in multiset(files);
    }
  }

  lemma NamesNoRepeats(files: seq<File>)
    requires DistinctNames(files)
    ensures NoRepeats(files)
  {
  }

  // ---------- the files of a recorded call ----------

  /** The group of the n-th call. */
  function CallGroup(st: State, n: nat): seq<File> { GroupOf(Listed(st.files), SeqNo(n)) }

  lemma GroupIsCall(s: Setup, st: State, log: seq<Rec>, n: nat, f: File)
    requires Good(s, st, log)
    ensures f in CallGroup(st, n) <==> exists k :: FileOf(s, log, f, n, k)
  {
    hide FileOf, RecOk, PendingExact, DistinctNames, Prefix, SeqNo, Listed, GroupOf;
    InGroup(Listed(st.files), SeqNo(n), f);
    ListedIsPermuted(st.files);
    if f in st.files && Prefix(f.name) == SeqNo(n) {
      var m, k :| FileOf(s, log, f, m, k);
      FilePrefix(s, log, f, m, k);
      SeqNoInjective(m, n);
    }
    if exists k :: FileOf(s, log, f, n, k) {
      var k :| FileOf(s, log, f, n, k);
      FilePrefix(s, log, f, n, k);
    }
  }

  lemma FilePrefix(s: Setup, log: seq<Rec>, f: File, n: nat, k: Kind)
    requires FileOf(s, log, f, n, k)
    ensures Prefix(f.name) == SeqNo(n)
  {
    hide ContentOf, SeqNo, FileName, Prefix;
    NamePrefix(n, KindText(k));
  }

  /** What the tests on names make of a call's files. */
  lemma FileRecognized(s: Setup, log: seq<Rec>, f: File, n: nat, k: Kind)
    requires FileOf(s, log, f, n, k)
    ensures IsTimFile(f) == k.TimFile? && IsDecisionFile(f) == k.DecisionFile? && IsXrFile(f) == k.XrFile?
  {
    hide ContentOf, SeqNo, FileName, IsTimFile, IsDecisionFile, IsXrFile, KindText;
    Recognized(n, k, f.content);
  }

  /** The receipts of the call as files, in the order they were written. */
  function TimList(s: Setup, r: Rec, n: nat): (t: seq<File>)
    requires r.Rec?
    ensures |t| == |TimsOf(s, r)|
    ensures forall i | 0 <= i < |t| :: t[i] == File(FileName(SeqNo(n), TimKind(i)), TimsOf(s, r)[i])
  {
    seq(|TimsOf(s, r)|, i requires 0 <= i < |TimsOf(s, r)| => File(FileName(SeqNo(n), TimKind(i)), TimsOf(s, r)[i]))
  }

  lemma TimListNoRepeats(s: Setup, r: Rec, n: nat)
    requires r.Rec?
    ensures NoRepeats(TimList(s, r, n))
  {
    hide TimsOf, FileName, SeqNo, TimKind;
    var t := TimList(s, r, n);
    forall i: nat, j: nat | i < j < |t|
      ensures t[i] != t[j]
    {
      if t[i] == t[j] {
        NameInjective(n, TimKind(i), n, TimKind(j));
        TimKindInjective(i, j);
      }
    }
  }

  lemma TimListElements(s: Setup, log: seq<Rec>, n: nat, f: File)
    requires n < |log| && log[n].Rec?
    ensures f in TimList(s, log[n], n) <==> exists i: nat :: FileOf(s, log, f, n, TimFile(i))
  {
    hide TimsOf, FileName, SeqNo, TimKind, ArtifactOf, XrOf;
    var t := TimList(s, log[n], n);
    if f in t {
      var i :| 0 <= i < |t| && t[i] == f;
      assert FileOf(s, log, f, n, TimFile(i));
    }
    if exists i: nat :: FileOf(s, log, f, n, TimFile(i)) {
      var i: nat :| FileOf(s, log, f, n, TimFile(i));
      assert t[i] == f;
    }
  }

  /** The TIM files a verifier finds are the written ones, in some order. */
  lemma TimFilesPermuted(s: Setup, st: State, log: seq<Rec>, n: nat)
    requires Good(s, st, log) && n < |log| && log[n].Rec?
    ensures multiset(TimFiles(CallGroup(st, n))) == multiset(TimList(s, log[n], n))
  {
    hide FileOf, RecOk, PendingExact, FilesExact, SeqNo, Listed, TimList, NoRepeats, CallGroup, TimFiles, IsTimFile,
         Good;
    var g := CallGroup(st, n);
    TimListNoRepeats(s, log[n], n);
    GroupDistinct(s, st, log, n);
    TimsNoRepeats(g);
    forall f
      ensures f in TimFiles(g) <==> f in TimList(s, log[n], n)
    {
      InTimFiles(g, f);
      GroupIsCall(s, st, log, n, f);
      TimListElements(s, log, n, f);
      forall k | FileOf(s, log, f, n, k) { FileRecognized(s, log, f, n, k); }
    }
    SameElements(TimFiles(g), TimList(s, log[n], n));
  }

  lemma GroupDistinct(s: Setup, st: State, log: seq<Rec>, n: nat)
    requires Good(s, st, log)
    ensures NoRepeats(CallGroup(st, n))
  {
    hide FilesExact, RecOk, PendingExact, DistinctNames, NoRepeats, Listed, SeqNo, GroupOf;
    NamesNoRepeats(st.files);
    ListedIsPermuted(st.files);
    PermutedNoRepeats(st.files, Listed(st.files));
    GroupNoRepeats(Listed(st.files), SeqNo(n));
  }

  function ContentOfFile(f: File): Value { f.content }

  lemma ContentsMap(files: seq<File>)
    ensures Contents(files) == Map(ContentOfFile, files)
  {
  }

  /** The evidence a verifier replays is the written evidence, in some order. */
  lemma EvidencePermuted(s: Setup, st: State, log: seq<Rec>, n: nat)
    requires Good(s, st, log) && n < |log| && log[n].Rec?
    ensures multiset(Contents(TimFiles(CallGroup(st, n)))) == multiset(TimsOf(s, log[n]))
  {
    hide Good, CallGroup, TimFiles, TimsOf, Map, FileName, SeqNo;
    TimFilesPermuted(s, st, log, n);
    ContentsMap(TimFiles(CallGroup(st, n)));
    ContentsMap(TimList(s, log[n], n));
    MapPermuted(ContentOfFile, TimFiles(CallGroup(st, n)), TimList(s, log[n], n));
    assert Contents(TimList(s, log[n], n)) == TimsOf(s, log[n]);
  }

  /** The decision a verifier finds is the written one. */
  lemma DecisionFound(s: Setup, st: State, log: seq<Rec>, n: nat)
    requires Good(s, st, log) && n < |log| && log[n].Rec?
    ensures FirstDecision(CallGroup(st, n)).Some?
    ensures FirstDecision(CallGroup(st, n)).value.content == ArtifactOf(s, log[n])
  {
    hide Good, CallGroup, FileOf, FileName, SeqNo, ArtifactOf, IsDecisionFile;
    var g := CallGroup(st, n);
    var f := File(FileName(SeqNo(n), "decision"), ArtifactOf(s, log[n]));
    DecisionIsFile(s, log, n);
    GroupIsCall(s, st, log, n, f);
    FileRecognized(s, log, f, n, DecisionFile);
    var found := FirstDecision(g).value;
    GroupIsCall(s, st, log, n, found);
    var k :| FileOf(s, log, found, n, k);
    FileRecognized(s, log, found, n, k);
    FileContent(s, log, found, n, k);
  }

  lemma DecisionIsFile(s: Setup, log: seq<Rec>, n: nat)
    requires n < |log| && log[n].Rec?
    ensures FileOf(s, log, File(FileName(SeqNo(n), "decision"), ArtifactOf(s, log[n])), n, DecisionFile)
  {
    hide FileName, SeqNo, ArtifactOf;
  }

  lemma FileContent(s: Setup, log: seq<Rec>, f: File, n: nat, k: Kind)
    requires FileOf(s, log, f, n, k)
    ensures n < |log| && ContentOf(s, log[n], n, k) == Some(f.content)
    ensures k.DecisionFile? ==> log[n].Rec? && f.content == ArtifactOf(s, log[n])
    ensures k.XrFile? ==> log[n].Rec? && log[n].xr.Some? && XrOf(s, log[n], n) == Some(f.content)
  {
    hide FileName, SeqNo, ArtifactOf, XrOf, TimsOf;
  }

  /** The receipt a verifier finds, if any, is the written one. */
  lemma XrFound(s: Setup, st: State, log: seq<Rec>, n: nat)
    requires Good(s, st, log) && n < |log| && log[n].Rec?
    ensures FirstXr(CallGroup(st, n)).Some? ==>
            log[n].xr.Some? && XrOf(s, log[n], n) == Some(FirstXr(CallGroup(st, n)).value.content)
  {
    hide Good, CallGroup, FileOf, FileName, SeqNo, XrOf, IsXrFile;
    var g := CallGroup(st, n);
    if FirstXr(g).Some? {
      var found := FirstXr(g).value;
      GroupIsCall(s, st, log, n, found);
      var k :| FileOf(s, log, found, n, k);
      FileRecognized(s, log, found, n, k);
      FileContent(s, log, found, n, k);
    }
  }

  /** Every group of the bundle is that of a recorded call. */
  lemma PrefixIsCall(s: Setup, st: State, log: seq<Rec>, p: string) returns (n: nat)
    requires Good(s, st, log) && p in Prefixes(Listed(st.files), |st.files|)
    ensures n < |log| && log[n].Rec? && p == SeqNo(n)
  {
    hide FileOf, RecOk, PendingExact, DistinctNames, Prefix, SeqNo, Listed;
    ListedIsPermuted(st.files);
    var files := Listed(st.files);
    var i :| 0 <= i < |files| && Prefix(files[i].name) == p;
    assert files[i] in st.files;
    var m, k :| FileOf(s, log, files[i], m, k);
    FilePrefix(s, log, files[i], m, k);
    IsRecorded(s, log, files[i], m, k);
    n := m;
  }

  lemma IsRecorded(s: Setup, log: seq<Rec>, f: File, n: nat, k: Kind)
    requires FileOf(s, log, f, n, k)
    ensures n < |log| && log[n].Rec?
  {
    hide FileName, SeqNo, ArtifactOf, XrOf, TimsOf;
  }
}
