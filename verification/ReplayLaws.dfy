/**
 A valid report means that every execution in the bundle was justified.

 Nothing is assumed about who wrote the bundle.  If the verifier finds no error, each receipt has an
 authentic commitment and decision beside it, and a Kernel replay over that call's own evidence
 approves.  The citation checks are exact under one condition, and a gap without it.
 */
module ReplayLaws {
  import opened Outcomes
  import opened Json
  import opened Canonicalize
  import opened DidKey
  import opened Jws
  import opened Gate
  import opened Replay
  import Kernel
  import KernelLaws
  import Records
  import ReplayCode
  import Tim

  // ---------- what the absence of errors means ----------

  /** The artifact carries the cid of its body and a signature over it by the did's key. */
  predicate Authentic(c: Crypto, artifact: Value, did: string) {
    match Canonical(Object(Tim.BaseOf(artifact)))
    case None => false
    case Some(canonical) =>
      CidOf(c, canonical) == Str(artifact, ["cid"]) &&
      Resolve(did).Some? && Verified(c, Str(artifact, ["sig"]), canonical, Resolve(did).value)
  }

  lemma AuthenticIff(c: Crypto, artifact: Value, did: string, tag: string)
    ensures ArtifactErrors(c, artifact, did, tag) == [] <==> Authentic(c, artifact, did)
  {
    hide CidOf, Verified, Str, Canonical, Resolve;
  }

  lemma {:induction false} TimsValid(c: Crypto, timFiles: seq<File>, tag: string)
    ensures TimErrors(c, timFiles, tag) == [] <==> forall f | f in timFiles :: CheckTim(c, f.content).valid
  {
    hide CheckTim, Commas;
    if timFiles != [] {
      TimsValid(c, timFiles[1..], tag);
      assert forall f :: f in timFiles <==> f == timFiles[0] || f in timFiles[1..];
    }
  }

  lemma {:induction false} AllCited(cited: set<string>, tims: seq<Value>, tag: string)
    ensures UncitedErrors(cited, tims, tag) == [] <==> forall t | t in tims :: Str(t, ["cid"]) in cited
  {
    hide Str;
    if tims != [] {
      AllCited(cited, tims[1..], tag);
      assert forall t :: t in tims <==> t == tims[0] || t in tims[1..];
    }
  }

  lemma {:induction false} GroupsValid(v: Verifier, commitments: map<string, Value>, prefixes: seq<string>,
                                       files: seq<File>)
    ensures GroupErrors(v, commitments, prefixes, files) == [] <==>
            forall p | p in prefixes :: CallClean(v, commitments, p, files)
  {
    hide CallClean;
    if prefixes != [] {
      GroupsValid(v, commitments, prefixes[1..], files);
      CleanIs(v, commitments, prefixes[0], files);
      assert forall p :: p in prefixes <==> p == prefixes[0] || p in prefixes[1..];
    }
  }

  predicate CallClean(v: Verifier, commitments: map<string, Value>, seqNo: string, files: seq<File>) {
    CallErrors(v, commitments, seqNo, GroupOf(files, seqNo)) == []
  }

  lemma CleanIs(v: Verifier, commitments: map<string, Value>, seqNo: string, files: seq<File>)
    ensures CallClean(v, commitments, seqNo, files) <==> CallErrors(v, commitments, seqNo, GroupOf(files, seqNo)) == []
  {
    hide CallErrors, GroupOf;
  }

  lemma {:induction false} CommitmentsValid(c: Crypto, files: seq<File>)
    ensures CommitmentErrors(c, files) == [] <==>
            forall f | f in files :: Authentic(c, f.content, Str(f.content, ["actor"]))
  {
    hide Authentic, ArtifactErrors, Str;
    if files != [] {
      AuthenticIff(c, files[0].content, Str(files[0].content, ["actor"]), "commitment " + files[0].name);
      CommitmentsValid(c, files[1..]);
      assert forall f :: f in files <==> f == files[0] || f in files[1..];
    }
  }

  lemma {:induction false} DeclaredPresent(declared: seq<string>, commitments: map<string, Value>)
    ensures DeclaredErrors(declared, commitments) == [] <==> forall c | c in declared :: c in commitments
  {
    if declared != [] {
      DeclaredPresent(declared[1..], commitments);
      assert forall c :: c in declared <==> c == declared[0] || c in declared[1..];
    }
  }

  /** What the map holds comes from a file of that cid. */
  lemma {:induction false} MapFrom(files: seq<File>, n: nat, cid: string) returns (f: File)
    requires n <= |files| && cid in CommitmentMap(files, n)
    ensures f in files && f.content == CommitmentMap(files, n)[cid] && Str(f.content, ["cid"]) == cid
    decreases n
  {
    hide Str;
    if Str(files[n - 1].content, ["cid"]) == cid { f := files[n - 1]; } else { f := MapFrom(files, n - 1, cid); }
  }

  // ---------- justified executions ----------

  /** The verified evidence of a call, in the order it is replayed. */
  function EvidenceOf(b: Bundle, seqNo: string): seq<Value> { Contents(TimFiles(GroupOf(Listed(b.calls), seqNo))) }

  /** The call has a receipt, and this is its decision and its receipt. */
  predicate Executed(b: Bundle, seqNo: string, decision: Value, xr: Value) {
    var g := GroupOf(Listed(b.calls), seqNo);
    FirstXr(g).Some? && FirstXr(g).value.content == xr &&
    FirstDecision(g).Some? && FirstDecision(g).value.content == decision
  }

  /** All that a receipt must rest on. */
  predicate Justified(v: Verifier, b: Bundle, seqNo: string, commitment: Value, decision: Value, xr: Value) {
    var tims := EvidenceOf(b, seqNo);
    // the three artifacts are authentic, and the links between them hold
    && Authentic(v.crypto, commitment, Str(commitment, ["actor"]))
    && Authentic(v.crypto, decision, Str(decision, ["identity", "id"]))
    && Authentic(v.crypto, xr, Str(xr, ["identity", "id"]))
    && Str(commitment, ["cid"]) == Str(decision, ["commitment_cid"]) == Str(xr, ["commitment_cid"])
    && Str(decision, ["cid"]) == Str(xr, ["decision_cid"])
    // the evidence is verified and cited
    && (forall t | t in tims :: CheckTim(v.crypto, t).valid && Str(t, ["cid"]) in Cited(decision))
    && |Cited(decision)| == |tims|
    // the Kernel approves it under that commitment
    && Records.DecideJson(v.rt, commitment, tims, Str(decision, ["time", "ts"])).status == Kernel.APPROVED
    // the receipt is for the recorded arguments
    && RawArgs(tims).Some? && RecordedHash(v.crypto, RawArgs(tims).value) == Some(Str(xr, ["args_hash"]))
  }

  lemma ValidParts(v: Verifier, b: Bundle)
    requires VerifyBundle(v, b).valid
    ensures b.session.Some?
    ensures var cs, calls := Listed(b.commitments), Listed(b.calls);
      CommitmentErrors(v.crypto, cs) == [] &&
      GroupErrors(v, CommitmentMap(cs, |cs|), Prefixes(calls, |calls|), calls) == []
  {
    hide ArtifactErrors, CommitmentErrors, DeclaredErrors, GroupErrors, Listed, CommitmentMap, Prefixes,
         Records.OptionalStr, Records.Items, Records.Texts;
  }

  lemma {:induction false} GroupHasPrefix(files: seq<File>, seqNo: string, f: File)
    requires f in GroupOf(files, seqNo)
    ensures exists i | 0 <= i < |files| :: Prefix(files[i].name) == seqNo
  {
    hide Prefix;
    ReplayCode.GroupFrom(files, seqNo);
    var i :| 0 <= i < |files| && files[i] == f;
  }

  lemma ApprovedText(s: Kernel.Status)
    ensures Records.StatusText(s) == "APPROVED" <==> s == Kernel.APPROVED
  {
  }

  /** One call without errors, and with a receipt. */
  lemma CallJustified(v: Verifier, b: Bundle, commitments: map<string, Value>, seqNo: string, xr: Value)
    returns (decision: Value, commitment: Value)
    requires CallErrors(v, commitments, seqNo, GroupOf(Listed(b.calls), seqNo)) == []
    requires FirstXr(GroupOf(Listed(b.calls), seqNo)).Some? &&
             FirstXr(GroupOf(Listed(b.calls), seqNo)).value.content == xr
    ensures Executed(b, seqNo, decision, xr)
    ensures Str(decision, ["commitment_cid"]) in commitments &&
            commitment == commitments[Str(decision, ["commitment_cid"])]
    ensures Authentic(v.crypto, commitment, Str(commitment, ["actor"])) &&
            Str(commitment, ["cid"]) == Str(decision, ["commitment_cid"]) ==>
            Justified(v, b, seqNo, commitment, decision, xr)
  {
    hide TimErrors, UncitedErrors, ArtifactErrors, ArgsErrors, ReplayErrors, Listed, GroupOf, TimFiles, FirstXr,
         FirstDecision, Authentic, CheckTim, Str, Cited, RawArgs, RecordedHash;
    var g := GroupOf(Listed(b.calls), seqNo);
    var tag := "call " + seqNo;
    var tims := EvidenceOf(b, seqNo);
    decision := FirstDecision(g).value.content;
    TimsValid(v.crypto, TimFiles(g), tag);
    AllCited(Cited(decision), tims, tag);
    AuthenticIff(v.crypto, decision, Str(decision, ["identity", "id"]), tag + " decision");
    AuthenticIff(v.crypto, xr, Str(xr, ["identity", "id"]), tag + " xr");
    commitment := ReplayApproved(v, commitments, decision, tims, tag);
    ArgsMatch(v.crypto, xr, tims, tag);
    ContentsValid(v.crypto, TimFiles(g));
  }

  lemma ContentsValid(c: Crypto, files: seq<File>)
    requires forall f | f in files :: CheckTim(c, f.content).valid
    ensures forall t | t in Contents(files) :: CheckTim(c, t).valid
  {
    hide CheckTim;
    forall t | t in Contents(files)
      ensures CheckTim(c, t).valid
    {
      var i :| 0 <= i < |files| && Contents(files)[i] == t;
      assert files[i] in files;
    }
  }

  lemma ReplayApproved(v: Verifier, commitments: map<string, Value>, decision: Value, tims: seq<Value>, tag: string)
    returns (commitment: Value)
    requires ReplayErrors(v, commitments, decision, tims, tag) == [] && Str(decision, ["status"]) == "APPROVED"
    ensures Str(decision, ["commitment_cid"]) in commitments &&
            commitment == commitments[Str(decision, ["commitment_cid"])]
    ensures Records.DecideJson(v.rt, commitment, tims, Str(decision, ["time", "ts"])).status == Kernel.APPROVED
  {
    hide Str, Records.DecideJson, SameCanonical, Records.StatusText;
    commitment := commitments[Str(decision, ["commitment_cid"])];
    ApprovedText(Records.DecideJson(v.rt, commitment, tims, Str(decision, ["time", "ts"])).status);
  }

  lemma ArgsMatch(c: Crypto, xr: Value, tims: seq<Value>, tag: string)
    requires ArgsErrors(c, xr, tims, tag) == []
    ensures RawArgs(tims).Some? && RecordedHash(c, RawArgs(tims).value) == Some(Str(xr, ["args_hash"]))
  {
    hide Str, RawArgs, RecordedHash;
  }

  /**
   If the report is valid, every call with a receipt has a decision and a commitment in the bundle that
   justify it.
   */
  lemma ValidMeansJustified(v: Verifier, b: Bundle, seqNo: string)
    returns (commitment: Value, decision: Value, xr: Value)
    requires VerifyBundle(v, b).valid && FirstXr(GroupOf(Listed(b.calls), seqNo)).Some?
    ensures Executed(b, seqNo, decision, xr)
    ensures exists f | f in b.commitments :: f.content == commitment
    ensures Justified(v, b, seqNo, commitment, decision, xr)
  {
    hide VerifyBundle, CallErrors, GroupErrors, CommitmentErrors, Justified, Executed, Listed, FirstXr, GroupOf,
         Authentic, Str, Prefixes, CommitmentMap;
    ValidParts(v, b);
    var cs, calls := Listed(b.commitments), Listed(b.calls);
    var commitments := CommitmentMap(cs, |cs|);
    var f := FirstXr(GroupOf(calls, seqNo)).value;
    xr := f.content;
    GroupHasPrefix(calls, seqNo, f);
    GroupsValid(v, commitments, Prefixes(calls, |calls|), calls);
    CleanIs(v, commitments, seqNo, calls);
    decision, commitment := CallJustified(v, b, commitments, seqNo, xr);
    var file := MapFrom(cs, |cs|, Str(decision, ["commitment_cid"]));
    CommitmentsValid(v.crypto, cs);
    ListedSame(b.commitments, file);
  }

  lemma ListedSame(files: seq<File>, f: File)
    ensures f in Listed(files) <==> f in files
  {
    hide NameBefore;
    Ordering.SortMultiset(NameBefore, files);
    assert f in Listed(files) <==> f in multiset(Listed(files));
    assert f in files <==> f in multiset(files);
  }

  /** A justified execution rests on proven measures: each has evidence, and each assertion passes on it. */
  lemma JustifiedMeansProven(v: Verifier, b: Bundle, seqNo: string, commitment: Value, decision: Value, xr: Value)
    requires Justified(v, b, seqNo, commitment, decision, xr)
    ensures var c := Records.ReadCommitment(commitment);
      c.Some? && c.value.measure != [] && Kernel.AllRegistered(c.value.consequence) &&
      forall i: nat | i < |c.value.measure| ::
        KernelLaws.Proven(v.rt, c.value.measure, Records.ReadTims(EvidenceOf(b, seqNo)),
            Str(decision, ["time", "ts"]), i)
  {
    hide Authentic, EvidenceOf, KernelLaws.Proven, Kernel.Decide, Kernel.AllRegistered, KernelLaws.Fires,
         Records.ReadCommitment, Str, CheckTim, Cited, RawArgs, RecordedHash;
    var c := Records.ReadCommitment(commitment);
    if c.Some? {
      KernelLaws.ApprovedIff(v.rt, c.value, Records.ReadTims(EvidenceOf(b, seqNo)), Str(decision, ["time", "ts"]));
    }
  }

  // ---------- how exact the citations are ----------

  predicate DistinctTexts(ss: seq<string>) { forall i, j | 0 <= i < j < |ss| :: ss[i] != ss[j] }

  lemma CidsInCited(tims: seq<Value>, cited: set<string>)
    requires forall t | t in tims :: Str(t, ["cid"]) in cited
    ensures SetOf(CidsOf(tims)) <= cited
  {
    hide Str;
    forall s | s in SetOf(CidsOf(tims))
      ensures s in cited
    {
      var i :| 0 <= i < |tims| && CidsOf(tims)[i] == s;
      assert tims[i] in tims;
    }
  }

  lemma {:induction false} SetSize(ss: seq<string>)
    ensures |SetOf(ss)| <= |ss|
    ensures |SetOf(ss)| == |ss| <==> DistinctTexts(ss)
  {
    if ss != [] {
      var rest := ss[1..];
      SetSize(rest);
      assert ss == [ss[0]] + rest;
      assert SetOf(ss) == {ss[0]} + SetOf(rest);
      HeadDistinct(ss);
      if ss[0] in SetOf(rest) { assert SetOf(ss) == SetOf(rest); }
    }
  }

  lemma HeadDistinct(ss: seq<string>)
    requires ss != []
    ensures DistinctTexts(ss) <==> DistinctTexts(ss[1..]) && ss[0] !in SetOf(ss[1..])
  {
    var rest := ss[1..];
    if ss[0] in SetOf(rest) {
      var j :| 0 <= j < |rest| && rest[j] == ss[0];
      assert ss[j + 1] == ss[0];
    }
    forall i, j | 0 <= i < j < |rest|
      ensures rest[i] == ss[i + 1] && rest[j] == ss[j + 1]
    {
    }
  }

  /**
   When the citation checks pass, the decision cites exactly the cids of its evidence
   if and only if no two TIMs of the call have the same cid.
   */
  lemma CitationExactIff(cited: set<string>, tims: seq<Value>, tag: string)
    requires UncitedErrors(cited, tims, tag) + CountErrors(cited, tims, tag) == []
    ensures cited == SetOf(CidsOf(tims)) <==> DistinctTexts(CidsOf(tims))
  {
    hide Str, UncitedErrors, DistinctTexts;
    AllCited(cited, tims, tag);
    CidsInCited(tims, cited);
    SetSize(CidsOf(tims));
    if |SetOf(CidsOf(tims))| == |cited| { Json.SubsetSameSize(SetOf(CidsOf(tims)), cited); }
  }

  /** And it can fail: the same TIM filed twice makes room for a citation of evidence that is not there. */
  lemma CitationGap(tim: Value, absent: string, tag: string)
    requires absent != Str(tim, ["cid"])
    ensures var cited := {Str(tim, ["cid"]), absent};
      UncitedErrors(cited, [tim, tim], tag) + CountErrors(cited, [tim, tim], tag) == [] &&
      absent !in SetOf(CidsOf([tim, tim]))
  {
    hide Str;
    AllCited({Str(tim, ["cid"]), absent}, [tim, tim], tag);
    assert |{Str(tim, ["cid"]), absent}| == 2;
  }
}
