/** The bundle verifier as it runs: loops that collect errors and fill maps. */
module ReplayCode {
  import opened Outcomes
  import opened Ordering
  import opened Json
  import opened Canonicalize
  import opened DidKey
  import opened Jws
  import opened Gate
  import opened Replay
  import Kernel
  import Records
  import Tim

  method VerifyArtifact(c: Crypto, artifact: Value, did: string, tag: string, errors: seq<string>)
    returns (r: seq<string>)
    requires Unambiguous(artifact)
    ensures r == errors + ArtifactErrors(c, artifact, did, tag)
  {
    hide CidOf, Verified, Str, Canonical;
    var body := Object(Tim.BaseOf(artifact));
    Tim.BaseUnambiguous(artifact);
    var canonical := CanonicalizeValue(body);
    r := errors;
    if canonical.None? { return r + [tag + ": not canonical"]; }
    if CidOf(c, canonical.value) != Str(artifact, ["cid"]) { r := r + [tag + ": cid mismatch"]; }
    var key := Resolve(did);
    var ok := false;
    if key.Some? { ok := VerifyDetached(c, Str(artifact, ["sig"]), canonical.value, key.value); }
    if !ok { r := r + [tag + ": signature invalid"]; }
  }

  predicate AllUnambiguous(files: seq<File>) { forall i | 0 <= i < |files| :: Unambiguous(files[i].content) }

  method LoadCommitments(c: Crypto, files: seq<File>, errors: seq<string>)
    returns (r: seq<string>, commitments: map<string, Value>)
    requires AllUnambiguous(files)
    ensures r == errors + CommitmentErrors(c, files) && commitments == CommitmentMap(files, |files|)
  {
    hide ArtifactErrors, Str, Unambiguous;
    r, commitments := errors, map[];
    assert files[0..] == files;
    for i := 0 to |files|
      invariant r + CommitmentErrors(c, files[i..]) == errors + CommitmentErrors(c, files)
      invariant commitments == CommitmentMap(files, i)
    {
      var artifact, tag := files[i].content, "commitment " + files[i].name;
      assert files[i..][1..] == files[i + 1..];
      Rejoin(r, ArtifactErrors(c, artifact, Str(artifact, ["actor"]), tag), CommitmentErrors(c, files[i + 1..]));
      r := VerifyArtifact(c, artifact, Str(artifact, ["actor"]), tag, r);
      commitments := commitments[Str(artifact, ["cid"]) := artifact];
    }
    assert files[|files|..] == [] && r + [] == r;
  }

  lemma Rejoin(a: seq<string>, b: seq<string>, c: seq<string>)
    ensures a + (b + c) == (a + b) + c
  {
  }

  method CheckDeclared(declared: seq<string>, commitments: map<string, Value>, errors: seq<string>)
    returns (r: seq<string>)
    ensures r == errors + DeclaredErrors(declared, commitments)
  {
    r := errors;
    assert declared[0..] == declared;
    for i := 0 to |declared|
      invariant r + DeclaredErrors(declared[i..], commitments) == errors + DeclaredErrors(declared, commitments)
    {
      assert declared[i..][1..] == declared[i + 1..];
      var missing := "session: declared commitment " + declared[i] + " missing from bundle";
      ghost var rest := DeclaredErrors(declared[i + 1..], commitments);
      Rejoin(r, if declared[i] in commitments then [] else [missing], rest);
      if declared[i] !in commitments { r := r + [missing]; } else { assert r + [] == r; }
    }
    assert declared[|declared|..] == [] && r + [] == r;
  }

  // ---------- grouping ----------

  lemma JoinGroups(a: seq<File>, b: seq<File>, c: seq<File>)
    ensures a + (b + c) == (a + b) + c
  {
  }

  lemma {:induction false} GroupSnoc(files: seq<File>, f: File, seqNo: string)
    ensures GroupOf(files + [f], seqNo) == GroupOf(files, seqNo) + if Prefix(f.name) == seqNo then [f] else []
  {
    hide Prefix;
    if files == [] {
      assert ([] + [f])[1..] == [];
    } else {
      assert (files + [f])[1..] == files[1..] + [f] && (files + [f])[0] == files[0];
      GroupSnoc(files[1..], f, seqNo);
      var head := if Prefix(files[0].name) == seqNo then [files[0]] else [];
      JoinGroups(head, GroupOf(files[1..], seqNo), if Prefix(f.name) == seqNo then [f] else []);
      assert GroupOf(files + [f], seqNo) == head + GroupOf(files[1..] + [f], seqNo);
    }
  }

  /** Groups by prefix, in the order the prefixes are first met. */
  method GroupCalls(files: seq<File>) returns (order: seq<string>, bySeq: map<string, seq<File>>)
    ensures order == Prefixes(files, |files|)
    ensures forall p | p in order :: p in bySeq && bySeq[p] == GroupOf(files, p)
  {
    hide Prefix, GroupOf;
    order, bySeq := [], map[];
    NoGroups(files);
    for i := 0 to |files|
      invariant order == Prefixes(files, i)
      invariant forall p :: p in bySeq <==> p in order
      invariant forall p :: GroupOf(files[..i], p) == if p in bySeq then bySeq[p] else []
    {
      var f := files[i];
      var p := Prefix(f.name);
      GroupNext(files, i);
      if p !in order { order := order + [p]; }
      bySeq := bySeq[p := (if p in bySeq then bySeq[p] else []) + [f]];
    }
  }

  lemma NoGroups(files: seq<File>)
    ensures forall p :: GroupOf(files[..0], p) == []
    ensures files[..|files|] == files
  {
  }

  /** One more file extends the group of its prefix. */
  lemma GroupNext(files: seq<File>, i: nat)
    requires i < |files|
    ensures forall q :: GroupOf(files[..i + 1], q) ==
                        GroupOf(files[..i], q) + if Prefix(files[i].name) == q then [files[i]] else []
  {
    hide Prefix, GroupOf;
    assert files[..i + 1] == files[..i] + [files[i]];
    forall q
      ensures GroupOf(files[..i + 1], q) ==
              GroupOf(files[..i], q) + if Prefix(files[i].name) == q then [files[i]] else []
    {
      GroupSnoc(files[..i], files[i], q);
    }
  }

  // ---------- one call ----------

  method CheckTims(c: Crypto, timFiles: seq<File>, tag: string, errors: seq<string>)
    returns (r: seq<string>, tims: seq<Value>)
    requires AllUnambiguous(timFiles)
    ensures r == errors + TimErrors(c, timFiles, tag) && tims == Contents(timFiles)
  {
    hide CheckTim, Commas, Unambiguous;
    r, tims := errors, [];
    assert timFiles[0..] == timFiles;
    for i := 0 to |timFiles|
      invariant r + TimErrors(c, timFiles[i..], tag) == errors + TimErrors(c, timFiles, tag)
      invariant |tims| == i && forall j | 0 <= j < i :: tims[j] == timFiles[j].content
    {
      assert timFiles[i..][1..] == timFiles[i + 1..];
      var res := VerifyOne(c, timFiles[i].content);
      var line := tag + " " + timFiles[i].name + ": " + Commas(res.errors);
      Rejoin(r, if res.valid then [] else [line], TimErrors(c, timFiles[i + 1..], tag));
      if !res.valid { r := r + [line]; } else { assert r + [] == r; }
      tims := tims + [timFiles[i].content];
    }
    assert timFiles[|timFiles|..] == [] && r + [] == r;
  }

  method VerifyOne(c: Crypto, tim: Value) returns (res: Tim.VerifyResult)
    requires Unambiguous(tim)
    ensures res == CheckTim(c, tim)
  {
    res := Tim.VerifyTimAt(c, tim, ReplayResolver, NoParse, "");
  }

  method CheckCited(cited: set<string>, tims: seq<Value>, tag: string, errors: seq<string>) returns (r: seq<string>)
    ensures r == errors + UncitedErrors(cited, tims, tag)
  {
    hide Str;
    r := errors;
    assert tims[0..] == tims;
    for i := 0 to |tims|
      invariant r + UncitedErrors(cited, tims[i..], tag) == errors + UncitedErrors(cited, tims, tag)
    {
      assert tims[i..][1..] == tims[i + 1..];
      var cid := Str(tims[i], ["cid"]);
      var line := tag + ": TIM " + cid + " not cited by decision";
      Rejoin(r, if cid in cited then [] else [line], UncitedErrors(cited, tims[i + 1..], tag));
      if cid !in cited { r := r + [line]; } else { assert r + [] == r; }
    }
    assert tims[|tims|..] == [] && r + [] == r;
  }

  method CheckReplay(v: Verifier, commitments: map<string, Value>, decision: Value, tims: seq<Value>, tag: string,
                     errors: seq<string>) returns (r: seq<string>)
    ensures r == errors + ReplayErrors(v, commitments, decision, tims, tag)
  {
    hide Str, Records.ReadCommitment, Kernel.Decide, Replays;
    r := errors;
    var cid := Str(decision, ["commitment_cid"]);
    if cid == "" {
      return r + if Str(decision, ["status"]) != "APPROVED" then []
                 else [tag + ": APPROVED decision without a commitment"];
    }
    if cid !in commitments { return r + [tag + ": commitment " + cid + " not in bundle"]; }
    var now := Str(decision, ["time", "ts"]);
    var c := Records.ReadCommitment(commitments[cid]);
    var replay := Kernel.Decision(Kernel.REJECTED, [], [], ["kernel.invalid_commitment"]);
    if c.Some? { replay := Kernel.EvaluateKernel(v.rt, c.value, Records.ReadTims(tims), now); }
    assert replay == Records.DecideJson(v.rt, commitments[cid], tims, now);
    if !Replays(replay, decision) { r := r + [tag + ": decision does not replay"]; }
  }

  method CheckExecution(c: Crypto, xrFile: Option<File>, decision: Value, tims: seq<Value>, tag: string,
                        errors: seq<string>) returns (r: seq<string>)
    requires xrFile.Some? ==> Unambiguous(xrFile.value.content)
    ensures r == errors + ExecutionErrors(c, xrFile, decision, tims, tag)
  {
    hide Str, XrErrors;
    r := errors;
    if xrFile.None? { return; }
    if Str(decision, ["status"]) != "APPROVED" {
      r := r + [tag + ": execution receipt present for non-approved decision"];
    }
    r := CheckXr(c, xrFile.value.content, decision, tims, tag, r);
  }

  lemma JoinFive(r: seq<string>, a: seq<string>, b: seq<string>, c: seq<string>, d: seq<string>, e: seq<string>)
    ensures r + a + b + c + d + e == r + (a + b + c + d + e)
  {
  }

  method CheckXr(c: Crypto, xr: Value, decision: Value, tims: seq<Value>, tag: string, errors: seq<string>)
    returns (r: seq<string>)
    requires Unambiguous(xr)
    ensures r == errors + XrErrors(c, xr, decision, tims, tag)
  {
    hide Str, ArtifactErrors, ArgsErrors;
    r := VerifyArtifact(c, xr, Str(xr, ["identity", "id"]), tag + " xr", errors);
    ghost var e0 := ArtifactErrors(c, xr, Str(xr, ["identity", "id"]), tag + " xr");
    ghost var e1 := if Str(xr, ["decision_cid"]) == Str(decision, ["cid"]) then []
                    else [tag + ": xr.decision_cid mismatch"];
    if Str(xr, ["decision_cid"]) != Str(decision, ["cid"]) { r := r + [tag + ": xr.decision_cid mismatch"]; }
    assert r == errors + e0 + e1;
    ghost var e2 := if Str(xr, ["commitment_cid"]) != Str(decision, ["commitment_cid"])
                    then [tag + ": xr.commitment_cid mismatch"] else [];
    if Str(xr, ["commitment_cid"]) != Str(decision, ["commitment_cid"]) {
      r := r + [tag + ": xr.commitment_cid mismatch"];
    }
    assert r == errors + e0 + e1 + e2;
    ghost var e3 := if Str(xr, ["status"]) !in {"success", "failed"} then [tag + ": xr.status invalid"] else [];
    if Str(xr, ["status"]) !in {"success", "failed"} { r := r + [tag + ": xr.status invalid"]; }
    assert r == errors + e0 + e1 + e2 + e3;
    r := r + ArgsErrors(c, xr, tims, tag);
    JoinFive(errors, e0, e1, e2, e3, ArgsErrors(c, xr, tims, tag));
  }

  lemma TimFilesFrom(files: seq<File>)
    ensures forall f | f in TimFiles(files) :: f in files && IsTimFile(f)
  {
    if files != [] { TimFilesFrom(files[1..]); }
  }

  lemma GroupFrom(files: seq<File>, seqNo: string)
    ensures forall f | f in GroupOf(files, seqNo) :: f in files && Prefix(f.name) == seqNo
  {
    if files != [] { GroupFrom(files[1..], seqNo); }
  }

  lemma SubsetUnambiguous(sub: seq<File>, files: seq<File>)
    requires AllUnambiguous(files) && forall f | f in sub :: f in files
    ensures AllUnambiguous(sub)
  {
    hide Unambiguous;
    forall i | 0 <= i < |sub|
      ensures Unambiguous(sub[i].content)
    {
      assert sub[i] in files;
    }
  }

  method CheckDecision(v: Verifier, commitments: map<string, Value>, decision: Value, tims: seq<Value>,
                       xrFile: Option<File>, tag: string, errors: seq<string>) returns (r: seq<string>)
    requires Unambiguous(decision) && (xrFile.Some? ==> Unambiguous(xrFile.value.content))
    ensures r == errors + DecisionErrors(v, commitments, decision, tims, xrFile, tag)
  {
    hide Str, ArtifactErrors, UncitedErrors, ReplayErrors, ExecutionErrors, Cited, CountErrors;
    var cited := Cited(decision);
    r := VerifyArtifact(v.crypto, decision, Str(decision, ["identity", "id"]), tag + " decision", errors);
    r := CheckCited(cited, tims, tag, r);
    r := r + CountErrors(cited, tims, tag);
    r := CheckReplay(v, commitments, decision, tims, tag, r);
    r := CheckExecution(v.crypto, xrFile, decision, tims, tag, r);
  }

  method CheckCall(v: Verifier, commitments: map<string, Value>, seqNo: string, files: seq<File>, errors: seq<string>)
    returns (r: seq<string>)
    requires AllUnambiguous(files)
    ensures r == errors + CallErrors(v, commitments, seqNo, files)
  {
    hide TimErrors, DecisionErrors, Unambiguous, TimFiles, FirstDecision, FirstXr;
    var tag := "call " + seqNo;
    TimFilesFrom(files);
    SubsetUnambiguous(TimFiles(files), files);
    var e, tims := CheckTims(v.crypto, TimFiles(files), tag, errors);
    var decisionFile := FirstDecision(files);
    if decisionFile.None? { return e + [tag + ": missing decision artifact"]; }
    var xrFile := FirstXr(files);
    FoundUnambiguous(files, decisionFile.value);
    if xrFile.Some? { FoundUnambiguous(files, xrFile.value); }
    r := CheckDecision(v, commitments, decisionFile.value.content, tims, xrFile, tag, e);
  }

  lemma FoundUnambiguous(files: seq<File>, f: File)
    requires AllUnambiguous(files) && f in files
    ensures Unambiguous(f.content)
  {
    var i :| 0 <= i < |files| && files[i] == f;
  }

  method CheckCalls(v: Verifier, commitments: map<string, Value>, order: seq<string>, bySeq: map<string, seq<File>>,
                    files: seq<File>, errors: seq<string>) returns (r: seq<string>)
    requires AllUnambiguous(files)
    requires forall p | p in order :: p in bySeq && bySeq[p] == GroupOf(files, p)
    ensures r == errors + GroupErrors(v, commitments, order, files)
  {
    hide CallErrors, GroupOf, AllUnambiguous;
    r := errors;
    assert order[0..] == order;
    for i := 0 to |order|
      invariant r + GroupErrors(v, commitments, order[i..], files) == errors + GroupErrors(v, commitments, order, files)
    {
      var p := order[i];
      assert order[i..][1..] == order[i + 1..];
      GroupUnambiguous(files, p);
      Rejoin(r, CallErrors(v, commitments, p, GroupOf(files, p)), GroupErrors(v, commitments, order[i + 1..], files));
      r := CheckCall(v, commitments, p, bySeq[p], r);
    }
    assert order[|order|..] == [] && r + [] == r;
  }

  lemma GroupUnambiguous(files: seq<File>, p: string)
    requires AllUnambiguous(files)
    ensures AllUnambiguous(GroupOf(files, p))
  {
    hide Unambiguous, Prefix;
    GroupFrom(files, p);
    SubsetUnambiguous(GroupOf(files, p), files);
  }

  lemma ListedUnambiguous(files: seq<File>)
    requires AllUnambiguous(files)
    ensures AllUnambiguous(Listed(files))
  {
    hide Unambiguous, NameBefore;
    SortMultiset(NameBefore, files);
    forall f | f in Listed(files)
      ensures f in files
    {
      assert f in multiset(Listed(files));
    }
    SubsetUnambiguous(Listed(files), files);
  }

  /** Files are parsed strictly, so no document repeats a member name. */
  method Verify(v: Verifier, b: Bundle) returns (r: Report)
    requires b.session.Some? ==> Unambiguous(b.session.value)
    requires AllUnambiguous(b.commitments) && AllUnambiguous(b.calls)
    ensures r == VerifyBundle(v, b)
  {
    hide ArtifactErrors, CommitmentErrors, DeclaredErrors, GroupErrors, Unambiguous, Listed, CommitmentMap, Prefixes,
         AllUnambiguous;
    if b.session.None? { return Report(false, ["session.json: not loaded"], 0, 0); }
    var session := b.session.value;
    var did := Records.OptionalStr(session, ["identity", "id"]);
    if did.None? { return Report(false, ["session.json: missing identity.id"], 0, 0); }
    ListedUnambiguous(b.commitments);
    ListedUnambiguous(b.calls);
    var cs, calls := Listed(b.commitments), Listed(b.calls);
    var errors := VerifyArtifact(v.crypto, session, did.value, "session", []);
    var commitments;
    errors, commitments := LoadCommitments(v.crypto, cs, errors);
    errors := CheckDeclared(Records.Texts(Records.Items(session, ["commitments"])), commitments, errors);
    var order, bySeq := GroupCalls(calls);
    errors := CheckCalls(v, commitments, order, bySeq, calls, errors);
    assert [] + ArtifactErrors(v.crypto, session, did.value, "session") ==
        ArtifactErrors(v.crypto, session, did.value, "session");
    r := Report(errors == [], errors, |order|, |commitments|);
  }
}
