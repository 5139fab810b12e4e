/**
 A valid bundle whose decision cites evidence that is not there.

 The verifier compares how many cids a decision cites with how many TIM files the call has.  Filing
 one TIM under two names makes room for one more citation, of anything.  The bundle built here is
 signed with the gate's own key, its decision replays, and its report is valid.
 */
module CitationGaps {
  import opened Outcomes
  import opened Json
  import opened Jws
  import opened Policy
  import opened Audit
  import opened Gate
  import opened FileNames
  import opened GateLaws
  import opened GroupLaws
  import opened Permuting
  import opened Replay
  import opened ReplayLaws
  import opened BundleLaws
  import ArtifactFields
  import ArtifactShapes
  import Compliance
  import EvidenceLaws
  import Kernel
  import Records

  // ---------- the files of the call ----------

  /** A decision, and one TIM under two names. */
  function Doubled(decision: Value, tim: Value): seq<File> {
    [File(FileName(SeqNo(0), KindText(DecisionFile)), decision),
     File(FileName(SeqNo(0), KindText(TimFile(0))), tim),
     File(FileName(SeqNo(0), KindText(TimFile(1))), tim)]
  }

  lemma DoubledNames(decision: Value, tim: Value)
    ensures NoRepeats(Doubled(decision, tim))
    ensures forall f | f in Doubled(decision, tim) :: Prefix(f.name) == SeqNo(0) && !IsXrFile(f)
    ensures forall f | f in Doubled(decision, tim) :: IsDecisionFile(f) <==> f == Doubled(decision, tim)[0]
    ensures forall f | f in Doubled(decision, tim) :: IsTimFile(f) <==> f in Doubled(decision, tim)[1..]
  {
    hide FileName, SeqNo, Prefix, IsXrFile, IsDecisionFile, IsTimFile;
    var files := Doubled(decision, tim);
    Recognized(0, DecisionFile, decision);
    Recognized(0, TimFile(0), tim);
    Recognized(0, TimFile(1), tim);
    NamePrefix(0, KindText(DecisionFile));
    NamePrefix(0, KindText(TimFile(0)));
    NamePrefix(0, KindText(TimFile(1)));
    if files[1] == files[2] {
      NameInjective(0, KindText(TimFile(0)), 0, KindText(TimFile(1)));
      TimKindInjective(0, 1);
    }
    assert files[1..] == [files[1], files[2]];
  }

  lemma GroupElements(decision: Value, tim: Value)
    ensures var g := GroupOf(Listed(Doubled(decision, tim)), SeqNo(0));
      NoRepeats(g) && forall f :: f in g <==> f in Doubled(decision, tim)
  {
    hide Doubled, Listed, GroupOf, NoRepeats, SeqNo, Prefix;
    var files := Doubled(decision, tim);
    DoubledNames(decision, tim);
    ListedIsPermuted(files);
    PermutedNoRepeats(files, Listed(files));
    GroupNoRepeats(Listed(files), SeqNo(0));
    forall f
      ensures f in GroupOf(Listed(files), SeqNo(0)) <==> f in files
    {
      InGroup(Listed(files), SeqNo(0), f);
    }
  }

  /** What the verifier finds in the call. */
  lemma DoubledFound(decision: Value, tim: Value)
    ensures var g := GroupOf(Listed(Doubled(decision, tim)), SeqNo(0));
      Contents(TimFiles(g)) == [tim, tim] && FirstXr(g).None? &&
      FirstDecision(g).Some? && FirstDecision(g).value.content == decision
  {
    hide FileName, SeqNo, Prefix, IsXrFile, IsDecisionFile, IsTimFile, Listed, GroupOf, TimFiles, NoRepeats;
    var files, g := Doubled(decision, tim), GroupOf(Listed(Doubled(decision, tim)), SeqNo(0));
    GroupElements(decision, tim);
    DoubledNames(decision, tim);
    TimsNoRepeats(g);
    assert NoRepeats(files[1..]) by { TailNoRepeats(files); }
    forall f
      ensures f in TimFiles(g) <==> f in files[1..]
    {
      InTimFiles(g, f);
    }
    SameElements(TimFiles(g), files[1..]);
    PermutedElements(TimFiles(g), files[1..]);
    forall i | 0 <= i < 2
      ensures Contents(TimFiles(g))[i] == tim
    {
      assert TimFiles(g)[i] in files[1..];
    }
    assert files[0] in g;
  }

  // ---------- the decision ----------

  /** The gate's evidence of a call without arguments: the tool's name. */
  function ToolTim(s: Setup, tool: string, now: string): Value {
    SignArtifact(s.crypto, ToolBody(tool, NO_ARGS, s.keys.did, s.server, now), s.keys).GetOr(Null)
  }

  lemma BodyIsObject(tool: string, did: string, server: string, now: string)
    ensures ToolBody(tool, NO_ARGS, did, server, now).Object?
  {
  }

  lemma ToolEvidence(s: Setup, tool: string, now: string)
    ensures EvidenceTims(s.crypto, tool, NO_ARGS, s.keys, s.server, now) == Some([ToolTim(s, tool, now)])
  {
    hide SignArtifact, ToolBody;
    assert Unambiguous(NO_ARGS) && Finite(NO_ARGS) && Arguments(NO_ARGS) == [];
    var tims := ArgumentTims(s.crypto, [], 0, s.keys, now);
    assert tims == [] && [ToolTim(s, tool, now)] + tims == [ToolTim(s, tool, now)];
    BodyIsObject(tool, s.keys.did, s.server, now);
    Compliance.EvidenceExists(s.crypto, tool, NO_ARGS, s.keys, s.server, now);
  }

  /** The decision on that evidence given twice, citing it and something else. */
  function GapDecision(s: Setup, tool: string, now: string, absent: string): Value {
    var tim := ToolTim(s, tool, now);
    var (d, cid) := Judgement(s, tool, [tim, tim], now);
    SignArtifact(s.crypto, DecisionBody(d, cid, [Str(tim, ["cid"]), absent], s.keys.did, now), s.keys).GetOr(Null)
  }

  function GapBundle(s: Setup, o: Opening, tool: string, now: string, absent: string): Bundle {
    KeptBy(s.keys, s, o, State(1, map[], Doubled(GapDecision(s, tool, now, absent), ToolTim(s, tool, now))))
  }

  lemma DoubledEvidence(s: Setup, tool: string, now: string)
    ensures var tims := Records.ReadTims([ToolTim(s, tool, now), ToolTim(s, tool, now)]);
      Compliance.IsEvidence(tims, tool, NO_ARGS) && forall t | t in tims :: ArtifactShapes.Fit(t.value)
  {
    hide SignArtifact, ToolBody, Records.ReadTim, ArtifactShapes.Fit, Compliance.SoleValue, EvidenceTims, ToolTim;
    var tim := ToolTim(s, tool, now);
    var one, two := Records.ReadTims([tim]), Records.ReadTims([tim, tim]);
    ToolEvidence(s, tool, now);
    Compliance.EvidenceIs(s.crypto, tool, NO_ARGS, s.keys, s.server, now);
    assert one[0] in one && two[0] in two && two == [one[0], one[0]];
    assert forall t :: t in one <==> t in two;
    forall t | t in two
      ensures ArtifactShapes.Fit(t.value)
    {
      Compliance.EvidenceFit(s.crypto, tool, NO_ARGS, s.keys, s.server, now, t);
    }
    assert Compliance.CodeGives(two, "tool", Some(String(tool)));
    forall sym | sym != "tool"
      ensures Compliance.CodeGives(two, sym, Compliance.SoleValue(Arguments(NO_ARGS), sym, |Arguments(NO_ARGS)|))
    {
      assert Compliance.CodeGives(one, sym, Compliance.SoleValue(Arguments(NO_ARGS), sym, |Arguments(NO_ARGS)|));
    }
  }

  /** The decision as it reads. */
  lemma GapReads(s: Setup, tool: string, now: string, absent: string)
    requires GoodPolicy(s.policy)
    ensures var tim, a := ToolTim(s, tool, now), GapDecision(s, tool, now, absent);
      var (d, cid) := Judgement(s, tool, [tim, tim], now);
      ArtifactShapes.FitDecision(d) && Replays(d, a) &&
      Str(a, ["status"]) == Records.StatusText(d.status) && Str(a, ["commitment_cid"]) == cid &&
      Cited(a) == {Str(tim, ["cid"]), absent} && Str(a, ["identity", "id"]) == s.keys.did &&
          Str(a, ["time", "ts"]) == now
  {
    hide ToolTim, Judgement, SignArtifact, DecisionBody, Str, Path, Records.Texts, Records.Items, Replays,
         Records.ReadTim, Records.StatusText, ArtifactShapes.FitDecision, ArtifactShapes.Fit, GoodPolicy;
    var tim := ToolTim(s, tool, now);
    var (d, cid) := Judgement(s, tool, [tim, tim], now);
    DoubledEvidence(s, tool, now);
    Compliance.JudgementFit(s, tool, [tim, tim], now);
    var cids := [Str(tim, ["cid"]), absent];
    ArtifactFields.DecisionReads(s.crypto, d, cid, cids, s.keys, now);
    RecordReplays(d, GapDecision(s, tool, now, absent));
    assert SetOf(cids) == {cids[0], cids[1]};
  }

  lemma GapAuthentic(s: Setup, tool: string, now: string, absent: string, tag: string)
    requires Sound(s)
    ensures ArtifactErrors(s.crypto, GapDecision(s, tool, now, absent), s.keys.did, tag) == []
  {
    hide ToolTim, Judgement, SignArtifact, Str, Authentic, ArtifactErrors, ArtifactShapes.FitDecision,
         ArtifactShapes.Fit, ArtifactFields.Plain, Replays, Cited, Lawful, ArtifactFields.KeysMatch, GoodPolicy;
    var tim := ToolTim(s, tool, now);
    var (d, cid) := Judgement(s, tool, [tim, tim], now);
    var cids := [Str(tim, ["cid"]), absent];
    GapReads(s, tool, now, absent);
    ArtifactShapes.DecisionFit(d, cid, cids, s.keys.did, now);
    ArtifactFields.DecisionPlain(d, cid, cids, s.keys.did, now);
    ArtifactFields.SealedAuthentic(s.crypto, DecisionBody(d, cid, cids, s.keys.did, now), s.keys);
    AuthenticIff(s.crypto, GapDecision(s, tool, now, absent), s.keys.did, tag);
  }

  lemma GapReplays(s: Setup, tool: string, now: string, absent: string, tag: string)
    requires Sound(s) && RulesApart(s) && tool != "" && MatchRule(s.policy, tool).Some?
    ensures var cs, tim := Listed(CommitmentFiles(s)), ToolTim(s, tool, now);
      ReplayErrors(Verifier(s.crypto, s.rt), CommitmentMap(cs, |cs|), GapDecision(s, tool, now, absent), [tim, tim],
                   tag) == []
  {
    hide ToolTim, GapDecision, Kernel.Decide, Compile, Records.CommitmentOf, Records.DecideJson, Replays, Str, Listed,
         CommitmentMap, MatchRule, GoodPolicy, Records.StatusText, Records.ReadCommitment, Authentic, Sound,
         Judgement, Cited, ArtifactShapes.FitDecision, RulesApart;
    var tim, rule := ToolTim(s, tool, now), MatchRule(s.policy, tool).value;
    SoundParts(s);
    GapReads(s, tool, now, absent);
    Compliance.VerdictIs(s, tool, [tim, tim], now);
    RuleInPolicy(s, tool);
    CommitmentFound(s, rule);
    ArtifactOfRule(s, rule);
    ArtifactDecides(s, rule, [tim, tim], now);
  }

  /** A compiled artifact decides as the rule's commitment. */
  lemma ArtifactDecides(s: Setup, rule: Rule, tims: seq<Value>, now: string)
    requires Sound(s)
    ensures Records.DecideJson(s.rt, Compile(s.crypto, rule, s.policy, s.keys).artifact, tims, now) ==
            Kernel.Decide(s.rt, Records.CommitmentOf(rule), Records.ReadTims(tims), now)
  {
    hide Sound, Compile, Kernel.Decide, Records.CommitmentOf, Records.ReadCommitment, Records.ReadTim, Authentic, Str;
    ArtifactOfRule(s, rule);
  }

  lemma GapTimVerifies(s: Setup, tool: string, now: string)
    requires Sound(s)
    ensures CheckTim(s.crypto, ToolTim(s, tool, now)).valid
  {
    hide ToolTim, CheckTim, EvidenceTims, ArtifactShapes.Fit;
    ToolEvidence(s, tool, now);
    NoArgsFit();
    EvidenceLaws.EvidenceVerifies(s.crypto, tool, NO_ARGS, s.keys, s.server, now, 0);
  }

  lemma NoArgsFit()
    ensures ArtifactShapes.Fit(NO_ARGS)
  {
  }

  // ---------- the report ----------

  lemma GapHasNoErrors(s: Setup, tool: string, now: string, absent: string)
    requires Sound(s) && RulesApart(s) && tool != "" && MatchRule(s.policy, tool).Some?
    requires absent != Str(ToolTim(s, tool, now), ["cid"])
    ensures var cs := Listed(CommitmentFiles(s));
      var g := GroupOf(Listed(Doubled(GapDecision(s, tool, now, absent), ToolTim(s, tool, now))), SeqNo(0));
      CallErrors(Verifier(s.crypto, s.rt), CommitmentMap(cs, |cs|), SeqNo(0), g) == []
  {
    hide Sound, RulesApart, MatchRule, ToolTim, GapDecision, Str, Listed, GroupOf, SeqNo, TimFiles, FirstDecision,
         FirstXr, Doubled, CheckTim, TimErrors, ArtifactErrors, UncitedErrors, CountErrors, ReplayErrors, Cited,
         Judgement, Replays, Records.StatusText, ArtifactShapes.FitDecision, CommitmentMap;
    var tim, a, tag := ToolTim(s, tool, now), GapDecision(s, tool, now, absent), "call " + SeqNo(0);
    var g := GroupOf(Listed(Doubled(a, tim)), SeqNo(0));
    SoundParts(s);
    DoubledFound(a, tim);
    GapReads(s, tool, now, absent);
    GapTimVerifies(s, tool, now);
    FilesVerify(s.crypto, TimFiles(g), tag);
    GapAuthentic(s, tool, now, absent, tag + " decision");
    CitationGap(tim, absent, tag);
    GapReplays(s, tool, now, absent, tag);
  }

  lemma OnlyPrefix(decision: Value, tim: Value, p: string)
    requires p in Prefixes(Listed(Doubled(decision, tim)), 3)
    ensures p == SeqNo(0)
  {
    hide Listed, FileName, KindText, SeqNo, Prefix, IsTimFile, IsDecisionFile, IsXrFile;
    var files := Listed(Doubled(decision, tim));
    DoubledNames(decision, tim);
    ListedIsPermuted(Doubled(decision, tim));
    var i :| 0 <= i < |files| && Prefix(files[i].name) == p;
    assert files[i] in Doubled(decision, tim);
  }

  /**
   For every sound gate, tool with a rule, and text that is not the cid of the evidence: a bundle with
   a valid report in which the decision cites that text, and no TIM of the call has it for its cid.
   The decision is an approval whenever the policy permits the call.
   */
  lemma GapIsValid(s: Setup, o: Opening, tool: string, now: string, absent: string)
    requires Sound(s) && RulesApart(s) && tool != "" && MatchRule(s.policy, tool).Some?
    requires absent != Str(ToolTim(s, tool, now), ["cid"])
    ensures var b := GapBundle(s, o, tool, now, absent);
      VerifyBundle(Verifier(s.crypto, s.rt), b).valid &&
      FirstDecision(b.calls).Some? && absent in Cited(FirstDecision(b.calls).value.content) &&
      forall f | f in b.calls && IsTimFile(f) :: Str(f.content, ["cid"]) != absent
    ensures Compliance.Permitted(s.policy, tool, NO_ARGS) ==>
            Str(GapDecision(s, tool, now, absent), ["status"]) == "APPROVED"
  {
    hide Sound, RulesApart, MatchRule, ToolTim, GapDecision, Str, Listed, GroupOf, SeqNo, CallErrors, GroupErrors,
         CallClean, CommitmentMap, VerifyBundle, Prefixes, Cited, Judgement, Replays, ArtifactShapes.FitDecision,
         IsTimFile, IsDecisionFile, IsXrFile, FileName, Compliance.Permitted, Prefix, ArtifactFields.KeysMatch;
    var v, tim, a := Verifier(s.crypto, s.rt), ToolTim(s, tool, now), GapDecision(s, tool, now, absent);
    var st := State(1, map[], Doubled(a, tim));
    var cs, calls := Listed(CommitmentFiles(s)), Listed(st.files);
    SoundParts(s);
    GapReads(s, tool, now, absent);
    DoubledNames(a, tim);
    GroupsValid(v, CommitmentMap(cs, |cs|), Prefixes(calls, |calls|), calls);
    forall p | p in Prefixes(calls, |calls|)
      ensures CallClean(v, CommitmentMap(cs, |cs|), p, calls)
    {
      OnlyPrefix(a, tim, p);
      GapHasNoErrors(s, tool, now, absent);
      CleanIs(v, CommitmentMap(cs, |cs|), p, calls);
    }
    ReportOfCalls(s, o, s.keys, st);
    if Compliance.Permitted(s.policy, tool, NO_ARGS) { GapApproves(s, tool, now, absent); }
  }

  lemma SoundParts(s: Setup)
    requires Sound(s)
    ensures GoodPolicy(s.policy) && ArtifactFields.KeysMatch(s.crypto, s.keys)
  {
  }

  lemma GapApproves(s: Setup, tool: string, now: string, absent: string)
    requires GoodPolicy(s.policy) && Compliance.Permitted(s.policy, tool, NO_ARGS)
    ensures Str(GapDecision(s, tool, now, absent), ["status"]) == "APPROVED"
  {
    hide ToolTim, GapDecision, Str, Judgement, Replays, Cited, Kernel.Decide, Records.CommitmentOf,
         Compliance.Complies, GoodRule, MatchRule, Compliance.IsEvidence, ArtifactShapes.FitDecision,
         ArtifactShapes.Fit, Records.ReadTim, GoodPolicy;
    var tim, rule := ToolTim(s, tool, now), MatchRule(s.policy, tool).value;
    GapReads(s, tool, now, absent);
    Compliance.VerdictIs(s, tool, [tim, tim], now);
    Compliance.MatchedGood(s.policy, tool);
    DoubledEvidence(s, tool, now);
    Compliance.RuleApproves(s.rt, rule, Records.ReadTims([tim, tim]), now, tool, NO_ARGS);
  }
}
