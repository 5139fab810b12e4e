/**
 What the gate writes, the verifier accepts.

 Start from any run of a fresh gate and list the files it left in any order.  The commitments read
 back as the compiled rules, each call's group is a rearrangement of its own evidence, the decision
 replays from that evidence because the Kernel does not look at its order, and the citations and
 the arguments hash agree.  So the report is valid, exactly when no two receipts of one call have
 one cid; where two of them do, their two texts are a collision of the hash.  The parts come first,
 in the order in which the verifier makes its checks, and the theorems come last.
 */
module BundleLaws {
  import opened Outcomes
  import opened Json
  import opened Jws
  import opened Policy
  import opened Audit
  import opened Gate
  import opened GateLaws
  import opened GroupLaws
  import opened Replay
  import opened ReplayLaws
  import ArtifactFields
  import ArtifactShapes
  import Canonicalize
  import Compliance
  import D = Decimals
  import EvidenceLaws
  import Kernel
  import KernelLaws
  import Permuting
  import Records
  import RunLaws
  import Settler
  import TimLaws

  // ---------- the written bundle ----------

  /** When the session started, and where its policy came from. */
  datatype Opening = Opening(started: string, source: string)

  function CompiledCids(s: Setup): (r: seq<string>)
    ensures |r| == |s.policy.rules|
    ensures forall i | 0 <= i < |r| :: r[i] == Compile(s.crypto, s.policy.rules[i], s.policy, s.keys).cid
  {
    seq(|s.policy.rules|, i requires 0 <= i < |s.policy.rules| => CompileAll(s.crypto, s.policy, s.keys)[i].cid)
  }

  /** The session record that lists the compiled commitments, signed by its keeper. */
  function SessionOf(s: Setup, o: Opening, keeper: KeyPair): Value {
    SignArtifact(s.crypto, SessionBody(keeper.did, s.server, o.started, o.source, CompiledCids(s)), keeper).GetOr(Null)
  }

  function CommitmentFile(s: Setup, i: nat): File
    requires i < |s.policy.rules|
  {
    var compiled := Compile(s.crypto, s.policy.rules[i], s.policy, s.keys);
    File("c" + D.Itoa(i) + "-" + compiled.cid + ".json", compiled.artifact)
  }

  function CommitmentFiles(s: Setup): (r: seq<File>)
    ensures |r| == |s.policy.rules| && forall i | 0 <= i < |r| :: r[i] == CommitmentFile(s, i)
  {
    seq(|s.policy.rules|, i requires 0 <= i < |s.policy.rules| => CommitmentFile(s, i))
  }

  /** A session record, every compiled commitment, and the files of the calls so far. */
  function KeptBy(keeper: KeyPair, s: Setup, o: Opening, st: State): Bundle {
    Bundle(Some(SessionOf(s, o, keeper)), CommitmentFiles(s), st.files)
  }

  /** The gate signs its session record itself. */
  function Written(s: Setup, o: Opening, st: State): Bundle { KeptBy(s.keys, s, o, st) }

  // ---------- identifiers that must differ ----------

  /** The text a rule's commitment is identified and signed by. */
  function CommitmentText(s: Setup, rule: Rule): string {
    Canonicalize.Canonical(CommitmentBody(rule, s.policy.scope, s.keys.did)).GetOr("")
  }

  /** No two compiled rules have one cid. */
  predicate RulesApart(s: Setup) { DistinctTexts(CompiledCids(s)) }

  /** No two receipts of the n-th call have one cid. */
  predicate EvidenceApart(s: Setup, log: seq<Rec>, n: nat)
    requires n < |log|
  {
    log[n].Rec? ==> DistinctTexts(CidsOf(TimsOf(s, log[n])))
  }

  /** The texts of two rules have one hash. */
  predicate RulesCollide(s: Setup, i: nat, k: nat) {
    i < k < |s.policy.rules| &&
    Collision(s.crypto, CommitmentText(s, s.policy.rules[i]), CommitmentText(s, s.policy.rules[k]))
  }

  function TextOfReceipt(s: Setup, r: Rec, k: nat): string
    requires r.Rec?
  {
    EvidenceLaws.EvidenceText(Gate.ToolOf(r.m), ArgsOf(r.m), s.keys.did, s.server, r.now, k)
  }

  /** The texts of two receipts of the n-th call have one hash. */
  predicate EvidenceCollides(s: Setup, log: seq<Rec>, n: nat, j: nat, k: nat) {
    n < |log| && log[n].Rec? && j < k < |TimsOf(s, log[n])| &&
    Collision(s.crypto, TextOfReceipt(s, log[n], j), TextOfReceipt(s, log[n], k))
  }

  /** The gate signs with the key its did names, and the cryptography is sound. */
  ghost predicate Sound(s: Setup) {
    SetupOk(s) && Lawful(s.crypto) && ArtifactFields.KeysMatch(s.crypto, s.keys)
  }

  // ---------- commitments ----------

  lemma CommitmentPlain(rule: Rule, scope: Option<string>, did: string)
    ensures var body := CommitmentBody(rule, scope, did);
      body.Object? && ArtifactFields.Plain(body.members) && ArtifactShapes.Fit(body)
  {
    hide MeasuresJson, ConsequenceJson, Unambiguous, Finite;
    CommitmentShape(rule, scope, did);
  }

  /** A compiled artifact as the verifier sees it. */
  lemma ArtifactOfRule(s: Setup, rule: Rule)
    requires Sound(s)
    ensures var compiled := Compile(s.crypto, rule, s.policy, s.keys);
      Str(compiled.artifact, ["cid"]) == compiled.cid && Str(compiled.artifact, ["actor"]) == s.keys.did &&
      Authentic(s.crypto, compiled.artifact, s.keys.did) &&
      Records.ReadCommitment(compiled.artifact) == Some(Records.CommitmentOf(rule)) && compiled.cid != ""
    ensures CidOfValue(s.crypto, CommitmentBody(rule, s.policy.scope, s.keys.did)) ==
            Some(Compile(s.crypto, rule, s.policy, s.keys).cid)
  {
    hide CommitmentBody, Canonicalize.Canonical, Seal, Authentic, Path, ArtifactShapes.Fit, ArtifactFields.Plain,
         SetupOk, Lawful, ArtifactFields.KeysMatch, Records.ReadCommitment;
    var body := CommitmentBody(rule, s.policy.scope, s.keys.did);
    CommitmentPlain(rule, s.policy.scope, s.keys.did);
    ArtifactFields.SealedCid(s.crypto, body, s.keys);
    ArtifactFields.SealedAuthentic(s.crypto, body, s.keys);
    ActorReads(s, rule);
    ArtifactReads(s, rule);
  }

  lemma ActorReads(s: Setup, rule: Rule)
    ensures Str(Compile(s.crypto, rule, s.policy, s.keys).artifact, ["actor"]) == s.keys.did
  {
    hide Canonicalize.Canonical, Seal, CidOf, Path, ArtifactShapes.Fit, ArtifactFields.Plain, MeasuresJson,
         ConsequenceJson;
    var body := CommitmentBody(rule, s.policy.scope, s.keys.did);
    CommitmentPlain(rule, s.policy.scope, s.keys.did);
    ArtifactFields.SealedCid(s.crypto, body, s.keys);
    ArtifactFields.SealedField(s.crypto, body, s.keys, 1, "actor");
  }

  lemma ArtifactReads(s: Setup, rule: Rule)
    ensures Records.ReadCommitment(Compile(s.crypto, rule, s.policy, s.keys).artifact) ==
            Some(Records.CommitmentOf(rule))
  {
    hide Canonicalize.Canonical, Seal, CidOf, ArtifactShapes.Fit, MeasuresJson, ConsequenceJson,
         Records.ReadCommitment, Records.CommitmentOf, DistinctKeys, HasKey;
    var body := CommitmentBody(rule, s.policy.scope, s.keys.did);
    CommitmentPlain(rule, s.policy.scope, s.keys.did);
    ArtifactShapes.FitSigns(s.crypto, body, s.keys);
    var canonical := Canonicalize.Canonical(body).value;
    var cid, sig := CidOf(s.crypto, canonical), Seal(s.crypto, HeaderTs(s.keys.did), canonical, s.keys.privateKey);
    ArtifactFields.SealDistinct(body.members, cid, sig);
    Records.CommitmentReads(ArtifactFields.WithSeal(body.members, cid, sig), rule, s.policy.scope, s.keys.did);
  }

  /** The tool a compiled commitment names in its authorized action. */
  lemma SameAction(a: Rule, b: Rule, scope: Option<string>, did: string)
    requires Same(CommitmentBody(a, scope, did), CommitmentBody(b, scope, did))
    ensures a.tool == b.tool
  {
    hide MeasuresJson, Get, Path;
    var v, w := CommitmentBody(a, scope, did), CommitmentBody(b, scope, did);
    CommitmentPlain(a, scope, did);
    CommitmentPlain(b, scope, did);
    GetAt(v.members, 4);
    GetAt(w.members, 4);
    EvidenceLaws.SameGet(v.members, w.members, "consequence");
    var c, d := ConsequenceJson(a.tool), ConsequenceJson(b.tool);
    SameOnly(c, d);
    SameTool(a.tool, b.tool);
  }

  lemma SameOnly(v: Value, w: Value)
    requires Same(Array([v]), Array([w]))
    ensures Same(v, w)
  {
    assert [v][0] == v && [w][0] == w;
  }

  lemma SameTool(a: string, b: string)
    requires Same(ConsequenceJson(a), ConsequenceJson(b))
    ensures a == b
  {
    hide Get, Path, Same;
    var v, w := ConsequenceJson(a), ConsequenceJson(b);
    GetAt(v.members, 1);
    GetAt(w.members, 1);
    EvidenceLaws.SameGet(v.members, w.members, "then");
    var p, q := Records.ControlVerb(a), Records.ControlVerb(b);
    assert Same(Array([p]), Array([q]));
    SameOnly(p, q);
    ActionReads(a);
    ActionReads(b);
    ControlUnambiguous(a);
    EvidenceLaws.SameText(p, q, ["args", "action"], "mcp.tool_call:" + a);
    assert ("mcp.tool_call:" + a)[14..] == a && ("mcp.tool_call:" + b)[14..] == b;
  }

  lemma ControlUnambiguous(tool: string)
    ensures Unambiguous(Records.ControlVerb(tool))
  {
    hide Unambiguous, Finite;
    Compliance.ControlFit(tool);
  }

  lemma ActionReads(tool: string)
    ensures Path(Records.ControlVerb(tool), ["args", "action"]) == Some(String("mcp.tool_call:" + tool))
  {
    hide Path;
    var args := [Member("action", String("mcp.tool_call:" + tool))];
    var ms := Records.ControlVerb(tool).members;
    Records.FieldTwo(ms, 1, "args", "action");
    Records.Field(args, 0, "action");
  }

  /** Two compiled rules with one cid are for one tool, or their two texts collide. */
  lemma SharedCommitment(s: Setup, a: Rule, b: Rule)
    requires Sound(s) && Compile(s.crypto, a, s.policy, s.keys).cid == Compile(s.crypto, b, s.policy, s.keys).cid
    ensures a.tool == b.tool || Collision(s.crypto, CommitmentText(s, a), CommitmentText(s, b))
  {
    hide Sound, CommitmentBody, CidOfValue, Same, Compile, Collision, Authentic, Records.ReadCommitment, Str;
    var v, w := CommitmentBody(a, s.policy.scope, s.keys.did), CommitmentBody(b, s.policy.scope, s.keys.did);
    ArtifactOfRule(s, a);
    ArtifactOfRule(s, b);
    CommitmentPlain(a, s.policy.scope, s.keys.did);
    CommitmentPlain(b, s.policy.scope, s.keys.did);
    SameCidSameValue(s.crypto, v, w);
    if Same(v, w) { SameAction(a, b, s.policy.scope, s.keys.did); }
  }

  lemma {:induction false} MapHas(files: seq<File>, n: nat, i: nat)
    requires i < n <= |files|
    ensures Str(files[i].content, ["cid"]) in CommitmentMap(files, n)
    decreases n
  {
    hide Str;
    if i < n - 1 { MapHas(files, n - 1, i); }
  }

  /** A rule's file among those the verifier lists. */
  lemma RuleListed(s: Setup, i: nat) returns (j: nat)
    requires i < |s.policy.rules|
    ensures j < |Listed(CommitmentFiles(s))|
    ensures Listed(CommitmentFiles(s))[j].content == Compile(s.crypto, s.policy.rules[i], s.policy, s.keys).artifact
  {
    hide Listed, Compile;
    ListedIsPermuted(CommitmentFiles(s));
    assert CommitmentFiles(s)[i] in Listed(CommitmentFiles(s));
    j :| 0 <= j < |Listed(CommitmentFiles(s))| && Listed(CommitmentFiles(s))[j] == CommitmentFiles(s)[i];
  }

  /** The rule a listed file was compiled from. */
  lemma RuleOfFile(s: Setup, f: File) returns (k: nat)
    requires f in Listed(CommitmentFiles(s))
    ensures k < |s.policy.rules| && f.content == Compile(s.crypto, s.policy.rules[k], s.policy, s.keys).artifact
  {
    hide Listed, Compile;
    ListedIsPermuted(CommitmentFiles(s));
    k :| 0 <= k < |s.policy.rules| && CommitmentFiles(s)[k] == f;
  }

  lemma OneRulePerCid(s: Setup, i: nat, k: nat)
    requires RulesApart(s) && i < |s.policy.rules| && k < |s.policy.rules|
    requires Compile(s.crypto, s.policy.rules[i], s.policy, s.keys).cid ==
             Compile(s.crypto, s.policy.rules[k], s.policy, s.keys).cid
    ensures i == k
  {
    hide Compile;
    assert CompiledCids(s)[i] == CompiledCids(s)[k];
  }

  /** Where no two rules have one cid, the map holds each rule's artifact under its cid. */
  lemma CommitmentFound(s: Setup, rule: Rule)
    requires Sound(s) && rule in s.policy.rules && RulesApart(s)
    ensures var cs, compiled := Listed(CommitmentFiles(s)), Compile(s.crypto, rule, s.policy, s.keys);
      compiled.cid in CommitmentMap(cs, |cs|) && CommitmentMap(cs, |cs|)[compiled.cid] == compiled.artifact
  {
    hide Sound, Compile, Str, Listed, CommitmentFiles, CommitmentMap, Authentic, Records.ReadCommitment, GoodPolicy,
         RulesApart;
    var cs, compiled := Listed(CommitmentFiles(s)), Compile(s.crypto, rule, s.policy, s.keys);
    var i :| 0 <= i < |s.policy.rules| && s.policy.rules[i] == rule;
    var j := RuleListed(s, i);
    ArtifactOfRule(s, rule);
    MapHas(cs, |cs|, j);
    var f := MapFrom(cs, |cs|, compiled.cid);
    var k := RuleOfFile(s, f);
    ArtifactOfRule(s, s.policy.rules[k]);
    OneRulePerCid(s, i, k);
  }

  /** Rules have cids of their own unless the texts of two of them collide. */
  lemma ApartOrCollide(s: Setup)
    requires Sound(s)
    ensures RulesApart(s) || exists i, k :: RulesCollide(s, i, k)
  {
    hide Sound, Compile, CommitmentText, Collision;
    forall i, k | 0 <= i < k < |CompiledCids(s)|
      ensures CompiledCids(s)[i] != CompiledCids(s)[k] || RulesCollide(s, i, k)
    {
      if CompiledCids(s)[i] == CompiledCids(s)[k] {
        SharedCommitment(s, s.policy.rules[i], s.policy.rules[k]);
        ToolsDiffer(s, i, k);
      }
    }
  }

  lemma ToolsDiffer(s: Setup, i: nat, k: nat)
    requires Sound(s) && i < k < |s.policy.rules|
    ensures s.policy.rules[i].tool != s.policy.rules[k].tool
  {
    hide GoodRule, Lawful, ArtifactFields.KeysMatch;
    assert GoodPolicy(s.policy);
  }

  lemma CommitmentsAuthentic(s: Setup)
    requires Sound(s)
    ensures CommitmentErrors(s.crypto, Listed(CommitmentFiles(s))) == []
  {
    hide Sound, Compile, Str, Listed, Authentic, CommitmentErrors, Records.ReadCommitment;
    var cs := Listed(CommitmentFiles(s));
    CommitmentsValid(s.crypto, cs);
    ListedIsPermuted(CommitmentFiles(s));
    forall f | f in cs
      ensures Authentic(s.crypto, f.content, Str(f.content, ["actor"]))
    {
      var k :| 0 <= k < |s.policy.rules| && CommitmentFiles(s)[k] == f;
      ArtifactOfRule(s, s.policy.rules[k]);
    }
  }

  // ---------- session ----------

  lemma SessionPlain(did: string, server: string, o: Opening, cids: seq<string>)
    ensures var body := SessionBody(did, server, o.started, o.source, cids);
      body.Object? && ArtifactFields.Plain(body.members) && ArtifactShapes.Fit(body)
  {
    hide Records.Strings, IdentityJson, TimeJson;
    ArtifactShapes.SessionFit(did, server, o.started, o.source, cids);
  }

  lemma SessionReads(s: Setup, o: Opening, keeper: KeyPair)
    requires Sound(s) && ArtifactFields.KeysMatch(s.crypto, keeper)
    ensures Records.OptionalStr(SessionOf(s, o, keeper), ["identity", "id"]) == Some(keeper.did)
    ensures Records.Texts(Records.Items(SessionOf(s, o, keeper), ["commitments"])) == CompiledCids(s)
    ensures Authentic(s.crypto, SessionOf(s, o, keeper), keeper.did)
  {
    hide Path, Get, SignArtifact, ArtifactShapes.Fit, ArtifactFields.Plain, Authentic, Records.Texts, Records.Strings,
         CompiledCids, SetupOk, Lawful, ArtifactFields.KeysMatch;
    var cids := CompiledCids(s);
    var body := SessionBody(keeper.did, s.server, o.started, o.source, cids);
    SessionPlain(keeper.did, s.server, o, cids);
    ArtifactFields.SealedAuthentic(s.crypto, body, keeper);
    ArtifactFields.SealedField(s.crypto, body, keeper, 1, "identity");
    ArtifactFields.SealedField(s.crypto, body, keeper, 5, "commitments");
    ArtifactFields.TextsOfStrings(cids);
    var id := [Member("id", String(keeper.did))];
    ArtifactFields.PathVia(SessionOf(s, o, keeper), "identity", "id");
    Records.Field(id, 0, "id");
  }

  lemma DeclaredFound(s: Setup)
    requires Sound(s)
    ensures var cs := Listed(CommitmentFiles(s)); DeclaredErrors(CompiledCids(s), CommitmentMap(cs, |cs|)) == []
  {
    hide Sound, Compile, Str, Listed, CommitmentMap, DeclaredErrors, Authentic, Records.ReadCommitment;
    var cs := Listed(CommitmentFiles(s));
    DeclaredPresent(CompiledCids(s), CommitmentMap(cs, |cs|));
    ListedIsPermuted(CommitmentFiles(s));
    forall cid | cid in CompiledCids(s)
      ensures cid in CommitmentMap(cs, |cs|)
    {
      var i :| 0 <= i < |s.policy.rules| && CompiledCids(s)[i] == cid;
      assert CommitmentFiles(s)[i] in cs;
      var j :| 0 <= j < |cs| && cs[j] == CommitmentFiles(s)[i];
      ArtifactOfRule(s, s.policy.rules[i]);
      MapHas(cs, |cs|, j);
    }
  }

  // ---------- one call ----------

  /** What the theorem about one call is given. */
  ghost predicate Setting(s: Setup, st: State, log: seq<Rec>, n: nat) {
    Sound(s) && Good(s, st, log) && n < |log| && log[n].Rec? && RulesApart(s) && EvidenceApart(s, log, n)
  }

  lemma RecordFacts(s: Setup, st: State, log: seq<Rec>, n: nat)
    requires SetupOk(s) && Good(s, st, log) && n < |log| && log[n].Rec?
    ensures RecOk(s, log[n], n) && ArtifactShapes.Fit(ArgsOf(log[n].m)) && GoodPolicy(s.policy)
    ensures EvidenceTims(s.crypto, Gate.ToolOf(log[n].m), ArgsOf(log[n].m), s.keys, s.server, log[n].now) ==
            Some(TimsOf(s, log[n]))
  {
    hide Good, EvidenceTims, Gate.ToolOf, ArgsOf, Unambiguous, Finite, Approved, XrOf, Lawful;
    RunLaws.RecordOk(s, st, log, n);
  }

  lemma TimsVerify(s: Setup, st: State, log: seq<Rec>, n: nat)
    requires Setting(s, st, log, n)
    ensures forall t | t in TimsOf(s, log[n]) :: CheckTim(s.crypto, t).valid
  {
    hide Good, EvidenceTims, Gate.ToolOf, ArgsOf, TimsOf, CheckTim, ArtifactShapes.Fit, RecOk, Setting, Sound, Lawful,
         ArtifactFields.KeysMatch, SetupOk;
    SettingSound(s, st, log, n);
    RecordFacts(s, st, log, n);
    var r := log[n];
    var tims := TimsOf(s, r);
    forall t | t in tims
      ensures CheckTim(s.crypto, t).valid
    {
      var k :| 0 <= k < |tims| && tims[k] == t;
      EvidenceLaws.EvidenceVerifies(s.crypto, Gate.ToolOf(r.m), ArgsOf(r.m), s.keys, s.server, r.now, k);
    }
  }

  lemma SettingSound(s: Setup, st: State, log: seq<Rec>, n: nat)
    requires Setting(s, st, log, n)
    ensures Sound(s) && Lawful(s.crypto) && ArtifactFields.KeysMatch(s.crypto, s.keys) && SetupOk(s)
    ensures Good(s, st, log) && n < |log| && log[n].Rec? && RulesApart(s) && DistinctTexts(CidsOf(TimsOf(s, log[n])))
  {
    hide Good, Lawful, SetupOk, RulesApart, CidsOf, TimsOf, DistinctTexts, ArtifactFields.KeysMatch;
  }

  /** Receipts of a call have cids of their own unless the texts of two of them collide. */
  lemma EvidenceApartOrCollides(s: Setup, st: State, log: seq<Rec>, n: nat)
    requires Sound(s) && Good(s, st, log) && n < |log|
    ensures EvidenceApart(s, log, n) || exists j, k :: EvidenceCollides(s, log, n, j, k)
  {
    hide EvidenceTims, Gate.ToolOf, ArgsOf, TimsOf, ArtifactShapes.Fit, RecOk, Str, Collision, Good,
         EvidenceLaws.EvidenceText, Lawful, ArtifactFields.KeysMatch, GoodPolicy;
    if log[n].Rec? {
      RecordFacts(s, st, log, n);
      var r := log[n];
      var tims := TimsOf(s, r);
      forall i, j | 0 <= i < j < |tims|
        ensures CidsOf(tims)[i] != CidsOf(tims)[j] || EvidenceCollides(s, log, n, i, j)
      {
        if CidsOf(tims)[i] == CidsOf(tims)[j] {
          EvidenceLaws.SharedCidCollides(s.crypto, Gate.ToolOf(r.m), ArgsOf(r.m), s.keys, s.server, r.now, i, j);
        }
      }
    }
  }

  lemma PermutedElements<T>(a: seq<T>, b: seq<T>)
    requires multiset(a) == multiset(b)
    ensures |a| == |b| && forall x :: x in a <==> x in b
  {
    assert |multiset(a)| == |multiset(b)|;
    forall x
      ensures x in a <==> x in b
    {
      assert x in a <==> x in multiset(a);
      assert x in b <==> x in multiset(b);
    }
  }

  /** The decision cites exactly the evidence. */
  lemma CitesAll(s: Setup, st: State, log: seq<Rec>, n: nat, tims: seq<Value>, tag: string)
    requires Setting(s, st, log, n) && multiset(tims) == multiset(TimsOf(s, log[n]))
    ensures var cited := Cited(ArtifactOf(s, log[n]));
      UncitedErrors(cited, tims, tag) == [] && CountErrors(cited, tims, tag) == []
  {
    hide Setting, TimsOf, ArtifactOf, Str, RecOk, Records.Texts, Records.Items, DistinctTexts, JudgedOf, Sound, Good,
         SetupOk, Lawful, ArtifactFields.KeysMatch, GoodPolicy, EvidenceTims, ArtifactShapes.Fit, UncitedErrors,
         CountErrors, SetOf;
    SettingSound(s, st, log, n);
    RecordFacts(s, st, log, n);
    RunLaws.DecisionOfCall(s, log[n], n);
    SetCites(TimsOf(s, log[n]), tims, tag);
  }

  /** The set of some distinct cids cites any permutation of their receipts. */
  lemma SetCites(written: seq<Value>, tims: seq<Value>, tag: string)
    requires multiset(tims) == multiset(written) && DistinctTexts(CidsOf(written))
    ensures UncitedErrors(SetOf(CidsOf(written)), tims, tag) == [] &&
            CountErrors(SetOf(CidsOf(written)), tims, tag) == []
  {
    hide Str, DistinctTexts, UncitedErrors;
    SetSize(CidsOf(written));
    PermutedElements(tims, written);
    AllCited(SetOf(CidsOf(written)), tims, tag);
    forall t | t in tims
      ensures Str(t, ["cid"]) in SetOf(CidsOf(written))
    {
      var i :| 0 <= i < |written| && written[i] == t;
      assert CidsOf(written)[i] == Str(t, ["cid"]);
    }
  }

  // ---------- replay ----------

  lemma ReadTimsMap(vs: seq<Value>)
    ensures Records.ReadTims(vs) == Permuting.Map(Records.ReadTim, vs)
  {
    hide Records.ReadTim;
  }

  lemma ReadDistinct(tims: seq<Value>)
    requires DistinctTexts(CidsOf(tims))
    ensures KernelLaws.DistinctCids(Records.ReadTims(tims))
  {
    hide Path;
    var r := Records.ReadTims(tims);
    forall i, j | 0 <= i < |r| && 0 <= j < |r| && r[i].cid == r[j].cid
      ensures r[i] == r[j]
    {
      assert CidsOf(tims)[i] == r[i].cid && CidsOf(tims)[j] == r[j].cid;
    }
  }

  /** Replaying the evidence in any order gives the decision that was taken. */
  lemma SameDecision(s: Setup, rule: Rule, written: seq<Value>, tims: seq<Value>, now: string)
    requires Sound(s) && multiset(tims) == multiset(written) && DistinctTexts(CidsOf(written))
    ensures Records.DecideJson(s.rt, Compile(s.crypto, rule, s.policy, s.keys).artifact, tims, now) ==
            Kernel.Decide(s.rt, Records.CommitmentOf(rule), Records.ReadTims(written), now)
  {
    hide Sound, Compile, Kernel.Decide, Records.CommitmentOf, Records.ReadCommitment, Records.ReadTim, Permuting.Map,
         DistinctTexts, KernelLaws.DistinctCids, Authentic, Str;
    ArtifactOfRule(s, rule);
    ReadTimsMap(tims);
    ReadTimsMap(written);
    Permuting.MapPermuted(Records.ReadTim, tims, written);
    ReadDistinct(written);
    KernelLaws.DecisionOrderFree(s.rt, Records.CommitmentOf(rule), now, Records.ReadTims(written),
        Records.ReadTims(tims));
  }

  lemma SelfCanonical(v: Value)
    requires ArtifactShapes.Fit(v)
    ensures SameCanonical(v, v)
  {
    hide Canonicalize.Canonical;
    FiniteCanonical(v);
  }

  /** A document that records a decision replays to it. */
  lemma RecordReplays(d: Kernel.Decision, a: Value)
    requires ArtifactShapes.FitDecision(d) && Str(a, ["status"]) == Records.StatusText(d.status)
    requires Path(a, ["assertions"]) == Some(Array(Records.AssertionsJson(d.assertions)))
    requires Path(a, ["authorized"]) == Some(Array(Records.VerbsJson(d.authorized)))
    ensures Replays(d, a)
  {
    hide Str, Path, Records.StatusText, SameCanonical, ArtifactShapes.Fit, ArtifactShapes.FitDecision;
    ArtifactShapes.ListsFit(d);
    SelfCanonical(Array(Records.AssertionsJson(d.assertions)));
    SelfCanonical(Array(Records.VerbsJson(d.authorized)));
  }

  lemma ReplaysItself(s: Setup, r: Rec, n: nat)
    requires GoodPolicy(s.policy) && r.Rec? && RecOk(s, r, n)
    ensures Replays(JudgedOf(s, r).0, ArtifactOf(s, r))
  {
    hide JudgedOf, ArtifactOf, RecOk, GoodPolicy, Str, Path, Records.StatusText, Replays, ArtifactShapes.FitDecision;
    RunLaws.DecisionOfCall(s, r, n);
    JudgedFit(s, r, n);
    RecordReplays(JudgedOf(s, r).0, ArtifactOf(s, r));
  }

  lemma JudgedFit(s: Setup, r: Rec, n: nat)
    requires GoodPolicy(s.policy) && r.Rec? && RecOk(s, r, n)
    ensures ArtifactShapes.FitDecision(JudgedOf(s, r).0)
  {
    hide EvidenceTims, Judgement, Gate.ToolOf, ArgsOf, GoodPolicy, Approved, XrOf, Unambiguous, Finite,
         ArtifactShapes.FitDecision;
    Compliance.VerdictFit(s, Gate.ToolOf(r.m), ArgsOf(r.m), r.now);
  }

  lemma RuleInPolicy(s: Setup, tool: string)
    requires MatchRule(s.policy, tool).Some?
    ensures MatchRule(s.policy, tool).value in s.policy.rules
  {
  }

  lemma NoErrorsInReplay(s: Setup, st: State, log: seq<Rec>, n: nat, tims: seq<Value>, tag: string)
    requires Setting(s, st, log, n) && multiset(tims) == multiset(TimsOf(s, log[n]))
    ensures var cs := Listed(CommitmentFiles(s));
      ReplayErrors(Verifier(s.crypto, s.rt), CommitmentMap(cs, |cs|), ArtifactOf(s, log[n]), tims, tag) == []
  {
    hide Setting, TimsOf, ArtifactOf, RecOk, Kernel.Decide, Compile, Records.CommitmentOf, Records.DecideJson,
         Replays, Str, Listed, CommitmentMap, MatchRule, GoodPolicy, Records.StatusText, Records.ReadCommitment,
         Authentic, DistinctTexts, Sound, Judgement, Gate.ToolOf;
    SettingSound(s, st, log, n);
    RecordFacts(s, st, log, n);
    var r := log[n];
    RunLaws.DecisionOfCall(s, r, n);
    Compliance.VerdictIs(s, Gate.ToolOf(r.m), TimsOf(s, r), r.now);
    var rule := MatchRule(s.policy, Gate.ToolOf(r.m));
    if rule.None? || Gate.ToolOf(r.m) == "" {
      RejectedText();
    } else {
      RuleInPolicy(s, Gate.ToolOf(r.m));
      CommitmentFound(s, rule.value);
      ArtifactOfRule(s, rule.value);
      SameDecision(s, rule.value, TimsOf(s, r), tims, r.now);
      ReplaysItself(s, r, n);
    }
  }

  lemma RejectedText()
    ensures Records.StatusText(NO_RULE.status) != "APPROVED"
  {
  }

  // ---------- receipts ----------

  /** The arguments recorded with the tool are those of the message, wherever its TIM is listed. */
  lemma {:induction false} RawArgsFound(tims: seq<Value>, args: Value)
    requires exists t :: t in tims && Records.OptionalStr(t, ["measurement", "code"]) == Some("tool")
    requires forall t | t in tims && Records.OptionalStr(t, ["measurement", "code"]) == Some("tool") ::
               Path(t, ["measurement", "provenance", "arguments"]) == Some(args)
    ensures RawArgs(tims) == Some(args)
  {
    hide Records.OptionalStr, Path;
    if tims != [] && Records.OptionalStr(tims[0], ["measurement", "code"]) != Some("tool") {
      var t :| t in tims && Records.OptionalStr(t, ["measurement", "code"]) == Some("tool");
      assert t in tims[1..];
      RawArgsFound(tims[1..], args);
    }
  }

  lemma ToolProvenance(c: Crypto, tool: string, args: Value, keys: KeyPair, server: string, ts: string)
    requires SignArtifact(c, ToolBody(tool, args, keys.did, server, ts), keys).Some? && ArtifactShapes.Fit(args)
    ensures var tim := SignArtifact(c, ToolBody(tool, args, keys.did, server, ts), keys).value;
      Path(tim, ["measurement", "provenance", "arguments"]) == Some(args)
  {
    hide Path, Canonicalize.Canonical, CidOf, Seal, TimLaws.Complete, ArtifactShapes.Fit, ArtifactFields.Plain;
    var body := ToolBody(tool, args, keys.did, server, ts);
    EvidenceLaws.ToolBodyFacts(tool, args, keys.did, server, ts);
    ArtifactFields.SealedField(c, body, keys, 2, "measurement");
    var tim := SignArtifact(c, body, keys).value;
    var inner := Measurement("tool", String(tool), "mcp", server) +
        [Member("provenance", Object([Member("arguments", args)]))];
    assert body.members[2].value == Object(inner);
    PathThree(tim, "measurement", "provenance", "arguments");
    Records.FieldTwo(inner, 4, "provenance", "arguments");
    Records.Field([Member("arguments", args)], 0, "arguments");
  }

  lemma PathThree(v: Value, a: string, b: string, c: string)
    requires Path(v, [a]).Some?
    ensures Path(v, [a, b, c]) == Path(Path(v, [a]).value, [b, c])
  {
    assert [a, b, c][1..] == [b, c] && [a][1..] == [];
  }

  lemma CodeOfTim(v: Value)
    ensures Records.OptionalStr(v, ["measurement", "code"]) == Records.ReadTim(v).code
  {
    hide Path;
  }

  lemma ArgsRecorded(s: Setup, st: State, log: seq<Rec>, n: nat, tims: seq<Value>)
    requires Setting(s, st, log, n) && multiset(tims) == multiset(TimsOf(s, log[n]))
    ensures RawArgs(tims) == Some(ArgsOf(log[n].m))
  {
    hide Setting, ArgsOf, Gate.ToolOf, RecOk, Records.OptionalStr, Records.ReadTim, ArtifactShapes.Fit, SignArtifact,
         ArgumentTims, ToolBody, Path, Symbolize, Emitted, Arguments, Sound, Good;
    SettingSound(s, st, log, n);
    RecordFacts(s, st, log, n);
    var r := log[n];
    var tool, args, written := Gate.ToolOf(r.m), ArgsOf(r.m), TimsOf(s, r);
    PermutedElements(tims, written);
    Compliance.ToolCode(s.crypto, tool, args, s.keys, s.server, r.now, 0);
    CodeOfTim(written[0]);
    assert written[0] in written;
    forall t | t in tims && Records.OptionalStr(t, ["measurement", "code"]) == Some("tool")
      ensures Path(t, ["measurement", "provenance", "arguments"]) == Some(args)
    {
      var k :| 0 <= k < |written| && written[k] == t;
      Compliance.ToolCode(s.crypto, tool, args, s.keys, s.server, r.now, k);
      CodeOfTim(t);
      if k > 0 {
        OnlyToolIsTool(args, t);
      } else {
        ToolProvenance(s.crypto, tool, args, s.keys, s.server, r.now);
      }
    }
    RawArgsFound(tims, args);
  }

  lemma OnlyToolIsTool(args: Value, t: Value)
    requires exists i: nat | i < |Arguments(args)| :: Emitted(Arguments(args), i) &&
               Records.ReadTim(t).code == Some(Symbolize(Arguments(args)[i].key)) &&
                   Records.ReadTim(t).value == Arguments(args)[i].value
    ensures Records.ReadTim(t).code != Some("tool")
  {
    hide Records.ReadTim, Arguments, Symbolize, Emitted;
    var all := Arguments(args);
    var i: nat :| i < |all| && Emitted(all, i) && Records.ReadTim(t).code == Some(Symbolize(all[i].key));
    Compliance.EmittedIffSole(all, i);
  }

  lemma ArgsNotNull(m: Value)
    ensures !ArgsOf(m).Null?
  {
  }

  lemma NoErrorsInXr(s: Setup, st: State, log: seq<Rec>, n: nat, tims: seq<Value>, tag: string)
    requires Setting(s, st, log, n) && multiset(tims) == multiset(TimsOf(s, log[n])) && log[n].xr.Some?
    ensures XrOf(s, log[n], n).Some? && Str(ArtifactOf(s, log[n]), ["status"]) == "APPROVED"
    ensures XrErrors(s.crypto, XrOf(s, log[n], n).value, ArtifactOf(s, log[n]), tims, tag) == []
  {
    hide Setting, TimsOf, ArtifactOf, Str, ArgsOf, RawArgs, JudgedOf, BuildXr, XrFor, Settler.ArgsHash, Authentic,
         ArtifactErrors, ArtifactFields.KeysMatch, Lawful, GoodPolicy, Approved, Gate.ToolOf, EvidenceTims,
         Unambiguous, Finite, SetupOk;
    SettingSound(s, st, log, n);
    RecordFacts(s, st, log, n);
    var r := log[n];
    RunLaws.ReceiptCarries(s, r, n);
    ArgsRecorded(s, st, log, n, tims);
    ArgsNotNull(r.m);
    XrFacts(s, r, n, tag);
    HashAgrees(s.crypto, ArgsOf(r.m));
  }

  lemma HashAgrees(c: Crypto, args: Value)
    requires !args.Null?
    ensures RecordedHash(c, args) == Settler.ArgsHash(c, args)
  {
  }

  lemma XrFacts(s: Setup, r: Rec, n: nat, tag: string)
    requires Lawful(s.crypto) && ArtifactFields.KeysMatch(s.crypto, s.keys) && r.Rec? && r.xr.Some? &&
             XrOf(s, r, n).Some?
    ensures var xr := XrOf(s, r, n).value;
      ArtifactErrors(s.crypto, xr, Str(xr, ["identity", "id"]), tag + " xr") == [] &&
          Str(xr, ["status"]) in {"success", "failed"}
  {
    hide BuildXr, XrFor, Authentic, ArtifactErrors, Lawful, ArtifactFields.KeysMatch, CallOf, Str, Settler.ArgsHash;
    var x := XrFor(s, CallOf(s, r, n), r.xr.value.m, r.xr.value.now);
    ArtifactFields.XrReads(s.crypto, x, s.keys);
    ArtifactFields.XrAuthentic(s.crypto, x, s.keys);
    var xr := XrOf(s, r, n).value;
    AuthenticIff(s.crypto, xr, s.keys.did, tag + " xr");
  }

  // ---------- the group of a call has no errors ----------

  lemma DecisionAuthentic(s: Setup, r: Rec, n: nat, tag: string)
    requires Sound(s) && r.Rec? && RecOk(s, r, n)
    ensures ArtifactErrors(s.crypto, ArtifactOf(s, r), Str(ArtifactOf(s, r), ["identity", "id"]), tag) == []
  {
    hide Authentic, ArtifactErrors, Lawful, ArtifactFields.KeysMatch, Str, JudgedOf, CidsOf, TimsOf,
         ArtifactFields.Plain, ArtifactShapes.Fit, SignArtifact, GoodPolicy, RecOk, Path, Records.Texts,
         Records.Items;
    RunLaws.DecisionOfCall(s, r, n);
    JudgedFit(s, r, n);
    var (d, cid) := JudgedOf(s, r);
    ArtifactShapes.DecisionFit(d, cid, CidsOf(TimsOf(s, r)), s.keys.did, r.now);
    ArtifactFields.DecisionPlain(d, cid, CidsOf(TimsOf(s, r)), s.keys.did, r.now);
    ArtifactFields.SealedAuthentic(s.crypto, DecisionBody(d, cid, CidsOf(TimsOf(s, r)), s.keys.did, r.now), s.keys);
    AuthenticIff(s.crypto, ArtifactOf(s, r), s.keys.did, tag);
  }

  lemma CallHasNoErrors(s: Setup, st: State, log: seq<Rec>, n: nat)
    requires Setting(s, st, log, n)
    ensures var cs := Listed(CommitmentFiles(s));
      CallErrors(Verifier(s.crypto, s.rt), CommitmentMap(cs, |cs|), SeqNo(n), CallGroup(st, n)) == []
  {
    hide Setting, TimsOf, ArtifactOf, RecOk, Str, Listed, CommitmentMap, CallGroup, TimFiles, FirstDecision, FirstXr,
         TimErrors, ArtifactErrors, UncitedErrors, CountErrors, ReplayErrors, XrErrors, Cited, CheckTim, SeqNo,
         GoodPolicy, Sound, Good, XrOf, ArtifactShapes.Fit, EvidenceTims;
    SettingSound(s, st, log, n);
    var g, tag, r := CallGroup(st, n), "call " + SeqNo(n), log[n];
    RecordFacts(s, st, log, n);
    var tims := Contents(TimFiles(g));
    EvidencePermuted(s, st, log, n);
    DecisionFound(s, st, log, n);
    XrFound(s, st, log, n);
    TimsVerify(s, st, log, n);
    PermutedElements(tims, TimsOf(s, r));
    FilesVerify(s.crypto, TimFiles(g), tag);
    DecisionAuthentic(s, r, n, tag + " decision");
    CitesAll(s, st, log, n, tims, tag);
    NoErrorsInReplay(s, st, log, n, tims, tag);
    if FirstXr(g).Some? { NoErrorsInXr(s, st, log, n, tims, tag); }
  }

  lemma FilesVerify(c: Crypto, files: seq<File>, tag: string)
    requires forall t | t in Contents(files) :: CheckTim(c, t).valid
    ensures TimErrors(c, files, tag) == []
  {
    hide CheckTim, TimErrors;
    TimsValid(c, files, tag);
    forall f | f in files
      ensures CheckTim(c, f.content).valid
    {
      var i :| 0 <= i < |files| && files[i] == f;
      assert Contents(files)[i] == f.content;
    }
  }

  // ---------- the whole bundle ----------

  lemma AllGroupsClean(s: Setup, st: State, log: seq<Rec>)
    requires Sound(s) && Good(s, st, log) && RulesApart(s) && forall n: nat | n < |log| :: EvidenceApart(s, log, n)
    ensures var cs, calls := Listed(CommitmentFiles(s)), Listed(st.files);
      GroupErrors(Verifier(s.crypto, s.rt), CommitmentMap(cs, |cs|), Prefixes(calls, |calls|), calls) == []
  {
    hide Sound, Good, RulesApart, EvidenceApart, CallErrors, GroupErrors, CommitmentMap, Listed, Prefixes, SeqNo,
         CallClean, GroupOf;
    var cs, calls, v := Listed(CommitmentFiles(s)), Listed(st.files), Verifier(s.crypto, s.rt);
    var commitments := CommitmentMap(cs, |cs|);
    GroupsValid(v, commitments, Prefixes(calls, |calls|), calls);
    forall p | p in Prefixes(calls, |calls|)
      ensures CallClean(v, commitments, p, calls)
    {
      var n := PrefixIsCall(s, st, log, p);
      CallHasNoErrors(s, st, log, n);
      CleanIs(v, commitments, p, calls);
    }
  }

  /** A call whose citations are counted right has no two receipts with one cid. */
  lemma CountedApart(s: Setup, st: State, log: seq<Rec>, n: nat, commitments: map<string, Value>)
    requires Sound(s) && Good(s, st, log) && n < |log| && log[n].Rec?
    requires CallErrors(Verifier(s.crypto, s.rt), commitments, SeqNo(n), CallGroup(st, n)) == []
    ensures DistinctTexts(CidsOf(TimsOf(s, log[n])))
  {
    hide TimsOf, ArtifactOf, RecOk, Str, Listed, CallGroup, TimFiles, FirstDecision, FirstXr, TimErrors,
         ArtifactErrors, UncitedErrors, ReplayErrors, XrErrors, CheckTim, SeqNo, Good, XrOf, ArtifactShapes.Fit,
         EvidenceTims, DistinctTexts, Records.Texts, Records.Items, JudgedOf, SetOf, Lawful, ArtifactFields.KeysMatch,
         GoodPolicy, Path, Records.StatusText;
    RecordFacts(s, st, log, n);
    EvidencePermuted(s, st, log, n);
    DecisionFound(s, st, log, n);
    PermutedElements(Contents(TimFiles(CallGroup(st, n))), TimsOf(s, log[n]));
    RunLaws.DecisionOfCall(s, log[n], n);
    SetSize(CidsOf(TimsOf(s, log[n])));
  }

  /** Every recorded call has a group among the files. */
  lemma CallIsListed(s: Setup, st: State, log: seq<Rec>, n: nat)
    requires Good(s, st, log) && n < |log| && log[n].Rec?
    ensures SeqNo(n) in Prefixes(Listed(st.files), |st.files|)
  {
    hide Good, FirstDecision, SeqNo, Listed, GroupOf, ArtifactOf, Prefix;
    DecisionFound(s, st, log, n);
    GroupHasPrefix(Listed(st.files), SeqNo(n), FirstDecision(CallGroup(st, n)).value);
  }

  lemma CleanApart(s: Setup, st: State, log: seq<Rec>, n: nat)
    requires Sound(s) && Good(s, st, log) && n < |log|
    requires var cs, calls := Listed(CommitmentFiles(s)), Listed(st.files);
      GroupErrors(Verifier(s.crypto, s.rt), CommitmentMap(cs, |cs|), Prefixes(calls, |calls|), calls) == []
    ensures EvidenceApart(s, log, n)
  {
    hide Sound, Good, CallErrors, GroupErrors, CommitmentMap, Listed, Prefixes, SeqNo, CallClean, GroupOf,
         DistinctTexts, CidsOf, TimsOf;
    if log[n].Rec? {
      var cs, calls, v := Listed(CommitmentFiles(s)), Listed(st.files), Verifier(s.crypto, s.rt);
      CallIsListed(s, st, log, n);
      GroupsValid(v, CommitmentMap(cs, |cs|), Prefixes(calls, |calls|), calls);
      CleanIs(v, CommitmentMap(cs, |cs|), SeqNo(n), calls);
      CountedApart(s, st, log, n, CommitmentMap(cs, |cs|));
    }
  }

  /** The session and the commitments pass, so the report is that of the calls. */
  lemma ReportOfCalls(s: Setup, o: Opening, keeper: KeyPair, st: State)
    requires Sound(s) && ArtifactFields.KeysMatch(s.crypto, keeper)
    ensures var cs, calls := Listed(CommitmentFiles(s)), Listed(st.files);
      VerifyBundle(Verifier(s.crypto, s.rt), KeptBy(keeper, s, o, st)).valid <==>
      GroupErrors(Verifier(s.crypto, s.rt), CommitmentMap(cs, |cs|), Prefixes(calls, |calls|), calls) == []
  {
    hide Sound, CommitmentErrors, DeclaredErrors, GroupErrors, ArtifactErrors, CommitmentMap, Listed, Prefixes,
         Authentic, SessionOf, CommitmentFiles, Records.OptionalStr, Records.Texts, Records.Items, CompiledCids,
         ArtifactFields.KeysMatch;
    SessionReads(s, o, keeper);
    AuthenticIff(s.crypto, SessionOf(s, o, keeper), keeper.did, "session");
    CommitmentsAuthentic(s);
    DeclaredFound(s);
  }

  lemma RunIsGood(s: Setup, events: seq<Event>)
    requires Sound(s)
    ensures Good(s, RunFrom(s, START, [], events).0, RunFrom(s, START, [], events).1)
  {
    hide Good, RunFrom, SetupOk, Lawful, ArtifactFields.KeysMatch;
    StartGood(s);
    RunGood(s, START, [], events);
  }

  /**
   The bundle written over any run of the gate, with all compiled commitments in it, is accepted by
   the verifier, although the evidence is replayed in another order than it was written, exactly
   when no two receipts of one call have one cid.  The key that signs the session record may be any.
   */
  lemma WrittenIsValidIff(s: Setup, o: Opening, keeper: KeyPair, events: seq<Event>)
    requires Sound(s) && RulesApart(s) && ArtifactFields.KeysMatch(s.crypto, keeper)
    ensures var (st, log) := RunFrom(s, START, [], events);
      VerifyBundle(Verifier(s.crypto, s.rt), KeptBy(keeper, s, o, st)).valid <==>
          forall n: nat | n < |log| :: EvidenceApart(s, log, n)
  {
    hide Sound, Good, RunFrom, RulesApart, EvidenceApart, GroupErrors, CommitmentMap, Listed, Prefixes,
         CommitmentFiles, VerifyBundle, KeptBy, ArtifactFields.KeysMatch;
    var (st, log) := RunFrom(s, START, [], events);
    RunIsGood(s, events);
    ReportOfCalls(s, o, keeper, st);
    if VerifyBundle(Verifier(s.crypto, s.rt), KeptBy(keeper, s, o, st)).valid {
      forall n: nat | n < |log|
        ensures EvidenceApart(s, log, n)
      {
        CleanApart(s, st, log, n);
      }
    } else if forall n: nat | n < |log| :: EvidenceApart(s, log, n) {
      AllGroupsClean(s, st, log);
    }
  }

  /**
   The verifier does not tie calls to the session: whoever signs the session record, the report is the
   same, and it is about the gate's own decisions exactly when the two have one did.
   */
  lemma AnyKeeperPasses(s: Setup, o: Opening, keeper: KeyPair, events: seq<Event>, n: nat)
    requires Sound(s) && ArtifactFields.KeysMatch(s.crypto, keeper)
    ensures var st := RunFrom(s, START, [], events).0;
      VerifyBundle(Verifier(s.crypto, s.rt), KeptBy(keeper, s, o, st)).valid ==
      VerifyBundle(Verifier(s.crypto, s.rt), Written(s, o, st)).valid
    ensures var log := RunFrom(s, START, [], events).1;
      n < |log| && log[n].Rec? ==>
      (Records.OptionalStr(SessionOf(s, o, keeper), ["identity", "id"]) ==
          Some(Str(ArtifactOf(s, log[n]), ["identity", "id"])) <==>
       keeper.did == s.keys.did)
  {
    hide Good, RunFrom, VerifyBundle, KeptBy, GroupErrors, CommitmentMap, Listed, Prefixes, CommitmentFiles,
         SessionOf, ArtifactOf, Str, Records.OptionalStr, Records.Texts, Records.Items, Authentic, RecOk, JudgedOf,
         GoodPolicy, Lawful, ArtifactFields.KeysMatch, Path, CompiledCids, Records.StatusText, TimsOf;
    var (st, log) := RunFrom(s, START, [], events);
    ReportOfCalls(s, o, keeper, st);
    ReportOfCalls(s, o, s.keys, st);
    RunIsGood(s, events);
    SessionReads(s, o, keeper);
    if n < |log| && log[n].Rec? {
      RecordFacts(s, st, log, n);
      RunLaws.DecisionOfCall(s, log[n], n);
    }
  }

  /** Every written bundle is valid, or the texts of two rules or of two receipts of one call have one hash. */
  lemma WrittenIsValid(s: Setup, o: Opening, events: seq<Event>)
    requires Sound(s)
    ensures var (st, log) := RunFrom(s, START, [], events);
      VerifyBundle(Verifier(s.crypto, s.rt), Written(s, o, st)).valid ||
      (exists i, k :: RulesCollide(s, i, k)) || exists n, j, k :: EvidenceCollides(s, log, n, j, k)
  {
    hide Good, RunFrom, RulesApart, EvidenceApart, VerifyBundle, KeptBy, RulesCollide, EvidenceCollides, SetupOk,
         Lawful, ArtifactFields.KeysMatch;
    var (st, log) := RunFrom(s, START, [], events);
    ApartOrCollide(s);
    if RulesApart(s) {
      WrittenIsValidIff(s, o, s.keys, events);
      RunIsGood(s, events);
      if n: nat :| n < |log| && !EvidenceApart(s, log, n) { EvidenceApartOrCollides(s, st, log, n); }
    }
  }
}
