/**
 A tool call is forwarded exactly when the policy's rule for it is satisfied: compiling the rule,
 turning the arguments into evidence and asking the Kernel comes to the rule's own meaning.
 */
module Compliance {
  import opened Outcomes
  import opened Json
  import opened JsNumbers
  import opened Assertions
  import opened Jws
  import opened Policy
  import opened Audit
  import opened Gate
  import Canonicalize
  import ComparisonLaws
  import Kernel
  import KernelLaws
  import Records
  import Tim
  import D = Decimals
  import ArtifactShapes

  // ---------- the assertion on the tool name ----------

  /** The compiled assertion passes on a tool name exactly when the rule covers it. */
  lemma ToolAssertionPasses(ruleTool: string, tool: string, symbols: Symbols)
    requires '"' !in ruleTool && "tool" in symbols && symbols["tool"] == Plain(Str(tool))
    ensures Evaluate(ToolAssertion(ruleTool), symbols).result == PASS <==>
            if ruleTool == "*" then tool != "" else tool == ruleTool
  {
    hide Evaluate;
    if ruleTool == "*" {
      ComparisonLaws.TextsCompare("tool", Ne, "", tool, symbols);
      assert ComparisonLaws.ComparisonText("tool", Ne, ComparisonLaws.QuotedText("")) == "tool != \"\"";
    } else {
      ComparisonLaws.TextsCompare("tool", Eq, ruleTool, tool, symbols);
      assert ComparisonLaws.ComparisonText("tool", Eq, ComparisonLaws.QuotedText(ruleTool)) ==
             "tool == \"" + ruleTool + "\"";
    }
  }

  // ---------- what a rule asks ----------

  /** The only argument standing for a symbol, and its value is primitive. */
  predicate Sole(all: seq<Member>, sym: string, i: nat) {
    i < |all| && Symbolize(all[i].key) == sym && IsPrimitive(all[i].value) &&
    forall j | 0 <= j < |all| && j != i :: Symbolize(all[j].key) != sym
  }

  /** The value of a symbol's only argument. */
  function SoleValue(all: seq<Member>, sym: string, n: nat): (r: Option<Value>)
    requires n <= |all|
    ensures r.Some? ==> exists i: nat | i < n :: Sole(all, sym, i) && r.value == all[i].value
    ensures r.None? ==> forall i: nat | i < n :: !Sole(all, sym, i)
  {
    if n == 0 then None
    else if Sole(all, sym, n - 1) then
      assert exists i: nat | i < n :: Sole(all, sym, i);
      Some(all[n - 1].value)
    else SoleValue(all, sym, n - 1)
  }

  /** The symbols known at a clause: the tool name, and the arguments of the clauses up to it. */
  function Known(all: seq<Member>, tool: string, clauses: seq<Clause>, n: nat): Symbols
    requires n <= |clauses|
  {
    if n == 0 then map["tool" := Plain(Str(tool))]
    else
      var before := Known(all, tool, clauses, n - 1);
      match SoleValue(all, clauses[n - 1].sym, |all|)
      case None => before
      case Some(v) =>
        match Kernel.LiteralOf(v)
        case None => before
        case Some(lit) => before[clauses[n - 1].sym := Plain(lit)]
  }

  /** The clause's symbol has a sole argument, and its assertion passes on the symbols known by then. */
  predicate Holds(clauses: seq<Clause>, tool: string, args: Value, k: nat)
    requires k < |clauses|
  {
    var all := Arguments(args);
    SoleValue(all, clauses[k].sym, |all|).Some? &&
    Evaluate(clauses[k].assertion, Known(all, tool, clauses, k + 1)).result == PASS
  }

  predicate Complies(rule: Rule, tool: string, args: Value) {
    forall k: nat | k < |rule.clauses| :: Holds(rule.clauses, tool, args, k)
  }

  predicate Permitted(p: Policy, tool: string, args: Value) {
    tool != "" && MatchRule(p, tool).Some? && Complies(MatchRule(p, tool).value, tool, args)
  }

  // ---------- evidence as the Kernel reads it ----------

  lemma BodyFields(ts: string, did: string, name: string, value: Value, kind: string, source: string,
                   more: seq<Member>, cid: string, sig: string)
    requires DistinctKeys(Measurement(name, value, kind, source) + more)
    requires !HasKey(Measurement(name, value, kind, source) + more, "unit")
    requires !HasKey(Measurement(name, value, kind, source) + more, "device")
    ensures var body := TimBody(ts, did, Object(Measurement(name, value, kind, source) + more));
      var tim := Object(body.members + [Member("cid", String(cid)), Member("sig", String(sig))]);
      Records.ReadTim(tim) == Kernel.Tim(ts, 0, D.ZERO, did, cid, value, None, None, Some(name))
  {
    hide Path, Get;
    var inner := Measurement(name, value, kind, source) + more;
    var time, identity := [Member("ts", String(ts))], [Member("id", String(did))];
    var ms := [Member("time", Object(time)), Member("identity", Object(identity)), Member("measurement", Object(inner)),
               Member("cid", String(cid)), Member("sig", String(sig))];
    assert ms == TimBody(ts, did, Object(inner)).members + [Member("cid", String(cid)), Member("sig", String(sig))];
    TimeFields(ms, time, ts);
    Records.FieldTwo(ms, 1, "identity", "id");
    Records.Field(identity, 0, "id");
    Records.FieldTwo(ms, 2, "measurement", "value");
    Records.FieldTwo(ms, 2, "measurement", "unit");
    Records.FieldTwo(ms, 2, "measurement", "device");
    Records.FieldTwo(ms, 2, "measurement", "code");
    Records.Field(inner, 1, "value");
    Records.Field(inner, 2, "code");
    Records.Absent(inner, "unit");
    Records.Absent(inner, "device");
    Records.Field(ms, 3, "cid");
  }

  /** A time that only has a stamp. */
  lemma TimeFields(ms: seq<Member>, time: seq<Member>, ts: string)
    requires DistinctKeys(ms) && ms != [] && ms[0] == Member("time", Object(time)) && time == [Member("ts", String(ts))]
    ensures Json.Str(Object(ms), ["time", "ts"]) == ts && Tim.WitnessesOf(Object(ms)) == []
    ensures Records.NumberAt(Object(ms), ["time", "ordering", "lamport"]) == None
  {
    hide Path, Get;
    Records.FieldTwo(ms, 0, "time", "ts");
    Records.FieldTwo(ms, 0, "time", "witnesses");
    Records.FieldPath(ms, 0, "time", ["ordering", "lamport"]);
    assert ["time"] + ["ordering", "lamport"] == ["time", "ordering", "lamport"];
    Records.Field(time, 0, "ts");
    Records.Absent(time, "witnesses");
    Records.NoField(time, "ordering", ["lamport"]);
    assert ["ordering"] + ["lamport"] == ["ordering", "lamport"];
  }

  lemma ToolTimReads(c: Crypto, tool: string, args: Value, keys: KeyPair, server: string, ts: string)
    requires SignArtifact(c, ToolBody(tool, args, keys.did, server, ts), keys).Some?
    ensures var t := Records.ReadTim(SignArtifact(c, ToolBody(tool, args, keys.did, server, ts), keys).value);
      t.code == Some("tool") && t.value == String(tool)
  {
    hide Records.ReadTim, Canonicalize.Canonical, CidOf, Seal;
    var body := ToolBody(tool, args, keys.did, server, ts);
    var canonical := Canonicalize.Canonical(body).value;
    var more := [Member("provenance", Object([Member("arguments", args)]))];
    BodyFields(ts, keys.did, "tool", String(tool), "mcp", server, more,
               CidOf(c, canonical), Seal(c, HeaderTs(keys.did), canonical, keys.privateKey));
  }

  lemma ArgumentTimReads(c: Crypto, m: Member, keys: KeyPair, ts: string)
    requires IsPrimitive(m.value)
    ensures var t := Records.ReadTim(ArgumentTim(c, m, keys, ts));
      t.code == Some(Symbolize(m.key)) && t.value == m.value
  {
    hide Records.ReadTim, Canonicalize.Canonical, CidOf, Seal, Symbolize, D.Overflows;
    ArgumentShape(m, keys.did, ts);
    FiniteCanonical(ArgumentBody(m, keys.did, ts));
    var canonical := Canonicalize.Canonical(ArgumentBody(m, keys.did, ts)).value;
    assert Measurement(Symbolize(m.key), m.value, "mcp.arg", m.key) + [] ==
           Measurement(Symbolize(m.key), m.value, "mcp.arg", m.key);
    BodyFields(ts, keys.did, Symbolize(m.key), m.value, "mcp.arg", m.key, [],
               CidOf(c, canonical), Seal(c, HeaderTs(keys.did), canonical, keys.privateKey));
  }

  // ---------- which arguments become evidence ----------

  lemma {:induction false} CountTwo(all: seq<Member>, sym: string, i: nat, j: nat, n: nat)
    requires i < j < n <= |all| && Symbolize(all[i].key) == sym && Symbolize(all[j].key) == sym
    ensures Count(all, sym, n) > 1
    decreases n
  {
    hide Symbolize;
    if j < n - 1 { CountTwo(all, sym, i, j, n - 1); } else { CountsItself(all, i, j); }
  }

  lemma {:induction false} CountOnly(all: seq<Member>, sym: string, i: nat, n: nat)
    requires n <= |all| && i < |all| && forall j | 0 <= j < |all| && j != i :: Symbolize(all[j].key) != sym
    ensures Count(all, sym, n) <= if i < n then 1 else 0
    decreases n
  {
    hide Symbolize;
    if n > 0 { CountOnly(all, sym, i, n - 1); }
  }

  /** An argument becomes evidence exactly when it is the sole one of an unreserved symbol. */
  lemma EmittedIffSole(all: seq<Member>, i: nat)
    requires i < |all|
    ensures Emitted(all, i) <==> Sole(all, Symbolize(all[i].key), i) && Symbolize(all[i].key) != "tool"
  {
    hide Symbolize, IsPrimitive;
    var sym := Symbolize(all[i].key);
    if Sole(all, sym, i) { CountOnly(all, sym, i, |all|); }
    if Count(all, sym, |all|) <= 1 {
      forall j | 0 <= j < |all| && j != i
        ensures Symbolize(all[j].key) != sym
      {
        if Symbolize(all[j].key) == sym {
          if i < j { CountTwo(all, sym, i, j, |all|); } else { CountTwo(all, sym, j, i, |all|); }
        }
      }
    }
  }

  lemma {:induction false} EmittedAt(all: seq<Member>, n: nat, k: nat) returns (i: nat)
    requires n <= |all| && k < |EmittedOf(all, n)|
    ensures i < n && Emitted(all, i) && EmittedOf(all, n)[k] == all[i]
    decreases n
  {
    hide Emitted;
    if k < |EmittedOf(all, n - 1)| { i := EmittedAt(all, n - 1, k); } else { i := n - 1; }
  }

  lemma {:induction false} EmittedPlace(all: seq<Member>, n: nat, i: nat) returns (k: nat)
    requires i < n <= |all| && Emitted(all, i)
    ensures k < |EmittedOf(all, n)| && EmittedOf(all, n)[k] == all[i]
    decreases n
  {
    hide Emitted;
    if i < n - 1 { k := EmittedPlace(all, n - 1, i); } else { k := |EmittedOf(all, n - 1)|; }
  }

  // ---------- selecting by code ----------

  /** The evidence with a code has this value, and there is some exactly when a value is given. */
  ghost predicate CodeGives(tims: seq<Kernel.Tim>, sym: string, v: Option<Value>) {
    (v.Some? ==> exists t :: t in tims && t.code == Some(sym)) &&
    forall t | t in tims && t.code == Some(sym) :: v.Some? && t.value == v.value
  }

  lemma SelectByCode(rt: Kernel.Runtime, clause: Clause, tims: seq<Kernel.Tim>, now: string, v: Option<Value>)
    requires CodeGives(tims, clause.sym, v)
    ensures Kernel.Select(rt, Records.SpecOf(clause), tims, now).Some? == v.Some?
    ensures v.Some? ==> Kernel.Select(rt, Records.SpecOf(clause), tims, now).value.value == v.value
  {
    hide Kernel.Select, Kernel.NotaryBefore;
    var spec := Records.SpecOf(clause);
    KernelLaws.SelectIsLatest(rt, spec, tims, now);
    forall t: Kernel.Tim
      ensures Kernel.Meets(rt, spec, now, t) <==> t.code == Some(clause.sym)
    {
      MeetsCode(rt, clause, now, t);
    }
  }

  lemma MeetsCode(rt: Kernel.Runtime, clause: Clause, now: string, t: Kernel.Tim)
    ensures Kernel.Meets(rt, Records.SpecOf(clause), now, t) <==> t.code == Some(clause.sym)
  {
    var spec := Records.SpecOf(clause);
    assert Kernel.Passes(rt, spec, now, t, 2) <==> t.code == Some(clause.sym);
  }

  lemma ToolCode(c: Crypto, tool: string, args: Value, keys: KeyPair, server: string, ts: string, k: nat)
    requires EvidenceTims(c, tool, args, keys, server, ts).Some?
    requires k < |EvidenceTims(c, tool, args, keys, server, ts).value|
    ensures var t := Records.ReadTim(EvidenceTims(c, tool, args, keys, server, ts).value[k]);
      var all := Arguments(args);
      if k == 0 then t.code == Some("tool") && t.value == String(tool)
      else exists i: nat | i < |all| ::
             Emitted(all, i) && t.code == Some(Symbolize(all[i].key)) && t.value == all[i].value
  {
    hide Records.ReadTim, ArgumentTim, SignArtifact, Arguments, Emitted, Symbolize, EmittedOf, ArgumentTims;
    var all := Arguments(args);
    if k == 0 {
      ToolTimReads(c, tool, args, keys, server, ts);
    } else {
      ArgumentTimsAt(c, all, |all|, keys, ts, k - 1);
      ArgumentTimReads(c, EmittedOf(all, |all|)[k - 1], keys, ts);
      var i := EmittedAt(all, |all|, k - 1);
    }
  }

  /** What the evidence of a call gives each symbol. */
  lemma EvidenceGives(c: Crypto, tool: string, args: Value, keys: KeyPair, server: string, ts: string, sym: string)
    requires EvidenceTims(c, tool, args, keys, server, ts).Some?
    ensures var tims := Records.ReadTims(EvidenceTims(c, tool, args, keys, server, ts).value);
      var all := Arguments(args);
      CodeGives(tims, sym, if sym == "tool" then Some(String(tool)) else SoleValue(all, sym, |all|))
  {
    hide Records.ReadTim, ArgumentTim, SignArtifact, Arguments, Symbolize, Emitted, EmittedOf, ArgumentTims,
         IsPrimitive;
    var vs := EvidenceTims(c, tool, args, keys, server, ts).value;
    var tims := Records.ReadTims(vs);
    var all := Arguments(args);
    var v := if sym == "tool" then Some(String(tool)) else SoleValue(all, sym, |all|);
    forall t | t in tims && t.code == Some(sym)
      ensures v.Some? && t.value == v.value
    {
      var k :| 0 <= k < |tims| && tims[k] == t;
      ToolCode(c, tool, args, keys, server, ts, k);
      if k > 0 {
        var i: nat :| i < |all| && Emitted(all, i) && t.code == Some(Symbolize(all[i].key)) && t.value == all[i].value;
        EmittedIffSole(all, i);
        SoleIsUnique(all, sym, i);
      }
    }
    if v.Some? {
      if sym == "tool" {
        ToolCode(c, tool, args, keys, server, ts, 0);
        assert tims[0] in tims;
      } else {
        var i: nat :| i < |all| && Sole(all, sym, i) && v.value == all[i].value;
        EmittedIffSole(all, i);
        var k := EmittedPlace(all, |all|, i);
        ArgumentTimsAt(c, all, |all|, keys, ts, k);
        ArgumentTimReads(c, all[i], keys, ts);
        assert tims[k + 1] in tims && tims[k + 1] == Records.ReadTim(vs[k + 1]);
      }
    }
  }

  lemma SoleIsUnique(all: seq<Member>, sym: string, i: nat)
    requires Sole(all, sym, i)
    ensures SoleValue(all, sym, |all|) == Some(all[i].value)
  {
    hide Symbolize, IsPrimitive;
  }

  // ---------- the decision on a call ----------

  /** What each measure of a compiled rule binds. */
  lemma ClauseEvidence(rt: Kernel.Runtime, clause: Clause, tims: seq<Kernel.Tim>, now: string, v: Option<Value>)
    requires CodeGives(tims, clause.sym, v)
    ensures Kernel.Evidence(rt, Records.SpecOf(clause), tims, now) ==
            if v.Some? then Some(Kernel.SymbolValue(rt, v.value)) else None
    ensures KernelLaws.Supported(rt, Records.SpecOf(clause), tims, now) == v.Some?
  {
    hide Kernel.Select, CodeGives, KernelLaws.Supported, Kernel.SymbolValue;
    SelectByCode(rt, clause, tims, now, v);
    KernelLaws.SelectIsLatest(rt, Records.SpecOf(clause), tims, now);
  }

  /** The evidence of one call, read as the Kernel reads it. */
  ghost predicate IsEvidence(tims: seq<Kernel.Tim>, tool: string, args: Value) {
    CodeGives(tims, "tool", Some(String(tool))) &&
    forall sym | sym != "tool" :: CodeGives(tims, sym, SoleValue(Arguments(args), sym, |Arguments(args)|))
  }

  lemma {:induction false} BoundIsKnown(rt: Kernel.Runtime, rule: Rule, tims: seq<Kernel.Tim>, now: string,
                                        tool: string, args: Value, n: nat)
    requires IsEvidence(tims, tool, args) && GoodClauses(rule.clauses) && n <= |rule.clauses|
    ensures Kernel.BoundBy(rt, Records.SpecsOf(Clauses(rule)), tims, now, n + 1) ==
            Known(Arguments(args), tool, rule.clauses, n)
    decreases n
  {
    hide Kernel.Evidence, CodeGives, SoleValue, IsSymbol, ToolAssertion, Arguments;
    var specs, cs, all := Records.SpecsOf(Clauses(rule)), Clauses(rule), Arguments(args);
    if n == 0 {
      ClauseEvidence(rt, cs[0], tims, now, Some(String(tool)));
      assert Kernel.BoundBy(rt, specs, tims, now, 0) == map[];
    } else {
      BoundIsKnown(rt, rule, tims, now, tool, args, n - 1);
      var clause := rule.clauses[n - 1];
      assert cs[n] == clause && clause.sym != "tool";
      ClauseEvidence(rt, clause, tims, now, SoleValue(all, clause.sym, |all|));
      if SoleValue(all, clause.sym, |all|).Some? { SoleIsLiteral(all, clause.sym); }
    }
  }

  lemma SoleIsLiteral(all: seq<Member>, sym: string)
    requires SoleValue(all, sym, |all|).Some?
    ensures Kernel.LiteralOf(SoleValue(all, sym, |all|).value).Some?
  {
    hide Symbolize;
  }

  lemma ToolProven(rt: Kernel.Runtime, rule: Rule, tims: seq<Kernel.Tim>, now: string, tool: string, args: Value)
    requires IsEvidence(tims, tool, args) && GoodRule(rule)
    ensures KernelLaws.Proven(rt, Records.SpecsOf(Clauses(rule)), tims, now, 0) <==>
            if rule.tool == "*" then tool != "" else tool == rule.tool
  {
    hide CodeGives, SoleValue, ToolAssertion, KernelLaws.Supported, Kernel.BoundBy, Evaluate, GoodClauses;
    ClauseEvidence(rt, Clauses(rule)[0], tims, now, Some(String(tool)));
    BoundIsKnown(rt, rule, tims, now, tool, args, 0);
    ToolAssertionPasses(rule.tool, tool, map["tool" := Plain(Str(tool))]);
  }

  lemma ClauseProven(rt: Kernel.Runtime, rule: Rule, tims: seq<Kernel.Tim>, now: string, tool: string, args: Value,
                     k: nat)
    requires IsEvidence(tims, tool, args) && GoodRule(rule) && k < |rule.clauses|
    ensures KernelLaws.Proven(rt, Records.SpecsOf(Clauses(rule)), tims, now, k + 1) <==>
            Holds(rule.clauses, tool, args, k)
  {
    hide CodeGives, SoleValue, ToolAssertion, KernelLaws.Supported, Kernel.BoundBy, Evaluate, Known, IsSymbol;
    var clause := rule.clauses[k];
    assert Clauses(rule)[k + 1] == clause && clause.sym != "tool";
    ClauseEvidence(rt, clause, tims, now, SoleValue(Arguments(args), clause.sym, |Arguments(args)|));
    BoundIsKnown(rt, rule, tims, now, tool, args, k + 1);
  }

  lemma ControlFires(rule: Rule)
    ensures Kernel.AllRegistered(Records.CommitmentOf(rule).consequence)
    ensures KernelLaws.Fires(Records.CommitmentOf(rule).consequence, 0)
  {
    PassTrims();
  }

  lemma PassTrims()
    ensures Trim("PASS") == "PASS"
  {
  }

  /**
   The compiled commitment is approved on a call's evidence exactly when the rule covers the tool and is
   complied with.
   */
  lemma RuleApproves(rt: Kernel.Runtime, rule: Rule, tims: seq<Kernel.Tim>, now: string, tool: string, args: Value)
    requires IsEvidence(tims, tool, args) && GoodRule(rule)
    ensures Kernel.Decide(rt, Records.CommitmentOf(rule), tims, now).status == Kernel.APPROVED <==>
            (if rule.tool == "*" then tool != "" else tool == rule.tool) && Complies(rule, tool, args)
  {
    hide IsEvidence, GoodRule, KernelLaws.Proven, KernelLaws.Fires, Kernel.Decide, Kernel.AllRegistered, Holds,
         ToolAssertion;
    var c := Records.CommitmentOf(rule);
    KernelLaws.ApprovedIff(rt, c, tims, now);
    ControlFires(rule);
    ToolProven(rt, rule, tims, now, tool, args);
    forall k: nat | k < |rule.clauses|
      ensures KernelLaws.Proven(rt, c.measure, tims, now, k + 1) <==> Holds(rule.clauses, tool, args, k)
    {
      ClauseProven(rt, rule, tims, now, tool, args, k);
    }
    if Complies(rule, tool, args) && KernelLaws.Proven(rt, c.measure, tims, now, 0) {
      forall i: nat | i < |c.measure|
        ensures KernelLaws.Proven(rt, c.measure, tims, now, i)
      {
        if i > 0 { assert Holds(rule.clauses, tool, args, i - 1); }
      }
    }
    if forall i: nat | i < |c.measure| :: KernelLaws.Proven(rt, c.measure, tims, now, i) {
      forall k: nat | k < |rule.clauses|
        ensures Holds(rule.clauses, tool, args, k)
      {
        assert KernelLaws.Proven(rt, c.measure, tims, now, k + 1);
      }
    }
  }

  // ---------- from the message to the reaction ----------

  /** In a good policy the compiled rule of a tool is its own compilation. */
  lemma CompiledOf(c: Crypto, p: Policy, keys: KeyPair, rule: Rule)
    requires GoodPolicy(p) && rule in p.rules
    ensures CompiledFor(CompileAll(c, p, keys), rule.tool) == Some(Compile(c, rule, p, keys))
  {
    hide Compile, GoodRule;
    var cs := CompileAll(c, p, keys);
    var i :| 0 <= i < |p.rules| && p.rules[i] == rule;
    CompiledRule(c, p, keys, i);
    assert cs[i].rule.tool == rule.tool;
    var found := CompiledFor(cs, rule.tool).value;
    var j :| 0 <= j < |cs| && cs[j] == found;
    CompiledRule(c, p, keys, j);
    assert p.rules[j].tool == p.rules[i].tool;
  }

  lemma CompiledRule(c: Crypto, p: Policy, keys: KeyPair, i: nat)
    requires i < |p.rules|
    ensures CompileAll(c, p, keys)[i].rule == p.rules[i]
  {
  }

  lemma CompiledDecides(s: Setup, rule: Rule, tims: seq<Value>, now: string)
    ensures Records.DecideJson(s.rt, Compile(s.crypto, rule, s.policy, s.keys).commitment, tims, now) ==
            Kernel.Decide(s.rt, Records.CommitmentOf(rule), Records.ReadTims(tims), now)
  {
    hide Kernel.Decide, CommitmentBody;
    CommitmentShape(rule, s.policy.scope, s.keys.did);
    var body := CommitmentBody(rule, s.policy.scope, s.keys.did);
    BodyIsObject(rule, s.policy.scope, s.keys.did);
    Records.CommitmentReads(body.members, rule, s.policy.scope, s.keys.did);
  }

  lemma BodyIsObject(rule: Rule, scope: Option<string>, did: string)
    ensures CommitmentBody(rule, scope, did).Object?
  {
  }

  /** The verdict under a matching rule. */
  lemma VerdictIs(s: Setup, tool: string, tims: seq<Value>, now: string)
    requires GoodPolicy(s.policy)
    ensures var rule := MatchRule(s.policy, tool);
      Judgement(s, tool, tims, now) ==
      if rule.None? || tool == "" then (NO_RULE, "")
      else (Kernel.Decide(s.rt, Records.CommitmentOf(rule.value), Records.ReadTims(tims), now),
            Compile(s.crypto, rule.value, s.policy, s.keys).cid)
  {
    hide Kernel.Decide, Records.CommitmentOf, CompileAll, Compile, CompiledFor, Records.DecideJson;
    var rule := MatchRule(s.policy, tool);
    if rule.Some? {
      CompiledOf(s.crypto, s.policy, s.keys, rule.value);
      CompiledDecides(s, rule.value, tims, now);
    }
  }

  lemma MatchedGood(p: Policy, tool: string)
    requires GoodPolicy(p) && MatchRule(p, tool).Some?
    ensures GoodRule(MatchRule(p, tool).value) && MatchRule(p, tool).value in p.rules
    ensures MatchRule(p, tool).value.tool == tool || MatchRule(p, tool).value.tool == "*"
  {
  }

  lemma EvidenceIs(c: Crypto, tool: string, args: Value, keys: KeyPair, server: string, ts: string)
    requires EvidenceTims(c, tool, args, keys, server, ts).Some?
    ensures IsEvidence(Records.ReadTims(EvidenceTims(c, tool, args, keys, server, ts).value), tool, args)
  {
    hide CodeGives, SoleValue, EvidenceTims, Arguments;
    var tims, all := Records.ReadTims(EvidenceTims(c, tool, args, keys, server, ts).value), Arguments(args);
    EvidenceGives(c, tool, args, keys, server, ts, "tool");
    forall sym | sym != "tool"
      ensures CodeGives(tims, sym, SoleValue(all, sym, |all|))
    {
      EvidenceGives(c, tool, args, keys, server, ts, sym);
    }
  }

  /** A call is approved exactly when it is permitted. */
  lemma VerdictApproves(s: Setup, tool: string, args: Value, now: string)
    requires GoodPolicy(s.policy) && EvidenceTims(s.crypto, tool, args, s.keys, s.server, now).Some?
    ensures var tims := EvidenceTims(s.crypto, tool, args, s.keys, s.server, now).value;
      Judgement(s, tool, tims, now).0.status == Kernel.APPROVED <==> Permitted(s.policy, tool, args)
  {
    hide Kernel.Decide, Records.CommitmentOf, Compile, EvidenceTims, Judgement, Complies, MatchRule, GoodRule,
         IsEvidence;
    var vs := EvidenceTims(s.crypto, tool, args, s.keys, s.server, now).value;
    VerdictIs(s, tool, vs, now);
    if MatchRule(s.policy, tool).Some? {
      MatchedGood(s.policy, tool);
      EvidenceIs(s.crypto, tool, args, s.keys, s.server, now);
      RuleApproves(s.rt, MatchRule(s.policy, tool).value, Records.ReadTims(vs), now, tool, args);
    }
  }

  // ---------- decisions on evidence can be signed ----------

  lemma InputsFromEvidence(rt: Kernel.Runtime, c: Kernel.Commitment, tims: seq<Kernel.Tim>, now: string, i: nat)
    requires i < |Kernel.Decide(rt, c, tims, now).assertions|
    ensures var input := Kernel.Decide(rt, c, tims, now).assertions[i].input;
      input.Some? ==> exists t | t in tims :: t.value == input.value
  {
    hide Kernel.Select, Kernel.BoundBy, Kernel.Authorized, Kernel.Overall, Evaluate, Kernel.AllRegistered;
    KernelLaws.SelectIsLatest(rt, c.measure[i], tims, now);
  }

  lemma AuthorizedVerbs(rt: Kernel.Runtime, rule: Rule, tims: seq<Kernel.Tim>, now: string)
    ensures var verbs := Kernel.Decide(rt, Records.CommitmentOf(rule), tims, now).authorized;
      forall i | 0 <= i < |verbs| :: verbs[i].json == Records.ControlVerb(rule.tool)
  {
    hide Kernel.AssessAll, Kernel.Overall, Kernel.AllRegistered, Kernel.Authorized, Records.ControlVerb,
         Records.SpecsOf;
    var cs := Records.CommitmentOf(rule).consequence;
    OnlyConsequence(cs, Kernel.Overall(Kernel.AssessAll(rt, Records.CommitmentOf(rule).measure, tims, now)));
  }

  lemma OnlyConsequence(cs: seq<Kernel.Consequence>, overall: TriState)
    requires |cs| == 1
    ensures Kernel.Authorized(cs, overall) == [] || Kernel.Authorized(cs, overall) == cs[0].verbs
  {
    hide Kernel.MatchesOutcome;
    assert cs[1..] == [];
  }

  lemma ControlFit(tool: string)
    ensures ArtifactShapes.Fit(Records.ControlVerb(tool))
  {
    hide ArtifactShapes.Fit;
    ArtifactShapes.FitString("mcp.tool_call:" + tool);
    ArtifactShapes.FitString(CONTROL);
    var args := [Member("action", String("mcp.tool_call:" + tool))];
    ArtifactShapes.FitObject(args);
    ArtifactShapes.FitObject(Records.ControlVerb(tool).members);
  }

  lemma EvidenceFit(c: Crypto, tool: string, args: Value, keys: KeyPair, server: string, ts: string, t: Kernel.Tim)
    requires EvidenceTims(c, tool, args, keys, server, ts).Some?
    requires t in Records.ReadTims(EvidenceTims(c, tool, args, keys, server, ts).value)
    ensures ArtifactShapes.Fit(t.value)
  {
    hide Records.ReadTim, EvidenceTims, Arguments, Symbolize;
    var tims := Records.ReadTims(EvidenceTims(c, tool, args, keys, server, ts).value);
    var k :| 0 <= k < |tims| && tims[k] == t;
    ToolCode(c, tool, args, keys, server, ts, k);
  }

  /** The decision on well-formed evidence is well formed. */
  lemma JudgementFit(s: Setup, tool: string, vs: seq<Value>, now: string)
    requires GoodPolicy(s.policy) && forall t | t in Records.ReadTims(vs) :: ArtifactShapes.Fit(t.value)
    ensures ArtifactShapes.FitDecision(Judgement(s, tool, vs, now).0)
  {
    hide Kernel.Decide, Records.CommitmentOf, Compile, Judgement, MatchRule, ArtifactShapes.Fit;
    var tims := Records.ReadTims(vs);
    VerdictIs(s, tool, vs, now);
    if MatchRule(s.policy, tool).Some? && tool != "" {
      var rule := MatchRule(s.policy, tool).value;
      var d := Kernel.Decide(s.rt, Records.CommitmentOf(rule), tims, now);
      AuthorizedVerbs(s.rt, rule, tims, now);
      ControlFit(rule.tool);
      forall i | 0 <= i < |d.assertions| && d.assertions[i].input.Some?
        ensures ArtifactShapes.Fit(d.assertions[i].input.value)
      {
        InputsFromEvidence(s.rt, Records.CommitmentOf(rule), tims, now, i);
        var t :| t in tims && t.value == d.assertions[i].input.value;
      }
    }
  }

  /** The decision on a call is well formed. */
  lemma VerdictFit(s: Setup, tool: string, args: Value, now: string)
    requires GoodPolicy(s.policy) && EvidenceTims(s.crypto, tool, args, s.keys, s.server, now).Some?
    ensures var tims := EvidenceTims(s.crypto, tool, args, s.keys, s.server, now).value;
      ArtifactShapes.FitDecision(Judgement(s, tool, tims, now).0)
  {
    hide EvidenceTims, Judgement, ArtifactShapes.Fit, ArtifactShapes.FitDecision, GoodPolicy, Records.ReadTim;
    var vs := EvidenceTims(s.crypto, tool, args, s.keys, s.server, now).value;
    forall t | t in Records.ReadTims(vs)
      ensures ArtifactShapes.Fit(t.value)
    {
      EvidenceFit(s.crypto, tool, args, s.keys, s.server, now, t);
    }
    JudgementFit(s, tool, vs, now);
  }

  /** Evidence exists exactly when the arguments have canonical text. */
  lemma EvidenceExists(c: Crypto, tool: string, args: Value, keys: KeyPair, server: string, ts: string)
    requires Unambiguous(args)
    ensures EvidenceTims(c, tool, args, keys, server, ts).Some? <==> Json.Finite(args)
  {
    hide ToolBody, ArgumentTims, Canonicalize.Canonical;
    ToolShape(tool, args, keys.did, server, ts);
    ToolIsBody(tool, args, keys.did, server, ts);
    FiniteCanonical(ToolBody(tool, args, keys.did, server, ts));
  }

  lemma ToolIsBody(tool: string, args: Value, did: string, server: string, ts: string)
    ensures ToolBody(tool, args, did, server, ts).Object?
  {
  }

  /** The decision artifact of a call, which can always be signed. */
  lemma DecisionSigns(s: Setup, tool: string, args: Value, now: string)
    requires GoodPolicy(s.policy) && EvidenceTims(s.crypto, tool, args, s.keys, s.server, now).Some?
    ensures var tims := EvidenceTims(s.crypto, tool, args, s.keys, s.server, now).value;
      var (d, cid) := Judgement(s, tool, tims, now);
      SignArtifact(s.crypto, DecisionBody(d, cid, CidsOf(tims), s.keys.did, now), s.keys).Some?
  {
    hide Judgement, EvidenceTims, CidsOf, ArtifactShapes.Fit, ArtifactShapes.FitDecision;
    var tims := EvidenceTims(s.crypto, tool, args, s.keys, s.server, now).value;
    var (d, cid) := Judgement(s, tool, tims, now);
    VerdictFit(s, tool, args, now);
    ArtifactShapes.DecisionFit(d, cid, CidsOf(tims), s.keys.did, now);
    ArtifactShapes.FitSigns(s.crypto, DecisionBody(d, cid, CidsOf(tims), s.keys.did, now), s.keys);
  }

  /**
   A tool call is forwarded exactly when its arguments have canonical text and the policy permits it:
   the tool has a name and a rule, and every clause, in order, has a sole primitive argument and an
   assertion that passes.  Otherwise it is answered, dropped, or refused with an exception.
   */
  lemma ForwardedIff(s: Setup, st: State, m: Value, raw: string, now: string)
    requires GoodPolicy(s.policy) && Unambiguous(Gate.ArgsOf(m))
    ensures CallStep(s, st, m, raw, now).1 == Forward(raw) <==>
            Json.Finite(Gate.ArgsOf(m)) && Permitted(s.policy, Gate.ToolOf(m), Gate.ArgsOf(m))
    ensures Json.Finite(Gate.ArgsOf(m)) <==> CallStep(s, st, m, raw, now).1 != Throws
  {
    hide Judgement, EvidenceTims, SignArtifact, DecisionBody, CidsOf, Permitted, PutTims, Put, Gate.ToolOf,
         Gate.ArgsOf, Detail, DenyReply, Field;
    var tool, args := Gate.ToolOf(m), Gate.ArgsOf(m);
    EvidenceExists(s.crypto, tool, args, s.keys, s.server, now);
    if Json.Finite(args) {
      VerdictApproves(s, tool, args, now);
      DecisionSigns(s, tool, args, now);
    }
  }
}
