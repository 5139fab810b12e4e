/** Gate policies: validation, rule matching, symbol names, and compilation to commitments. */
module Policy {
  import opened Outcomes
  import opened Json
  import opened Canonicalize
  import opened Jws
  import Assertions
  import D = Decimals
  import MemberLaws
  import Tim

  datatype Rule = Rule(tool: string, clauses: seq<Clause>)

  /** A symbol and the assertion its argument must pass. */
  datatype Clause = Clause(sym: string, assertion: string)

  datatype Policy = Policy(scope: Option<string>, rules: seq<Rule>)

  datatype KeyPair = KeyPair(privateKey: Key, did: string)

  // ---------- symbols ----------

  const RESERVED: set<string> := {"tool"}

  predicate IsSymbol(s: string) {
    s != [] && Assertions.IsSymStart(s[0]) && forall i | 0 <= i < |s| :: Assertions.IsSymChar(s[i])
  }

  /**
   What lower-casing and replacing leave of one character.  Besides A to Z, two characters
   have ASCII letters in their lower case; outside the basic plane each half is replaced.
   */
  function SymbolPart(c: char): (r: string)
    ensures r != [] && forall i | 0 <= i < |r| :: Assertions.IsSymChar(r[i])
  {
    if Assertions.IsSymChar(c) then [c]
    else if 'A' <= c <= 'Z' then [(c as int - 'A' as int + 'a' as int) as char]
    else if c == '\U{212A}' then "k"
    else if c == '\U{130}' then "i_"
    else if c as int >= 0x1_0000 then "__"
    else "_"
  }

  function SymbolParts(s: string): (r: string)
    ensures forall i | 0 <= i < |r| :: Assertions.IsSymChar(r[i])
    ensures s != [] ==> r != []
  {
    if s == [] then [] else SymbolPart(s[0]) + SymbolParts(s[1..])
  }

  /** The symbol an argument name stands for. */
  function Symbolize(argName: string): (r: string)
    ensures IsSymbol(r)
  {
    var s := SymbolParts(argName);
    if s == [] || !Assertions.IsSymStart(s[0]) then "_" + s else s
  }

  lemma {:induction false} SymbolPartsKeep(s: string)
    requires forall i | 0 <= i < |s| :: Assertions.IsSymChar(s[i])
    ensures SymbolParts(s) == s
  {
    if s != [] {
      SymbolPartsKeep(s[1..]);
      assert [s[0]] + s[1..] == s;
    }
  }

  /** A symbol stands for itself, and so symbolizing twice is symbolizing once. */
  lemma SymbolizeIdempotent(s: string)
    ensures IsSymbol(s) ==> Symbolize(s) == s
    ensures Symbolize(Symbolize(s)) == Symbolize(s)
  {
    if IsSymbol(s) { SymbolPartsKeep(s); }
    SymbolPartsKeep(Symbolize(s));
  }

  // ---------- validation ----------

  datatype Fault =
    | NotAnObject | BadVersion | BadScope | BadRules | RuleNotObject | BadTool | QuoteInTool
    | DuplicateTool(tool: string) | WhereNotObject | BadSymbol(sym: string) | ReservedSymbol(sym: string)
    | BadAssertion(sym: string)

  function ClauseFault(m: Member): Option<Fault> {
    if !IsSymbol(m.key) then Some(BadSymbol(m.key))
    else if m.key in RESERVED then Some(ReservedSymbol(m.key))
    else if !m.value.String? || m.value.text == "" then Some(BadAssertion(m.key))
    else None
  }

  function ClausesFault(ms: seq<Member>): Option<Fault> {
    if ms == [] then None else if ClauseFault(ms[0]).Some? then ClauseFault(ms[0]) else ClausesFault(ms[1..])
  }

  function ToolOf(rule: Value): string {
    if !rule.Object? then ""
    else match Get(rule.members, "tool")
      case Some(String(t)) => t
      case _ => ""
  }

  /** A rule's fault, given the tools of the rules before it. */
  function RuleFault(rule: Value, seen: seq<string>): Option<Fault> {
    if !rule.Object? && !rule.Array? then Some(RuleNotObject)
    else
      var tool := ToolOf(rule);
      if tool == "" then Some(BadTool)
      else if '"' in tool then Some(QuoteInTool)
      else if tool in seen then Some(DuplicateTool(tool))
      else match Get(rule.members, "where")
        case None => None
        case Some(Object(ms)) => ClausesFault(ms)
        case Some(_) => Some(WhereNotObject)
  }

  function RulesFault(rules: seq<Value>, seen: seq<string>): Option<Fault> {
    if rules == [] then None
    else if RuleFault(rules[0], seen).Some? then RuleFault(rules[0], seen)
    else RulesFault(rules[1..], seen + [ToolOf(rules[0])])
  }

  predicate IsOne(v: Option<Value>) { v == Some(Number(D.RawNum(false, "1", 0))) }

  /** What is wrong with a policy document, if anything. */
  function PolicyFault(p: Value): Option<Fault> {
    if !p.Object? then Some(NotAnObject)
    else if !IsOne(Get(p.members, "version")) then Some(BadVersion)
    else if Get(p.members, "scope").Some? && !Get(p.members, "scope").value.String? then Some(BadScope)
    else match Get(p.members, "rules")
      case Some(Array(rules)) => if rules == [] then Some(BadRules) else RulesFault(rules, [])
      case _ => Some(BadRules)
  }

  function ReadClauses(ms: seq<Member>): (r: seq<Clause>)
    ensures |r| == |ms|
  {
    seq(|ms|, i requires 0 <= i < |ms| => Clause(ms[i].key, Tim.TextOf(ms[i].value)))
  }

  function ReadRule(rule: Value): Rule {
    var clauses := if !rule.Object? then []
                   else match Get(rule.members, "where")
                     case Some(Object(ms)) => ReadClauses(ms)
                     case _ => [];
    Rule(ToolOf(rule), clauses)
  }

  function ReadRules(rules: seq<Value>): (r: seq<Rule>)
    ensures |r| == |rules| && forall i | 0 <= i < |rules| :: r[i] == ReadRule(rules[i])
  {
    seq(|rules|, i requires 0 <= i < |rules| => ReadRule(rules[i]))
  }

  function ReadPolicy(p: Value): Policy
    requires PolicyFault(p).None?
  {
    var scope := match Get(p.members, "scope")
      case Some(String(s)) => Some(s)
      case _ => None;
    Policy(scope, ReadRules(Get(p.members, "rules").value.items))
  }

  method ValidateClauses(ms: seq<Member>) returns (fault: Option<Fault>)
    ensures fault == ClausesFault(ms)
  {
    hide ClauseFault;
    assert ms[0..] == ms;
    for i := 0 to |ms|
      invariant ClausesFault(ms) == ClausesFault(ms[i..])
    {
      assert ms[i..][1..] == ms[i + 1..];
      fault := ClauseFault(ms[i]);
      if fault.Some? { return; }
    }
    fault := None;
  }

  method ValidateRules(rules: seq<Value>) returns (fault: Option<Fault>)
    ensures fault == RulesFault(rules, [])
  {
    hide ClausesFault, ToolOf, Get;
    var seen: set<string> := {};
    ghost var order: seq<string> := [];
    assert rules[0..] == rules;
    for i := 0 to |rules|
      invariant RulesFault(rules, []) == RulesFault(rules[i..], order)
      invariant forall t :: t in seen <==> t in order
    {
      assert rules[i..][1..] == rules[i + 1..];
      var rule := rules[i];
      if !rule.Object? && !rule.Array? { return Some(RuleNotObject); }
      var tool := ToolOf(rule);
      if tool == "" { return Some(BadTool); }
      if '"' in tool { return Some(QuoteInTool); }
      if tool in seen { return Some(DuplicateTool(tool)); }
      seen := seen + {tool};
      ToolIsObject(rule);
      var clauses := Get(rule.members, "where");
      if clauses.Some? {
        if !clauses.value.Object? { return Some(WhereNotObject); }
        fault := ValidateClauses(clauses.value.members);
        if fault.Some? { return; }
      }
      order := order + [tool];
    }
    fault := None;
  }

  lemma ToolIsObject(rule: Value)
    requires ToolOf(rule) != ""
    ensures rule.Object?
  {
  }

  method ValidatePolicy(p: Value) returns (r: Result<Policy, Fault>)
    ensures r == match PolicyFault(p)
                 case Some(fault) => Err(fault)
                 case None => Ok(ReadPolicy(p))
  {
    hide RulesFault, ReadPolicy;
    if !p.Object? { return Err(NotAnObject); }
    if !IsOne(Get(p.members, "version")) { return Err(BadVersion); }
    var scope := Get(p.members, "scope");
    if scope.Some? && !scope.value.String? { return Err(BadScope); }
    var rules := Get(p.members, "rules");
    if rules.None? || !rules.value.Array? || |rules.value.items| == 0 { return Err(BadRules); }
    var fault := ValidateRules(rules.value.items);
    if fault.Some? { return Err(fault.value); }
    r := Ok(ReadPolicy(p));
  }

  // ---------- what validation guarantees ----------

  predicate GoodClauses(cs: seq<Clause>) {
    (forall i | 0 <= i < |cs| :: IsSymbol(cs[i].sym) && cs[i].sym != "tool" && cs[i].assertion != "") &&
    forall i, j | 0 <= i < j < |cs| :: cs[i].sym != cs[j].sym
  }

  predicate GoodRule(r: Rule) { r.tool != "" && '"' !in r.tool && GoodClauses(r.clauses) }

  predicate GoodPolicy(p: Policy) {
    p.rules != [] && (forall i | 0 <= i < |p.rules| :: GoodRule(p.rules[i])) &&
    forall i, j | 0 <= i < j < |p.rules| :: p.rules[i].tool != p.rules[j].tool
  }

  lemma {:induction false} ClausesFine(ms: seq<Member>, i: nat)
    requires ClausesFault(ms).None? && i < |ms|
    ensures ClauseFault(ms[i]).None?
    decreases |ms|
  {
    hide ClauseFault;
    if i > 0 { ClausesFine(ms[1..], i - 1); }
  }

  lemma ReadClausesGood(ms: seq<Member>)
    requires ClausesFault(ms).None? && DistinctKeys(ms)
    ensures GoodClauses(ReadClauses(ms))
  {
    hide ClausesFault, IsSymbol;
    forall i | 0 <= i < |ms|
      ensures ClauseFault(ms[i]).None?
    {
      ClausesFine(ms, i);
    }
  }

  lemma {:induction false} RulesFine(rules: seq<Value>, seen: seq<string>, i: nat)
    requires RulesFault(rules, seen).None? && i < |rules|
    ensures exists before :: RuleFault(rules[i], before).None? && seen <= before &&
              forall j | 0 <= j < i :: ToolOf(rules[j]) in before
    decreases |rules|
  {
    hide RuleFault, ToolOf;
    if i == 0 {
      assert RuleFault(rules[0], seen).None?;
    } else {
      var next := seen + [ToolOf(rules[0])];
      RulesFine(rules[1..], next, i - 1);
      var before :| RuleFault(rules[1..][i - 1], before).None? && next <= before &&
                    forall j | 0 <= j < i - 1 :: ToolOf(rules[1..][j]) in before;
      assert before[|seen|] == ToolOf(rules[0]);
      forall j | 0 <= j < i
        ensures ToolOf(rules[j]) in before
      {
        if j > 0 { assert rules[1..][j - 1] == rules[j]; }
      }
    }
  }

  lemma RuleGood(rule: Value, before: seq<string>)
    requires Unambiguous(rule) && RuleFault(rule, before).None?
    ensures GoodRule(ReadRule(rule)) && ToolOf(rule) !in before
  {
    hide ClausesFault, ReadClauses, GoodClauses, Get;
    ToolIsObject(rule);
    var clauses := Get(rule.members, "where");
    if clauses.Some? {
      MemberLaws.GetKeepsValue(rule.members, "where");
      ReadClausesGood(clauses.value.members);
    } else {
      NoClauses();
    }
  }

  lemma NoClauses()
    ensures GoodClauses([])
  {
  }

  /** A policy that validates has distinct quote-free tools, and distinct symbols none of which is reserved. */
  lemma ValidatedGood(p: Value)
    requires Unambiguous(p) && PolicyFault(p).None?
    ensures GoodPolicy(ReadPolicy(p))
  {
    hide RulesFault, RuleFault, GoodRule, ReadRule, ToolOf, Get;
    var rules := Get(p.members, "rules").value.items;
    MemberLaws.GetKeepsValue(p.members, "rules");
    forall i | 0 <= i < |rules|
      ensures GoodRule(ReadRule(rules[i])) && forall j | 0 <= j < i :: ToolOf(rules[j]) != ToolOf(rules[i])
    {
      RulesFine(rules, [], i);
      var before :| RuleFault(rules[i], before).None? && forall j | 0 <= j < i :: ToolOf(rules[j]) in before;
      RuleGood(rules[i], before);
    }
    forall i | 0 <= i < |rules| { ReadTool(rules[i]); }
  }

  lemma ReadTool(rule: Value)
    ensures ReadRule(rule).tool == ToolOf(rule)
  {
  }

  // ---------- matching ----------

  function FindRule(rules: seq<Rule>, tool: string): (r: Option<Rule>)
    ensures r.Some? ==> r.value in rules && r.value.tool == tool
    ensures r.None? ==> forall i | 0 <= i < |rules| :: rules[i].tool != tool
  {
    if rules == [] then None
    else if rules[0].tool == tool then Some(rules[0])
    else FindRule(rules[1..], tool)
  }

  /** The rule naming the tool, else the rule for any tool. */
  function MatchRule(p: Policy, tool: string): Option<Rule> {
    if FindRule(p.rules, tool).Some? then FindRule(p.rules, tool) else FindRule(p.rules, "*")
  }

  // ---------- compilation ----------

  function ToolAssertion(tool: string): string {
    if tool == "*" then "tool != \"\"" else "tool == \"" + tool + "\""
  }

  function MeasureJson(name: string, assertion: string): Value {
    Object([Member("name", String(name)), Member("assert", String(assertion)),
            Member("require", Object([Member("code", Array([String(name)]))]))])
  }

  /** The measures of a rule: the tool name first, then its clauses in order. */
  function Clauses(rule: Rule): seq<Clause> { [Clause("tool", ToolAssertion(rule.tool))] + rule.clauses }

  function MeasuresJson(cs: seq<Clause>): (r: seq<Value>)
    ensures |r| == |cs| && forall i | 0 <= i < |cs| :: r[i] == MeasureJson(cs[i].sym, cs[i].assertion)
  {
    seq(|cs|, i requires 0 <= i < |cs| => MeasureJson(cs[i].sym, cs[i].assertion))
  }

  const CONTROL := "arky:verb/control@v1"

  function ConsequenceJson(tool: string): Value {
    Object([Member("if", String("PASS")),
            Member("then", Array([Object([Member("name", String(CONTROL)),
                                          Member("args",
                                              Object([Member("action", String("mcp.tool_call:" + tool))]))])]))])
  }

  function CommitmentBody(rule: Rule, scope: Option<string>, did: string): Value {
    Object([Member("scope", String(scope.GetOr("arky:scope/mcp-tools"))),
            Member("actor", String(did)),
            Member("intent", Object([Member("do", String("mcp.tool_call"))])),
            Member("measure", Array(MeasuresJson(Clauses(rule)))),
            Member("consequence", Array([ConsequenceJson(rule.tool)]))])
  }

  /** Canonicalize, identify and sign a body. */
  function SignArtifact(c: Crypto, body: Value, keys: KeyPair): Option<Value>
    requires body.Object?
  {
    var canonical :- Canonical(body);
    Some(Object(body.members + [Member("cid", String(CidOf(c, canonical))),
                                Member("sig", String(Seal(c, HeaderTs(keys.did), canonical, keys.privateKey)))]))
  }

  datatype Compiled = Compiled(rule: Rule, commitment: Value, cid: string, artifact: Value)

  lemma MeasureFinite(cs: seq<Clause>)
    ensures Finite(Array(MeasuresJson(cs))) && Unambiguous(Array(MeasuresJson(cs)))
  {
    forall i | 0 <= i < |cs|
      ensures Finite(MeasuresJson(cs)[i]) && Unambiguous(MeasuresJson(cs)[i])
    {
      OneMeasureFinite(cs[i].sym, cs[i].assertion);
    }
  }

  lemma OneMeasureFinite(name: string, assertion: string)
    ensures Finite(MeasureJson(name, assertion)) && Unambiguous(MeasureJson(name, assertion))
  {
    var code := Object([Member("code", Array([String(name)]))]);
    assert Finite(code) && Unambiguous(code);
  }

  lemma ConsequenceFinite(tool: string)
    ensures Finite(ConsequenceJson(tool)) && Unambiguous(ConsequenceJson(tool))
  {
    var args := Object([Member("action", String("mcp.tool_call:" + tool))]);
    assert Finite(args) && Unambiguous(args);
    var verb := Object([Member("name", String(CONTROL)), Member("args", args)]);
    assert Finite(verb) && Unambiguous(verb);
    assert Finite(Array([verb])) && Unambiguous(Array([verb]));
  }

  /** Every compiled rule has canonical text. */
  lemma CommitmentShape(rule: Rule, scope: Option<string>, did: string)
    ensures Unambiguous(CommitmentBody(rule, scope, did)) && Finite(CommitmentBody(rule, scope, did))
  {
    hide MeasuresJson, ConsequenceJson;
    MeasureFinite(Clauses(rule));
    ConsequenceFinite(rule.tool);
    var intent := Object([Member("do", String("mcp.tool_call"))]);
    var authorized := Array([ConsequenceJson(rule.tool)]);
    assert Finite(intent) && Unambiguous(intent) && Finite(authorized) && Unambiguous(authorized);
  }

  function Compile(c: Crypto, rule: Rule, policy: Policy, keys: KeyPair): Compiled {
    var body := CommitmentBody(rule, policy.scope, keys.did);
    CommitmentShape(rule, policy.scope, keys.did);
    Compiled(rule, body, CidOf(c, Canonical(body).value), SignArtifact(c, body, keys).value)
  }

  function CompileAll(c: Crypto, policy: Policy, keys: KeyPair): (r: seq<Compiled>)
    ensures |r| == |policy.rules| && forall i | 0 <= i < |r| :: r[i] == Compile(c, policy.rules[i], policy, keys)
  {
    seq(|policy.rules|, i requires 0 <= i < |policy.rules| => Compile(c, policy.rules[i], policy, keys))
  }
}
