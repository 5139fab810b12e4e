/**
 Which messages reach the server, told from the message and the policy document alone.

 A message that is no tool call passes untouched.  A tool call passes exactly when it names a tool, its
 arguments have canonical text, and it complies with the rule that governs the tool: the rule of that
 name, or the rule for any tool where no rule has the name.  Otherwise the client is told, if it asked
 for an answer.  The receipt of a forwarded call records how the server answered.
 */
module ForwardingLaws {
  import opened Outcomes
  import opened Json
  import opened Policy
  import opened Gate
  import opened GateLaws
  import opened Compliance
  import Audit
  import Assertions
  import D = Decimals
  import JsNumbers
  import Kernel
  import Records
  import TimLaws

  // ---------- the rule that governs a tool ----------

  ghost predicate Governs(p: Policy, r: Rule, tool: string) {
    r in p.rules && (r.tool == tool || (r.tool == "*" && forall q | q in p.rules :: q.tool != tool))
  }

  lemma OneRulePerTool(p: Policy, r: Rule, q: Rule)
    requires GoodPolicy(p) && r in p.rules && q in p.rules && r.tool == q.tool
    ensures r == q
  {
    hide GoodRule;
    var i :| 0 <= i < |p.rules| && p.rules[i] == r;
    var j :| 0 <= j < |p.rules| && p.rules[j] == q;
  }

  /** Matching finds the governing rule, and there is at most one. */
  lemma MatchIsGoverning(p: Policy, r: Rule, tool: string)
    requires GoodPolicy(p)
    ensures MatchRule(p, tool) == Some(r) <==> Governs(p, r, tool)
  {
    hide GoodPolicy;
    forall q, s | q in p.rules && s in p.rules && q.tool == s.tool
      ensures q == s
    {
      OneRulePerTool(p, q, s);
    }
  }

  // ---------- what a rule asks of the arguments ----------

  /** The literal an argument gives, if it is a text, a truth value, or a number that a double can hold. */
  function LiteralGiven(v: Value): Option<Assertions.Literal> {
    match v
    case String(text) => Some(Assertions.Str(text))
    case Bool(b) => Some(Assertions.Boolean(b))
    case Number(n) => if D.Overflows(n) then None else Some(Assertions.Num(JsNumbers.Finite(n)))
    case _ => None
  }

  /** The argument at i, alone in standing for the symbol, gives the literal. */
  predicate Gives(all: seq<Member>, sym: string, i: nat, lit: Assertions.Literal) {
    i < |all| && Symbolize(all[i].key) == sym && LiteralGiven(all[i].value) == Some(lit) &&
    forall j | 0 <= j < |all| && j != i :: Symbolize(all[j].key) != sym
  }

  lemma SoleGives(all: seq<Member>, sym: string, i: nat)
    requires Sole(all, sym, i)
    ensures Kernel.LiteralOf(all[i].value).Some? && Gives(all, sym, i, Kernel.LiteralOf(all[i].value).value)
  {
    hide Symbolize;
  }

  lemma OnlySoleGives(all: seq<Member>, sym: string, i: nat, lit: Assertions.Literal)
    ensures Gives(all, sym, i, lit) ==> Sole(all, sym, i)
  {
    hide Symbolize;
  }

  lemma GivenIffSole(all: seq<Member>, sym: string)
    ensures var v := SoleValue(all, sym, |all|);
      match v
      case None => forall i: nat, lit :: !Gives(all, sym, i, lit)
      case Some(x) => Kernel.LiteralOf(x).Some? && (exists i: nat :: Gives(all, sym, i, Kernel.LiteralOf(x).value)) &&
                      forall i: nat, lit | Gives(all, sym, i, lit) :: lit == Kernel.LiteralOf(x).value
  {
    hide Symbolize, SoleValue;
    match SoleValue(all, sym, |all|)
    case None =>
      forall i: nat, lit
        ensures !Gives(all, sym, i, lit)
      {
        OnlySoleGives(all, sym, i, lit);
      }
    case Some(x) =>
      var i: nat :| Sole(all, sym, i) && x == all[i].value;
      SoleGives(all, sym, i);
  }

  /** The symbols a clause may use: those of the clauses up to it, with what the arguments give for them. */
  lemma {:induction false} KnownIs(all: seq<Member>, tool: string, clauses: seq<Clause>, n: nat, sym: string,
                                   lit: Assertions.Literal)
    requires n <= |clauses| && sym != "tool"
    ensures sym in Known(all, tool, clauses, n) && Known(all, tool, clauses, n)[sym] == Assertions.Plain(lit) <==>
            (exists k | 0 <= k < n :: clauses[k].sym == sym) && exists i: nat :: Gives(all, sym, i, lit)
  {
    hide Gives, SoleValue, Kernel.LiteralOf;
    if n > 0 {
      KnownIs(all, tool, clauses, n - 1, sym, lit);
      GivenIffSole(all, clauses[n - 1].sym);
    }
  }

  lemma {:induction false} ToolKnown(all: seq<Member>, tool: string, clauses: seq<Clause>, n: nat)
    requires n <= |clauses| && forall k | 0 <= k < n :: clauses[k].sym != "tool"
    ensures "tool" in Known(all, tool, clauses, n)
    ensures Known(all, tool, clauses, n)["tool"] == Assertions.Plain(Assertions.Str(tool))
  {
    hide SoleValue, Kernel.LiteralOf, Symbolize;
    if n > 0 {
      ToolKnown(all, tool, clauses, n - 1);
      assert clauses[n - 1].sym != "tool";
    }
  }

  /** Clause k has its argument, and its assertion passes on the symbols known by then. */
  ghost predicate ClauseHolds(cs: seq<Clause>, tool: string, all: seq<Member>, k: nat)
    requires k < |cs|
  {
    (exists i: nat, lit :: Gives(all, cs[k].sym, i, lit)) &&
    Assertions.Evaluate(cs[k].assertion, Known(all, tool, cs, k + 1)).result == Assertions.PASS
  }

  lemma CompliesIff(rule: Rule, tool: string, args: Value)
    ensures Complies(rule, tool, args) <==>
      forall k: nat | k < |rule.clauses| :: ClauseHolds(rule.clauses, tool, Audit.Arguments(args), k)
  {
    hide Gives, SoleValue, Kernel.LiteralOf, Assertions.Evaluate, Known;
    var all := Audit.Arguments(args);
    forall k: nat | k < |rule.clauses|
      ensures ClauseHolds(rule.clauses, tool, all, k) <==> Holds(rule.clauses, tool, args, k)
    {
      GivenIffSole(all, rule.clauses[k].sym);
    }
  }

  // ---------- what a message asks ----------

  /** The tool a message names, empty when it names none. */
  function NamedTool(m: Value): string { Str(m, ["params", "name"]) }

  /** The arguments it carries: an object or a list, and an empty object in place of anything else. */
  function NamedArguments(m: Value): Value {
    match Path(m, ["params", "arguments"])
    case Some(Object(ms)) => Object(ms)
    case Some(Array(items)) => Array(items)
    case _ => Object([])
  }

  lemma TwoNames(m: Value, key: string)
    requires m.Object?
    ensures Path(m, ["params", key]) == Field(ParamsOf(m), key)
  {
    hide Get, Path;
    TimLaws.PathStep(m.members, "params", [key]);
    TimLaws.TwoStep(m, "params", key);
    var params := Get(m.members, "params");
    if params.Some? && params.value.Object? { TimLaws.OneStep(params.value.members, key); }
    if params.Some? && !params.value.Object? { NoFields(params.value, key); }
    NoArguments(key);
  }

  lemma NoFields(v: Value, key: string)
    requires !v.Object?
    ensures Path(v, [key]) == None
  {
  }

  lemma NoArguments(key: string)
    ensures Field(NO_ARGS, key) == None
  {
  }

  lemma MessageReads(m: Value)
    requires m.Object?
    ensures Gate.ToolOf(m) == NamedTool(m) && ArgsOf(m) == NamedArguments(m)
    ensures IsToolCall(m) <==> Path(m, ["method"]) == Some(String("tools/call"))
  {
    hide Path, ParamsOf, Field;
    TwoNames(m, "name");
    TwoNames(m, "arguments");
    MethodReads(m);
  }

  lemma MethodReads(m: Value)
    requires m.Object?
    ensures IsToolCall(m) <==> Path(m, ["method"]) == Some(String("tools/call"))
  {
    hide Get, Path;
    TimLaws.OneStep(m.members, "method");
  }

  // ---------- forwarding ----------

  /** A message that asks for a tool. */
  predicate AsksForTool(m: Value) { Path(m, ["method"]) == Some(String("tools/call")) }

  /** The call may be made: a governing rule whose clauses all hold of the arguments. */
  ghost predicate Allowed(p: Policy, m: Value) {
    Finite(NamedArguments(m)) && NamedTool(m) != "" &&
    exists r :: Governs(p, r, NamedTool(m)) && Complies(r, NamedTool(m), NamedArguments(m))
  }

  lemma PermittedIff(p: Policy, tool: string, args: Value)
    requires GoodPolicy(p)
    ensures Permitted(p, tool, args) <==> tool != "" && exists r :: Governs(p, r, tool) && Complies(r, tool, args)
  {
    hide Complies, Governs, MatchRule, GoodPolicy;
    if MatchRule(p, tool).Some? { MatchIsGoverning(p, MatchRule(p, tool).value, tool); }
    forall r | Governs(p, r, tool) && Complies(r, tool, args)
      ensures MatchRule(p, tool) == Some(r)
    {
      MatchIsGoverning(p, r, tool);
    }
  }

  /**
   A call for a tool is forwarded exactly when the policy allows it, and refused with an exception
   exactly when its arguments have no canonical text.
   */
  lemma CallsForwardedIff(s: Setup, st: State, m: Value, raw: string, now: string)
    requires SetupOk(s) && s.js.parse(raw) == Some(m) && m.Object? && AsksForTool(m)
    ensures ClientStep(s, st, raw, now).1 == Forward(raw) <==> Allowed(s.policy, m)
    ensures ClientStep(s, st, raw, now).1 == Throws <==> !Finite(NamedArguments(m))
  {
    hide CallStep, Permitted, Complies, Governs, GoodPolicy, Unambiguous, Finite, Path, NamedTool, NamedArguments,
         IsToolCall, Gate.ToolOf, ArgsOf;
    MessageReads(m);
    assert Unambiguous(s.js.parse(raw).value);
    ArgsUnambiguous(m);
    ForwardedIff(s, st, m, raw, now);
    PermittedIff(s.policy, NamedTool(m), NamedArguments(m));
  }

  /** Everything else an object can say is forwarded as it is, and nothing is recorded. */
  lemma OthersForwarded(s: Setup, st: State, m: Value, raw: string, now: string)
    requires s.js.parse(raw) == Some(m) && m.Object? && !AsksForTool(m)
    ensures ClientStep(s, st, raw, now) == (st, Forward(raw))
  {
    hide CallStep, Path;
    MethodReads(m);
  }

  /** The answer to a denied call: under its id, with a result that is an error. */
  predicate Denies(reply: Value, id: Value) {
    Path(reply, ["id"]) == Some(id) && Path(reply, ["result", "isError"]) == Some(Bool(true))
  }

  lemma DenialReads(id: Value, detail: string)
    ensures Denies(DenyReply(id, detail), id)
  {
    hide Path, Get;
    var ms := DenyReply(id, detail).members;
    var result := ms[2].value.members;
    Records.Field(ms, 1, "id");
    Records.FieldTwo(ms, 2, "result", "isError");
    Records.Field(result, 1, "isError");
  }

  lemma HeldReaction(s: Setup, st: State, m: Value, raw: string, now: string)
    requires CallStep(s, st, m, raw, now).1 != Forward(raw) && CallStep(s, st, m, raw, now).1 != Throws
    ensures var id, reaction := Field(m, "id"), CallStep(s, st, m, raw, now).1;
      if id.None? then reaction == Silent else exists detail :: reaction == Reply(DenyReply(id.value, detail))
  {
    hide Judgement, Audit.EvidenceTims, SignArtifact, Audit.DecisionBody, PutTims, Put, Gate.ToolOf, ArgsOf,
         DenyReply, Field;
  }

  /** A call that is held is denied under its id, and passed over in silence when it has none. */
  lemma HeldIsDenied(s: Setup, st: State, m: Value, raw: string, now: string)
    requires SetupOk(s) && s.js.parse(raw) == Some(m) && m.Object? && AsksForTool(m)
    requires Finite(NamedArguments(m)) && !Allowed(s.policy, m)
    ensures var reaction, id := ClientStep(s, st, raw, now).1, Path(m, ["id"]);
      if id.None? then reaction == Silent else reaction.Reply? && Denies(reaction.reply, id.value)
  {
    hide CallStep, Allowed, Path, Finite, NamedArguments, Get, SetupOk, IsToolCall, Denies;
    CallsForwardedIff(s, st, m, raw, now);
    MethodReads(m);
    TimLaws.OneStep(m.members, "id");
    HeldReaction(s, st, m, raw, now);
    if Field(m, "id").Some? {
      var detail :| ClientStep(s, st, raw, now).1 == Reply(DenyReply(Field(m, "id").value, detail));
      DenialReads(Field(m, "id").value, detail);
    }
  }
}
