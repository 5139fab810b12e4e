/**
 Which policy documents are accepted, what is read from them, and what symbols argument names become.

 A document is accepted exactly when it has version one, a scope that is a text if it has one, and a
 list of rules, each with a tool of its own that has a name without quotes, and clauses that pair a
 free symbol with a text.  Nothing else is asked, and nothing of it is changed in reading.
 */
module PolicyLaws {
  import opened Outcomes
  import opened Json
  import opened Policy
  import D = Decimals
  import TimLaws

  // ---------- the document ----------

  predicate SymbolChar(c: char) { 'a' <= c <= 'z' || '0' <= c <= '9' || c == '_' }

  /** [a-z_][a-z0-9_]* */
  predicate SymbolText(s: string) {
    s != "" && !('0' <= s[0] <= '9') && forall i | 0 <= i < |s| :: SymbolChar(s[i])
  }

  predicate WellClause(m: Member) {
    SymbolText(m.key) && m.key != "tool" && m.value.String? && m.value.text != ""
  }

  predicate WellClauses(v: Value) { v.Object? && forall i | 0 <= i < |v.members| :: WellClause(v.members[i]) }

  predicate WellRule(r: Value) {
    r.Object? && Str(r, ["tool"]) != "" && '"' !in Str(r, ["tool"]) &&
    (Path(r, ["where"]).Some? ==> WellClauses(Path(r, ["where"]).value))
  }

  predicate WellRules(rules: seq<Value>) {
    (forall i | 0 <= i < |rules| :: WellRule(rules[i])) &&
    forall i, j | 0 <= i < j < |rules| :: Str(rules[i], ["tool"]) != Str(rules[j], ["tool"])
  }

  predicate WellPolicy(p: Value) {
    p.Object? &&
    Path(p, ["version"]).Some? && Path(p, ["version"]).value.Number? &&
    D.ValueOf(Path(p, ["version"]).value.num) == 1.0 &&
    (Path(p, ["scope"]).Some? ==> Path(p, ["scope"]).value.String?) &&
    Path(p, ["rules"]).Some? && Path(p, ["rules"]).value.Array? && Path(p, ["rules"]).value.items != [] &&
    WellRules(Path(p, ["rules"]).value.items)
  }

  // ---------- acceptance ----------

  lemma SymbolIff(s: string)
    ensures IsSymbol(s) <==> SymbolText(s)
  {
  }

  lemma ClauseIff(m: Member)
    ensures ClauseFault(m).None? <==> WellClause(m)
  {
    hide IsSymbol, SymbolText;
    SymbolIff(m.key);
  }

  lemma {:induction false} ClausesIff(ms: seq<Member>)
    ensures ClausesFault(ms).None? <==> forall i | 0 <= i < |ms| :: WellClause(ms[i])
  {
    hide ClauseFault, WellClause;
    if ms != [] {
      ClauseIff(ms[0]);
      ClausesIff(ms[1..]);
      assert forall i | 0 < i < |ms| :: ms[i] == ms[1..][i - 1];
    }
  }

  lemma ToolReads(r: Value)
    ensures ToolOf(r) == Str(r, ["tool"])
  {
    hide Get, Path;
    if r.Object? { TimLaws.OneStep(r.members, "tool"); } else { NothingThere(r, "tool"); }
  }

  lemma NothingThere(v: Value, key: string)
    requires !v.Object?
    ensures Path(v, [key]) == None
  {
  }

  lemma RuleIff(r: Value, seen: seq<string>)
    ensures RuleFault(r, seen).None? <==> WellRule(r) && Str(r, ["tool"]) !in seen
  {
    hide Get, Path, ToolOf, ClausesFault, WellClause, Str;
    ToolReads(r);
    if r.Object? {
      TimLaws.OneStep(r.members, "where");
      var clauses := Get(r.members, "where");
      if clauses.Some? && clauses.value.Object? { ClausesIff(clauses.value.members); }
    } else {
      NothingThere(r, "tool");
      NoToolText(r);
    }
  }

  lemma NoToolText(r: Value)
    requires !r.Object?
    ensures Str(r, ["tool"]) == ""
  {
  }

  lemma {:induction false} RulesIff(rules: seq<Value>, seen: seq<string>)
    ensures RulesFault(rules, seen).None? <==>
            WellRules(rules) && forall i | 0 <= i < |rules| :: Str(rules[i], ["tool"]) !in seen
    decreases |rules|
  {
    hide RuleFault, WellRule, Str, ToolOf;
    if rules != [] {
      var tool, rest := Str(rules[0], ["tool"]), rules[1..];
      ToolReads(rules[0]);
      RuleIff(rules[0], seen);
      RulesIff(rest, seen + [tool]);
      assert forall i | 0 < i < |rules| :: rules[i] == rest[i - 1];
      assert forall i | 0 <= i < |rest| :: rest[i] == rules[i + 1];
      assert forall t :: t in seen + [tool] <==> t in seen || t == tool;
    }
  }

  lemma VersionIff(v: Option<Value>)
    ensures IsOne(v) <==> v.Some? && v.value.Number? && D.ValueOf(v.value.num) == 1.0
  {
    OneIsOne();
    if v.Some? && v.value.Number? && D.ValueOf(v.value.num) == 1.0 {
      D.ValueDetermines(v.value.num, D.RawNum(false, "1", 0));
    }
  }

  lemma OneIsOne()
    ensures D.ValueOf(D.RawNum(false, "1", 0)) == 1.0
  {
    assert "1"[..0] == [] && D.NatOf("1") == 1;
    assert D.Shift(1.0, 0) == 1.0;
  }

  /** A policy document is accepted exactly when it is well formed. */
  lemma AcceptedIff(p: Value)
    ensures PolicyFault(p).None? <==> WellPolicy(p)
  {
    hide Get, Path, RulesFault, WellRules, IsOne, D.ValueOf, Str;
    if p.Object? {
      TimLaws.OneStep(p.members, "version");
      TimLaws.OneStep(p.members, "scope");
      TimLaws.OneStep(p.members, "rules");
      VersionIff(Get(p.members, "version"));
      var rules := Get(p.members, "rules");
      if rules.Some? && rules.value.Array? { RulesIff(rules.value.items, []); }
    }
  }

  // ---------- reading ----------

  /** A rule as its document says it: the tool, and each clause in its place. */
  predicate RuleRead(r: Value, rule: Rule) {
    rule.tool == Str(r, ["tool"]) &&
    var clauses := Path(r, ["where"]);
    if clauses.None? then rule.clauses == []
    else clauses.value.Object? && |rule.clauses| == |clauses.value.members| &&
         forall i | 0 <= i < |rule.clauses| ::
           rule.clauses[i].sym == clauses.value.members[i].key &&
           String(rule.clauses[i].assertion) == clauses.value.members[i].value
  }

  lemma RuleReads(r: Value)
    requires WellRule(r)
    ensures RuleRead(r, ReadRule(r))
  {
    hide Get, Path, ToolOf, Str;
    ToolReads(r);
    TimLaws.OneStep(r.members, "where");
    var clauses := Get(r.members, "where");
    if clauses.Some? { assert forall i | 0 <= i < |clauses.value.members| :: WellClause(clauses.value.members[i]); }
  }

  /** What is read of an accepted policy: its scope, and its rules in order. */
  lemma PolicyReads(p: Value)
    requires WellPolicy(p)
    ensures PolicyFault(p).None?
    ensures var rules, read := Path(p, ["rules"]).value.items, ReadPolicy(p);
      |read.rules| == |rules| && (forall i | 0 <= i < |rules| :: RuleRead(rules[i], read.rules[i])) &&
      read.scope == match Path(p, ["scope"])
                    case Some(String(s)) => Some(s)
                    case _ => None
  {
    AcceptedIff(p);
    hide Get, Path, ReadRule, RuleRead, WellRule, PolicyFault, D.ValueOf, Str;
    TimLaws.OneStep(p.members, "scope");
    TimLaws.OneStep(p.members, "rules");
    var rules := Path(p, ["rules"]).value.items;
    forall i | 0 <= i < |rules|
      ensures RuleRead(rules[i], ReadPolicy(p).rules[i])
    {
      RuleReads(rules[i]);
    }
  }

  // ---------- symbols ----------

  /** An ASCII character in a symbol: capitals become small letters, and what no symbol has an underscore. */
  function Folded(c: char): char
    requires c as int < 128
  {
    if 'A' <= c <= 'Z' then (c as int + 32) as char else if SymbolChar(c) then c else '_'
  }

  lemma PartFolds(c: char)
    requires c as int < 128
    ensures SymbolPart(c) == [Folded(c)]
  {
  }

  lemma {:induction false} PartsFold(s: string)
    requires forall i | 0 <= i < |s| :: s[i] as int < 128
    ensures |SymbolParts(s)| == |s| && forall i | 0 <= i < |s| :: SymbolParts(s)[i] == Folded(s[i])
  {
    hide SymbolPart, Folded;
    if s != [] {
      PartFolds(s[0]);
      PartsFold(s[1..]);
    }
  }

  /**
   The symbol of an ASCII name: its characters folded one by one, after an underscore where a digit or
   nothing would come first.
   */
  lemma SymbolOfName(s: string)
    requires forall i | 0 <= i < |s| :: s[i] as int < 128
    ensures var pad := if s == "" || '0' <= s[0] <= '9' then 1 else 0;
      |Symbolize(s)| == pad + |s| && (pad == 1 ==> Symbolize(s)[0] == '_') &&
      forall i | 0 <= i < |s| :: Symbolize(s)[pad + i] == Folded(s[i])
  {
    hide SymbolParts;
    PartsFold(s);
  }
}
