/** Commitments, receipts and decisions as JSON documents. */
module Records {
  import opened Outcomes
  import opened Json
  import opened Kernel
  import Assertions
  import D = Decimals
  import Tim
  import Policy
  import TimLaws

  // ---------- reading ----------

  function OptionalStr(v: Value, path: seq<string>): Option<string> {
    match Path(v, path)
    case Some(String(s)) => Some(s)
    case _ => None
  }

  function Items(v: Value, path: seq<string>): seq<Value> {
    match Path(v, path)
    case Some(Array(items)) => items
    case _ => []
  }

  /** The strings of an array. */
  function Texts(items: seq<Value>): seq<string> {
    if items == [] then []
    else (if items[0].String? then [items[0].text] else []) + Texts(items[1..])
  }

  /** The entries of an array, those that are no text as None. */
  function Allowed(items: seq<Value>): (r: seq<Option<string>>)
    ensures |r| == |items| && forall i | 0 <= i < |r| :: r[i] == if items[i].String? then Some(items[i].text) else None
  {
    seq(|items|, i requires 0 <= i < |items| => if items[i].String? then Some(items[i].text) else None)
  }

  /** A list of allowed texts, or a text to be a part of; nothing is asked where neither is found. */
  function ReadChoice(v: Value, path: seq<string>): Choice {
    match Path(v, path)
    case Some(Array(items)) => OneOf(Allowed(items))
    case Some(String(s)) => PartOf(s)
    case _ => OneOf([])
  }

  function NumberAt(v: Value, path: seq<string>): Option<D.Num> {
    match Path(v, path)
    case Some(Number(n)) => Some(n)
    case _ => None
  }

  function ReadTim(v: Value): Kernel.Tim {
    Kernel.Tim(Str(v, ["time", "ts"]), |Tim.WitnessesOf(v)|, NumberAt(v, ["time", "ordering", "lamport"]).GetOr(D.ZERO),
               Str(v, ["identity", "id"]), Str(v, ["cid"]), Path(v, ["measurement", "value"]).GetOr(Null),
               OptionalStr(v, ["measurement", "unit"]), OptionalStr(v, ["measurement", "device"]),
               OptionalStr(v, ["measurement", "code"]))
  }

  function ReadTims(vs: seq<Value>): (r: seq<Kernel.Tim>)
    ensures |r| == |vs| && forall i | 0 <= i < |vs| :: r[i] == ReadTim(vs[i])
  {
    seq(|vs|, i requires 0 <= i < |vs| => ReadTim(vs[i]))
  }

  function ReadWindow(v: Value): Option<Window> {
    match Path(v, ["window"])
    case Some(Object(ms)) =>
      Some(Window(Str(Object(ms), ["start"]), Str(Object(ms), ["end"]), Str(Object(ms), ["max_age"])))
    case _ => None
  }

  function ReadMeasure(v: Value): MeasureSpec {
    MeasureSpec(Str(v, ["name"]), Str(v, ["assert"]),
                Requirement(NumberAt(v, ["require", "min_witnesses"]), ReadChoice(v, ["require", "device_class"]),
                            ReadChoice(v, ["require", "code"])),
                ReadWindow(v))
  }

  function ReadVerb(v: Value): Verb { Verb(Str(v, ["name"]), v) }

  function ReadVerbs(vs: seq<Value>): (r: seq<Verb>)
    ensures |r| == |vs| && forall i | 0 <= i < |vs| :: r[i] == ReadVerb(vs[i])
  {
    seq(|vs|, i requires 0 <= i < |vs| => ReadVerb(vs[i]))
  }

  function ReadConsequence(v: Value): Consequence { Consequence(Str(v, ["if"]), ReadVerbs(Items(v, ["then"]))) }

  function ReadMeasures(vs: seq<Value>): (r: seq<MeasureSpec>)
    ensures |r| == |vs| && forall i | 0 <= i < |vs| :: r[i] == ReadMeasure(vs[i])
  {
    seq(|vs|, i requires 0 <= i < |vs| => ReadMeasure(vs[i]))
  }

  function ReadConsequences(vs: seq<Value>): (r: seq<Consequence>)
    ensures |r| == |vs| && forall i | 0 <= i < |vs| :: r[i] == ReadConsequence(vs[i])
  {
    seq(|vs|, i requires 0 <= i < |vs| => ReadConsequence(vs[i]))
  }

  /** None when measure or consequence is not an array. */
  function ReadCommitment(v: Value): Option<Commitment> {
    match (Path(v, ["measure"]), Path(v, ["consequence"]))
    case (Some(Array(ms)), Some(Array(cs))) => Some(Commitment(ReadMeasures(ms), ReadConsequences(cs)))
    case _ => None
  }

  /** The Kernel over documents. */
  function DecideJson(rt: Runtime, commitment: Value, tims: seq<Value>, now: string): Decision {
    match ReadCommitment(commitment)
    case None => Decision(REJECTED, [], [], ["kernel.invalid_commitment"])
    case Some(c) => Decide(rt, c, ReadTims(tims), now)
  }

  // ---------- writing ----------

  function StatusText(s: Status): string {
    match s
    case APPROVED => "APPROVED"
    case REJECTED => "REJECTED"
    case INDETERMINATE_STATUS => "INDETERMINATE"
  }

  function ResultText(r: Assertions.TriState): string {
    match r
    case PASS => "PASS"
    case FAIL => "FAIL"
    case INDETERMINATE => "INDETERMINATE"
  }

  function Strings(ss: seq<string>): (r: seq<Value>)
    ensures |r| == |ss| && forall i | 0 <= i < |ss| :: r[i] == String(ss[i])
  {
    seq(|ss|, i requires 0 <= i < |ss| => String(ss[i]))
  }

  function IfText(key: string, v: Option<string>): seq<Member> {
    if v.Some? then [Member(key, String(v.value))] else []
  }

  function AssertionJson(a: Assertion): Value {
    Object([Member("name", String(a.name)), Member("result", String(ResultText(a.result)))] +
           (if a.input.Some? then [Member("input_value", a.input.value)] else []) +
           IfText("unit", a.unit) +
           (if a.inputs.Some? then [Member("inputs", Array(Strings(a.inputs.value)))] else []) +
           IfText("error", a.error))
  }

  function AssertionsJson(assertions: seq<Assertion>): (r: seq<Value>)
    ensures |r| == |assertions| && forall i | 0 <= i < |r| :: r[i] == AssertionJson(assertions[i])
  {
    seq(|assertions|, i requires 0 <= i < |assertions| => AssertionJson(assertions[i]))
  }

  function VerbsJson(vs: seq<Verb>): (r: seq<Value>)
    ensures |r| == |vs| && forall i | 0 <= i < |r| :: r[i] == vs[i].json
  {
    seq(|vs|, i requires 0 <= i < |vs| => vs[i].json)
  }

  // ---------- looking up members of a written object ----------

  lemma Field(ms: seq<Member>, i: nat, key: string)
    requires DistinctKeys(ms) && i < |ms| && ms[i].key == key
    ensures Path(Object(ms), [key]) == Some(ms[i].value)
  {
    hide Get, Path;
    GetAt(ms, i);
    TimLaws.OneStep(ms, key);
  }

  lemma FieldPath(ms: seq<Member>, i: nat, key: string, rest: seq<string>)
    requires DistinctKeys(ms) && i < |ms| && ms[i].key == key
    ensures Path(Object(ms), [key] + rest) == Path(ms[i].value, rest)
  {
    hide Get, Path;
    GetAt(ms, i);
    TimLaws.PathStep(ms, key, rest);
  }

  lemma FieldTwo(ms: seq<Member>, i: nat, key: string, next: string)
    requires DistinctKeys(ms) && i < |ms| && ms[i].key == key
    ensures Path(Object(ms), [key, next]) == Path(ms[i].value, [next])
  {
    FieldPath(ms, i, key, [next]);
    assert [key] + [next] == [key, next];
  }

  lemma NoField(ms: seq<Member>, key: string, rest: seq<string>)
    requires !HasKey(ms, key)
    ensures Path(Object(ms), [key] + rest) == None
  {
    hide Path;
    TimLaws.PathStep(ms, key, rest);
  }

  // ---------- a compiled commitment reads back as its rule ----------

  function SpecOf(c: Policy.Clause): MeasureSpec {
    MeasureSpec(c.sym, c.assertion, Requirement(None, OneOf([]), OneOf([Some(c.sym)])), None)
  }

  function SpecsOf(cs: seq<Policy.Clause>): (r: seq<MeasureSpec>)
    ensures |r| == |cs| && forall i | 0 <= i < |cs| :: r[i] == SpecOf(cs[i])
  {
    seq(|cs|, i requires 0 <= i < |cs| => SpecOf(cs[i]))
  }

  function ControlVerb(tool: string): Value {
    Object([Member("name", String(Policy.CONTROL)),
            Member("args", Object([Member("action", String("mcp.tool_call:" + tool))]))])
  }

  /** The commitment a rule stands for. */
  function CommitmentOf(rule: Policy.Rule): Commitment {
    Commitment(SpecsOf(Policy.Clauses(rule)),
               [Consequence("PASS", [Verb(Policy.CONTROL, ControlVerb(rule.tool))])])
  }

  lemma MeasureReads(sym: string, assertion: string)
    ensures ReadMeasure(Policy.MeasureJson(sym, assertion)) == SpecOf(Policy.Clause(sym, assertion))
  {
    hide Path;
    var code := [Member("code", Array([String(sym)]))];
    var ms := [Member("name", String(sym)), Member("assert", String(assertion)), Member("require", Object(code))];
    Field(ms, 0, "name");
    Field(ms, 1, "assert");
    FieldTwo(ms, 2, "require", "min_witnesses");
    FieldTwo(ms, 2, "require", "device_class");
    FieldTwo(ms, 2, "require", "code");
    Field(code, 0, "code");
    Absent(code, "min_witnesses");
    Absent(code, "device_class");
    Absent(ms, "window");
    assert Policy.MeasureJson(sym, assertion) == Object(ms);
    assert Allowed([String(sym)]) == [Some(sym)];
  }

  lemma Absent(ms: seq<Member>, key: string)
    requires !HasKey(ms, key)
    ensures Path(Object(ms), [key]) == None
  {
    NoField(ms, key, []);
    assert [key] + [] == [key];
  }

  lemma ConsequenceReads(tool: string)
    ensures ReadConsequence(Policy.ConsequenceJson(tool)) ==
            Consequence("PASS", [Verb(Policy.CONTROL, ControlVerb(tool))])
  {
    hide Path;
    var verb := ControlVerb(tool);
    var ms := [Member("if", String("PASS")), Member("then", Array([verb]))];
    Field(ms, 0, "if");
    Field(ms, 1, "then");
    Field(verb.members, 0, "name");
    assert ReadVerbs([verb]) == [Verb(Policy.CONTROL, verb)];
  }

  /** A compiled commitment says who made it, in which scope, and about what. */
  lemma CommitmentSays(rule: Policy.Rule, scope: Option<string>, did: string)
    ensures var body := Policy.CommitmentBody(rule, scope, did);
      Str(body, ["scope"]) == (if scope.Some? then scope.value else "arky:scope/mcp-tools") &&
      Str(body, ["actor"]) == did && Str(body, ["intent", "do"]) == "mcp.tool_call"
  {
    hide Path, Policy.MeasuresJson, Policy.ConsequenceJson;
    var ms := Policy.CommitmentBody(rule, scope, did).members;
    Field(ms, 0, "scope");
    Field(ms, 1, "actor");
    FieldTwo(ms, 2, "intent", "do");
    Field(ms[2].value.members, 0, "do");
  }

  /** Any document with the compiled members in these places reads as the rule's commitment. */
  lemma CommitmentReads(ms: seq<Member>, rule: Policy.Rule, scope: Option<string>, did: string)
    requires DistinctKeys(ms) && Policy.CommitmentBody(rule, scope, did).members <= ms
    ensures ReadCommitment(Object(ms)) == Some(CommitmentOf(rule))
  {
    hide Path, Policy.MeasureJson, Policy.ConsequenceJson, ReadMeasure, ReadConsequence;
    var body := Policy.CommitmentBody(rule, scope, did).members;
    assert ms[3] == body[3] && ms[4] == body[4];
    Field(ms, 3, "measure");
    Field(ms, 4, "consequence");
    var cs := Policy.Clauses(rule);
    forall i | 0 <= i < |cs|
      ensures ReadMeasures(Policy.MeasuresJson(cs))[i] == SpecsOf(cs)[i]
    {
      MeasureReads(cs[i].sym, cs[i].assertion);
    }
    assert ReadMeasures(Policy.MeasuresJson(cs)) == SpecsOf(cs);
    ConsequenceReads(rule.tool);
    assert ReadConsequences([Policy.ConsequenceJson(rule.tool)]) ==
           [Consequence("PASS", [Verb(Policy.CONTROL, ControlVerb(rule.tool))])];
  }
}
