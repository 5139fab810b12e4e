/** The tool-call gate between a client and a server, and the audit files it writes. */
module Gate {
  import opened Outcomes
  import opened Json
  import opened Jws
  import opened Policy
  import opened Audit
  import D = Decimals
  import Kernel
  import MemberLaws
  import Records

  // ---------- surroundings ----------

  /** JSON.parse of the JavaScript engine. */
  datatype Script = Script(parse: string -> Option<Value>)

  datatype Setup = Setup(crypto: Crypto, rt: Kernel.Runtime, js: Script, policy: Policy, keys: KeyPair, server: string)

  datatype PendingCall = PendingCall(seqNo: string, tool: string, args: Value, commitmentCid: string,
                                     decisionCid: string)

  datatype File = File(name: string, content: Value)

  /** The next sequence number, the calls awaiting a response by request id, and the files of the calls directory. */
  datatype State = State(next: nat, pending: map<string, PendingCall>, files: seq<File>)

  datatype Reaction = Forward(raw: string) | Reply(reply: Value) | Silent | Throws

  // ---------- files ----------

  function PadTo(s: string, n: nat): string
    decreases n - |s|
  {
    if |s| >= n then s else PadTo("0" + s, n)
  }

  function SeqNo(n: nat): string { PadTo(D.Itoa(n), 5) }

  function FileName(seqNo: string, kind: string): string { seqNo + "-" + kind + ".json" }

  function TimKind(i: nat): string { "tim-" + D.Itoa(i) }

  /** Write a file, replacing one of the same name. */
  function Put(files: seq<File>, name: string, content: Value): seq<File> {
    if files == [] then [File(name, content)]
    else if files[0].name == name then [File(name, content)] + files[1..]
    else [files[0]] + Put(files[1..], name, content)
  }

  /** Write the first n of some receipts. */
  function PutTims(files: seq<File>, seqNo: string, tims: seq<Value>, n: nat): seq<File>
    requires n <= |tims|
  {
    if n == 0 then files
    else Put(PutTims(files, seqNo, tims, n - 1), FileName(seqNo, TimKind(n - 1)), tims[n - 1])
  }

  // ---------- messages ----------

  const NO_ARGS := Object([])

  predicate IsToolCall(m: Value) { m.Object? && Get(m.members, "method") == Some(String("tools/call")) }

  function Field(v: Value, key: string): Option<Value> { if v.Object? then Get(v.members, key) else None }

  function ParamsOf(m: Value): Value {
    match Field(m, "params")
    case None => NO_ARGS
    case Some(Null) => NO_ARGS
    case Some(v) => v
  }

  function ToolOf(m: Value): string {
    match Field(ParamsOf(m), "name")
    case Some(String(s)) => s
    case _ => ""
  }

  function ArgsOf(m: Value): Value {
    match Field(ParamsOf(m), "arguments")
    case Some(Object(ms)) => Object(ms)
    case Some(Array(items)) => Array(items)
    case _ => NO_ARGS
  }

  lemma ArgsUnambiguous(m: Value)
    requires Unambiguous(m)
    ensures Unambiguous(ArgsOf(m))
  {
    hide Get;
    var params := ParamsOf(m);
    if Field(m, "params").Some? { MemberLaws.GetKeepsValue(m.members, "params"); }
    assert Unambiguous(NO_ARGS);
    if Field(params, "arguments").Some? { MemberLaws.GetKeepsValue(params.members, "arguments"); }
  }

  function DenyReply(id: Value, detail: string): Value {
    Object([Member("jsonrpc", String("2.0")),
            Member("id", id),
            Member("result", Object([Member("content", Array([Object([Member("type", String("text")),
              Member("text", String("Arky policy denied this tool call (" + detail + ")"))])])),
              Member("isError", Bool(true))]))])
  }

  /** One denial for each batched tool call that has an id. */
  function BatchReplies(items: seq<Value>): seq<Value> {
    if items == [] then []
    else (if IsToolCall(items[0]) && Field(items[0], "id").Some?
          then [DenyReply(Field(items[0], "id").value, "batched tools/call is not allowed")] else []) +
         BatchReplies(items[1..])
  }

  predicate SmugglesCall(items: seq<Value>) { exists i | 0 <= i < |items| :: IsToolCall(items[i]) }

  function BatchReaction(items: seq<Value>, raw: string): Reaction {
    if !SmugglesCall(items) then Forward(raw)
    else if BatchReplies(items) != [] then Reply(Array(BatchReplies(items)))
    else Silent
  }

  // ---------- deciding a call ----------

  /** The compiled rule registered for a tool: the last one of that name. */
  function CompiledFor(cs: seq<Compiled>, tool: string): (r: Option<Compiled>)
    ensures r.Some? <==> exists i | 0 <= i < |cs| :: cs[i].rule.tool == tool
    ensures r.Some? ==> r.value in cs && r.value.rule.tool == tool
  {
    if cs == [] then None
    else if cs[|cs| - 1].rule.tool == tool then
      assert exists i | 0 <= i < |cs| :: cs[i].rule.tool == tool;
      Some(cs[|cs| - 1])
    else
      var r := CompiledFor(cs[..|cs| - 1], tool);
      assert forall i | 0 <= i < |cs| - 1 :: cs[..|cs| - 1][i] == cs[i];
      r
  }

  lemma MatchedIsCompiled(s: Setup, tool: string)
    requires MatchRule(s.policy, tool).Some?
    ensures CompiledFor(CompileAll(s.crypto, s.policy, s.keys), MatchRule(s.policy, tool).value.tool).Some?
  {
    var rule := MatchRule(s.policy, tool).value;
    var i :| 0 <= i < |s.policy.rules| && s.policy.rules[i] == rule;
    assert CompileAll(s.crypto, s.policy, s.keys)[i].rule.tool == rule.tool;
  }

  const NO_RULE := Kernel.Decision(Kernel.REJECTED, [], [], ["policy.no_matching_rule"])

  /** The decision on a call and the cid of the commitment it was taken under. */
  function Judgement(s: Setup, tool: string, tims: seq<Value>, now: string): (Kernel.Decision, string) {
    var rule := MatchRule(s.policy, tool);
    if rule.None? || tool == "" then (NO_RULE, "")
    else
      MatchedIsCompiled(s, tool);
      var compiled := CompiledFor(CompileAll(s.crypto, s.policy, s.keys), rule.value.tool).value;
      (Records.DecideJson(s.rt, compiled.commitment, tims, now), compiled.cid)
  }

  function CidsOf(tims: seq<Value>): (r: seq<string>)
    ensures |r| == |tims| && forall i | 0 <= i < |r| :: r[i] == Str(tims[i], ["cid"])
  {
    seq(|tims|, i requires 0 <= i < |tims| => Str(tims[i], ["cid"]))
  }

  function FirstNotPassed(results: seq<Kernel.Assertion>): Option<string> {
    if results == [] then None
    else if results[0].result.PASS? then FirstNotPassed(results[1..])
    else Some(results[0].name)
  }

  function Detail(d: Kernel.Decision): string {
    Records.StatusText(d.status) + ": " +
    if d.errors != [] then d.errors[0] else FirstNotPassed(d.assertions).GetOr("assertion failed")
  }

  /** A tool call that is not batched. */
  function CallStep(s: Setup, st: State, m: Value, raw: string, now: string): (State, Reaction) {
    var tool, args, id, seqNo := ToolOf(m), ArgsOf(m), Field(m, "id"), SeqNo(st.next);
    match EvidenceTims(s.crypto, tool, args, s.keys, s.server, now)
    case None => (st.(next := st.next + 1), Throws)
    case Some(tims) =>
      var (d, commitmentCid) := Judgement(s, tool, tims, now);
      var st' := st.(next := st.next + 1, files := PutTims(st.files, seqNo, tims, |tims|));
      match SignArtifact(s.crypto, DecisionBody(d, commitmentCid, CidsOf(tims), s.keys.did, now), s.keys)
      case None => (st', Throws)
      case Some(artifact) =>
        var decided := st'.(files := Put(st'.files, FileName(seqNo, "decision"), artifact));
        if d.status != Kernel.APPROVED then
          (decided, if id.None? then Silent else Reply(DenyReply(id.value, Detail(d))))
        else if id.None? then (decided, Forward(raw))
        else
          var call := PendingCall(seqNo, tool, args, commitmentCid, Str(artifact, ["cid"]));
          (decided.(pending := decided.pending[s.rt.show(id.value) := call]), Forward(raw))
  }

  function ClientStep(s: Setup, st: State, raw: string, now: string): (State, Reaction) {
    match s.js.parse(raw)
    case None => (st, Forward(raw))
    case Some(Array(items)) => (st, BatchReaction(items, raw))
    case Some(Null) => (st, Throws)
    case Some(m) => if IsToolCall(m) then CallStep(s, st, m, raw, now) else (st, Forward(raw))
  }

  // ---------- responses ----------

  predicate Truthy(v: Value) {
    match v
    case Null => false
    case Bool(b) => b
    case Number(n) => n != D.ZERO
    case String(t) => t != ""
    case _ => true
  }

  /** The error code and message of a response, none for a success. */
  function FailureOf(s: Setup, m: Value): Option<(string, string)> {
    var rpcError := Field(m, "error");
    var toolError := Path(m, ["result", "isError"]) == Some(Bool(true));
    if rpcError.None? && !toolError then None
    else if rpcError.Some? && Truthy(rpcError.value) then
      var code := match Field(rpcError.value, "code")
        case None => "undefined"
        case Some(v) => s.rt.show(v);
      var message := match Field(rpcError.value, "message")
        case None => ""
        case Some(Null) => ""
        case Some(v) => s.rt.show(v);
      Some(("jsonrpc:" + code, message))
    else Some(("mcp:tool_error", "tool returned isError"))
  }

  function XrFor(s: Setup, call: PendingCall, m: Value, now: string): XrInput {
    XrInput("call-" + call.seqNo, call.tool, call.args, call.commitmentCid, call.decisionCid, "mcp:" + s.server,
            FailureOf(s, m), now)
  }

  predicate IsResponse(m: Value) {
    Field(m, "id").Some? && (Field(m, "result").Some? || Field(m, "error").Some?)
  }

  /** A response to a call that is pending under this id. */
  function ReceiptStep(s: Setup, st: State, id: string, m: Value, raw: string, now: string): (State, Reaction)
    requires id in st.pending
  {
    var call := st.pending[id];
    var st' := st.(pending := st.pending - {id});
    match BuildXr(s.crypto, XrFor(s, call, m, now), s.keys)
    case None => (st', Throws)
    case Some(xr) => (st'.(files := Put(st.files, FileName(call.seqNo, "xr"), xr)), Forward(raw))
  }

  function ServerStep(s: Setup, st: State, raw: string, now: string): (State, Reaction) {
    match s.js.parse(raw)
    case None => (st, Forward(raw))
    case Some(Null) => (st, Throws)
    case Some(m) =>
      if !IsResponse(m) then (st, Forward(raw))
      else
        var id := s.rt.show(Field(m, "id").value);
        if id !in st.pending then (st, Forward(raw)) else ReceiptStep(s, st, id, m, raw, now)
  }
}
