/** The gate as it runs: an object with a pending map, and a writer that owns the sequence and the files. */
module GateEngine {
  import opened Outcomes
  import opened Json
  import opened Policy
  import opened Audit
  import opened Gate
  import Kernel
  import Records

  class BundleWriter {
    var seqNo: nat
    var files: seq<File>

    constructor ()
      ensures seqNo == 0 && files == []
    {
      seqNo, files := 0, [];
    }

    method NextSeq() returns (r: string)
      modifies this
      ensures r == SeqNo(old(seqNo)) && seqNo == old(seqNo) + 1 && files == old(files)
    {
      r := SeqNo(seqNo);
      seqNo := seqNo + 1;
    }

    method WriteCall(seqText: string, kind: string, artifact: Value)
      modifies this
      ensures files == Put(old(files), FileName(seqText, kind), artifact) && seqNo == old(seqNo)
    {
      files := Put(files, FileName(seqText, kind), artifact);
    }

    method WriteTims(seqText: string, tims: seq<Value>)
      modifies this
      ensures files == PutTims(old(files), seqText, tims, |tims|) && seqNo == old(seqNo)
    {
      hide Put, FileName, TimKind;
      for i := 0 to |tims|
        invariant files == PutTims(old(files), seqText, tims, i) && seqNo == old(seqNo)
      {
        WriteCall(seqText, TimKind(i), tims[i]);
      }
    }
  }

  /** The table holds, for each tool, the last compiled rule of that name. */
  ghost predicate Indexes(byTool: map<string, Compiled>, cs: seq<Compiled>) {
    forall tool :: CompiledFor(cs, tool) == if tool in byTool then Some(byTool[tool]) else None
  }

  lemma IndexNext(byTool: map<string, Compiled>, cs: seq<Compiled>, i: nat)
    requires i < |cs| && Indexes(byTool, cs[..i])
    ensures Indexes(byTool[cs[i].rule.tool := cs[i]], cs[..i + 1])
  {
    assert cs[..i + 1][..i] == cs[..i];
  }

  class Engine {
    const setup: Setup
    const writer: BundleWriter
    var pending: map<string, PendingCall>
    var byTool: map<string, Compiled>

    ghost predicate Valid()
      reads this
    {
      Indexes(byTool, CompileAll(setup.crypto, setup.policy, setup.keys))
    }

    function Current(): State
      reads this, writer
    {
      State(writer.seqNo, pending, writer.files)
    }

    constructor (s: Setup)
      ensures Valid() && setup == s && fresh(writer) && Current() == State(0, map[], [])
    {
      hide CompiledFor;
      setup := s;
      writer := new BundleWriter();
      pending := map[];
      byTool := map[];
      new;
      var compiled := CompileAll(s.crypto, s.policy, s.keys);
      NothingIndexed(compiled);
      for i := 0 to |compiled|
        invariant setup == s && fresh(writer) && writer.seqNo == 0 && writer.files == [] && pending == map[]
        invariant Indexes(byTool, compiled[..i])
      {
        IndexNext(byTool, compiled, i);
        byTool := byTool[compiled[i].rule.tool := compiled[i]];
      }
      assert compiled[..|compiled|] == compiled;
    }

    /** JSON.parse never yields an object with a repeated name. */
    method HandleClientMessage(raw: string, now: string) returns (r: Reaction)
      requires Valid() && (setup.js.parse(raw).Some? ==> Unambiguous(setup.js.parse(raw).value))
      modifies this, writer
      ensures Valid() && (Current(), r) == ClientStep(setup, old(Current()), raw, now)
    {
      hide BatchReaction, CallStep, IsToolCall;
      var msg := setup.js.parse(raw);
      if msg.None? { return Forward(raw); }
      if msg.value.Array? {
        r := HandleBatch(msg.value.items, raw);
        return;
      }
      if msg.value.Null? { return Throws; }
      if !IsToolCall(msg.value) { return Forward(raw); }
      r := HandleCall(msg.value, raw, now);
    }

    method HandleCall(m: Value, raw: string, now: string) returns (r: Reaction)
      requires Valid() && Unambiguous(m)
      modifies this, writer
      ensures Valid() && (Current(), r) == CallStep(setup, old(Current()), m, raw, now)
    {
      hide Gate.ToolOf, ArgsOf, EvidenceTims, PutTims, SignArtifact, Put, Detail, DenyReply, CidsOf, Judgement;
      var tool, args, id := Gate.ToolOf(m), ArgsOf(m), Field(m, "id");
      var seqText := writer.NextSeq();
      ArgsUnambiguous(m);
      var tims, collisions := BuildEvidence(setup.crypto, tool, args, setup.keys, setup.server, now);
      if tims.None? { return Throws; }
      writer.WriteTims(seqText, tims.value);
      var d, commitmentCid := Evaluate(tool, tims.value, now);
      var artifact := SignArtifact(setup.crypto,
        DecisionBody(d, commitmentCid, CidsOf(tims.value), setup.keys.did, now), setup.keys);
      if artifact.None? { return Throws; }
      writer.WriteCall(seqText, "decision", artifact.value);
      if d.status != Kernel.APPROVED {
        return if id.None? then Silent else Reply(DenyReply(id.value, Detail(d)));
      }
      if id.Some? {
        pending := pending[setup.rt.show(id.value) :=
                           PendingCall(seqText, tool, args, commitmentCid, Str(artifact.value, ["cid"]))];
      }
      r := Forward(raw);
    }

    /** The Kernel's decision under the matching rule, or the fixed rejection. */
    method Evaluate(tool: string, tims: seq<Value>, now: string) returns (d: Kernel.Decision, commitmentCid: string)
      requires Valid()
      ensures (d, commitmentCid) == Judgement(setup, tool, tims, now)
    {
      hide MatchRule, CompileAll, CompiledFor, Records.ReadCommitment, Kernel.Decide;
      var rule := MatchRule(setup.policy, tool);
      if rule.None? || tool == "" { return NO_RULE, ""; }
      MatchedIsCompiled(setup, tool);
      Registered(byTool, CompileAll(setup.crypto, setup.policy, setup.keys), rule.value.tool);
      var compiled := byTool[rule.value.tool];
      var c := Records.ReadCommitment(compiled.commitment);
      if c.None? {
        d := Kernel.Decision(Kernel.REJECTED, [], [], ["kernel.invalid_commitment"]);
      } else {
        d := Kernel.EvaluateKernel(setup.rt, c.value, Records.ReadTims(tims), now);
      }
      commitmentCid := compiled.cid;
    }

    method HandleServerMessage(raw: string, now: string) returns (r: Reaction)
      requires Valid()
      modifies this, writer
      ensures Valid() && (Current(), r) == ServerStep(setup, old(Current()), raw, now)
    {
      hide IsResponse, BuildXr, XrFor, Put;
      var msg := setup.js.parse(raw);
      if msg.None? { return Forward(raw); }
      if msg.value.Null? { return Throws; }
      var m := msg.value;
      if !IsResponse(m) { return Forward(raw); }
      ResponseHasId(m);
      var id := setup.rt.show(Field(m, "id").value);
      if id !in pending { return Forward(raw); }
      var call := pending[id];
      pending := pending - {id};
      var xr := BuildXr(setup.crypto, XrFor(setup, call, m, now), setup.keys);
      if xr.None? { return Throws; }
      writer.WriteCall(call.seqNo, "xr", xr.value);
      r := Forward(raw);
    }
  }

  lemma NothingIndexed(cs: seq<Compiled>)
    ensures Indexes(map[], cs[..0])
  {
  }

  lemma Registered(byTool: map<string, Compiled>, cs: seq<Compiled>, tool: string)
    requires Indexes(byTool, cs) && CompiledFor(cs, tool).Some?
    ensures tool in byTool && CompiledFor(cs, tool) == Some(byTool[tool])
  {
  }

  lemma ResponseHasId(m: Value)
    requires IsResponse(m)
    ensures Field(m, "id").Some?
  {
  }

  method HandleBatch(items: seq<Value>, raw: string) returns (r: Reaction)
    ensures r == BatchReaction(items, raw)
  {
    hide IsToolCall, DenyReply, Field;
    var any := false;
    var replies: seq<Value> := [];
    assert items[0..] == items;
    for i := 0 to |items|
      invariant any <==> exists j | 0 <= j < i :: IsToolCall(items[j])
      invariant replies + BatchReplies(items[i..]) == BatchReplies(items)
    {
      assert items[i..][1..] == items[i + 1..];
      ghost var rest := BatchReplies(items[i + 1..]);
      if IsToolCall(items[i]) {
        any := true;
        var id := Field(items[i], "id");
        if id.Some? {
          var denial := DenyReply(id.value, "batched tools/call is not allowed");
          assert replies + ([denial] + rest) == replies + [denial] + rest;
          replies := replies + [denial];
        } else {
          assert [] + rest == rest;
        }
      } else {
        assert [] + rest == rest;
      }
    }
    assert items[|items|..] == [] && replies + [] == replies;
    assert any == SmugglesCall(items);
    if !any { return Forward(raw); }
    r := if |replies| > 0 then Reply(Array(replies)) else Silent;
  }
}
