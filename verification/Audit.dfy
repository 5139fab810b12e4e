/** Audit artifacts of the gate: evidence, decisions, execution receipts, and the session record. */
module Audit {
  import opened Outcomes
  import opened Json
  import opened Jws
  import opened Policy
  import D = Decimals
  import Kernel
  import Records
  import Settler

  // ---------- arguments ----------

  function Indexed(items: seq<Value>): (r: seq<Member>)
    ensures |r| == |items| && forall i | 0 <= i < |r| :: r[i] == Member(D.Itoa(i), items[i])
  {
    seq(|items|, i requires 0 <= i < |items| => Member(D.Itoa(i), items[i]))
  }

  /** The top-level arguments by name; an array's are named by index. */
  function Arguments(args: Value): seq<Member> {
    match args
    case Object(ms) => ms
    case Array(items) => Indexed(items)
    case _ => []
  }

  lemma ArgumentsDistinct(args: Value)
    requires Unambiguous(args)
    ensures DistinctKeys(Arguments(args))
  {
    if args.Array? {
      var r := Indexed(args.items);
      forall i, j | 0 <= i < j < |r|
        ensures r[i].key != r[j].key
      {
        assert D.NatOf(D.Itoa(i)) == i && D.NatOf(D.Itoa(j)) == j;
      }
    }
  }

  predicate IsPrimitive(v: Value) { v.String? || v.Bool? || (v.Number? && !D.Overflows(v.num)) }

  /** How many of the first n arguments stand for a symbol. */
  function Count(all: seq<Member>, sym: string, n: nat): nat
    requires n <= |all|
  {
    if n == 0 then 0 else Count(all, sym, n - 1) + if Symbolize(all[n - 1].key) == sym then 1 else 0
  }

  /** A symbol that shadows a reserved one, or that several arguments stand for. */
  predicate Collides(all: seq<Member>, sym: string) { sym in RESERVED || Count(all, sym, |all|) > 1 }

  /** The argument becomes evidence: its symbol is its own, and its value primitive. */
  predicate Emitted(all: seq<Member>, i: nat)
    requires i < |all|
  {
    !Collides(all, Symbolize(all[i].key)) && IsPrimitive(all[i].value)
  }

  /** The arguments among the first n that become evidence, in order. */
  function EmittedOf(all: seq<Member>, n: nat): (r: seq<Member>)
    requires n <= |all|
    ensures |r| <= n
  {
    if n == 0 then [] else EmittedOf(all, n - 1) + if Emitted(all, n - 1) then [all[n - 1]] else []
  }

  // ---------- evidence ----------

  function TimBody(ts: string, did: string, measurement: Value): Value {
    Object([Member("time", Object([Member("ts", String(ts))])),
            Member("identity", Object([Member("id", String(did))])),
            Member("measurement", measurement)])
  }

  function MethodJson(kind: string, source: string): Value {
    Object([Member("type", String(kind)), Member("source", String(source))])
  }

  function Measurement(name: string, value: Value, kind: string, source: string): seq<Member> {
    [Member("name", String(name)), Member("value", value), Member("code", String(name)),
     Member("method", MethodJson(kind, source))]
  }

  /** The tool name, with the raw arguments as provenance. */
  function ToolBody(tool: string, args: Value, did: string, server: string, ts: string): Value {
    TimBody(ts, did, Object(Measurement("tool", String(tool), "mcp", server) +
                            [Member("provenance", Object([Member("arguments", args)]))]))
  }

  function ArgumentBody(m: Member, did: string, ts: string): Value {
    TimBody(ts, did, Object(Measurement(Symbolize(m.key), m.value, "mcp.arg", m.key)))
  }

  lemma ArgumentShape(m: Member, did: string, ts: string)
    requires IsPrimitive(m.value)
    ensures Unambiguous(ArgumentBody(m, did, ts)) && Finite(ArgumentBody(m, did, ts))
  {
    hide D.Overflows, Symbolize;
    MethodShape("mcp.arg", m.key);
    BodyShape(ts, did, Object(Measurement(Symbolize(m.key), m.value, "mcp.arg", m.key)));
  }

  lemma MethodShape(kind: string, source: string)
    ensures Unambiguous(MethodJson(kind, source)) && Finite(MethodJson(kind, source))
  {
  }

  lemma BodyShape(ts: string, did: string, measurement: Value)
    requires Unambiguous(measurement)
    ensures Unambiguous(TimBody(ts, did, measurement))
    ensures Finite(TimBody(ts, did, measurement)) <==> Finite(measurement)
  {
    var time, identity := Object([Member("ts", String(ts))]), Object([Member("id", String(did))]);
    assert Unambiguous(time) && Unambiguous(identity) && Finite(time) && Finite(identity);
    var body := TimBody(ts, did, measurement);
    assert body.members[2].value == measurement;
  }

  lemma ToolShape(tool: string, args: Value, did: string, server: string, ts: string)
    requires Unambiguous(args)
    ensures Unambiguous(ToolBody(tool, args, did, server, ts))
    ensures Finite(ToolBody(tool, args, did, server, ts)) <==> Finite(args)
  {
    var provenance := Object([Member("arguments", args)]);
    assert provenance.members[0].value == args;
    assert Unambiguous(provenance) && (Finite(provenance) <==> Finite(args));
    MethodShape("mcp", server);
    var ms := [Member("name", String("tool")), Member("value", String(tool)), Member("code", String("tool")),
               Member("method", MethodJson("mcp", server)), Member("provenance", provenance)];
    assert ms == Measurement("tool", String(tool), "mcp", server) + [Member("provenance", provenance)];
    assert ms[4].value == provenance;
    assert Unambiguous(Object(ms));
    assert Finite(Object(ms)) <==> Finite(args);
    BodyShape(ts, did, Object(ms));
  }

  /** The evidence of one argument. */
  function ArgumentTim(c: Crypto, m: Member, keys: KeyPair, ts: string): Value
    requires IsPrimitive(m.value)
  {
    ArgumentShape(m, keys.did, ts);
    SignArtifact(c, ArgumentBody(m, keys.did, ts), keys).value
  }

  function ArgumentTims(c: Crypto, all: seq<Member>, n: nat, keys: KeyPair, ts: string): (r: seq<Value>)
    requires n <= |all|
    ensures |r| == |EmittedOf(all, n)|
  {
    if n == 0 then []
    else ArgumentTims(c, all, n - 1, keys, ts) +
         if Emitted(all, n - 1) then [ArgumentTim(c, all[n - 1], keys, ts)] else []
  }

  /** The receipts the Kernel binds symbols from; none when the arguments have no canonical text. */
  function EvidenceTims(c: Crypto, tool: string, args: Value, keys: KeyPair, server: string, ts: string):
    Option<seq<Value>>
  {
    var first :- SignArtifact(c, ToolBody(tool, args, keys.did, server, ts), keys);
    var all := Arguments(args);
    Some([first] + ArgumentTims(c, all, |all|, keys, ts))
  }

  // ---------- the code that builds evidence ----------

  /** Indices of the first argument for each unreserved symbol, among the first n. */
  function Firsts(all: seq<Member>, n: nat): (r: seq<nat>)
    requires n <= |all|
    ensures forall k | 0 <= k < |r| :: r[k] < n
  {
    if n == 0 then []
    else
      var sym := Symbolize(all[n - 1].key);
      Firsts(all, n - 1) + if sym !in RESERVED && Count(all, sym, n - 1) == 0 then [n - 1] else []
  }

  lemma {:induction false} CountGrows(all: seq<Member>, sym: string, m: nat, n: nat)
    requires m <= n <= |all|
    ensures Count(all, sym, m) <= Count(all, sym, n)
    decreases n
  {
    hide Symbolize;
    if m < n { CountGrows(all, sym, m, n - 1); }
  }

  /** Emitting the first arguments of symbols that do not collide emits exactly the evidence. */
  function EmitFirsts(all: seq<Member>, firsts: seq<nat>): seq<Member>
    requires forall k | 0 <= k < |firsts| :: firsts[k] < |all|
  {
    if firsts == [] then []
    else
      var i := firsts[|firsts| - 1];
      EmitFirsts(all, firsts[..|firsts| - 1]) + if Emitted(all, i) then [all[i]] else []
  }

  lemma {:induction false} FirstsEmit(all: seq<Member>, n: nat)
    requires n <= |all|
    ensures EmitFirsts(all, Firsts(all, n)) == EmittedOf(all, n)
  {
    hide Symbolize, Emitted, EmitFirsts;
    if n > 0 {
      FirstsEmit(all, n - 1);
      var sym := Symbolize(all[n - 1].key);
      var before := Firsts(all, n - 1);
      if sym !in RESERVED && Count(all, sym, n - 1) == 0 {
        EmitSnoc(all, before, n - 1);
      } else {
        CountGrows(all, sym, n, |all|);
        NotFirst(all, n - 1);
        assert Firsts(all, n) == before + [] == before;
      }
    } else {
      EmitNone(all);
    }
  }

  lemma EmitNone(all: seq<Member>)
    ensures EmitFirsts(all, []) == []
  {
  }

  lemma EmitSnoc(all: seq<Member>, firsts: seq<nat>, i: nat)
    requires i < |all| && forall k | 0 <= k < |firsts| :: firsts[k] < |all|
    ensures EmitFirsts(all, firsts + [i]) == EmitFirsts(all, firsts) + if Emitted(all, i) then [all[i]] else []
  {
    hide Emitted;
    assert (firsts + [i])[..|firsts|] == firsts;
  }

  lemma NotFirst(all: seq<Member>, i: nat)
    requires i < |all| && (Symbolize(all[i].key) in RESERVED || Count(all, Symbolize(all[i].key), |all|) > 1)
    ensures !Emitted(all, i)
  {
  }

  /** Symbols in the order they were first met, with the argument each stands for. */
  class SymbolTable {
    var order: seq<string>
    var names: map<string, string>
    var collisions: set<string>

    constructor ()
      ensures order == [] && names == map[] && collisions == {}
    {
      order, names, collisions := [], map[], {};
    }

    /** Reserved symbols and symbols met before collide; others are bound to the argument. */
    method Note(name: string)
      modifies this
      ensures var sym := Symbolize(name);
        if sym in RESERVED || sym in old(names) then
          collisions == old(collisions) + {sym} && order == old(order) && names == old(names)
        else
          collisions == old(collisions) && order == old(order) + [sym] && names == old(names)[sym := name]
    {
      var sym := Symbolize(name);
      if sym in RESERVED || sym in names {
        collisions := collisions + {sym};
      } else {
        order, names := order + [sym], names[sym := name];
      }
    }
  }

  /** The symbols of the first n arguments, with the argument each stands for. */
  ghost predicate BoundTo(order: seq<string>, names: map<string, string>, all: seq<Member>, n: nat)
    requires n <= |all|
  {
    var firsts := Firsts(all, n);
    |order| == |firsts| &&
    (forall k | 0 <= k < |firsts| ::
       order[k] == Symbolize(all[firsts[k]].key) && order[k] in names && names[order[k]] == all[firsts[k]].key) &&
    forall sym :: sym in names <==> sym !in RESERVED && Count(all, sym, n) > 0
  }

  /** Reserved symbols that occur among the first n arguments, and others that occur twice. */
  ghost predicate CollisionsOf(collisions: set<string>, all: seq<Member>, n: nat)
    requires n <= |all|
  {
    forall sym :: sym in collisions <==> Count(all, sym, n) > (if sym in RESERVED then 0 else 1)
  }

  /** What the table holds after the first n arguments. */
  ghost predicate Noted(t: SymbolTable, all: seq<Member>, n: nat)
    requires n <= |all|
    reads t
  {
    BoundTo(t.order, t.names, all, n) && CollisionsOf(t.collisions, all, n)
  }

  lemma FirstsNext(all: seq<Member>, n: nat)
    requires n < |all|
    ensures var sym := Symbolize(all[n].key);
      Firsts(all, n + 1) == Firsts(all, n) + if sym !in RESERVED && Count(all, sym, n) == 0 then [n] else []
  {
  }

  lemma CountNext(all: seq<Member>, n: nat)
    requires n < |all|
    ensures forall sym :: Count(all, sym, n + 1) == Count(all, sym, n) + if Symbolize(all[n].key) == sym then 1 else 0
  {
  }

  lemma BoundNext(order: seq<string>, names: map<string, string>, all: seq<Member>, n: nat)
    requires n < |all| && BoundTo(order, names, all, n)
    ensures var sym := Symbolize(all[n].key);
      if sym in RESERVED || sym in names then BoundTo(order, names, all, n + 1)
      else BoundTo(order + [sym], names[sym := all[n].key], all, n + 1)
  {
    hide Symbolize, Firsts, Count;
    var sym := Symbolize(all[n].key);
    var firsts := Firsts(all, n);
    FirstsNext(all, n);
    CountNext(all, n);
    if sym !in RESERVED && sym !in names {
      var order', names' := order + [sym], names[sym := all[n].key];
      forall k | 0 <= k < |firsts|
        ensures order'[k] == Symbolize(all[firsts[k]].key) && order'[k] in names'
        ensures names'[order'[k]] == all[firsts[k]].key
      {
        assert order[k] in names;
      }
    }
  }

  lemma CollisionsNext(collisions: set<string>, names: map<string, string>, all: seq<Member>, n: nat)
    requires n < |all| && CollisionsOf(collisions, all, n)
    requires forall sym :: sym in names <==> sym !in RESERVED && Count(all, sym, n) > 0
    ensures var sym := Symbolize(all[n].key);
      CollisionsOf(if sym in RESERVED || sym in names then collisions + {sym} else collisions, all, n + 1)
  {
    hide Symbolize;
  }

  lemma NothingNoted(all: seq<Member>)
    ensures BoundTo([], map[], all, 0) && CollisionsOf({}, all, 0)
  {
  }

  lemma NamesAre(order: seq<string>, names: map<string, string>, all: seq<Member>, n: nat)
    requires n <= |all| && BoundTo(order, names, all, n)
    ensures forall sym :: sym in names <==> sym !in RESERVED && Count(all, sym, n) > 0
  {
    hide Symbolize;
  }

  method NoteAll(all: seq<Member>) returns (t: SymbolTable)
    ensures fresh(t) && Noted(t, all, |all|)
  {
    hide Symbolize, BoundTo, CollisionsOf;
    t := new SymbolTable();
    NothingNoted(all);
    for n := 0 to |all|
      invariant fresh(t) && Noted(t, all, n)
    {
      NamesAre(t.order, t.names, all, n);
      BoundNext(t.order, t.names, all, n);
      CollisionsNext(t.collisions, t.names, all, n);
      t.Note(all[n].key);
    }
  }

  lemma {:induction false} SnocFirst(all: seq<Member>, firsts: seq<nat>, k: nat)
    requires k < |firsts| && forall j | 0 <= j < |firsts| :: firsts[j] < |all|
    ensures EmitFirsts(all, firsts[..k + 1]) ==
            EmitFirsts(all, firsts[..k]) + if Emitted(all, firsts[k]) then [all[firsts[k]]] else []
  {
    hide Emitted;
    assert firsts[..k + 1][..k] == firsts[..k];
  }

  lemma {:induction false} CountsItself(all: seq<Member>, i: nat, n: nat)
    requires i < n <= |all|
    ensures Count(all, Symbolize(all[i].key), n) > 0
    decreases n
  {
    hide Symbolize;
    if i < n - 1 { CountsItself(all, i, n - 1); }
  }

  /** What the table says of its k-th symbol. */
  lemma TableEntry(t: SymbolTable, all: seq<Member>, k: nat)
    requires Noted(t, all, |all|) && DistinctKeys(all) && k < |t.order|
    ensures |t.order| == |Firsts(all, |all|)| && t.order[k] in t.names
    ensures var i := Firsts(all, |all|)[k];
      t.order[k] == Symbolize(all[i].key) && t.names[t.order[k]] == all[i].key &&
      Get(all, all[i].key) == Some(all[i].value)
  {
    hide Symbolize, Get;
    GetAt(all, Firsts(all, |all|)[k]);
  }

  lemma CollisionsExact(t: SymbolTable, all: seq<Member>, i: nat)
    requires Noted(t, all, |all|) && i < |all|
    ensures Symbolize(all[i].key) in t.collisions <==> Collides(all, Symbolize(all[i].key))
  {
    hide Symbolize;
    CountsItself(all, i, |all|);
  }

  /** The arguments that become evidence, found with the table. */
  method SelectArguments(args: Value) returns (chosen: seq<Member>, collisions: set<string>)
    requires Unambiguous(args)
    ensures chosen == EmittedOf(Arguments(args), |Arguments(args)|)
    ensures forall i | 0 <= i < |Arguments(args)| ::
              Symbolize(Arguments(args)[i].key) in collisions <==>
                  Collides(Arguments(args), Symbolize(Arguments(args)[i].key))
  {
    hide Symbolize, IsPrimitive, Get, Noted, Firsts, EmitFirsts, Arguments, Collides;
    var all := Arguments(args);
    ArgumentsDistinct(args);
    var t := NoteAll(all);
    ghost var firsts := Firsts(all, |all|);
    chosen, collisions := [], t.collisions;
    forall i | 0 <= i < |all| { CollisionsExact(t, all, i); }
    NoFirsts(all, firsts);
    TableLength(t, all);
    for k := 0 to |t.order|
      invariant Noted(t, all, |all|) && |t.order| == |firsts| && collisions == t.collisions
      invariant chosen == EmitFirsts(all, firsts[..k])
    {
      TableEntry(t, all, k);
      CollisionsExact(t, all, firsts[k]);
      var sym := t.order[k];
      SnocFirst(all, firsts, k);
      var value := Get(all, t.names[sym]).value;
      if sym !in t.collisions && IsPrimitive(value) {
        chosen := chosen + [Member(t.names[sym], value)];
      }
    }
    assert firsts[..|firsts|] == firsts;
    FirstsEmit(all, |all|);
  }

  lemma NoFirsts(all: seq<Member>, firsts: seq<nat>)
    requires forall k | 0 <= k < |firsts| :: firsts[k] < |all|
    ensures EmitFirsts(all, firsts[..0]) == []
  {
  }

  lemma TableLength(t: SymbolTable, all: seq<Member>)
    requires Noted(t, all, |all|)
    ensures |t.order| == |Firsts(all, |all|)|
  {
  }

  lemma {:induction false} ArgumentTimsAt(c: Crypto, all: seq<Member>, n: nat, keys: KeyPair, ts: string, k: nat)
    requires n <= |all| && k < |EmittedOf(all, n)|
    ensures IsPrimitive(EmittedOf(all, n)[k].value)
    ensures ArgumentTims(c, all, n, keys, ts)[k] == ArgumentTim(c, EmittedOf(all, n)[k], keys, ts)
    decreases n
  {
    hide ArgumentTim, Collides, IsPrimitive, Symbolize;
    var shorter, tims := EmittedOf(all, n - 1), ArgumentTims(c, all, n - 1, keys, ts);
    if k < |shorter| {
      ArgumentTimsAt(c, all, n - 1, keys, ts, k);
      assert EmittedOf(all, n)[k] == shorter[k] && ArgumentTims(c, all, n, keys, ts)[k] == tims[k];
    } else {
      assert Emitted(all, n - 1) && k == |shorter| == |tims|;
      assert EmittedOf(all, n)[k] == all[n - 1];
      assert ArgumentTims(c, all, n, keys, ts)[k] == ArgumentTim(c, all[n - 1], keys, ts);
    }
  }

  /** Evidence for a call: one receipt for the tool, then one for each chosen argument. */
  method BuildEvidence(c: Crypto, tool: string, args: Value, keys: KeyPair, server: string, ts: string)
    returns (tims: Option<seq<Value>>, collisions: set<string>)
    requires Unambiguous(args)
    ensures tims == EvidenceTims(c, tool, args, keys, server, ts)
    ensures tims.Some? ==> forall i | 0 <= i < |Arguments(args)| ::
              Symbolize(Arguments(args)[i].key) in collisions <==>
                  Collides(Arguments(args), Symbolize(Arguments(args)[i].key))
  {
    hide Symbolize, Arguments, Collides, SignArtifact, ArgumentTims, ArgumentTim, EmittedOf, IsPrimitive;
    var first := SignArtifact(c, ToolBody(tool, args, keys.did, server, ts), keys);
    if first.None? { return None, {}; }
    var chosen;
    chosen, collisions := SelectArguments(args);
    ghost var all := Arguments(args);
    ghost var rest := ArgumentTims(c, all, |all|, keys, ts);
    var built: seq<Value> := [first.value];
    for i := 0 to |chosen|
      invariant built == [first.value] + rest[..i]
    {
      ArgumentTimsAt(c, all, |all|, keys, ts, i);
      assert rest[..i + 1] == rest[..i] + [rest[i]];
      built := built + [ArgumentTim(c, chosen[i], keys, ts)];
    }
    assert rest[..|chosen|] == rest;
    tims := Some(built);
  }

  // ---------- decisions, receipts, session ----------

  function IdentityJson(did: string): Value { Object([Member("id", String(did))]) }

  function TimeJson(ts: string): Value { Object([Member("ts", String(ts))]) }

  function DecisionBody(d: Kernel.Decision, commitmentCid: string, evidence: seq<string>, did: string,
                        ts: string): Value
  {
    Object([Member("@type", String("ARKY:Decision@v1")),
            Member("status", String(Records.StatusText(d.status))),
            Member("assertions", Array(Records.AssertionsJson(d.assertions))),
            Member("authorized", Array(Records.VerbsJson(d.authorized))),
            Member("errors", Array(Records.Strings(d.errors))),
            Member("commitment_cid", String(commitmentCid)),
            Member("evidence", Array(Records.Strings(evidence))),
            Member("identity", IdentityJson(did)),
            Member("time", TimeJson(ts))])
  }

  datatype XrInput = XrInput(requestId: string, tool: string, args: Value, commitmentCid: string, decisionCid: string,
                             rail: string, failure: Option<(string, string)>, ts: string)

  function ErrorJson(failure: (string, string)): Value {
    Object([Member("code", String(failure.0)), Member("message", String(failure.1))])
  }

  /** The receipt's body, given the hash of the arguments and the derived idempotency key. */
  function XrBody(x: XrInput, argsHash: string, idempotencyKey: string, did: string): Value {
    Object([Member("@type", String("ARKY:ExecutionReceipt@v1")),
            Member("request_id", String(x.requestId)),
            Member("commitment_cid", String(x.commitmentCid)),
            Member("decision_cid", String(x.decisionCid)),
            Member("verb", String(CONTROL)),
            Member("rail", String(x.rail)),
            Member("tool", String(x.tool)),
            Member("args_hash", String(argsHash)),
            Member("idempotency_key", String(idempotencyKey)),
            Member("status", String(if x.failure.Some? then "failed" else "success")),
            Member("locator", String("mcp:" + x.tool + "#" + x.requestId))] +
           (if x.failure.Some? then [Member("error", ErrorJson(x.failure.value))] else []) +
           [Member("identity", IdentityJson(did)), Member("time", TimeJson(x.ts))])
  }

  /** A signed execution receipt; none when the arguments have no canonical text. */
  function BuildXr(c: Crypto, x: XrInput, keys: KeyPair): Option<Value> {
    var argsHash :- Settler.ArgsHash(c, x.args);
    var key :- Settler.DeriveKey(c, x.commitmentCid, CONTROL, x.rail, x.args, 0);
    SignArtifact(c, XrBody(x, argsHash, key, keys.did), keys)
  }

  function SessionBody(did: string, server: string, started: string, source: string, cids: seq<string>): Value {
    Object([Member("@type", String("ARKY:McpSession@v1")),
            Member("identity", IdentityJson(did)),
            Member("server", String(server)),
            Member("time", TimeJson(started)),
            Member("policy_source", String(source)),
            Member("commitments", Array(Records.Strings(cids)))])
  }
}
