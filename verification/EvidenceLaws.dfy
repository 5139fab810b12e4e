/**
 The gate's evidence verifies, and two receipts of one call share a cid only if their texts collide.

 Each receipt of a call is a measurement of the tool's name or of one argument, signed by the gate.
 Its body is complete, so it passes verification under the gate's own did.  Different receipts carry
 different symbols, since an argument whose symbol is shared or reserved is not recorded; two bodies
 with one canonical text would have to carry the same symbol.
 */
module EvidenceLaws {
  import opened Outcomes
  import opened Json
  import opened Canonicalize
  import opened DidKey
  import opened Jws
  import opened Policy
  import opened Audit
  import opened ArtifactShapes
  import opened ArtifactFields
  import opened Replay
  import Compliance
  import MemberLaws
  import Records
  import Tim
  import TimLaws

  // ---------- evidence verifies ----------

  lemma ResolverFindsIssuer()
    ensures TimLaws.ResolvesIdentity(ReplayResolver)
  {
    hide Resolve;
    assert !(PREFIX <= "");
  }

  /** Sealing a plain body is signing its base. */
  lemma SealedIsSigned(c: Crypto, body: Value, keys: KeyPair)
    requires body.Object? && Fit(body) && Plain(body.members)
    ensures SignArtifact(c, body, keys).Some? && Canonical(body).Some?
    ensures Tim.BaseOf(body) == body.members
    ensures SignArtifact(c, body, keys).value ==
            Tim.Signed(body.members, CidOf(c, Canonical(body).value),
                       Seal(c, HeaderTs(keys.did), Canonical(body).value, keys.privateKey))
  {
    hide CidOf, Seal, Canonical, Get, DeleteMember, SetMember;
    FitSigns(c, body, keys);
    var canonical := Canonical(body).value;
    SealDistinct(body.members, CidOf(c, canonical), Seal(c, HeaderTs(keys.did), canonical, keys.privateKey));
    MemberLaws.DeleteAbsent(body.members, "cid");
    MemberLaws.DeleteAbsent(body.members, "sig");
  }

  lemma BodyVerifies(c: Crypto, body: Value, keys: KeyPair)
    requires Lawful(c) && KeysMatch(c, keys)
    requires body.Object? && Fit(body) && Plain(body.members) && TimLaws.Complete(body, keys.did)
    ensures SignArtifact(c, body, keys).Some? && CheckTim(c, SignArtifact(c, body, keys).value).valid
  {
    hide CidOf, Seal, Canonical, SignArtifact, TimLaws.Complete, FromPublic, Tim.Verify, Plain, Lawful, Tim.BaseOf;
    SealedIsSigned(c, body, keys);
    ResolverFindsIssuer();
    TimLaws.SealedVerifies(c, body, keys.privateKey, keys.did, true, ReplayResolver, NoParse, "");
    assert !Tim.Expired(NoParse, SignArtifact(c, body, keys).value, "");
  }

  lemma BodyComplete(ts: string, did: string, name: string, value: Value, kind: string, source: string,
                     more: seq<Member>)
    requires DistinctKeys(Measurement(name, value, kind, source) + more)
    ensures var body := TimBody(ts, did, Object(Measurement(name, value, kind, source) + more));
      TimLaws.Complete(body, did) && Plain(body.members) && Str(body, ["measurement", "code"]) == name
  {
    hide Path, Get;
    var inner := Measurement(name, value, kind, source) + more;
    var time, identity := [Member("ts", String(ts))], [Member("id", String(did))];
    var ms := TimBody(ts, did, Object(inner)).members;
    assert ms ==
        [Member("time", Object(time)), Member("identity", Object(identity)), Member("measurement", Object(inner))];
    Compliance.TimeFields(ms, time, ts);
    Records.FieldTwo(ms, 0, "time", "ts");
    Records.FieldTwo(ms, 0, "time", "witnesses");
    Records.Field(time, 0, "ts");
    Records.Absent(time, "witnesses");
    Records.FieldTwo(ms, 1, "identity", "id");
    Records.Field(identity, 0, "id");
    Records.FieldTwo(ms, 2, "measurement", "name");
    Records.FieldTwo(ms, 2, "measurement", "value");
    Records.FieldTwo(ms, 2, "measurement", "method");
    Records.FieldTwo(ms, 2, "measurement", "code");
    Records.Field(inner, 0, "name");
    Records.Field(inner, 1, "value");
    Records.Field(inner, 2, "code");
    Records.Field(inner, 3, "method");
  }

  lemma ToolBodyFacts(tool: string, args: Value, did: string, server: string, ts: string)
    requires Fit(args)
    ensures var body := ToolBody(tool, args, did, server, ts);
      Fit(body) && body.Object? && Plain(body.members) && TimLaws.Complete(body, did) &&
      Str(body, ["measurement", "code"]) == "tool"
  {
    hide TimLaws.Complete, Unambiguous, Finite, Path, Plain;
    ToolShape(tool, args, did, server, ts);
    BodyComplete(ts, did, "tool", String(tool), "mcp", server,
        [Member("provenance", Object([Member("arguments", args)]))]);
  }

  lemma ArgumentBodyFacts(m: Member, did: string, ts: string)
    requires Audit.IsPrimitive(m.value)
    ensures var body := ArgumentBody(m, did, ts);
      Fit(body) && body.Object? && Plain(body.members) && TimLaws.Complete(body, did) &&
      Str(body, ["measurement", "code"]) == Symbolize(m.key)
  {
    hide TimLaws.Complete, Unambiguous, Finite, Path, Plain, Symbolize, Audit.IsPrimitive;
    ArgumentShape(m, did, ts);
    var inner := Measurement(Symbolize(m.key), m.value, "mcp.arg", m.key);
    assert inner + [] == inner;
    BodyComplete(ts, did, Symbolize(m.key), m.value, "mcp.arg", m.key, []);
  }

  // ---------- the k-th receipt of a call ----------

  /** The body and the symbol of the k-th receipt. */
  function BodyAt(tool: string, args: Value, did: string, server: string, ts: string, k: nat): (Value, string)
    requires k <= |EmittedOf(Arguments(args), |Arguments(args)|)|
  {
    var emitted := EmittedOf(Arguments(args), |Arguments(args)|);
    if k == 0 then (ToolBody(tool, args, did, server, ts), "tool")
    else (ArgumentBody(emitted[k - 1], did, ts), Symbolize(emitted[k - 1].key))
  }

  /** The canonical text the k-th receipt is identified and signed by. */
  function EvidenceText(tool: string, args: Value, did: string, server: string, ts: string, k: nat): string {
    if k > |EmittedOf(Arguments(args), |Arguments(args)|)| then ""
    else Canonical(BodyAt(tool, args, did, server, ts, k).0).GetOr("")
  }

  lemma EvidenceAt(c: Crypto, tool: string, args: Value, keys: KeyPair, server: string, ts: string, k: nat)
    requires Fit(args) && EvidenceTims(c, tool, args, keys, server, ts).Some?
    requires k < |EvidenceTims(c, tool, args, keys, server, ts).value|
    ensures k <= |EmittedOf(Arguments(args), |Arguments(args)|)|
    ensures var (body, code) := BodyAt(tool, args, keys.did, server, ts, k);
      Fit(body) && body.Object? && Plain(body.members) && TimLaws.Complete(body, keys.did) &&
      Str(body, ["measurement", "code"]) == code &&
      SignArtifact(c, body, keys) == Some(EvidenceTims(c, tool, args, keys, server, ts).value[k])
  {
    hide TimLaws.Complete, Fit, Path, Plain, Symbolize, SignArtifact, EmittedOf, ArgumentTims, Arguments, ToolBody,
         Audit.IsPrimitive;
    var all := Arguments(args);
    if k == 0 {
      ToolBodyFacts(tool, args, keys.did, server, ts);
    } else {
      ArgumentTimsAt(c, all, |all|, keys, ts, k - 1);
      var m := EmittedOf(all, |all|)[k - 1];
      ArgumentBodyFacts(m, keys.did, ts);
      ArgumentSigns(c, m, keys, ts);
    }
  }

  lemma ArgumentSigns(c: Crypto, m: Member, keys: KeyPair, ts: string)
    requires Audit.IsPrimitive(m.value)
    ensures SignArtifact(c, ArgumentBody(m, keys.did, ts), keys) == Some(ArgumentTim(c, m, keys, ts))
  {
    hide CidOf, Seal, Canonical, Plain;
    ArgumentBodyFacts(m, keys.did, ts);
    FitSigns(c, ArgumentBody(m, keys.did, ts), keys);
  }

  lemma EvidenceVerifies(c: Crypto, tool: string, args: Value, keys: KeyPair, server: string, ts: string, k: nat)
    requires Lawful(c) && KeysMatch(c, keys) && Fit(args)
    requires EvidenceTims(c, tool, args, keys, server, ts).Some?
    requires k < |EvidenceTims(c, tool, args, keys, server, ts).value|
    ensures CheckTim(c, EvidenceTims(c, tool, args, keys, server, ts).value[k]).valid
  {
    hide TimLaws.Complete, Fit, Plain, SignArtifact, EvidenceTims, BodyAt, CheckTim, Lawful, KeysMatch, Arguments,
         EmittedOf;
    EvidenceAt(c, tool, args, keys, server, ts, k);
    BodyVerifies(c, BodyAt(tool, args, keys.did, server, ts, k).0, keys);
  }

  // ---------- symbols of different receipts differ ----------

  lemma {:induction false} EmittedIncreasing(all: seq<Member>, n: nat, j: nat, k: nat) returns (a: nat, b: nat)
    requires n <= |all| && j < k < |EmittedOf(all, n)|
    ensures a < b < n && Emitted(all, a) && Emitted(all, b)
    ensures EmittedOf(all, n)[j] == all[a] && EmittedOf(all, n)[k] == all[b]
    decreases n
  {
    hide Emitted;
    if k < |EmittedOf(all, n - 1)| {
      a, b := EmittedIncreasing(all, n - 1, j, k);
    } else {
      a := Compliance.EmittedAt(all, n - 1, j);
      b := n - 1;
    }
  }

  lemma SymbolsDiffer(args: Value, tool: string, did: string, server: string, ts: string, j: nat, k: nat)
    requires j < k <= |EmittedOf(Arguments(args), |Arguments(args)|)|
    ensures BodyAt(tool, args, did, server, ts, j).1 != BodyAt(tool, args, did, server, ts, k).1
  {
    hide Symbolize, Audit.IsPrimitive, EmittedOf, Arguments, Emitted, ToolBody, ArgumentBody;
    var all := Arguments(args);
    if j == 0 {
      var b := Compliance.EmittedAt(all, |all|, k - 1);
      Compliance.EmittedIffSole(all, b);
    } else {
      var a, b := EmittedIncreasing(all, |all|, j - 1, k - 1);
      Compliance.EmittedIffSole(all, a);
      Compliance.EmittedIffSole(all, b);
    }
  }

  // ---------- same document, same text at a path ----------

  lemma SameGet(a: seq<Member>, b: seq<Member>, key: string)
    requires Same(Object(a), Object(b)) && DistinctKeys(a) && Get(a, key).Some?
    ensures Get(b, key).Some? && Same(Get(a, key).value, Get(b, key).value)
  {
    var i :| 0 <= i < |a| && a[i] == Member(key, Get(a, key).value);
  }

  /** A text found in one of two same documents is found in the other. */
  lemma {:induction false} SameText(v: Value, w: Value, path: seq<string>, s: string)
    requires Unambiguous(v) && Same(v, w) && Path(v, path) == Some(String(s))
    ensures Path(w, path) == Some(String(s))
    decreases |path|
  {
    if path != [] {
      hide Get;
      SameGet(v.members, w.members, path[0]);
      MemberLaws.GetKeepsValue(v.members, path[0]);
      SameText(Get(v.members, path[0]).value, Get(w.members, path[0]).value, path[1..], s);
    }
  }

  lemma CodeIsText(ts: string, did: string, name: string, value: Value, kind: string, source: string, more: seq<Member>)
    requires DistinctKeys(Measurement(name, value, kind, source) + more)
    ensures Path(TimBody(ts, did, Object(Measurement(name, value, kind, source) + more)), ["measurement", "code"]) ==
            Some(String(name))
  {
    hide Path;
    var inner := Measurement(name, value, kind, source) + more;
    var ms := TimBody(ts, did, Object(inner)).members;
    Records.FieldTwo(ms, 2, "measurement", "code");
    Records.Field(inner, 2, "code");
  }

  lemma BodyCode(tool: string, args: Value, did: string, server: string, ts: string, k: nat)
    requires k <= |EmittedOf(Arguments(args), |Arguments(args)|)|
    ensures Path(BodyAt(tool, args, did, server, ts, k).0, ["measurement", "code"]) ==
            Some(String(BodyAt(tool, args, did, server, ts, k).1))
  {
    hide Path, Symbolize, EmittedOf, Arguments;
    if k == 0 {
      CodeIsText(ts, did, "tool", String(tool), "mcp", server,
          [Member("provenance", Object([Member("arguments", args)]))]);
    } else {
      var m := EmittedOf(Arguments(args), |Arguments(args)|)[k - 1];
      var inner := Measurement(Symbolize(m.key), m.value, "mcp.arg", m.key);
      assert inner + [] == inner;
      CodeIsText(ts, did, Symbolize(m.key), m.value, "mcp.arg", m.key, []);
    }
  }

  /** Two receipts of a call have one cid only if their own two texts have one hash. */
  lemma SharedCidCollides(c: Crypto, tool: string, args: Value, keys: KeyPair, server: string, ts: string, j: nat,
                          k: nat)
    requires Fit(args) && EvidenceTims(c, tool, args, keys, server, ts).Some?
    requires j < k < |EvidenceTims(c, tool, args, keys, server, ts).value|
    requires Str(EvidenceTims(c, tool, args, keys, server, ts).value[j], ["cid"]) ==
             Str(EvidenceTims(c, tool, args, keys, server, ts).value[k], ["cid"])
    ensures Collision(c, EvidenceText(tool, args, keys.did, server, ts, j),
            EvidenceText(tool, args, keys.did, server, ts, k))
  {
    hide TimLaws.Complete, Plain, SignArtifact, EvidenceTims, BodyAt, Canonical, CidOf, Same, Path, Collision,
         Arguments, EmittedOf;
    EvidenceAt(c, tool, args, keys, server, ts, j);
    EvidenceAt(c, tool, args, keys, server, ts, k);
    var a, b := BodyAt(tool, args, keys.did, server, ts, j), BodyAt(tool, args, keys.did, server, ts, k);
    SealedCid(c, a.0, keys);
    SealedCid(c, b.0, keys);
    SameCidSameValue(c, a.0, b.0);
    if Same(a.0, b.0) {
      BodyCode(tool, args, keys.did, server, ts, j);
      BodyCode(tool, args, keys.did, server, ts, k);
      SameText(a.0, b.0, ["measurement", "code"], a.1);
      SymbolsDiffer(args, tool, keys.did, server, ts, j, k);
      assert false;
    }
  }
}
