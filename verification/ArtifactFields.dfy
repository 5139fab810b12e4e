/** Reading signed artifacts back: their fields, and their authenticity. */
module ArtifactFields {
  import opened Outcomes
  import opened Json
  import opened Canonicalize
  import opened DidKey
  import opened Jws
  import opened Policy
  import opened Audit
  import opened ArtifactShapes
  import Kernel
  import Records
  import ReplayLaws
  import Settler
  import SettlerLaws
  import Tim

  /** Distinct names, none of them cid or sig. */
  predicate Plain(ms: seq<Member>) { DistinctKeys(ms) && !HasKey(ms, "cid") && !HasKey(ms, "sig") }

  function WithSeal(ms: seq<Member>, cid: string, sig: string): seq<Member> {
    ms + [Member("cid", String(cid)), Member("sig", String(sig))]
  }

  lemma SealDistinct(ms: seq<Member>, cid: string, sig: string)
    requires Plain(ms)
    ensures DistinctKeys(WithSeal(ms, cid, sig))
    ensures WithSeal(ms, cid, sig) == Tim.Signed(ms, cid, sig).members
  {
    var once := ms + [Member("cid", String(cid))];
    SetNew(ms, "cid", String(cid));
    assert !HasKey(once, "sig");
    SetNew(once, "sig", String(sig));
    assert once + [Member("sig", String(sig))] == WithSeal(ms, cid, sig);
  }

  /** A signed body has the body's fields, and the cid of its canonical text. */
  lemma SealedField(c: Crypto, body: Value, keys: KeyPair, i: nat, key: string)
    requires body.Object? && Fit(body) && Plain(body.members) && SignArtifact(c, body, keys).Some?
    requires i < |body.members| && body.members[i].key == key
    ensures Path(SignArtifact(c, body, keys).value, [key]) == Some(body.members[i].value)
  {
    hide CidOf, Seal, Fit, Path, HasKey;
    FitSigns(c, body, keys);
    var canonical := Canonical(body).value;
    var cid, sig := CidOf(c, canonical), Seal(c, HeaderTs(keys.did), canonical, keys.privateKey);
    SealDistinct(body.members, cid, sig);
    Records.Field(WithSeal(body.members, cid, sig), i, key);
  }

  lemma SealedCid(c: Crypto, body: Value, keys: KeyPair)
    requires body.Object? && Fit(body) && Plain(body.members)
    ensures SignArtifact(c, body, keys).Some? &&
            CidOfValue(c, body) == Some(Str(SignArtifact(c, body, keys).value, ["cid"]))
  {
    hide CidOf, Seal, Fit, Path, HasKey;
    FitSigns(c, body, keys);
    var canonical := Canonical(body).value;
    var cid, sig := CidOf(c, canonical), Seal(c, HeaderTs(keys.did), canonical, keys.privateKey);
    SealDistinct(body.members, cid, sig);
    Records.Field(WithSeal(body.members, cid, sig), |body.members|, "cid");
  }

  /** The keys' did is that of their public key. */
  predicate KeysMatch(c: Crypto, keys: KeyPair) { keys.did == FromPublic(c.publicOf(keys.privateKey)) }

  /** What the gate signs is authentic under its did. */
  lemma SealedAuthentic(c: Crypto, body: Value, keys: KeyPair)
    requires Lawful(c) && KeysMatch(c, keys)
    requires body.Object? && Fit(body) && Plain(body.members)
    ensures SignArtifact(c, body, keys).Some?
    ensures ReplayLaws.Authentic(c, SignArtifact(c, body, keys).value, keys.did)
  {
    hide CidOf, Seal, Path, HasKey, Verified, Resolve, FromPublic, Canonical, Get, SetMember, DeleteMember;
    FitSigns(c, body, keys);
    var canonical := Canonical(body).value;
    var cid, sig := CidOf(c, canonical), Seal(c, HeaderTs(keys.did), canonical, keys.privateKey);
    SealDistinct(body.members, cid, sig);
    SettlerLaws.SignedPlain(body, cid, sig);
    SealedCid(c, body, keys);
    ResolveFromPublic(c.publicOf(keys.privateKey));
    SignedVerifies(c, canonical, keys.privateKey, keys.did, true);
  }

  // ---------- decisions ----------

  lemma DecisionPlain(d: Kernel.Decision, commitmentCid: string, evidence: seq<string>, did: string, ts: string)
    ensures Plain(DecisionBody(d, commitmentCid, evidence, did, ts).members)
  {
    hide Records.AssertionsJson, Records.VerbsJson, Records.Strings, Records.StatusText, IdentityJson, TimeJson;
  }

  lemma {:induction false} TextsOfStrings(ss: seq<string>)
    ensures Records.Texts(Records.Strings(ss)) == ss
    decreases |ss|
  {
    if ss != [] {
      TextsOfStrings(ss[1..]);
      assert Records.Strings(ss)[1..] == Records.Strings(ss[1..]);
      assert [ss[0]] + ss[1..] == ss;
    }
  }

  /** A decision's fields, as a verifier reads them. */
  lemma DecisionReads(c: Crypto, d: Kernel.Decision, commitmentCid: string, evidence: seq<string>, keys: KeyPair,
                      ts: string)
    requires FitDecision(d)
    ensures var r := SignArtifact(c, DecisionBody(d, commitmentCid, evidence, keys.did, ts), keys);
      r.Some? &&
      Str(r.value, ["status"]) == Records.StatusText(d.status) &&
      Path(r.value, ["assertions"]) == Some(Array(Records.AssertionsJson(d.assertions))) &&
      Path(r.value, ["authorized"]) == Some(Array(Records.VerbsJson(d.authorized))) &&
      Str(r.value, ["commitment_cid"]) == commitmentCid &&
      Records.Texts(Records.Items(r.value, ["evidence"])) == evidence &&
      Str(r.value, ["identity", "id"]) == keys.did && Str(r.value, ["time", "ts"]) == ts
  {
    hide Records.AssertionsJson, Records.VerbsJson, Records.Strings, Records.StatusText, Records.Texts, Fit,
         FitDecision, Plain, SignArtifact, Path;
    var body := DecisionBody(d, commitmentCid, evidence, keys.did, ts);
    DecisionFit(d, commitmentCid, evidence, keys.did, ts);
    DecisionPlain(d, commitmentCid, evidence, keys.did, ts);
    SealedCid(c, body, keys);
    SealedField(c, body, keys, 1, "status");
    SealedField(c, body, keys, 2, "assertions");
    SealedField(c, body, keys, 3, "authorized");
    SealedField(c, body, keys, 5, "commitment_cid");
    SealedField(c, body, keys, 6, "evidence");
    TextsOfStrings(evidence);
    SealedField(c, body, keys, 7, "identity");
    SealedField(c, body, keys, 8, "time");
    InnerText(SignArtifact(c, body, keys).value, "identity", "id", keys.did);
    InnerText(SignArtifact(c, body, keys).value, "time", "ts", ts);
  }

  lemma IdentityIs(did: string)
    ensures IdentityJson(did) == Object([Member("id", String(did))])
  {
  }

  lemma TimeIs(ts: string)
    ensures TimeJson(ts) == Object([Member("ts", String(ts))])
  {
  }

  /** A text one level down. */
  lemma InnerText(v: Value, key: string, inner: string, s: string)
    requires Path(v, [key]) == Some(Object([Member(inner, String(s))]))
    ensures Str(v, [key, inner]) == s
  {
    hide Path, Get;
    var ms := [Member(inner, String(s))];
    PathVia(v, key, inner);
    Records.Field(ms, 0, inner);
  }

  lemma PathVia(v: Value, key: string, inner: string)
    requires Path(v, [key]).Some?
    ensures Path(v, [key, inner]) == Path(Path(v, [key]).value, [inner])
  {
    assert [key, inner][1..] == [inner] && [key][1..] == [];
  }

  // ---------- receipts ----------

  lemma XrPlain(x: XrInput, argsHash: string, key: string, did: string)
    ensures Plain(XrBody(x, argsHash, key, did).members)
  {
    hide IdentityJson, TimeJson, ErrorJson;
    XrDistinct(x, argsHash, key, did);
  }

  lemma XrReads(c: Crypto, x: XrInput, keys: KeyPair)
    requires BuildXr(c, x, keys).Some?
    ensures var xr := BuildXr(c, x, keys).value;
      Str(xr, ["decision_cid"]) == x.decisionCid && Str(xr, ["commitment_cid"]) == x.commitmentCid &&
      Settler.ArgsHash(c, x.args) == Some(Str(xr, ["args_hash"])) &&
      Str(xr, ["status"]) == (if x.failure.Some? then "failed" else "success") &&
      Str(xr, ["request_id"]) == x.requestId && Str(xr, ["rail"]) == x.rail && Str(xr, ["tool"]) == x.tool &&
      Str(xr, ["identity", "id"]) == keys.did && Str(xr, ["time", "ts"]) == x.ts
  {
    hide Fit, Plain, SignArtifact, Path, Settler.ArgsHash, Settler.DeriveKey, IdentityJson, TimeJson, ErrorJson;
    IdentityIs(keys.did);
    TimeIs(x.ts);
    var ah := Settler.ArgsHash(c, x.args).value;
    var key := Settler.DeriveKey(c, x.commitmentCid, CONTROL, x.rail, x.args, 0).value;
    var body := XrBody(x, ah, key, keys.did);
    XrFit(x, ah, key, keys.did);
    XrPlain(x, ah, key, keys.did);
    SealedField(c, body, keys, 1, "request_id");
    SealedField(c, body, keys, 2, "commitment_cid");
    SealedField(c, body, keys, 3, "decision_cid");
    SealedField(c, body, keys, 5, "rail");
    SealedField(c, body, keys, 6, "tool");
    SealedField(c, body, keys, 7, "args_hash");
    SealedField(c, body, keys, 9, "status");
    var at := if x.failure.Some? then 12 else 11;
    SealedField(c, body, keys, at, "identity");
    SealedField(c, body, keys, at + 1, "time");
    InnerText(SignArtifact(c, body, keys).value, "identity", "id", keys.did);
    InnerText(SignArtifact(c, body, keys).value, "time", "ts", x.ts);
  }

  lemma XrAuthentic(c: Crypto, x: XrInput, keys: KeyPair)
    requires Lawful(c) && KeysMatch(c, keys) && BuildXr(c, x, keys).Some?
    ensures ReplayLaws.Authentic(c, BuildXr(c, x, keys).value, keys.did)
  {
    hide Fit, Plain, SignArtifact, Settler.ArgsHash, Settler.DeriveKey, XrBody, ReplayLaws.Authentic, KeysMatch, Lawful;
    var ah := Settler.ArgsHash(c, x.args).value;
    var key := Settler.DeriveKey(c, x.commitmentCid, CONTROL, x.rail, x.args, 0).value;
    XrFit(x, ah, key, keys.did);
    XrPlain(x, ah, key, keys.did);
    XrIsObject(x, ah, key, keys.did);
    SealedAuthentic(c, XrBody(x, ah, key, keys.did), keys);
  }

  lemma XrIsObject(x: XrInput, argsHash: string, key: string, did: string)
    ensures XrBody(x, argsHash, key, did).Object?
  {
  }
}
