/** Signed measurements: the canonical body, creation, and verification. */
module Tim {
  import opened Outcomes
  import opened Json
  import opened Canonicalize
  import opened DidKey
  import opened JsonParser
  import opened Jws
  import D = Decimals
  import MemberLaws

  // ---------- the canonical body ----------

  /** The body's members once its time is rid of witnesses, and dropped if that empties it. */
  function WithoutWitnesses(base: seq<Member>): seq<Member> {
    match Get(base, "time")
    case Some(Object(time)) =>
      var rest := DeleteMember(time, "witnesses");
      if rest == [] then DeleteMember(base, "time") else SetMember(base, "time", Object(rest))
    case _ => base
  }

  function Unsigned(ms: seq<Member>): seq<Member> { DeleteMember(DeleteMember(ms, "cid"), "sig") }

  /** The TIM without cid, sig and time.witnesses. */
  function BodyOf(tim: Value): Value {
    match tim
    case Object(ms) => Object(WithoutWitnesses(Unsigned(ms)))
    case _ => tim
  }

  /** A table holding the members of an object. */
  method Clone(ms: seq<Member>) returns (t: MemberTable)
    requires DistinctKeys(ms)
    ensures fresh(t) && t.Valid() && t.Members() == ms
  {
    t := new MemberTable();
    for i := 0 to |ms|
      invariant fresh(t) && t.Valid() && t.Members() == ms[..i]
    {
      assert !HasKey(ms[..i], ms[i].key);
      SetNew(ms[..i], ms[i].key, ms[i].value);
      assert ms[..i + 1] == ms[..i] + [Member(ms[i].key, ms[i].value)];
      t.Set(ms[i].key, ms[i].value);
    }
    assert ms[..|ms|] == ms;
  }

  method CanonicalBody(tim: Value) returns (r: Value)
    requires Unambiguous(tim)
    ensures r == BodyOf(tim)
  {
    hide Get, SetMember, DeleteMember;
    if !tim.Object? { return tim; }
    var out := Clone(tim.members);
    out.Delete("cid");
    out.Delete("sig");
    assert out.Members() == Unsigned(tim.members);
    var time := Lookup(out, "time");
    if time.Some? && time.value.Object? {
      TimeDistinct(tim.members);
      var tobj := Clone(time.value.members);
      tobj.Delete("witnesses");
      if |tobj.Members()| == 0 {
        out.Delete("time");
      } else {
        out.Set("time", Object(tobj.Members()));
      }
    }
    r := Object(out.Members());
  }

  method Lookup(t: MemberTable, k: string) returns (r: Option<Value>)
    requires t.Valid()
    ensures r == Get(t.Members(), k)
  {
    r := if k in t.vals then Some(t.vals[k]) else None;
    MembersOfKeys(t.keys, t.vals, k);
    if k in t.vals {
      var i :| 0 <= i < |t.keys| && t.keys[i] == k;
      GetAt(t.Members(), i);
    }
  }

  lemma TimeDistinct(ms: seq<Member>)
    requires Unambiguous(Object(ms)) && Get(Unsigned(ms), "time").Some? && Get(Unsigned(ms), "time").value.Object?
    ensures DistinctKeys(Get(Unsigned(ms), "time").value.members)
  {
    hide Get, DeleteMember;
    MemberLaws.GetDelete(ms, "cid", "time");
    MemberLaws.GetDelete(DeleteMember(ms, "cid"), "sig", "time");
    MemberLaws.GetKeepsValue(ms, "time");
  }

  // ---------- creation ----------

  function Signed(base: seq<Member>, cid: string, sig: string): Value {
    Object(SetMember(SetMember(base, "cid", String(cid)), "sig", String(sig)))
  }

  function BaseOf(body: Value): seq<Member> { Unsigned(if body.Object? then body.members else []) }

  /** The signed TIM of a body, none when the body has no canonical text. */
  function Create(c: Crypto, body: Value, key: Key, kid: string): Option<Value> {
    var canonical :- Canonical(Object(BaseOf(body)));
    Some(Signed(BaseOf(body), CidOf(c, canonical), SignDetached(c, canonical, key, kid)))
  }

  method CreateTim(c: Crypto, body: Value, key: Key, kid: string) returns (r: Option<Value>)
    requires Unambiguous(body)
    ensures r == Create(c, body, key, kid)
  {
    var base := Clone(if body.Object? then body.members else []);
    base.Delete("cid");
    base.Delete("sig");
    BaseUnambiguous(body);
    var canonical := CanonicalizeValue(Object(base.Members()));
    if canonical.None? { return None; }
    var out := Clone(base.Members());
    out.Set("cid", String(CidOf(c, canonical.value)));
    out.Set("sig", String(SignDetached(c, canonical.value, key, kid)));
    r := Some(Object(out.Members()));
  }

  lemma BaseUnambiguous(body: Value)
    requires Unambiguous(body)
    ensures Unambiguous(Object(BaseOf(body)))
    ensures Finite(body) ==> Finite(Object(BaseOf(body)))
  {
    var ms := if body.Object? then body.members else [];
    MemberLaws.DeleteKeepsValue(ms, "cid");
    MemberLaws.DeleteKeepsValue(DeleteMember(ms, "cid"), "sig");
  }

  // ---------- verification ----------

  const REQUIRED: seq<seq<string>> :=
    [["time", "ts"], ["identity", "id"], ["measurement", "name"], ["measurement", "value"],
     ["measurement", "method"], ["cid"], ["sig"]]

  function Dotted(path: seq<string>): string {
    if path == [] then "" else if |path| == 1 then path[0] else path[0] + "." + Dotted(path[1..])
  }

  /** The paths that are absent. */
  function MissingOf(tim: Value, paths: seq<seq<string>>): seq<string> {
    if paths == [] then []
    else (if Path(tim, paths[0]).None? then [Dotted(paths[0])] else []) + MissingOf(tim, paths[1..])
  }

  function Missing(tim: Value): seq<string> { MissingOf(tim, REQUIRED) }

  datatype VerifyResult = VerifyResult(valid: bool, schemaValid: bool, cidValid: bool, signatureValid: bool,
                                       witnessesValid: bool, unexpired: bool, errors: seq<string>, missing: seq<string>)

  /** The key a TIM, or one of its witnesses by its kid, is to be checked against. */
  type Resolver = (Value, string) -> Option<PublicKey>

  function DefaultResolver(tim: Value, witnessKid: string): Option<PublicKey> {
    if witnessKid != "" && Resolve(witnessKid).Some? then Resolve(witnessKid)
    else Resolve(Str(tim, ["identity", "id"]))
  }

  function KidOf(c: Crypto, jws: string): string {
    match DecodeProtectedHeader(c, jws)
    case Some(h) => Str(h, ["kid"])
    case None => ""
  }

  function TextOf(v: Value): string { if v.String? then v.text else "" }

  /** One witness: a detached signature over the same text under the key its kid resolves to. */
  predicate WitnessOk(c: Crypto, tim: Value, resolve: Resolver, payload: string, w: Value) {
    var key := resolve(tim, KidOf(c, TextOf(w)));
    key.Some? && Verified(c, TextOf(w), payload, key.value)
  }

  function WitnessesOf(tim: Value): seq<Value> {
    match Path(tim, ["time", "witnesses"])
    case Some(Array(ws)) => ws
    case _ => []
  }

  /** The errors for witnesses from the n-th on. */
  function WitnessErrors(c: Crypto, tim: Value, resolve: Resolver, payload: string, n: nat): seq<string>
    requires n <= |WitnessesOf(tim)|
    decreases |WitnessesOf(tim)| - n
  {
    var ws := WitnessesOf(tim);
    if n == |ws| then []
    else (if WitnessOk(c, tim, resolve, payload, ws[n]) then [] else ["tim.invalid_witness[" + D.Itoa(n) + "]"]) +
         WitnessErrors(c, tim, resolve, payload, n + 1)
  }

  /** A reference time was given, the expiry parses, and is not after it. */
  predicate Expired(parse: string -> Option<int>, tim: Value, at: string) {
    var exp := Str(tim, ["exp"]);
    at != "" && exp != "" && parse(at).Some? && parse(exp).Some? && parse(exp).value <= parse(at).value
  }

  predicate SignatureOk(c: Crypto, tim: Value, resolve: Resolver, payload: string) {
    var key := resolve(tim, "");
    key.Some? && Verified(c, Str(tim, ["sig"]), payload, key.value)
  }

  function SignatureErrors(c: Crypto, tim: Value, resolve: Resolver, payload: string): seq<string> {
    if resolve(tim, "").None? then ["tim.key_unresolved"]
    else if SignatureOk(c, tim, resolve, payload) then []
    else ["tim.invalid_signature"]
  }

  /** The outcome of verification once the canonical body is at hand. */
  function Checked(c: Crypto, tim: Value, resolve: Resolver, parse: string -> Option<int>, at: string,
                   canonical: string): VerifyResult
  {
    var cidOk := CidOf(c, canonical) == Str(tim, ["cid"]);
    var sigOk := SignatureOk(c, tim, resolve, canonical);
    var bad := WitnessErrors(c, tim, resolve, canonical, 0);
    var expired := Expired(parse, tim, at);
    VerifyResult(cidOk && sigOk && bad == [] && !expired, true, cidOk, sigOk, bad == [], !expired,
                 (if cidOk then [] else ["tim.cid_mismatch"]) + SignatureErrors(c, tim, resolve, canonical) +
                 bad + (if expired then ["tim.expired"] else []), [])
  }

  function Verify(c: Crypto, tim: Value, resolve: Resolver, parse: string -> Option<int>, at: string): VerifyResult {
    if Missing(tim) != [] then
      VerifyResult(false, false, false, false, false, true, ["tim.missing_required"], Missing(tim))
    else
      match Canonical(BodyOf(tim))
      case None => VerifyResult(false, true, false, false, false, true, ["tim.non_finite"], [])
      case Some(canonical) => Checked(c, tim, resolve, parse, at, canonical)
  }

  method CheckWitness(c: Crypto, tim: Value, resolve: Resolver, payload: string, w: Value) returns (ok: bool)
    ensures ok == WitnessOk(c, tim, resolve, payload, w)
  {
    hide KidOf, Verified;
    var wjws := TextOf(w);
    var key := resolve(tim, KidOf(c, wjws));
    if key.None? { return false; }
    ok := VerifyDetached(c, wjws, payload, key.value);
  }

  method CheckWitnesses(c: Crypto, tim: Value, resolve: Resolver, payload: string)
    returns (ok: bool, errors: seq<string>)
    ensures errors == WitnessErrors(c, tim, resolve, payload, 0) && ok == (errors == [])
  {
    hide WitnessOk, WitnessesOf, WitnessErrors, D.Itoa;
    ok, errors := true, [];
    var arr := WitnessesOf(tim);
    assert [] + WitnessErrors(c, tim, resolve, payload, 0) == WitnessErrors(c, tim, resolve, payload, 0);
    for i := 0 to |arr|
      invariant errors + WitnessErrors(c, tim, resolve, payload, i) == WitnessErrors(c, tim, resolve, payload, 0)
      invariant ok == (errors == [])
    {
      NextWitness(c, tim, resolve, payload, i, errors);
      var verified := CheckWitness(c, tim, resolve, payload, arr[i]);
      if !verified {
        ok := false;
        errors := errors + ["tim.invalid_witness[" + D.Itoa(i) + "]"];
      }
    }
    NoMoreWitnesses(c, tim, resolve, payload, errors);
  }

  lemma NextWitness(c: Crypto, tim: Value, resolve: Resolver, payload: string, i: nat, errors: seq<string>)
    requires i < |WitnessesOf(tim)|
    ensures errors + WitnessErrors(c, tim, resolve, payload, i) ==
            (if WitnessOk(c, tim, resolve, payload, WitnessesOf(tim)[i]) then errors
             else errors + ["tim.invalid_witness[" + D.Itoa(i) + "]"]) + WitnessErrors(c, tim, resolve, payload, i + 1)
  {
    hide WitnessOk, WitnessesOf, D.Itoa;
    var ok := WitnessOk(c, tim, resolve, payload, WitnessesOf(tim)[i]);
    var head := if ok then [] else ["tim.invalid_witness[" + D.Itoa(i) + "]"];
    var rest := WitnessErrors(c, tim, resolve, payload, i + 1);
    assert WitnessErrors(c, tim, resolve, payload, i) == head + rest;
    JoinErrors(errors, head, rest);
  }

  lemma JoinErrors(a: seq<string>, b: seq<string>, c: seq<string>)
    ensures a + (b + c) == (a + b) + c
    ensures b == [] ==> a + b == a
  {
  }

  lemma NoMoreWitnesses(c: Crypto, tim: Value, resolve: Resolver, payload: string, errors: seq<string>)
    ensures errors + WitnessErrors(c, tim, resolve, payload, |WitnessesOf(tim)|) == errors
  {
  }

  method CheckPaths(tim: Value, paths: seq<seq<string>>) returns (missing: seq<string>)
    ensures missing == MissingOf(tim, paths)
  {
    hide Path, Dotted;
    missing := [];
    assert paths[0..] == paths;
    for i := 0 to |paths|
      invariant missing + MissingOf(tim, paths[i..]) == MissingOf(tim, paths)
    {
      assert paths[i..][1..] == paths[i + 1..];
      JoinErrors(missing, if Path(tim, paths[i]).None? then [Dotted(paths[i])] else [], MissingOf(tim, paths[i + 1..]));
      if Path(tim, paths[i]).None? { missing := missing + [Dotted(paths[i])]; }
    }
  }

  method VerifyTimAt(c: Crypto, tim: Value, resolve: Resolver, parse: string -> Option<int>, at: string)
    returns (res: VerifyResult)
    requires Unambiguous(tim)
    ensures res == Verify(c, tim, resolve, parse, at)
  {
    hide Canonical, BodyOf, MissingOf, Checked;
    res := VerifyResult(false, false, false, false, false, true, [], []);
    var missing := CheckPaths(tim, REQUIRED);
    res := res.(missing := missing);
    if |res.missing| > 0 { return res.(errors := res.errors + ["tim.missing_required"]); }
    res := res.(schemaValid := true);
    var body := CanonicalBody(tim);
    BodyUnambiguous(tim);
    var canonical := CanonicalizeValue(body);
    if canonical.None? { return res.(errors := res.errors + ["tim.non_finite"]); }
    res := CheckCanonical(c, tim, resolve, parse, at, canonical.value, res);
  }

  /** The checks over the canonical text, filling in the result. */
  method CheckCanonical(c: Crypto, tim: Value, resolve: Resolver, parse: string -> Option<int>, at: string,
                        payload: string, start: VerifyResult)
    returns (res: VerifyResult)
    requires start == VerifyResult(false, true, false, false, false, true, [], [])
    ensures res == Checked(c, tim, resolve, parse, at, payload)
  {
    hide Verified, Expired, WitnessErrors, Str, CidOf;
    res := start.(cidValid := CidOf(c, payload) == Str(tim, ["cid"]));
    if !res.cidValid { res := res.(errors := res.errors + ["tim.cid_mismatch"]); }
    ghost var e := if res.cidValid then [] else ["tim.cid_mismatch"];
    assert res.errors == e;
    var key := resolve(tim, "");
    if key.Some? {
      var verified := VerifyDetached(c, Str(tim, ["sig"]), payload, key.value);
      res := res.(signatureValid := verified);
      if !verified { res := res.(errors := res.errors + ["tim.invalid_signature"]); }
    } else {
      res := res.(errors := res.errors + ["tim.key_unresolved"]);
    }
    assert res.errors == e + SignatureErrors(c, tim, resolve, payload);
    var ok, bad := CheckWitnesses(c, tim, resolve, payload);
    res := res.(witnessesValid := ok, errors := res.errors + bad);
    if Expired(parse, tim, at) { res := res.(unexpired := false, errors := res.errors + ["tim.expired"]); }
    assert res.errors == e + SignatureErrors(c, tim, resolve, payload) + bad +
                         (if res.unexpired then [] else ["tim.expired"]);
    res := res.(valid := res.cidValid && res.signatureValid && res.witnessesValid && res.unexpired);
  }

  lemma BodyUnambiguous(tim: Value)
    requires Unambiguous(tim)
    ensures Unambiguous(BodyOf(tim))
    ensures Finite(tim) ==> Finite(BodyOf(tim))
  {
    hide Get, DeleteMember, SetMember;
    if tim.Object? {
      BaseUnambiguous(tim);
      var base := BaseOf(tim);
      if Get(base, "time").Some? && Get(base, "time").value.Object? {
        var time := Get(base, "time").value.members;
        MemberLaws.GetKeepsValue(base, "time");
        MemberLaws.DeleteKeepsValue(time, "witnesses");
        MemberLaws.DeleteKeepsValue(base, "time");
        MemberLaws.SetKeepsValue(base, "time", Object(DeleteMember(time, "witnesses")));
      }
    }
  }
}
