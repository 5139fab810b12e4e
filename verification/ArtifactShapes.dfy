/**
 The gate's artifacts are well formed, so each of them can be canonicalized and signed.

 Canonical text exists for values with finite numbers, and canonical texts name one value when no
 object repeats a name.  Both are shown for the decision, the receipt of an execution and the session
 record, member by member, for all contents the gate may put in them; an object is well formed when
 its names are distinct and each of its values is.
 */
module ArtifactShapes {
  import opened Outcomes
  import opened Json
  import opened Canonicalize
  import opened Jws
  import opened Policy
  import opened Audit
  import Kernel
  import Records

  /** Well formed: no repeated member name, and only finite numbers. */
  predicate Fit(v: Value) { Unambiguous(v) && Finite(v) }

  /** Members with distinct names and fit values. */
  predicate FitMembers(ms: seq<Member>) { DistinctKeys(ms) && forall i | 0 <= i < |ms| :: Fit(ms[i].value) }

  lemma FitObject(ms: seq<Member>)
    ensures FitMembers(ms) <==> Fit(Object(ms))
  {
    if FitMembers(ms) {
      forall i | 0 <= i < |ms|
        ensures Unambiguous(ms[i].value) && Finite(ms[i].value)
      {
        assert Fit(ms[i].value);
      }
    }
    if Fit(Object(ms)) {
      forall i | 0 <= i < |ms|
        ensures Fit(ms[i].value)
      {
        assert Unambiguous(ms[i].value) && Finite(ms[i].value);
      }
    }
  }

  lemma FitArray(items: seq<Value>)
    requires forall i | 0 <= i < |items| :: Fit(items[i])
    ensures Fit(Array(items))
  {
    forall i | 0 <= i < |items|
      ensures Unambiguous(items[i]) && Finite(items[i])
    {
      assert Fit(items[i]);
    }
  }

  lemma FitString(s: string)
    ensures Fit(String(s))
  {
  }

  lemma FitStrings(ss: seq<string>)
    ensures Fit(Array(Records.Strings(ss)))
  {
    FitArray(Records.Strings(ss));
  }

  /** A fit body is signed, and the artifact is the body with its cid and signature added. */
  lemma FitSigns(c: Crypto, body: Value, keys: KeyPair)
    requires body.Object? && Fit(body)
    ensures Canonical(body).Some?
    ensures SignArtifact(c, body, keys) ==
            Some(Object(body.members + [Member("cid", String(CidOf(c, Canonical(body).value))),
                                        Member("sig", String(Seal(c, HeaderTs(keys.did), Canonical(body).value,
                                                                  keys.privateKey)))]))
  {
    hide CidOf, Seal;
    FiniteCanonical(body);
  }

  // ---------- decisions ----------

  /** Every value a decision reports is fit. */
  predicate FitDecision(d: Kernel.Decision) {
    (forall i | 0 <= i < |d.assertions| :: d.assertions[i].input.Some? ==> Fit(d.assertions[i].input.value)) &&
    forall i | 0 <= i < |d.authorized| :: Fit(d.authorized[i].json)
  }

  lemma AssertionFit(a: Kernel.Assertion)
    requires a.input.Some? ==> Fit(a.input.value)
    ensures Fit(Records.AssertionJson(a))
  {
    hide Fit, Records.ResultText;
    FitString(a.name);
    FitString(Records.ResultText(a.result));
    if a.unit.Some? { FitString(a.unit.value); }
    if a.error.Some? { FitString(a.error.value); }
    if a.inputs.Some? { FitStrings(a.inputs.value); }
    FitObject(Records.AssertionJson(a).members);
  }

  lemma ListsFit(d: Kernel.Decision)
    requires FitDecision(d)
    ensures Fit(Array(Records.AssertionsJson(d.assertions))) && Fit(Array(Records.VerbsJson(d.authorized)))
  {
    hide Fit, Records.AssertionJson;
    forall i | 0 <= i < |d.assertions| { AssertionFit(d.assertions[i]); }
    FitArray(Records.AssertionsJson(d.assertions));
    FitArray(Records.VerbsJson(d.authorized));
  }

  lemma IdentityFit(did: string)
    ensures Fit(IdentityJson(did))
  {
    hide Fit;
    FitString(did);
    FitObject(IdentityJson(did).members);
  }

  lemma TimeFit(ts: string)
    ensures Fit(TimeJson(ts))
  {
    hide Fit;
    FitString(ts);
    FitObject(TimeJson(ts).members);
  }

  lemma DecisionFit(d: Kernel.Decision, commitmentCid: string, evidence: seq<string>, did: string, ts: string)
    requires FitDecision(d)
    ensures Fit(DecisionBody(d, commitmentCid, evidence, did, ts))
  {
    hide Fit, FitDecision, Records.AssertionsJson, Records.VerbsJson, Records.Strings, Records.StatusText,
         IdentityJson, TimeJson;
    ListsFit(d);
    FitStrings(d.errors);
    FitStrings(evidence);
    FitString("ARKY:Decision@v1");
    FitString(Records.StatusText(d.status));
    FitString(commitmentCid);
    IdentityFit(did);
    TimeFit(ts);
    FitObject(DecisionBody(d, commitmentCid, evidence, did, ts).members);
  }

  // ---------- receipts and session ----------

  lemma XrDistinct(x: XrInput, argsHash: string, key: string, did: string)
    ensures DistinctKeys(XrBody(x, argsHash, key, did).members)
  {
    hide IdentityJson, TimeJson, ErrorJson;
    var ms := XrBody(x, argsHash, key, did).members;
    if x.failure.Some? {
      assert |ms| == 14 && ms[11].key == "error" && ms[12].key == "identity" && ms[13].key == "time";
    } else {
      assert |ms| == 13 && ms[11].key == "identity" && ms[12].key == "time";
    }
  }

  lemma ErrorFit(failure: (string, string))
    ensures Fit(ErrorJson(failure))
  {
    hide Fit;
    FitString(failure.0);
    FitString(failure.1);
    FitObject(ErrorJson(failure).members);
  }

  lemma XrFit(x: XrInput, argsHash: string, key: string, did: string)
    ensures Fit(XrBody(x, argsHash, key, did))
  {
    hide Fit, IdentityJson, TimeJson, ErrorJson;
    var ms := XrBody(x, argsHash, key, did).members;
    XrDistinct(x, argsHash, key, did);
    IdentityFit(did);
    TimeFit(x.ts);
    if x.failure.Some? { ErrorFit(x.failure.value); }
    forall i | 0 <= i < |ms|
      ensures Fit(ms[i].value)
    {
      if i < 11 { FitString(ms[i].value.text); }
    }
    FitObject(ms);
  }

  lemma SessionFit(did: string, server: string, started: string, source: string, cids: seq<string>)
    ensures Fit(SessionBody(did, server, started, source, cids))
  {
    hide Fit, IdentityJson, TimeJson, Records.Strings;
    forall s: string { FitString(s); }
    FitStrings(cids);
    IdentityFit(did);
    TimeFit(started);
    FitObject(SessionBody(did, server, started, source, cids).members);
  }
}
