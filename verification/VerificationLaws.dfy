/**
 When exactly a detached signature and a TIM verify.

 A detached signature is two parts with two dots between them; its header must name the algorithm and
 leave the payload unencoded, and the signature must be that of the header and the payload.  A TIM must
 have its required members, the cid and a signature of its body, witnesses that all signed the body,
 and must not have expired at the time asked about.  The body is the TIM without what came after it.
 */
module VerificationLaws {
  import opened Outcomes
  import opened Json
  import opened Canonicalize
  import opened DidKey
  import opened Jws
  import opened JsonGrammar
  import opened Tim
  import D = Decimals
  import MemberLaws
  import TimLaws

  // ---------- detached signatures ----------

  function Join(parts: seq<string>): string
    requires parts != []
  {
    if |parts| == 1 then parts[0] else parts[0] + "." + Join(parts[1..])
  }

  lemma {:induction false} SplitParts(s: string)
    ensures Join(Split(s)) == s && forall i | 0 <= i < |Split(s)| :: '.' !in Split(s)[i]
  {
    if s != "" {
      SplitParts(s[1..]);
      var rest := Split(s[1..]);
      if s[0] == '.' {
        assert Split(s)[1..] == rest;
        assert s == "." + s[1..];
      } else {
        var head := [s[0]] + rest[0];
        assert Split(s) == [head] + rest[1..] && Split(s)[1..] == rest[1..];
        assert s == [s[0]] + s[1..];
      }
    }
  }

  /** Three parts with nothing in the middle are two parts around two dots. */
  lemma CompactIff(s: string, a: string, b: string)
    ensures Split(s) == [a, "", b] <==> s == a + ".." + b && '.' !in a && '.' !in b
  {
    if Split(s) == [a, "", b] {
      SplitParts(s);
      var parts := Split(s);
      assert parts[1..] == ["", b] && parts[1..][1..] == [b];
      assert parts[0] == a && parts[2] == b;
      assert Join([b]) == b && ["", b][1..] == [b];
      assert Join(["", b]) == "" + "." + Join([b]);
      assert Join(parts) == a + "." + Join(["", b]);
      assert a + "." + ("" + "." + b) == a + ".." + b;
    }
    if s == a + ".." + b && '.' !in a && '.' !in b { SplitCompact(a, b); }
  }

  /** The algorithm is EdDSA, the payload is not encoded, and that is marked as critical. */
  predicate HeaderSays(h: Value) {
    h.Object? && Path(h, ["alg"]) == Some(String("EdDSA")) && Path(h, ["b64"]) == Some(Bool(false)) &&
    Path(h, ["crit"]).Some? && Path(h, ["crit"]).value.Array? &&
    exists i | 0 <= i < |Path(h, ["crit"]).value.items| :: Path(h, ["crit"]).value.items[i] == String("b64")
  }

  lemma HeaderIff(h: Value)
    ensures HeaderOk(h) <==> HeaderSays(h)
  {
    hide Get, Path;
    if h.Object? {
      TimLaws.OneStep(h.members, "alg");
      TimLaws.OneStep(h.members, "b64");
      TimLaws.OneStep(h.members, "crit");
    }
  }

  /** A header in front, a signature behind, and the signature is of the header and the payload. */
  predicate Detached(c: Crypto, jws: string, payload: string, pub: PublicKey, a: string, b: string) {
    jws == a + ".." + b && '.' !in a && '.' !in b && a != "" &&
    c.unbase64(a).Some? && Document(c.unbase64(a).value, false).Ok? &&
    HeaderSays(Document(c.unbase64(a).value, false).value) &&
    c.unbase64(b).Some? && |c.unbase64(b).value| == 64 && c.verify(pub, a + "." + payload, c.unbase64(b).value)
  }

  lemma VerifiedIff(c: Crypto, jws: string, payload: string, pub: PublicKey)
    ensures Verified(c, jws, payload, pub) <==> exists a, b :: Detached(c, jws, payload, pub, a, b)
  {
    hide Split, HeaderOk, HeaderSays, Document;
    if Verified(c, jws, payload, pub) {
      var parts := Split(jws);
      var a, b := parts[0], parts[2];
      assert parts == [a, "", b];
      CompactIff(jws, a, b);
      HeaderIff(DecodeProtectedHeader(c, jws).value);
      assert Detached(c, jws, payload, pub, a, b);
    }
    if exists a, b :: Detached(c, jws, payload, pub, a, b) {
      var a, b :| Detached(c, jws, payload, pub, a, b);
      CompactIff(jws, a, b);
      HeaderIff(Document(c.unbase64(a).value, false).value);
    }
  }

  // ---------- the body of a TIM ----------

  lemma DeleteGone(ms: seq<Member>, k: string)
    requires DistinctKeys(ms)
    ensures Get(DeleteMember(ms, k), k) == None
  {
    hide Get, DeleteMember;
    MemberLaws.DeleteKeeps(ms, k);
  }

  /** The body says what the TIM says, but for cid, signature and time. */
  lemma BodySays(tim: Value, key: string)
    requires tim.Object? && key != "cid" && key != "sig" && key != "time"
    ensures BodyOf(tim).Object? && Get(BodyOf(tim).members, key) == Get(tim.members, key)
  {
    hide Get, DeleteMember, SetMember;
    var base := Unsigned(tim.members);
    MemberLaws.GetDelete(tim.members, "cid", key);
    MemberLaws.GetDelete(DeleteMember(tim.members, "cid"), "sig", key);
    match Get(base, "time")
    case Some(Object(time)) =>
      MemberLaws.GetDelete(base, "time", key);
      MemberLaws.GetSet(base, "time", Object(DeleteMember(time, "witnesses")), key);
    case _ =>
  }

  /** The body has no cid and no signature. */
  lemma BodyUnsealed(tim: Value)
    requires Unambiguous(tim) && tim.Object?
    ensures Get(BodyOf(tim).members, "cid") == None && Get(BodyOf(tim).members, "sig") == None
  {
    hide Get, DeleteMember, SetMember;
    var ms := tim.members;
    var base := Unsigned(ms);
    DeleteGone(ms, "cid");
    MemberLaws.GetDelete(DeleteMember(ms, "cid"), "sig", "cid");
    MemberLaws.DeleteKeepsValue(ms, "cid");
    DeleteGone(DeleteMember(ms, "cid"), "sig");
    match Get(base, "time")
    case Some(Object(time)) =>
      MemberLaws.GetDelete(base, "time", "cid");
      MemberLaws.GetDelete(base, "time", "sig");
      MemberLaws.GetSet(base, "time", Object(DeleteMember(time, "witnesses")), "cid");
      MemberLaws.GetSet(base, "time", Object(DeleteMember(time, "witnesses")), "sig");
    case _ =>
  }

  /** Its time is the TIM's without the witnesses, and is left out when nothing else is in it. */
  lemma BodyTime(tim: Value, time: seq<Member>)
    requires Unambiguous(tim) && tim.Object? && Get(tim.members, "time") == Some(Object(time))
    ensures var rest := DeleteMember(time, "witnesses");
      Get(BodyOf(tim).members, "time") == if rest == [] then None else Some(Object(rest))
    ensures Get(DeleteMember(time, "witnesses"), "witnesses") == None
    ensures forall k | k != "witnesses" :: Get(DeleteMember(time, "witnesses"), k) == Get(time, k)
  {
    hide Get, DeleteMember, SetMember;
    var ms := tim.members;
    var base := Unsigned(ms);
    MemberLaws.GetDelete(ms, "cid", "time");
    MemberLaws.GetDelete(DeleteMember(ms, "cid"), "sig", "time");
    MemberLaws.DeleteKeepsValue(ms, "cid");
    MemberLaws.DeleteKeepsValue(DeleteMember(ms, "cid"), "sig");
    MemberLaws.GetKeepsValue(ms, "time");
    DeleteGone(base, "time");
    DeleteGone(time, "witnesses");
    MemberLaws.GetSet(base, "time", Object(DeleteMember(time, "witnesses")), "time");
    forall k | k != "witnesses" { MemberLaws.GetDelete(time, "witnesses", k); }
  }

  // ---------- TIMs ----------

  /** The members every TIM must have. */
  predicate HasRequired(tim: Value) {
    Path(tim, ["time", "ts"]).Some? && Path(tim, ["identity", "id"]).Some? &&
    Path(tim, ["measurement", "name"]).Some? && Path(tim, ["measurement", "value"]).Some? &&
    Path(tim, ["measurement", "method"]).Some? && Path(tim, ["cid"]).Some? && Path(tim, ["sig"]).Some?
  }

  lemma {:induction false} MissingIff(tim: Value, paths: seq<seq<string>>)
    ensures MissingOf(tim, paths) == [] <==> forall i | 0 <= i < |paths| :: Path(tim, paths[i]).Some?
  {
    hide Path, Dotted;
    if paths != [] {
      MissingIff(tim, paths[1..]);
      assert forall i | 0 < i < |paths| :: paths[i] == paths[1..][i - 1];
    }
  }

  lemma RequiredIff(tim: Value)
    ensures Missing(tim) == [] <==> HasRequired(tim)
  {
    hide Path, MissingOf;
    MissingIff(tim, REQUIRED);
    assert REQUIRED[0] == ["time", "ts"] && REQUIRED[1] == ["identity", "id"] && REQUIRED[2] == ["measurement", "name"];
    assert REQUIRED[3] == ["measurement", "value"] && REQUIRED[4] == ["measurement", "method"];
    assert REQUIRED[5] == ["cid"] && REQUIRED[6] == ["sig"];
  }

  /** A witness is a detached signature over the same text by the key its header names. */
  ghost predicate Witnessed(c: Crypto, tim: Value, resolve: Resolver, text: string, w: Value) {
    w.String? && exists a, b, key ::
      resolve(tim, KidOf(c, w.text)) == Some(key) && Detached(c, w.text, text, key, a, b)
  }

  lemma EmptyNotVerified(c: Crypto, text: string, key: PublicKey)
    ensures !Verified(c, "", text, key)
  {
  }

  lemma WitnessIff(c: Crypto, tim: Value, resolve: Resolver, text: string, w: Value)
    ensures WitnessOk(c, tim, resolve, text, w) <==> Witnessed(c, tim, resolve, text, w)
  {
    hide Verified, Detached, KidOf;
    var key := resolve(tim, KidOf(c, TextOf(w)));
    if key.Some? {
      VerifiedIff(c, TextOf(w), text, key.value);
      EmptyNotVerified(c, text, key.value);
    }
  }

  lemma {:induction false} WitnessesIff(c: Crypto, tim: Value, resolve: Resolver, text: string, n: nat)
    requires n <= |WitnessesOf(tim)|
    ensures WitnessErrors(c, tim, resolve, text, n) == [] <==>
            forall i | n <= i < |WitnessesOf(tim)| :: WitnessOk(c, tim, resolve, text, WitnessesOf(tim)[i])
    decreases |WitnessesOf(tim)| - n
  {
    hide WitnessOk, D.Itoa;
    if n < |WitnessesOf(tim)| { WitnessesIff(c, tim, resolve, text, n + 1); }
  }

  /** No time is asked about, none is set, one of them is no time, or the one set is later. */
  predicate Fresh(parse: string -> Option<int>, tim: Value, at: string) {
    at == "" || Str(tim, ["exp"]) == "" || parse(at).None? || parse(Str(tim, ["exp"])).None? ||
    parse(at).value < parse(Str(tim, ["exp"])).value
  }

  /** A TIM verifies exactly when it is complete, names its body by cid, is signed and witnessed, and is fresh. */
  lemma VerifiesIff(c: Crypto, tim: Value, resolve: Resolver, parse: string -> Option<int>, at: string)
    ensures Verify(c, tim, resolve, parse, at).valid <==>
            HasRequired(tim) && Canonical(BodyOf(tim)).Some? && Fresh(parse, tim, at) &&
            var text := Canonical(BodyOf(tim)).value;
            CidOf(c, text) == Str(tim, ["cid"]) &&
            (exists a, b, key :: resolve(tim, "") == Some(key) && Detached(c, Str(tim, ["sig"]), text, key, a, b)) &&
            forall i | 0 <= i < |WitnessesOf(tim)| :: Witnessed(c, tim, resolve, text, WitnessesOf(tim)[i])
  {
    hide Missing, HasRequired, Canonical, BodyOf, CidOf, Str, Verified, Detached, WitnessOk, Witnessed, WitnessErrors,
         WitnessesOf;
    RequiredIff(tim);
    if Canonical(BodyOf(tim)).Some? {
      var text := Canonical(BodyOf(tim)).value;
      if resolve(tim, "").Some? { VerifiedIff(c, Str(tim, ["sig"]), text, resolve(tim, "").value); }
      WitnessesIff(c, tim, resolve, text, 0);
      forall i | 0 <= i < |WitnessesOf(tim)| { WitnessIff(c, tim, resolve, text, WitnessesOf(tim)[i]); }
    }
  }
}
