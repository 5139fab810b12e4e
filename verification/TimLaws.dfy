/**
 Integrity of signed measurements.

 Creation signs the body without its cid and signature; verification takes those and the witnesses
 out again before it hashes.  The laws say when the two meet: a body that came without witnesses
 verifies, witnesses may be added, changed or removed later without touching cid or signature, and a
 cid names one body.  Everything rests on how looking up, setting and deleting members interact.
 */
module TimLaws {
  import opened Outcomes
  import opened Json
  import opened Canonicalize
  import opened DidKey
  import opened Jws
  import opened Tim
  import MemberLaws

  // ---------- looking things up in a signed value ----------

  lemma PathStep(ms: seq<Member>, k: string, rest: seq<string>)
    ensures Path(Object(ms), [k] + rest) ==
            match Get(ms, k)
            case None => None
            case Some(v) => Path(v, rest)
  {
    assert ([k] + rest)[1..] == rest;
  }

  /** The base without cid and sig, with both appended: lookups elsewhere are those of the body. */
  lemma SignedLookup(body: Value, cid: string, sig: string, k: string)
    requires body.Object?
    ensures Get(Signed(BaseOf(body), cid, sig).members, k) ==
            if k == "sig" then Some(String(sig)) else if k == "cid" then Some(String(cid)) else Get(body.members, k)
  {
    hide Get, SetMember, DeleteMember;
    var base := BaseOf(body);
    MemberLaws.GetSet(base, "cid", String(cid), k);
    MemberLaws.GetSet(SetMember(base, "cid", String(cid)), "sig", String(sig), k);
    if k != "cid" && k != "sig" {
      MemberLaws.GetDelete(body.members, "cid", k);
      MemberLaws.GetDelete(DeleteMember(body.members, "cid"), "sig", k);
    }
  }

  /** Stripping cid and sig from a signed value gives its base back. */
  lemma UnsignedSigned(body: Value, cid: string, sig: string)
    requires Unambiguous(body)
    ensures Unsigned(Signed(BaseOf(body), cid, sig).members) == BaseOf(body)
  {
    hide Get, SetMember, DeleteMember;
    var ms := if body.Object? then body.members else [];
    var base := BaseOf(body);
    var once := SetMember(base, "cid", String(cid));
    MemberLaws.DeleteKeeps(ms, "cid");
    MemberLaws.DeleteKeeps(DeleteMember(ms, "cid"), "sig");
    MemberLaws.GetDelete(DeleteMember(ms, "cid"), "sig", "cid");
    MemberLaws.DeleteSetOther(once, "cid", "sig", String(sig));
    MemberLaws.DeleteSet(base, "cid", String(cid));
    MemberLaws.DeleteAbsent(base, "cid");
    MemberLaws.DeleteSet(base, "sig", String(sig));
    MemberLaws.DeleteAbsent(base, "sig");
  }

  // ---------- creation verifies ----------

  predicate Present(v: Value, path: seq<string>) { Path(v, path).Some? }

  /** What a body must hold for its TIM to verify under a key: the required fields, the key's own did, no witnesses. */
  predicate Complete(body: Value, did: string) {
    body.Object? && Present(body, ["time", "ts"]) && Str(body, ["identity", "id"]) == did &&
    Present(body, ["measurement", "name"]) && Present(body, ["measurement", "value"]) &&
    Present(body, ["measurement", "method"]) && !Present(body, ["time", "witnesses"])
  }

  /** A path through a member other than cid and sig leads to the same place in the signed value. */
  lemma SamePath(body: Value, cid: string, sig: string, k: string, rest: seq<string>)
    requires body.Object? && k != "cid" && k != "sig"
    ensures Path(Signed(BaseOf(body), cid, sig), [k] + rest) == Path(body, [k] + rest)
  {
    hide Path, Get, BaseOf, SetMember;
    SignedLookup(body, cid, sig, k);
    PathStep(Signed(BaseOf(body), cid, sig).members, k, rest);
    PathStep(body.members, k, rest);
  }

  lemma TwoStep(v: Value, k: string, l: string)
    ensures Path(v, [k, l]) == Path(v, [k] + [l])
  {
    assert [k, l] == [k] + [l];
  }

  lemma SameTwoStep(body: Value, cid: string, sig: string, k: string, l: string)
    requires body.Object? && k != "cid" && k != "sig"
    ensures Path(Signed(BaseOf(body), cid, sig), [k, l]) == Path(body, [k, l])
  {
    hide Path, BaseOf, Signed;
    SamePath(body, cid, sig, k, [l]);
    TwoStep(body, k, l);
    TwoStep(Signed(BaseOf(body), cid, sig), k, l);
  }

  lemma OneStep(ms: seq<Member>, k: string)
    ensures Path(Object(ms), [k]) == Get(ms, k)
  {
    hide Get;
    PathStep(ms, k, []);
    assert [k] + [] == [k];
  }

  lemma AllThere(v: Value)
    requires Present(v, ["time", "ts"]) && Present(v, ["identity", "id"]) && Present(v, ["measurement", "name"])
    requires Present(v, ["measurement", "value"]) && Present(v, ["measurement", "method"])
    requires Present(v, ["cid"]) && Present(v, ["sig"])
    ensures Missing(v) == []
  {
    hide Path;
    NextPresent(v, REQUIRED, 7);
  }

  lemma {:induction false} NextPresent(v: Value, paths: seq<seq<string>>, n: nat)
    requires n == |paths| && forall i | 0 <= i < n :: Path(v, paths[i]).Some?
    ensures MissingOf(v, paths) == []
    decreases n
  {
    hide Path;
    if n > 0 { NextPresent(v, paths[1..], n - 1); }
  }

  lemma SignedComplete(body: Value, did: string, cid: string, sig: string)
    requires Complete(body, did) && did != ""
    ensures var tim := Signed(BaseOf(body), cid, sig);
      Missing(tim) == [] && Str(tim, ["cid"]) == cid && Str(tim, ["sig"]) == sig &&
      Str(tim, ["identity", "id"]) == did && WitnessesOf(tim) == []
  {
    hide Path, Get, BaseOf, Missing;
    var tim := Signed(BaseOf(body), cid, sig);
    SameTwoStep(body, cid, sig, "time", "ts");
    SameTwoStep(body, cid, sig, "identity", "id");
    SameTwoStep(body, cid, sig, "measurement", "name");
    SameTwoStep(body, cid, sig, "measurement", "value");
    SameTwoStep(body, cid, sig, "measurement", "method");
    SameTwoStep(body, cid, sig, "time", "witnesses");
    SignedLookup(body, cid, sig, "cid");
    SignedLookup(body, cid, sig, "sig");
    OneStep(tim.members, "cid");
    OneStep(tim.members, "sig");
    AllThere(tim);
  }

  /** With a time that has a stamp and no witnesses, stripping witnesses changes nothing. */
  lemma NoWitnesses(base: seq<Member>)
    requires Path(Object(base), ["time", "ts"]).Some? && Path(Object(base), ["time", "witnesses"]).None?
    ensures WithoutWitnesses(base) == base
  {
    hide Get, DeleteMember, SetMember;
    TwoStep(Object(base), "time", "ts");
    TwoStep(Object(base), "time", "witnesses");
    PathStep(base, "time", ["ts"]);
    PathStep(base, "time", ["witnesses"]);
    var time := Get(base, "time").value;
    OneStep(time.members, "ts");
    OneStep(time.members, "witnesses");
    MemberLaws.DeleteAbsent(time.members, "witnesses");
    MemberLaws.SetSame(base, "time");
    assert Get([], "ts").None?;
  }

  lemma BasePath(body: Value, k: string, l: string)
    requires body.Object? && k != "cid" && k != "sig"
    ensures Path(Object(BaseOf(body)), [k, l]) == Path(body, [k, l])
  {
    hide Path, Get, DeleteMember;
    TwoStep(body, k, l);
    TwoStep(Object(BaseOf(body)), k, l);
    PathStep(body.members, k, [l]);
    PathStep(BaseOf(body), k, [l]);
    MemberLaws.GetDelete(body.members, "cid", k);
    MemberLaws.GetDelete(DeleteMember(body.members, "cid"), "sig", k);
  }

  /** The canonical body of a created TIM is the body it was created from, without cid and sig. */
  lemma BodyOfCreated(body: Value, did: string, cid: string, sig: string)
    requires Unambiguous(body) && Complete(body, did)
    ensures BodyOf(Signed(BaseOf(body), cid, sig)) == Object(BaseOf(body))
  {
    hide Path, Get, DeleteMember, SetMember, WithoutWitnesses, BaseOf, Unsigned;
    UnsignedSigned(body, cid, sig);
    BasePath(body, "time", "ts");
    BasePath(body, "time", "witnesses");
    NoWitnesses(BaseOf(body));
  }

  /** A resolver that finds the issuer's key from the TIM's own identity. */
  ghost predicate ResolvesIdentity(resolve: Resolver) {
    forall tim :: resolve(tim, "") == Resolve(Str(tim, ["identity", "id"]))
  }

  /** A complete body signed under either header verifies under its own did, up to its expiry. */
  lemma SealedVerifies(c: Crypto, body: Value, key: Key, kid: string, ts: bool, resolve: Resolver,
                       parse: string -> Option<int>, at: string)
    requires Lawful(c) && Unambiguous(body) && Finite(body) && Complete(body, FromPublic(c.publicOf(key)))
    requires ResolvesIdentity(resolve)
    ensures Canonical(Object(BaseOf(body))).Some?
    ensures var canonical := Canonical(Object(BaseOf(body))).value;
      var tim := Signed(BaseOf(body), CidOf(c, canonical),
          Seal(c, if ts then HeaderTs(kid) else Header(kid), canonical, key));
      Verify(c, tim, resolve, parse, at).valid == !Expired(parse, tim, at)
  {
    hide Canonical, BaseOf, Path, Missing, Resolve, Verified, FromPublic, Expired, CidOf, BodyOf, Signed, Complete,
         Str, WitnessesOf, Seal;
    BaseUnambiguous(body);
    FiniteCanonical(Object(BaseOf(body)));
    var did := FromPublic(c.publicOf(key));
    var canonical := Canonical(Object(BaseOf(body))).value;
    var cid, sig := CidOf(c, canonical), Seal(c, if ts then HeaderTs(kid) else Header(kid), canonical, key);
    DidNotEmpty(c.publicOf(key));
    SignedComplete(body, did, cid, sig);
    BodyOfCreated(body, did, cid, sig);
    ResolveFromPublic(c.publicOf(key));
    SignedVerifies(c, canonical, key, kid, ts);
  }

  /** A TIM created from a complete body verifies under its own did, up to its expiry. */
  lemma CreatedVerifies(c: Crypto, body: Value, key: Key, kid: string, parse: string -> Option<int>, at: string)
    requires Lawful(c) && Unambiguous(body) && Finite(body) && Complete(body, FromPublic(c.publicOf(key)))
    ensures Create(c, body, key, kid).Some?
    ensures var tim := Create(c, body, key, kid).value;
      Verify(c, tim, DefaultResolver, parse, at).valid == !Expired(parse, tim, at)
  {
    hide Canonical, BaseOf, Resolve, FromPublic, Expired, CidOf, Signed, Complete, Str, Verify, Seal;
    SealedVerifies(c, body, key, kid, false, DefaultResolver, parse, at);
  }

  lemma DidNotEmpty(pub: PublicKey)
    ensures FromPublic(pub) != ""
  {
    StartsZ6Mk(pub);
  }

  // ---------- witnesses are outside the signed bytes ----------

  /** The same TIM with other witnesses, or none. */
  ghost predicate SameButWitnesses(tim: Value, other: Value) {
    tim.Object? && other.Object? &&
    match Get(tim.members, "time")
    case Some(Object(time)) =>
      (exists ws :: other.members == SetMember(tim.members, "time", Object(SetMember(time, "witnesses", ws)))) ||
      other.members == SetMember(tim.members, "time", Object(DeleteMember(time, "witnesses")))
    case _ => false
  }

  lemma BodyIgnoresWitnesses(ms: seq<Member>, time: seq<Member>, time': seq<Member>)
    requires Get(ms, "time") == Some(Object(time))
    requires DeleteMember(time', "witnesses") == DeleteMember(time, "witnesses")
    ensures BodyOf(Object(SetMember(ms, "time", Object(time')))) == BodyOf(Object(ms))
  {
    hide Get, DeleteMember, SetMember;
    var base := Unsigned(ms);
    var v := Object(time');
    MemberLaws.DeleteSetOther(ms, "cid", "time", v);
    MemberLaws.DeleteSetOther(DeleteMember(ms, "cid"), "sig", "time", v);
    MemberLaws.GetDelete(ms, "cid", "time");
    MemberLaws.GetDelete(DeleteMember(ms, "cid"), "sig", "time");
    MemberLaws.GetSet(base, "time", v, "time");
    MemberLaws.DeleteSet(base, "time", v);
    MemberLaws.SetTwice(base, "time", v, Object(DeleteMember(time, "witnesses")));
  }

  lemma {:induction false} DeleteTwice(ms: seq<Member>, k: string)
    requires DistinctKeys(ms)
    ensures DeleteMember(DeleteMember(ms, k), k) == DeleteMember(ms, k)
  {
    hide DeleteMember;
    MemberLaws.DeleteKeeps(ms, k);
    MemberLaws.DeleteAbsent(DeleteMember(ms, k), k);
  }

  lemma SameBody(tim: Value, other: Value)
    requires Unambiguous(tim) && SameButWitnesses(tim, other)
    ensures BodyOf(other) == BodyOf(tim)
    ensures forall k | k != "time" :: Get(other.members, k) == Get(tim.members, k)
  {
    hide Get, DeleteMember, SetMember, BodyOf;
    var ms := tim.members;
    var time := Get(ms, "time").value.members;
    MemberLaws.GetKeepsValue(ms, "time");
    if other.members == SetMember(ms, "time", Object(DeleteMember(time, "witnesses"))) {
      DeleteTwice(time, "witnesses");
      BodyIgnoresWitnesses(ms, time, DeleteMember(time, "witnesses"));
      forall k | k != "time" { MemberLaws.GetSet(ms, "time", Object(DeleteMember(time, "witnesses")), k); }
    } else {
      var ws :| other.members == SetMember(ms, "time", Object(SetMember(time, "witnesses", ws)));
      MemberLaws.DeleteSet(time, "witnesses", ws);
      BodyIgnoresWitnesses(ms, time, SetMember(time, "witnesses", ws));
      forall k | k != "time" { MemberLaws.GetSet(ms, "time", Object(SetMember(time, "witnesses", ws)), k); }
    }
  }

  /** The time stamp is untouched by a change of witnesses. */
  lemma SameStamp(tim: Value, other: Value)
    requires SameButWitnesses(tim, other) && Unambiguous(tim)
    ensures Path(other, ["time", "ts"]) == Path(tim, ["time", "ts"])
  {
    hide Path, Get, DeleteMember, SetMember;
    var ms := tim.members;
    var time := Get(ms, "time").value.members;
    TwoStep(tim, "time", "ts");
    TwoStep(other, "time", "ts");
    PathStep(ms, "time", ["ts"]);
    PathStep(other.members, "time", ["ts"]);
    OneStep(time, "ts");
    if other.members == SetMember(ms, "time", Object(DeleteMember(time, "witnesses"))) {
      MemberLaws.GetSet(ms, "time", Object(DeleteMember(time, "witnesses")), "time");
      MemberLaws.GetDelete(time, "witnesses", "ts");
      OneStep(DeleteMember(time, "witnesses"), "ts");
    } else {
      var ws :| other.members == SetMember(ms, "time", Object(SetMember(time, "witnesses", ws)));
      MemberLaws.GetSet(ms, "time", Object(SetMember(time, "witnesses", ws)), "time");
      MemberLaws.GetSet(time, "witnesses", ws, "ts");
      OneStep(SetMember(time, "witnesses", ws), "ts");
    }
  }

  lemma SameFrom(a: seq<Member>, b: seq<Member>, path: seq<string>)
    requires path != [] && Get(a, path[0]) == Get(b, path[0])
    ensures Path(Object(a), path) == Path(Object(b), path)
  {
    hide Get;
  }

  lemma {:induction false} SameMissingOf(tim: Value, other: Value, paths: seq<seq<string>>)
    requires forall p | p in paths :: Path(tim, p) == Path(other, p)
    ensures MissingOf(tim, paths) == MissingOf(other, paths)
  {
    hide Path, Dotted;
    if paths != [] {
      assert paths[0] in paths;
      SameMissingOf(tim, other, paths[1..]);
    }
  }

  /** Nor does it change which required members are missing. */
  lemma SameMissing(tim: Value, other: Value)
    requires SameButWitnesses(tim, other) && Unambiguous(tim)
    ensures Missing(other) == Missing(tim)
  {
    hide Path, Get, SameButWitnesses, MissingOf;
    BothObjects(tim, other);
    SameBody(tim, other);
    forall p | p in REQUIRED
      ensures Path(other, p) == Path(tim, p)
    {
      if p == ["time", "ts"] {
        SameStamp(tim, other);
      } else {
        SameFrom(tim.members, other.members, p);
      }
    }
    SameMissingOf(tim, other, REQUIRED);
  }

  /** Adding, changing or removing witnesses never changes whether the cid and the signature hold. */
  lemma WitnessesOutside(c: Crypto, tim: Value, other: Value, parse: string -> Option<int>, at: string)
    requires Unambiguous(tim) && SameButWitnesses(tim, other)
    ensures var (a, b) := (Verify(c, tim, DefaultResolver, parse, at), Verify(c, other, DefaultResolver, parse, at));
      a.cidValid == b.cidValid && a.signatureValid == b.signatureValid && a.unexpired == b.unexpired
  {
    hide Canonical, BodyOf, Path, Missing, Get, Verified, Resolve, CidOf, SameButWitnesses, WitnessErrors;
    SameMissing(tim, other);
    SameBody(tim, other);
    BothObjects(tim, other);
    SameStr(tim, other, "cid");
    SameStr(tim, other, "sig");
    SameStr(tim, other, "exp");
    SameId(tim, other);
  }

  lemma BothObjects(tim: Value, other: Value)
    requires SameButWitnesses(tim, other)
    ensures tim.Object? && other.Object?
  {
  }

  lemma SameStr(tim: Value, other: Value, k: string)
    requires tim.Object? && other.Object? && Get(tim.members, k) == Get(other.members, k)
    ensures Str(tim, [k]) == Str(other, [k])
  {
    hide Path, Get;
    OneStep(tim.members, k);
    OneStep(other.members, k);
  }

  lemma SameId(tim: Value, other: Value)
    requires tim.Object? && other.Object? && Get(tim.members, "identity") == Get(other.members, "identity")
    ensures Str(tim, ["identity", "id"]) == Str(other, ["identity", "id"])
  {
    hide Path, Get;
    TwoStep(tim, "identity", "id");
    TwoStep(other, "identity", "id");
    PathStep(tim.members, "identity", ["id"]);
    PathStep(other.members, "identity", ["id"]);
  }

  // ---------- a cid names one body ----------

  /** Two TIMs that verify with one cid have the same canonical body, or show a hash collision. */
  lemma CidNamesBody(c: Crypto, a: Value, b: Value, resolve: Resolver, parse: string -> Option<int>, at: string)
    requires Unambiguous(a) && Unambiguous(b) && Str(a, ["cid"]) == Str(b, ["cid"])
    requires Verify(c, a, resolve, parse, at).cidValid && Verify(c, b, resolve, parse, at).cidValid
    ensures Same(BodyOf(a), BodyOf(b)) ||
            (Canonical(BodyOf(a)).Some? && Canonical(BodyOf(b)).Some? &&
             Collision(c, Canonical(BodyOf(a)).value, Canonical(BodyOf(b)).value))
  {
    hide Canonical, BodyOf, Missing, CidOf, Same, Path;
    BodyUnambiguous(a);
    BodyUnambiguous(b);
    FiniteCanonical(BodyOf(a));
    FiniteCanonical(BodyOf(b));
    SameCidSameValue(c, BodyOf(a), BodyOf(b));
  }
}
