/** What holds of the receipt store over every run. */
module SettlerLaws {
  import opened Outcomes
  import opened Json
  import opened Canonicalize
  import opened Jws
  import opened Tim
  import opened Settler
  import D = Decimals
  import MemberLaws
  import TimLaws

  datatype Call = Call(ctx: Context, req: Request)

  /** The store after a run of calls. */
  function StoreAfter(calls: seq<Call>, store: Store): Store {
    if calls == [] then store else StoreAfter(calls[1..], Run(calls[0].ctx, calls[0].req, store).1)
  }

  /** The outcome of the i-th call of a run. */
  function OutcomeAt(calls: seq<Call>, store: Store, i: nat): Outcome
    requires i < |calls|
  {
    var (r, next) := Run(calls[0].ctx, calls[0].req, store);
    if i == 0 then r else OutcomeAt(calls[1..], next, i - 1)
  }

  /** One call: a failure keeps the store; a success leaves its receipt under its key and disturbs no other. */
  lemma RunStep(ctx: Context, req: Request, store: Store)
    ensures var (r, next) := Run(ctx, req, store);
      (r.Failed? ==> next == store) &&
      (r.Success? ==> KeyOf(ctx.crypto, req).Some? && KeyOf(ctx.crypto, req).value in next &&
                      r.receipt == next[KeyOf(ctx.crypto, req).value]) &&
      forall k | k in store :: k in next && next[k] == store[k]
  {
    hide Refusal, KeyOf, ArgsHash, ReceiptBody, SignReceipt;
  }

  /** A bound key keeps its first receipt for ever. */
  lemma {:induction false} BoundForever(calls: seq<Call>, store: Store, k: string)
    requires k in store
    ensures k in StoreAfter(calls, store) && StoreAfter(calls, store)[k] == store[k]
    decreases |calls|
  {
    hide Run;
    if calls != [] {
      RunStep(calls[0].ctx, calls[0].req, store);
      BoundForever(calls[1..], Run(calls[0].ctx, calls[0].req, store).1, k);
    }
  }

  /** A successful call returns the receipt its key has at the end of the run. */
  lemma {:induction false} SuccessIsFinal(calls: seq<Call>, store: Store, i: nat)
    requires i < |calls| && OutcomeAt(calls, store, i).Success?
    ensures var k := KeyOf(calls[i].ctx.crypto, calls[i].req);
      k.Some? && k.value in StoreAfter(calls, store) &&
      OutcomeAt(calls, store, i).receipt == StoreAfter(calls, store)[k.value]
    decreases |calls|
  {
    hide Run, KeyOf;
    var (r, next) := Run(calls[0].ctx, calls[0].req, store);
    if i == 0 {
      RunStep(calls[0].ctx, calls[0].req, store);
      BoundForever(calls[1..], next, KeyOf(calls[0].ctx.crypto, calls[0].req).value);
    } else {
      SuccessIsFinal(calls[1..], next, i - 1);
    }
  }

  /** Over any run, all successes under one key return one receipt, whatever else they ask. */
  lemma OneReceiptPerKey(calls: seq<Call>, store: Store, i: nat, j: nat)
    requires i < |calls| && j < |calls|
    requires OutcomeAt(calls, store, i).Success? && OutcomeAt(calls, store, j).Success?
    requires KeyOf(calls[i].ctx.crypto, calls[i].req) == KeyOf(calls[j].ctx.crypto, calls[j].req)
    ensures OutcomeAt(calls, store, i) == OutcomeAt(calls, store, j)
  {
    hide Run, KeyOf;
    SuccessIsFinal(calls, store, i);
    SuccessIsFinal(calls, store, j);
  }

  /** The calls of a run that succeed. */
  function Succeeding(calls: seq<Call>, store: Store): seq<Call> {
    if calls == [] then []
    else
      var (r, next) := Run(calls[0].ctx, calls[0].req, store);
      (if r.Success? then [calls[0]] else []) + Succeeding(calls[1..], next)
  }

  /** Failing calls leave no trace: without them the others all still succeed, and the store ends the same. */
  lemma {:induction false} FailuresKeepStore(calls: seq<Call>, store: Store)
    ensures StoreAfter(Succeeding(calls, store), store) == StoreAfter(calls, store)
    ensures forall i: nat | i < |Succeeding(calls, store)| :: OutcomeAt(Succeeding(calls, store), store, i).Success?
    decreases |calls|
  {
    hide Run;
    if calls != [] {
      var (r, next) := Run(calls[0].ctx, calls[0].req, store);
      RunStep(calls[0].ctx, calls[0].req, store);
      FailuresKeepStore(calls[1..], next);
      var rest := Succeeding(calls[1..], next);
      if r.Success? {
        assert ([calls[0]] + rest)[1..] == rest;
      } else {
        assert [] + rest == rest;
      }
    }
  }

  // ---------- what is stored ----------

  /** A receipt that names its key and carries the cid of its body and a signature over it. */
  predicate FiledUnder(c: Crypto, k: string, xr: Value, key: Key) {
    xr.Object? && Get(xr.members, "idempotency_key") == Some(String(k)) &&
    match Canonical(Object(Unsigned(xr.members)))
    case None => false
    case Some(canonical) =>
      Get(xr.members, "cid") == Some(String(CidOf(c, canonical))) &&
      Verified(c, Str(xr, ["sig"]), canonical, c.publicOf(key))
  }

  ghost predicate Filed(c: Crypto, store: Store, keys: set<Key>) {
    forall k | k in store :: exists key | key in keys :: FiledUnder(c, k, store[k], key)
  }

  lemma NewReceiptFiled(ctx: Context, req: Request, idemKey: string, ah: string)
    requires Lawful(ctx.crypto) && idemKey != ""
    ensures var xr := SignReceipt(ctx, ReceiptBody(ctx, req, idemKey, ah));
      xr.Some? && FiledUnder(ctx.crypto, idemKey, xr.value, ctx.key)
  {
    var body := ReceiptBody(ctx, req, idemKey, ah);
    ReceiptShape(ctx, req, idemKey, ah);
    hide ReceiptBody, Canonical, CidOf, Get, Verified, Unsigned, SetMember;
    FiniteCanonical(body);
    var canonical := Canonical(body).value;
    var cid, sig := CidOf(ctx.crypto, canonical), SignDetached(ctx.crypto, canonical, ctx.key, ctx.kid);
    SignedPlain(body, cid, sig);
    SignedVerifies(ctx.crypto, canonical, ctx.key, ctx.kid, false);
  }

  /** Signing a body without cid and sig: lookups, and the body back. */
  lemma SignedPlain(body: Value, cid: string, sig: string)
    requires body.Object? && Unambiguous(body) && !HasKey(body.members, "cid") && !HasKey(body.members, "sig")
    ensures var xr := Signed(body.members, cid, sig);
      Unsigned(xr.members) == body.members && Get(xr.members, "cid") == Some(String(cid)) &&
      Str(xr, ["sig"]) == sig && Get(xr.members, "idempotency_key") == Get(body.members, "idempotency_key")
  {
    hide Get, SetMember, DeleteMember, Path;
    var ms := body.members;
    MemberLaws.DeleteAbsent(ms, "cid");
    MemberLaws.DeleteAbsent(ms, "sig");
    assert BaseOf(body) == ms;
    TimLaws.UnsignedSigned(body, cid, sig);
    TimLaws.SignedLookup(body, cid, sig, "cid");
    TimLaws.SignedLookup(body, cid, sig, "sig");
    TimLaws.SignedLookup(body, cid, sig, "idempotency_key");
    TimLaws.OneStep(Signed(ms, cid, sig).members, "sig");
  }

  lemma RunFiles(ctx: Context, req: Request, store: Store, keys: set<Key>)
    requires Lawful(ctx.crypto) && Filed(ctx.crypto, store, keys) && ctx.key in keys
    ensures Filed(ctx.crypto, Run(ctx, req, store).1, keys)
  {
    hide Refusal, ReceiptBody, SignReceipt, FiledUnder;
    var idemKey := KeyOf(ctx.crypto, req);
    var ah := ArgsHash(ctx.crypto, req.args);
    if idemKey.Some? && ah.Some? { NewReceiptFiled(ctx, req, idemKey.value, ah.value); }
  }

  /**
   Over every run from a well-filed store, each receipt sits under its own key with the cid of its body,
   signed by a key of the run.
   */
  lemma {:induction false} StoreStaysFiled(c: Crypto, calls: seq<Call>, store: Store, keys: set<Key>)
    requires Lawful(c) && Filed(c, store, keys)
    requires forall i | 0 <= i < |calls| :: calls[i].ctx.crypto == c && calls[i].ctx.key in keys
    ensures Filed(c, StoreAfter(calls, store), keys)
    decreases |calls|
  {
    hide Run, Filed;
    if calls != [] {
      RunFiles(calls[0].ctx, calls[0].req, store, keys);
      StoreStaysFiled(c, calls[1..], Run(calls[0].ctx, calls[0].req, store).1, keys);
    }
  }

  // ---------- derived keys ----------

  lemma KeyPartsShape(argsHash: string, commitmentCid: string, rail: string, verb: string)
    ensures Unambiguous(KeyParts(argsHash, commitmentCid, rail, verb, 0))
    ensures Finite(KeyParts(argsHash, commitmentCid, rail, verb, 0))
    ensures var ms := KeyParts(argsHash, commitmentCid, rail, verb, 0).members;
      Get(ms, "args_hash") == Some(String(argsHash)) && Get(ms, "commitment_cid") == Some(String(commitmentCid)) &&
      Get(ms, "rail") == Some(String(rail)) && Get(ms, "verb") == Some(String(verb))
  {
    hide Get, Nat;
    var ms := KeyParts(argsHash, commitmentCid, rail, verb, 0).members;
    NatZero();
    GetAt(ms, 0);
    GetAt(ms, 1);
    GetAt(ms, 2);
    GetAt(ms, 3);
    ZeroFinite();
  }

  lemma NatZero()
    ensures Nat(0) == Number(D.ZERO)
  {
    assert D.Itoa(0) == "0" && D.Normalize(false, "0", [], 0) == D.ZERO;
  }

  lemma ZeroFinite()
    ensures !D.Overflows(D.ZERO)
  {
    D.ScaledEmpty(1);
  }

  /** Same documents have same strings at the same names. */
  lemma SameMember(a: Value, b: Value, i: nat, s: string, t: string)
    requires a.Object? && b.Object? && Same(a, b) && i < |a.members|
    requires a.members[i].value == String(s) && Get(b.members, a.members[i].key) == Some(String(t))
    ensures s == t
  {
  }

  function ArgsText(r: Request): string { Canonical(r.args).GetOr("") }

  /** The text a derived key is the cid of. */
  function PartsText(c: Crypto, r: Request): string {
    Canonical(KeyParts(ArgsHash(c, r.args).GetOr(""), r.commitmentCid, r.rail, r.verb, 0)).GetOr("")
  }

  /**
   Requests without a key of their own share a derived key only when they agree on commitment, verb
   and rail and have the same arguments, unless their two argument texts or the two texts the keys
   are derived from have one hash.
   */
  lemma DerivedKeysSeparate(c: Crypto, a: Request, b: Request)
    requires a.idempotencyKey == "" && b.idempotencyKey == ""
    requires Unambiguous(a.args) && Unambiguous(b.args)
    requires KeyOf(c, a).Some? && KeyOf(c, a) == KeyOf(c, b)
    ensures (a.commitmentCid == b.commitmentCid && a.verb == b.verb && a.rail == b.rail && Same(a.args, b.args)) ||
            Collision(c, ArgsText(a), ArgsText(b)) || Collision(c, PartsText(c, a), PartsText(c, b))
  {
    hide CidOf, Canonical, Same, Get, KeyParts;
    var ha, hb := ArgsHash(c, a.args).value, ArgsHash(c, b.args).value;
    var pa := KeyParts(ha, a.commitmentCid, a.rail, a.verb, 0);
    var pb := KeyParts(hb, b.commitmentCid, b.rail, b.verb, 0);
    KeyPartsShape(ha, a.commitmentCid, a.rail, a.verb);
    KeyPartsShape(hb, b.commitmentCid, b.rail, b.verb);
    SameCidSameValue(c, pa, pb);
    if Same(pa, pb) {
      SameParts(ha, hb, a, b);
      FiniteCanonical(a.args);
      FiniteCanonical(b.args);
      SameCidSameValue(c, a.args, b.args);
    }
  }

  lemma SameParts(ha: string, hb: string, a: Request, b: Request)
    requires Same(KeyParts(ha, a.commitmentCid, a.rail, a.verb, 0), KeyParts(hb, b.commitmentCid, b.rail, b.verb, 0))
    ensures ha == hb && a.commitmentCid == b.commitmentCid && a.rail == b.rail && a.verb == b.verb
  {
    hide Same, Get, Nat;
    var pa := KeyParts(ha, a.commitmentCid, a.rail, a.verb, 0);
    var pb := KeyParts(hb, b.commitmentCid, b.rail, b.verb, 0);
    KeyPartsShape(hb, b.commitmentCid, b.rail, b.verb);
    SameMember(pa, pb, 0, ha, hb);
    SameMember(pa, pb, 1, a.commitmentCid, b.commitmentCid);
    SameMember(pa, pb, 2, a.rail, b.rail);
    SameMember(pa, pb, 3, a.verb, b.verb);
  }
}
