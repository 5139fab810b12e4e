/** Execution with idempotency: pre-checks, key derivation, and the receipt store. */
module Settler {
  import opened Outcomes
  import opened Json
  import opened Canonicalize
  import opened Jws
  import opened Tim
  import D = Decimals
  import Kernel

  datatype Request = Request(verb: string, rail: string, args: Value, commitmentCid: string,
                             requestId: string, idempotencyKey: string)

  datatype Outcome = Failed(errors: seq<string>, missing: seq<string>) | Success(receipt: Value)

  /** Idempotency key to receipt. */
  type Store = map<string, Value>

  /** Signing material and the run's fixed texts. */
  datatype Context = Context(crypto: Crypto, key: Key, kid: string, ts: string, anchorTarget: string)

  // ---------- pre-checks ----------

  function RequiredArgs(verb: string): seq<string> {
    if verb == "arky:verb/pay@v1" then ["to", "amount"]
    else if verb == "arky:verb/refund@v1" then ["payment_ref"]
    else if verb == "arky:verb/slash@v1" then ["subject", "amount"]
    else if verb == "arky:verb/revoke@v1" then ["subject"]
    else if verb == "arky:verb/upgrade@v1" then ["target", "version"]
    else if verb == "arky:verb/signal@v1" then ["channel"]
    else if verb == "arky:verb/control@v1" then ["action"]
    else []
  }

  function MissingArgs(args: Value, names: seq<string>): seq<string> {
    if names == [] then []
    else (if Path(args, [names[0]]).None? then [names[0]] else []) + MissingArgs(args, names[1..])
  }

  /** The offending field of a present amount: an object with a positive finite value and a unit. */
  function AmountFault(args: Value): string {
    match Path(args, ["amount"])
    case None => ""
    case Some(Object(ms)) =>
      (match Get(ms, "value")
       case Some(Number(n)) =>
         if D.Overflows(n) || D.ValueOf(n) <= 0.0 then "amount.value"
         else (match Get(ms, "unit")
               case Some(String(u)) => if u == "" then "amount.unit" else ""
               case _ => "amount.unit")
       case _ => "amount.value")
    case Some(_) => "amount"
  }

  predicate RailSupported(rail: string) { !("unknown:" <= rail) }

  /** The failure of a request that does not pass the checks, in their order: verb, arguments, rail. */
  function Refusal(req: Request): (r: Option<Outcome>)
    ensures r.Some? ==> r.value.Failed?
  {
    if req.verb !in Kernel.REGISTERED then Some(Failed(["settler.unknown_verb"], []))
    else if MissingArgs(req.args, RequiredArgs(req.verb)) != [] then
      Some(Failed(["settler.invalid_args"], MissingArgs(req.args, RequiredArgs(req.verb))))
    else if AmountFault(req.args) != "" then Some(Failed(["settler.invalid_args"], [AmountFault(req.args)]))
    else if !RailSupported(req.rail) then Some(Failed(["settler.unsupported_rail"], []))
    else None
  }

  // ---------- keys and receipts ----------

  function ArgsHash(c: Crypto, args: Value): Option<string> { CidOfValue(c, args) }

  function Nat(n: nat): Value { Number(D.Normalize(false, D.Itoa(n), [], 0)) }

  /** What a derived key is the hash of. */
  function KeyParts(argsHash: string, commitmentCid: string, rail: string, verb: string, verbIndex: nat): Value {
    Object([Member("args_hash", String(argsHash)), Member("commitment_cid", String(commitmentCid)),
            Member("rail", String(rail)), Member("verb", String(verb)), Member("verb_index", Nat(verbIndex))])
  }

  function DeriveKey(c: Crypto, commitmentCid: string, verb: string, rail: string, args: Value, verbIndex: nat):
    Option<string>
  {
    var argsHash :- ArgsHash(c, args);
    CidOfValue(c, KeyParts(argsHash, commitmentCid, rail, verb, verbIndex))
  }

  /** The key a request is filed under. */
  function KeyOf(c: Crypto, req: Request): (r: Option<string>)
    ensures r.Some? ==> r.value != ""
  {
    if req.idempotencyKey != "" then Some(req.idempotencyKey)
    else DeriveKey(c, req.commitmentCid, req.verb, req.rail, req.args, 0)
  }

  function Truncate(s: string, n: nat): string { if |s| < n then s else s[..n] }

  function Anchor(target: string, rest: string): Value {
    Object([Member("target", String(target)), Member("locator", String("batch-" + Truncate(rest, 9))),
            Member("status", String("pending"))])
  }

  /** The receipt's body for a key. */
  function ReceiptBody(ctx: Context, req: Request, idemKey: string, argsHash: string): Value
    requires idemKey != ""
  {
    Object([Member("request_id",
        String(if req.requestId == "" then "exec-" + Truncate(idemKey, 12) else req.requestId)),
            Member("commitment_cid", String(req.commitmentCid)),
            Member("verb", String(req.verb)),
            Member("rail", String(req.rail)),
            Member("args_hash", String(argsHash)),
            Member("idempotency_key", String(idemKey)),
            Member("status", String("success")),
            Member("locator", String("MOCK-" + Truncate(idemKey[1..], 17))),
            Member("anchors", Array([Anchor(ctx.anchorTarget, idemKey[1..])])),
            Member("ts", String(ctx.ts))])
  }

  function SignReceipt(ctx: Context, body: Value): Option<Value>
    requires body.Object?
  {
    var canonical :- Canonical(body);
    Some(Signed(body.members, CidOf(ctx.crypto, canonical), SignDetached(ctx.crypto, canonical, ctx.key, ctx.kid)))
  }

  // ---------- execution ----------

  /** The outcome, and the store afterwards. */
  function Run(ctx: Context, req: Request, store: Store): (Outcome, Store) {
    var invalid := Failed(["settler.invalid_args"], []);
    if Refusal(req).Some? then (Refusal(req).value, store)
    else match KeyOf(ctx.crypto, req)
      case None => (invalid, store)
      case Some(idemKey) =>
        if idemKey in store then (Success(store[idemKey]), store)
        else match ArgsHash(ctx.crypto, req.args)
          case None => (invalid, store)
          case Some(argsHash) =>
            match SignReceipt(ctx, ReceiptBody(ctx, req, idemKey, argsHash))
            case None => (invalid, store)
            case Some(xr) => (Success(xr), store[idemKey := xr])
  }

  /** A settler with its store. */
  class Ledger {
    var store: Store

    constructor ()
      ensures store == map[]
    {
      store := map[];
    }

    method Execute(ctx: Context, req: Request) returns (r: Outcome)
      requires Unambiguous(req.args)
      modifies this
      ensures (r, store) == Run(ctx, req, old(store))
    {
      hide MissingArgs, AmountFault, RailSupported, KeyOf, ArgsHash, ReceiptBody, SignReceipt;
      if req.verb !in Kernel.REGISTERED { return Failed(["settler.unknown_verb"], []); }
      var missing := FindMissing(req.args, RequiredArgs(req.verb));
      if |missing| > 0 { return Failed(["settler.invalid_args"], missing); }
      var field := AmountFault(req.args);
      if field != "" { return Failed(["settler.invalid_args"], [field]); }
      if !RailSupported(req.rail) { return Failed(["settler.unsupported_rail"], []); }
      var idemKey := KeyOf(ctx.crypto, req);
      if idemKey.None? { return Failed(["settler.invalid_args"], []); }
      if idemKey.value in store { return Success(store[idemKey.value]); }
      var ah := ArgsHash(ctx.crypto, req.args);
      if ah.None? { return Failed(["settler.invalid_args"], []); }
      var xr := MakeReceipt(ctx, req, idemKey.value, ah.value);
      if xr.None? { return Failed(["settler.invalid_args"], []); }
      store := store[idemKey.value := xr.value];
      r := Success(xr.value);
    }
  }

  method FindMissing(args: Value, names: seq<string>) returns (missing: seq<string>)
    ensures missing == MissingArgs(args, names)
  {
    hide Path;
    missing := [];
    assert names[0..] == names;
    for i := 0 to |names|
      invariant missing + MissingArgs(args, names[i..]) == MissingArgs(args, names)
    {
      assert names[i..][1..] == names[i + 1..];
      if Path(args, [names[i]]).None? { missing := missing + [names[i]]; }
    }
  }

  /** Canonicalize the body, then set cid and sig on a copy. */
  method MakeReceipt(ctx: Context, req: Request, idemKey: string, ah: string) returns (r: Option<Value>)
    requires idemKey != ""
    ensures r == SignReceipt(ctx, ReceiptBody(ctx, req, idemKey, ah))
  {
    var body := ReceiptBody(ctx, req, idemKey, ah);
    ReceiptShape(ctx, req, idemKey, ah);
    hide ReceiptBody, Canonical, SignDetached, CidOf;
    var canonical := CanonicalizeValue(body);
    if canonical.None? { return None; }
    var xr := Clone(body.members);
    xr.Set("cid", String(CidOf(ctx.crypto, canonical.value)));
    xr.Set("sig", String(SignDetached(ctx.crypto, canonical.value, ctx.key, ctx.kid)));
    r := Some(Object(xr.Members()));
  }

  /** A receipt's body is well formed, holds its key, and has neither cid nor sig. */
  lemma ReceiptShape(ctx: Context, req: Request, idemKey: string, ah: string)
    requires idemKey != ""
    ensures var body := ReceiptBody(ctx, req, idemKey, ah);
      Unambiguous(body) && Finite(body) && Get(body.members, "idempotency_key") == Some(String(idemKey)) &&
      !HasKey(body.members, "cid") && !HasKey(body.members, "sig")
  {
    hide Get, Truncate, Anchor;
    var body := ReceiptBody(ctx, req, idemKey, ah);
    var anchors := Array([Anchor(ctx.anchorTarget, idemKey[1..])]);
    AnchorShape(ctx.anchorTarget, idemKey[1..]);
    assert Unambiguous(anchors) && Finite(anchors);
    var ms := body.members;
    assert ms[8].value == anchors && forall i | 0 <= i < |ms| && i != 8 :: ms[i].value.String?;
    ReceiptKeys(ctx, req, idemKey, ah);
    GetAt(ms, 5);
  }

  lemma ReceiptKeys(ctx: Context, req: Request, idemKey: string, ah: string)
    requires idemKey != ""
    ensures var ms := ReceiptBody(ctx, req, idemKey, ah).members;
      DistinctKeys(ms) && !HasKey(ms, "cid") && !HasKey(ms, "sig") && |ms| == 10 && ms[5].key == "idempotency_key"
  {
    hide Truncate, Anchor;
  }

  lemma AnchorShape(target: string, rest: string)
    ensures Unambiguous(Anchor(target, rest)) && Finite(Anchor(target, rest))
  {
  }
}
