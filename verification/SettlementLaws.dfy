/**
 Which requests are executed, and what their receipts say.

 A request succeeds exactly when its verb is known and has the arguments it needs, an amount, if there
 is one, is positive and has a unit, the rail is not marked unknown, and either its own key has a
 receipt already or its arguments have canonical text.  A new receipt repeats the request.
 */
module SettlementLaws {
  import opened Outcomes
  import opened Json
  import opened Jws
  import opened Settler
  import D = Decimals
  import Canonicalize
  import Kernel
  import MemberLaws
  import Records
  import SettlerLaws
  import Tim
  import TimLaws

  // ---------- what a request needs ----------

  predicate Has(args: Value, name: string) { Path(args, [name]).Some? }

  /** The verb is one of seven, and the arguments have what it needs. */
  predicate VerbServed(verb: string, args: Value) {
    (verb == "arky:verb/pay@v1" && Has(args, "to") && Has(args, "amount")) ||
    (verb == "arky:verb/refund@v1" && Has(args, "payment_ref")) ||
    (verb == "arky:verb/slash@v1" && Has(args, "subject") && Has(args, "amount")) ||
    (verb == "arky:verb/revoke@v1" && Has(args, "subject")) ||
    (verb == "arky:verb/upgrade@v1" && Has(args, "target") && Has(args, "version")) ||
    (verb == "arky:verb/signal@v1" && Has(args, "channel")) ||
    (verb == "arky:verb/control@v1" && Has(args, "action"))
  }

  /** No amount, or a positive finite one with a unit. */
  predicate AmountServed(args: Value) {
    Has(args, "amount") ==>
      (match Path(args, ["amount", "value"])
       case Some(Number(n)) => !D.Overflows(n) && D.ValueOf(n) > 0.0
       case _ => false) &&
      match Path(args, ["amount", "unit"])
      case Some(String(u)) => u != ""
      case _ => false
  }

  predicate Acceptable(req: Request) {
    VerbServed(req.verb, req.args) && AmountServed(req.args) && !("unknown:" <= req.rail)
  }

  // ---------- the checks are these ----------

  lemma MissingOne(args: Value, a: string)
    ensures MissingArgs(args, [a]) == [] <==> Has(args, a)
  {
    hide Path;
    assert [a][1..] == [];
  }

  lemma MissingTwo(args: Value, a: string, b: string)
    ensures MissingArgs(args, [a, b]) == [] <==> Has(args, a) && Has(args, b)
  {
    hide Path;
    assert [a, b][1..] == [b];
    MissingOne(args, b);
    assert MissingArgs(args, [a, b]) == (if Path(args, [a]).None? then [a] else []) + MissingArgs(args, [b]);
  }

  /** The verbs' names, and the texts that tell them apart. */
  function Verbs(): (r: seq<string>)
    ensures |r| == 7 && forall i, j | 0 <= i < j < 7 :: r[i] != r[j]
  {
    var r := ["arky:verb/pay@v1", "arky:verb/refund@v1", "arky:verb/slash@v1", "arky:verb/revoke@v1",
              "arky:verb/upgrade@v1", "arky:verb/signal@v1", "arky:verb/control@v1"];
    assert |r[0]| == 16 && |r[1]| == 19 && |r[2]| == 18 && |r[3]| == 19 && |r[4]| == 20 && |r[5]| == 19 && |r[6]| == 20;
    assert r[1][12] != r[3][12] && r[5][10] != r[3][10] && r[5][10] != r[1][10] && r[4][10] != r[6][10];
    r
  }

  lemma RegisteredIff(verb: string)
    ensures verb in Kernel.REGISTERED <==> verb in Verbs()
  {
    var r := Verbs();
    assert Kernel.REGISTERED == {r[0], r[1], r[3], r[2], r[4], r[5], r[6]};
  }

  /** What each verb needs, and that it serves no other. */
  lemma Needs(args: Value, i: nat)
    requires i < 7
    ensures VerbServed(Verbs()[i], args) == (MissingArgs(args, RequiredArgs(Verbs()[i])) == [])
  {
    hide MissingArgs, Has;
    var r := Verbs();
    assert forall j | 0 <= j < 7 && j != i :: r[i] != r[j];
    MissingTwo(args, "to", "amount");
    MissingOne(args, "payment_ref");
    MissingTwo(args, "subject", "amount");
    MissingOne(args, "subject");
    MissingTwo(args, "target", "version");
    MissingOne(args, "channel");
    MissingOne(args, "action");
  }

  lemma ServedIsListed(verb: string, args: Value)
    requires VerbServed(verb, args)
    ensures verb in Verbs()
  {
    hide Has;
    var r := Verbs();
    assert r[0] in r && r[1] in r && r[2] in r && r[3] in r && r[4] in r && r[5] in r && r[6] in r;
  }

  lemma VerbIff(verb: string, args: Value)
    ensures verb in Kernel.REGISTERED && MissingArgs(args, RequiredArgs(verb)) == [] <==> VerbServed(verb, args)
  {
    hide MissingArgs, RequiredArgs, VerbServed, Verbs, Kernel.REGISTERED;
    RegisteredIff(verb);
    if verb in Verbs() {
      var i :| 0 <= i < 7 && Verbs()[i] == verb;
      Needs(args, i);
    }
    if VerbServed(verb, args) { ServedIsListed(verb, args); }
  }

  lemma AmountPath(args: Value, key: string)
    requires Path(args, ["amount"]).Some?
    ensures var v := Path(args, ["amount"]).value;
      Path(args, ["amount", key]) == if v.Object? then Get(v.members, key) else None
  {
    hide Get, Path;
    AmountOfObject(args);
    TimLaws.TwoStep(args, "amount", key);
    TimLaws.PathStep(args.members, "amount", [key]);
    TimLaws.OneStep(args.members, "amount");
    var v := Path(args, ["amount"]).value;
    if v.Object? { TimLaws.OneStep(v.members, key); } else { NothingIn(v, key); }
  }

  lemma AmountOfObject(args: Value)
    requires Path(args, ["amount"]).Some?
    ensures args.Object?
  {
  }

  lemma NothingIn(v: Value, key: string)
    requires !v.Object?
    ensures Path(v, [key]) == None
  {
  }

  /** The fault, case by case. */
  lemma FaultOf(args: Value)
    requires Has(args, "amount")
    ensures var v := Path(args, ["amount"]).value;
      (AmountFault(args) == "") ==
      (v.Object? && Get(v.members, "value").Some? && Get(v.members, "value").value.Number? &&
       !D.Overflows(Get(v.members, "value").value.num) && D.ValueOf(Get(v.members, "value").value.num) > 0.0 &&
       Get(v.members, "unit").Some? && Get(v.members, "unit").value.String? && Get(v.members, "unit").value.text != "")
  {
    hide Path, Get, D.ValueOf, D.Overflows;
    assert "amount" != "" && "amount.value" != "" && "amount.unit" != "";
    var v := Path(args, ["amount"]).value;
    if v.Object? {
      var value := Get(v.members, "value");
      if value.Some? && value.value.Number? && !D.Overflows(value.value.num) && D.ValueOf(value.value.num) > 0.0 {
        var unit := Get(v.members, "unit");
        assert AmountFault(args) ==
               if unit.Some? && unit.value.String? && unit.value.text != "" then "" else "amount.unit";
      } else {
        assert AmountFault(args) == "amount.value";
      }
    } else {
      assert AmountFault(args) == "amount";
    }
  }

  lemma AmountIff(args: Value)
    ensures AmountFault(args) == "" <==> AmountServed(args)
  {
    hide Path, Get, D.ValueOf, D.Overflows;
    if Has(args, "amount") {
      AmountPath(args, "value");
      AmountPath(args, "unit");
      var v := Path(args, ["amount"]).value;
      FaultOf(args);
      if v.Object? {
        var value, unit := Get(v.members, "value"), Get(v.members, "unit");
        assert AmountServed(args) ==
               (value.Some? && value.value.Number? && !D.Overflows(value.value.num) &&
                D.ValueOf(value.value.num) > 0.0 && unit.Some? && unit.value.String? && unit.value.text != "");
      }
    }
  }

  lemma RefusalIff(req: Request)
    ensures Refusal(req).None? <==> Acceptable(req)
  {
    hide MissingArgs, RequiredArgs, AmountFault, VerbServed, AmountServed;
    VerbIff(req.verb, req.args);
    AmountIff(req.args);
  }

  // ---------- success ----------

  lemma KeyIff(c: Crypto, req: Request)
    requires Unambiguous(req.args)
    ensures KeyOf(c, req).Some? <==> req.idempotencyKey != "" || Finite(req.args)
    ensures ArgsHash(c, req.args).Some? <==> Finite(req.args)
    ensures req.idempotencyKey != "" ==> KeyOf(c, req) == Some(req.idempotencyKey)
  {
    hide CidOf, KeyParts, Finite;
    FiniteCanonical(req.args);
    if Finite(req.args) {
      var ah := ArgsHash(c, req.args).value;
      SettlerLaws.KeyPartsShape(ah, req.commitmentCid, req.rail, req.verb);
      FiniteCanonical(KeyParts(ah, req.commitmentCid, req.rail, req.verb, 0));
    }
  }

  lemma ReceiptSigns(ctx: Context, req: Request, idemKey: string, ah: string)
    requires idemKey != ""
    ensures SignReceipt(ctx, ReceiptBody(ctx, req, idemKey, ah)).Some?
  {
    hide ReceiptBody, Finite;
    ReceiptShape(ctx, req, idemKey, ah);
    FiniteCanonical(ReceiptBody(ctx, req, idemKey, ah));
  }

  /** The receipt was made for this request and key. */
  ghost predicate ReceiptFor(ctx: Context, req: Request, xr: Value) {
    ArgsHash(ctx.crypto, req.args).Some? && KeyOf(ctx.crypto, req).Some? &&
    SignReceipt(ctx, ReceiptBody(ctx, req, KeyOf(ctx.crypto, req).value, ArgsHash(ctx.crypto, req.args).value)) ==
        Some(xr)
  }

  /** A request succeeds exactly when it is acceptable and is known by its key or has canonical arguments. */
  lemma SucceedsIff(ctx: Context, req: Request, store: Store)
    requires Unambiguous(req.args)
    ensures var (r, next) := Run(ctx, req, store);
      r.Success? == (Acceptable(req) &&
                     ((req.idempotencyKey != "" && req.idempotencyKey in store) || Finite(req.args))) &&
      (r.Success? && next != store ==> ReceiptFor(ctx, req, r.receipt))
  {
    hide Refusal, KeyOf, ArgsHash, ReceiptBody, SignReceipt, Acceptable, Finite;
    RefusalIff(req);
    KeyIff(ctx.crypto, req);
    if KeyOf(ctx.crypto, req).Some? && ArgsHash(ctx.crypto, req.args).Some? {
      ReceiptSigns(ctx, req, KeyOf(ctx.crypto, req).value, ArgsHash(ctx.crypto, req.args).value);
    }
  }

  lemma ReceiptField(ctx: Context, req: Request, idemKey: string, ah: string, key: string)
    requires idemKey != "" && SignReceipt(ctx, ReceiptBody(ctx, req, idemKey, ah)).Some? && key != "cid" && key != "sig"
    ensures Path(SignReceipt(ctx, ReceiptBody(ctx, req, idemKey, ah)).value, [key]) ==
            Path(ReceiptBody(ctx, req, idemKey, ah), [key])
  {
    hide Path, CidOf, SignDetached, SetMember, DeleteMember, Truncate, Anchor, Finite;
    ReceiptShape(ctx, req, idemKey, ah);
    var body := ReceiptBody(ctx, req, idemKey, ah);
    Unsealed(body);
    var xr := SignReceipt(ctx, body).value;
    var canonical := Canonicalize.Canonical(body).value;
    TimLaws.SamePath(body, CidOf(ctx.crypto, canonical), SignDetached(ctx.crypto, canonical, ctx.key, ctx.kid), key,
        []);
    assert [key] + [] == [key];
  }

  lemma Unsealed(body: Value)
    requires body.Object? && !HasKey(body.members, "cid") && !HasKey(body.members, "sig")
    ensures Tim.BaseOf(body) == body.members
  {
    hide DeleteMember;
    MemberLaws.DeleteAbsent(body.members, "cid");
    MemberLaws.DeleteAbsent(body.members, "sig");
  }

  lemma BodyField(ctx: Context, req: Request, idemKey: string, ah: string, i: nat)
    requires idemKey != "" && i < 10
    ensures var ms := ReceiptBody(ctx, req, idemKey, ah).members;
      |ms| == 10 && Path(ReceiptBody(ctx, req, idemKey, ah), [ms[i].key]) == Some(ms[i].value)
  {
    hide Get, Path, Truncate, Anchor;
    ReceiptKeys(ctx, req, idemKey, ah);
    Records.Field(ReceiptBody(ctx, req, idemKey, ah).members, i, ReceiptBody(ctx, req, idemKey, ah).members[i].key);
  }

  /** A new receipt repeats the request under its key, with the hash of its arguments, as a success. */
  lemma ReceiptSays(ctx: Context, req: Request, xr: Value)
    requires ReceiptFor(ctx, req, xr)
    ensures Str(xr, ["commitment_cid"]) == req.commitmentCid && Str(xr, ["verb"]) == req.verb
    ensures Str(xr, ["rail"]) == req.rail && Some(Str(xr, ["args_hash"])) == ArgsHash(ctx.crypto, req.args)
    ensures Some(Str(xr, ["idempotency_key"])) == KeyOf(ctx.crypto, req) && Str(xr, ["status"]) == "success"
    ensures Str(xr, ["ts"]) == ctx.ts && (req.requestId != "" ==> Str(xr, ["request_id"]) == req.requestId)
  {
    hide Path, Get, SignReceipt, Truncate, Anchor, KeyOf, ArgsHash;
    var k, ah := KeyOf(ctx.crypto, req).value, ArgsHash(ctx.crypto, req.args).value;
    FieldAt(ctx, req, xr, 0, "request_id");
    FieldAt(ctx, req, xr, 1, "commitment_cid");
    FieldAt(ctx, req, xr, 2, "verb");
    FieldAt(ctx, req, xr, 3, "rail");
    FieldAt(ctx, req, xr, 4, "args_hash");
    FieldAt(ctx, req, xr, 5, "idempotency_key");
    FieldAt(ctx, req, xr, 6, "status");
    FieldAt(ctx, req, xr, 9, "ts");
  }

  lemma FieldAt(ctx: Context, req: Request, xr: Value, i: nat, key: string)
    requires ReceiptFor(ctx, req, xr) && i < 10 && key != "cid" && key != "sig"
    requires var k, ah := KeyOf(ctx.crypto, req).value, ArgsHash(ctx.crypto, req.args).value;
      |ReceiptBody(ctx, req, k, ah).members| == 10 && ReceiptBody(ctx, req, k, ah).members[i].key == key
    ensures var k, ah := KeyOf(ctx.crypto, req).value, ArgsHash(ctx.crypto, req.args).value;
      Path(xr, [key]) == Some(ReceiptBody(ctx, req, k, ah).members[i].value)
  {
    hide Path, SignReceipt, ReceiptBody, KeyOf, ArgsHash;
    var k, ah := KeyOf(ctx.crypto, req).value, ArgsHash(ctx.crypto, req.args).value;
    BodyField(ctx, req, k, ah, i);
    ReceiptField(ctx, req, k, ah, key);
  }
}
