/** did:key identities: the multicodec prefix, base58btc, and resolution back to a key. */
module DidKey {
  import opened Outcomes
  import opened Positional
  import opened Base58

  type PublicKey = k: seq<Byte> | |k| == 32 witness Repeat(0, 32)

  function ToMultibase(data: seq<Byte>): string { "z" + Encode(data) }

  function FromMultibase(s: string): Option<seq<Byte>> {
    if s != [] && s[0] == 'z' then Decode(s[1..]) else None
  }

  const CODEC: seq<Byte> := [0xed, 0x01]

  const PREFIX := "did:key:z6Mk"

  function FromPublic(pub: seq<Byte>): string { "did:key:" + ToMultibase(CODEC + pub) }

  /** The 32 bytes behind the Ed25519 multicodec, when that is all there is. */
  function KeyIn(decoded: seq<Byte>): Option<PublicKey> {
    if |decoded| != 34 || decoded[0] != 0xed || decoded[1] != 0x01 then None else Some(decoded[2..])
  }

  /** The multibase part of an identity with the right prefix. */
  function MultibaseOf(id: string): string
    requires PREFIX <= id
  {
    "z6Mk" + id[|PREFIX|..]
  }

  /** The key an identity names. */
  function Resolve(id: string): Option<PublicKey> {
    if !(PREFIX <= id) then None
    else
      var decoded :- FromMultibase(MultibaseOf(id));
      KeyIn(decoded)
  }

  // ---------- why every such identity starts with z6Mk ----------

  lemma Power58()
    ensures Up(1, 58, 44) == 389790918707373377135528568990913592653094657612049369038476873218241589149696
  {
    assert Up(1, 58, 1) == 58;
    UpPower(58, 1, 1);
    UpPower(58, 2, 2);
    UpPower(58, 4, 4);
    UpPower(58, 8, 2);
    UpPower(58, 10, 1);
    UpPower(58, 11, 11);
    UpPower(58, 22, 22);
  }

  /** 18023 is the value of the base58 digits 6, M, k. */
  const TOP := 18023

  /** Every 34-byte value with these two leading bytes has TOP above its low 44 digits. */
  lemma TopBounds()
    ensures Up(TOP, 58, 44) <= Up(0xed01, 256, 32)
    ensures Up(0xed01 + 1, 256, 32) <= Up(TOP + 1, 58, 44)
  {
    Power58();
    Bytes32();
    UpTimes(TOP, 1, 58, 44);
    UpTimes(TOP + 1, 1, 58, 44);
    UpTimes(0xed01, 1, 256, 32);
    UpTimes(0xed01 + 1, 1, 256, 32);
  }

  lemma DivideBelow(n: nat, b: nat, lo: nat, hi: nat)
    requires b >= 2 && b * lo <= n < b * hi
    ensures lo <= n / b < hi
  {
    Quotient(n, b);
    if n / b < lo { Spread(b, n / b, lo); }
    if n / b >= hi { if n / b > hi { Spread(b, hi, n / b); } }
  }

  /** The digits of a number between top * 58^k and (top + 1) * 58^k start with top's digits. */
  lemma {:induction false} TopDigits(n: nat, top: nat, k: nat)
    requires top > 0 && Up(top, 58, k) <= n < Up(top + 1, 58, k)
    ensures DigitsOf(top, 58) <= DigitsOf(n, 58)
  {
    if k > 0 {
      DivideBelow(n, 58, Up(top, 58, k - 1), Up(top + 1, 58, k - 1));
      TopDigits(n / 58, top, k - 1);
      if n > 0 { assert DigitsOf(n, 58) == DigitsOf(n / 58, 58) + [n % 58]; }
    } else {
      assert n == top;
    }
  }

  lemma KeyValue(pub: PublicKey)
    ensures Up(0xed01, 256, 32) <= Val(CODEC + pub, 256) < Up(0xed01 + 1, 256, 32)
  {
    ValConcat(CODEC, pub, 256);
    assert CODEC == [0xed] + [0x01];
    Snoc([0xed], 0x01, 256);
    Single(0xed, 256);
    ValBound(pub, 256);
    UpSum(0xed01, 1, 256, 32);
  }

  lemma TopSpelling()
    ensures DigitsOf(TOP, 58) == [5, 20, 43]
    ensures Chars([5, 20, 43]) == "6Mk"
  {
    assert TOP / 58 == 310 && TOP % 58 == 43 && 310 / 58 == 5 && 310 % 58 == 20;
    assert DigitsOf(5, 58) == [5] by { assert DigitsOf(0, 58) == []; assert [] + [5] == [5]; }
    assert DigitsOf(310, 58) == [5] + [20];
    assert DigitsOf(TOP, 58) == [5] + [20] + [43];
  }

  lemma CharsPrefix(a: seq<nat>, b: seq<nat>)
    requires DigitsBelow(b, 58) && a <= b
    ensures DigitsBelow(a, 58) && Chars(a) <= Chars(b)
  {
    assert forall i | 0 <= i < |a| :: a[i] == b[i];
  }

  lemma EncodedTop(pub: PublicKey)
    ensures "6Mk" <= Encode(CODEC + pub)
  {
    var data := CODEC + pub;
    var digits := DigitsOf(Val(data, 256), 58);
    TopBounds();
    KeyValue(pub);
    TopDigits(Val(data, 256), TOP, 44);
    TopSpelling();
    CharsPrefix([5, 20, 43], digits);
    LeadingExact<nat>(0, 0, data);
    assert Repeat(0, 0) + data == data;
    assert Encode(data) == Chars(digits);
  }

  /** Every identity made from a 32-byte key starts with did:key:z6Mk. */
  lemma StartsZ6Mk(pub: PublicKey)
    ensures PREFIX <= FromPublic(pub)
  {
    EncodedTop(pub);
    PrefixGrows("did:key:z", "6Mk", Encode(CODEC + pub));
    assert PREFIX == "did:key:z" + "6Mk";
    assert FromPublic(pub) == "did:key:z" + Encode(CODEC + pub);
  }

  lemma PrefixGrows(a: string, b: string, c: string)
    requires b <= c
    ensures a + b <= a + c
  {
  }

  // ---------- the two directions ----------

  lemma Rejoin(id: string, pub: seq<Byte>)
    requires PREFIX <= id
    ensures MultibaseOf(id)[0] == 'z'
    ensures id == FromPublic(pub) <==> MultibaseOf(id)[1..] == Encode(CODEC + pub)
  {
    var mb := MultibaseOf(id);
    assert PREFIX == "did:key:" + "z6Mk";
    assert id == PREFIX + id[|PREFIX|..];
    assert id == "did:key:" + mb;
    assert mb == "z" + mb[1..];
    assert id[8..] == mb;
    assert FromPublic(pub)[8..] == "z" + Encode(CODEC + pub);
    assert ("z" + Encode(CODEC + pub))[1..] == Encode(CODEC + pub);
  }

  lemma KeyInCodec(pub: PublicKey)
    ensures KeyIn(CODEC + pub) == Some(pub)
  {
    var data: seq<Byte> := CODEC + pub;
    assert data[2..] == pub;
  }

  lemma ResolveParts(id: string, decoded: seq<Byte>)
    requires PREFIX <= id && MultibaseOf(id)[0] == 'z' && Decode(MultibaseOf(id)[1..]) == Some(decoded)
    ensures Resolve(id) == KeyIn(decoded)
  {
  }

  /** A key's identity resolves to that key. */
  lemma ResolveFromPublic(pub: PublicKey)
    ensures Resolve(FromPublic(pub)) == Some(pub)
  {
    var id := FromPublic(pub);
    StartsZ6Mk(pub);
    Rejoin(id, pub);
    DecodeEncode(CODEC + pub);
    ResolveParts(id, CODEC + pub);
    KeyInCodec(pub);
  }

  lemma CodecBack(decoded: seq<Byte>)
    requires KeyIn(decoded).Some?
    ensures CODEC + KeyIn(decoded).value == decoded
  {
  }

  /** An identity that resolves is the identity of the key it resolves to. */
  lemma FromPublicResolve(id: string)
    requires Resolve(id).Some?
    ensures FromPublic(Resolve(id).value) == id
  {
    var body := MultibaseOf(id)[1..];
    EncodeDecode(body);
    CodecBack(Decode(body).value);
    Rejoin(id, Resolve(id).value);
  }
}
