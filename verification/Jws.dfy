/** Content identifiers and detached JWS signatures, over abstract hashing, base64url and Ed25519. */
module Jws {
  import opened Outcomes
  import opened Json
  import opened Canonicalize
  import opened Base58
  import opened DidKey
  import opened JsonGrammar
  import opened JsonRoundTrip
  import JsonDuplicates

  type Key = seq<Byte>
  type Digest = d: seq<Byte> | |d| == 32 witness Repeat(0, 32)

  /**
   Foreign code: SHA-256 of UTF-8 text, Ed25519 over text, and base64url without padding.  What is
   encoded, text or signature, is a string; a signature has a character for each of its bytes.
   */
  datatype Crypto = Crypto(sha256: string -> Digest,
                           publicOf: Key -> PublicKey,
                           sign: (Key, string) -> string,
                           verify: (PublicKey, string, string) -> bool,
                           base64: string -> string,
                           unbase64: string -> Option<string>)

  const SIGNATURE_SIZE := 64

  predicate Signs(c: Crypto, key: Key, message: string) {
    |c.sign(key, message)| == SIGNATURE_SIZE && c.verify(c.publicOf(key), message, c.sign(key, message))
  }

  predicate Encodes(c: Crypto, text: string) {
    c.unbase64(c.base64(text)) == Some(text) && '.' !in c.base64(text) && (text != "" ==> c.base64(text) != "")
  }

  /**
   A signature has its fixed size and verifies under its own key; base64url decodes to what was encoded
   and has no dot.
   */
  ghost predicate Lawful(c: Crypto) {
    (forall key, message :: Signs(c, key, message)) && forall text :: Encodes(c, text)
  }

  // ---------- content identifiers ----------

  function CidOf(c: Crypto, canonical: string): string { ToMultibase([0x12, 0x20] + c.sha256(canonical)) }

  /** An identifier is multibase text of the multihash: the code of SHA-256, the length, and the digest. */
  lemma CidReads(c: Crypto, canonical: string)
    ensures FromMultibase(CidOf(c, canonical)) == Some([0x12, 32] + c.sha256(canonical))
    ensures CidOf(c, canonical)[0] == 'z'
  {
    Base58.DecodeEncode([0x12, 0x20] + c.sha256(canonical));
  }

  /** Two different texts with one hash. */
  predicate Collision(c: Crypto, x: string, y: string) { x != y && c.sha256(x) == c.sha256(y) }

  /** Equal identifiers mean equal texts, or a collision is in hand. */
  lemma CidCollision(c: Crypto, x: string, y: string)
    requires CidOf(c, x) == CidOf(c, y)
    ensures x == y || Collision(c, x, y)
  {
    var a, b := [0x12, 0x20] + c.sha256(x), [0x12, 0x20] + c.sha256(y);
    assert Encode(a) == ToMultibase(a)[1..] == ToMultibase(b)[1..] == Encode(b);
    EncodeInjective(a, b);
    assert c.sha256(x) == a[2..] && c.sha256(y) == b[2..];
  }

  /** The identifier of a value, none when it has no canonical text. */
  function CidOfValue(c: Crypto, v: Value): Option<string> {
    var canonical :- Canonical(v);
    Some(CidOf(c, canonical))
  }

  /** Equal identifiers of values mean the same value up to member order, or a collision. */
  lemma SameCidSameValue(c: Crypto, v: Value, w: Value)
    requires Unambiguous(v) && Finite(v) && Unambiguous(w) && Finite(w)
    requires CidOfValue(c, v) == CidOfValue(c, w)
    ensures Same(v, w) || Collision(c, Canonical(v).value, Canonical(w).value)
  {
    hide CidOf, Canonical, Same;
    FiniteCanonical(v);
    FiniteCanonical(w);
    CidCollision(c, Canonical(v).value, Canonical(w).value);
    CanonicalIff(v, w);
  }

  lemma FiniteCanonical(v: Value)
    ensures Canonical(v).Some? <==> Finite(v)
  {
  }

  // ---------- compact serialization ----------

  /** The parts of a text between dots. */
  function Split(s: string): (r: seq<string>)
    ensures r != []
  {
    if s == "" then [""]
    else
      var rest := Split(s[1..]);
      if s[0] == '.' then [""] + rest else [[s[0]] + rest[0]] + rest[1..]
  }

  lemma {:induction false} SplitAt(a: string, s: string)
    requires '.' !in a
    ensures Split(a + "." + s) == [a] + Split(s)
  {
    if a == "" {
      assert a + "." + s == "." + s && ("." + s)[1..] == s;
    } else {
      assert a[0] in a && '.' !in a[1..];
      SplitAt(a[1..], s);
      var t := a + "." + s;
      assert t[1..] == a[1..] + "." + s && t[0] == a[0];
      assert ([a[1..]] + Split(s))[1..] == Split(s);
      assert [a[0]] + a[1..] == a;
    }
  }

  lemma {:induction false} SplitNone(a: string)
    requires '.' !in a
    ensures Split(a) == [a]
  {
    if a != "" {
      assert a[0] in a && '.' !in a[1..];
      SplitNone(a[1..]);
      assert [a[0]] + a[1..] == a;
    }
  }

  lemma SplitCompact(a: string, b: string)
    requires '.' !in a && '.' !in b
    ensures Split(a + ".." + b) == [a, "", b]
  {
    assert a + ".." + b == a + "." + ("" + "." + b);
    SplitAt(a, "" + "." + b);
    SplitAt("", b);
    SplitNone(b);
  }

  function SigningInput(protectedPart: string, payload: string): string { protectedPart + "." + payload }

  /** Sign a payload under a protected header. */
  function Seal(c: Crypto, header: Value, payload: string, key: Key): string {
    var protectedPart := c.base64(Text(header));
    protectedPart + ".." + c.base64(c.sign(key, SigningInput(protectedPart, payload)))
  }

  function KidMember(kid: string): seq<Member> { if kid == "" then [] else [Member("kid", String(kid))] }

  /** The Go header: alg, typ, kid, b64, crit in this order. */
  function Header(kid: string): Value {
    Object([Member("alg", String("EdDSA")), Member("typ", String("JWS"))] + KidMember(kid) +
           [Member("b64", Bool(false)), Member("crit", Array([String("b64")]))])
  }

  /** The TypeScript header: alg, b64, crit, typ, kid in this order. */
  function HeaderTs(kid: string): Value {
    Object([Member("alg", String("EdDSA")), Member("b64", Bool(false)), Member("crit", Array([String("b64")])),
            Member("typ", String("JWS"))] + KidMember(kid))
  }

  function SignDetached(c: Crypto, payload: string, key: Key, kid: string): string {
    Seal(c, Header(kid), payload, key)
  }

  /** The protected header of a compact JWS. */
  function DecodeProtectedHeader(c: Crypto, jws: string): Option<Value> {
    var part := Split(jws)[0];
    if part == "" then None
    else
      var raw :- c.unbase64(part);
      match Document(raw, false)
      case Ok(v) => Some(v)
      case Err(_) => None
  }

  predicate HasB64(items: seq<Value>) { exists i | 0 <= i < |items| :: items[i] == String("b64") }

  /** alg EdDSA, b64 false, and crit an array naming b64. */
  predicate HeaderOk(h: Value) {
    h.Object? && Get(h.members, "alg") == Some(String("EdDSA")) && Get(h.members, "b64") == Some(Bool(false)) &&
    match Get(h.members, "crit")
    case Some(Array(items)) => HasB64(items)
    case _ => false
  }

  predicate Verified(c: Crypto, jws: string, payload: string, pub: PublicKey) {
    var parts := Split(jws);
    |parts| == 3 && parts[1] == "" &&
    match DecodeProtectedHeader(c, jws)
    case None => false
    case Some(h) =>
      HeaderOk(h) &&
      match c.unbase64(parts[2])
      case None => false
      case Some(sig) => |sig| == SIGNATURE_SIZE && c.verify(pub, SigningInput(parts[0], payload), sig)
  }

  method VerifyDetached(c: Crypto, jws: string, payload: string, pub: PublicKey) returns (ok: bool)
    ensures ok == Verified(c, jws, payload, pub)
  {
    hide Split, DecodeProtectedHeader, Get;
    var parts := Split(jws);
    if |parts| != 3 || parts[1] != "" { return false; }
    var hdr := DecodeProtectedHeader(c, jws);
    if hdr.None? || !hdr.value.Object? { return false; }
    var members := hdr.value.members;
    if Get(members, "alg") != Some(String("EdDSA")) { return false; }
    if Get(members, "b64") != Some(Bool(false)) { return false; }
    var crit := Get(members, "crit");
    if crit.None? || !crit.value.Array? { return false; }
    var critArr := crit.value.items;
    var hasB64 := false;
    for i := 0 to |critArr|
      invariant !hasB64 && forall j | 0 <= j < i :: critArr[j] != String("b64")
    {
      if critArr[i] == String("b64") {
        hasB64 := true;
        break;
      }
    }
    if !hasB64 { return false; }
    var sig := c.unbase64(parts[2]);
    if sig.None? || |sig.value| != SIGNATURE_SIZE { return false; }
    ok := c.verify(pub, SigningInput(parts[0], payload), sig.value);
  }

  // ---------- what was signed verifies ----------

  /** Members at the places the header checks look for. */
  lemma MembersOk(ms: seq<Member>, alg: nat, b64: nat, crit: nat)
    requires alg < |ms| && b64 < |ms| && crit < |ms| && DistinctKeys(ms)
    requires ms[alg] == Member("alg", String("EdDSA")) && ms[b64] == Member("b64", Bool(false))
    requires ms[crit] == Member("crit", Array([String("b64")]))
    ensures HeaderOk(Object(ms))
  {
    hide Get, DistinctKeys;
    GetAt(ms, alg);
    GetAt(ms, b64);
    GetAt(ms, crit);
    assert [String("b64")][0] == String("b64");
  }

  lemma HeaderReads(kid: string, ts: bool)
    ensures var h := if ts then HeaderTs(kid) else Header(kid);
      Unambiguous(h) && Finite(h) && HeaderOk(h) &&
      Get(h.members, "kid") == if kid == "" then None else Some(String(kid))
  {
    hide HeaderOk, Get;
    HeaderKeys(kid, ts);
    if ts {
      MembersOk(HeaderTs(kid).members, 0, 1, 2);
      if kid != "" { GetAt(HeaderTs(kid).members, 4); }
    } else {
      var k := if kid == "" then 2 else 3;
      MembersOk(Header(kid).members, 0, k, k + 1);
      if kid != "" { GetAt(Header(kid).members, 2); }
    }
  }

  lemma HeaderKeys(kid: string, ts: bool)
    ensures DistinctKeys((if ts then HeaderTs(kid) else Header(kid)).members)
    ensures kid == "" ==> !HasKey((if ts then HeaderTs(kid) else Header(kid)).members, "kid")
  {
  }

  lemma ParseLenient(v: Value)
    requires Unambiguous(v) && Finite(v)
    ensures Document(Text(v), false) == Ok(v)
  {
    hide Text, Document;
    ParseText(v);
    JsonDuplicates.StrictIff(Text(v));
  }

  /** A sealed payload splits into its parts, and its header decodes to the one it was sealed with. */
  lemma SealParts(c: Crypto, header: Value, payload: string, key: Key)
    requires Lawful(c) && Unambiguous(header) && Finite(header)
    ensures var part := c.base64(Text(header));
      Split(Seal(c, header, payload, key)) == [part, "", c.base64(c.sign(key, SigningInput(part, payload)))]
    ensures DecodeProtectedHeader(c, Seal(c, header, payload, key)) == Some(header)
  {
    hide Text, Document, Split;
    var part := c.base64(Text(header));
    var sig := c.sign(key, SigningInput(part, payload));
    assert Encodes(c, Text(header)) && Encodes(c, sig);
    SplitCompact(part, c.base64(sig));
    TextStarts(header);
    ParseLenient(header);
  }

  /** A detached signature verifies over its payload under the key that made it. */
  lemma SignedVerifies(c: Crypto, payload: string, key: Key, kid: string, ts: bool)
    requires Lawful(c)
    ensures Verified(c, Seal(c, if ts then HeaderTs(kid) else Header(kid), payload, key), payload, c.publicOf(key))
  {
    hide DecodeProtectedHeader, Split, Text, HeaderOk;
    var header := if ts then HeaderTs(kid) else Header(kid);
    HeaderReads(kid, ts);
    SealParts(c, header, payload, key);
    var part := c.base64(Text(header));
    var message := SigningInput(part, payload);
    assert Encodes(c, c.sign(key, message)) && Signs(c, key, message);
  }
}
