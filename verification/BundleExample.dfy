/**
 A run that meets the conditions of the bundle theorems.

 Signatures are a fixed text, base64 is a code in pairs of characters, and the hash tells apart the
 four texts that matter: those of two rules and those of the two receipts of one call.
 */
module BundleExample {
  import opened Outcomes
  import opened Json
  import opened Jws
  import opened Policy
  import opened Audit
  import opened Gate
  import opened GateLaws
  import opened BundleLaws
  import opened ReplayLaws
  import Base58
  import Compliance
  import DidKey
  import EvidenceLaws
  import Kernel

  // ---------- cryptography that keeps its promises ----------

  /** Two characters for each, the first telling whether the second is a dot in disguise. */
  function Spell(text: string): (r: string)
    ensures '.' !in r && (text != "" ==> r != "")
  {
    if text == "" then ""
    else (if text[0] == '.' then "d-" else ['c', text[0]]) + Spell(text[1..])
  }

  function Unspell(text: string): Option<string> {
    if text == "" then Some("")
    else if |text| == 1 then None
    else
      var rest :- Unspell(text[2..]);
      Some([if text[0] == 'd' then '.' else text[1]] + rest)
  }

  lemma {:induction false} UnspellSpell(text: string)
    ensures Unspell(Spell(text)) == Some(text)
  {
    if text != "" {
      UnspellSpell(text[1..]);
      var head := if text[0] == '.' then "d-" else ['c', text[0]];
      assert Spell(text) == head + Spell(text[1..]);
      assert (head + Spell(text[1..]))[2..] == Spell(text[1..]);
      assert [text[0]] + text[1..] == text;
    }
  }

  function Mark(n: Base58.Byte): Digest { Base58.Repeat(n, 32) }

  /** A hash under which a, b, c and any fourth text have values of their own. */
  function Telling(a: string, b: string, c: string): string -> Digest {
    t => if t == a then Mark(0) else if t == b then Mark(1) else if t == c then Mark(2) else Mark(3)
  }

  lemma TellingApart(crypto: Crypto, a: string, b: string, c: string, d: string, x: string, y: string)
    requires crypto.sha256 == Telling(a, b, c) && x in {a, b, c, d} && y in {a, b, c, d}
    ensures !Collision(crypto, x, y)
  {
    assert Mark(0)[0] == 0 && Mark(1)[0] == 1 && Mark(2)[0] == 2 && Mark(3)[0] == 3;
  }

  function Cipher(hash: string -> Digest): Crypto {
    Crypto(hash, _ => Base58.Repeat(7, 32), (_, _) => Base58.Repeat('s', SIGNATURE_SIZE),
           (_, _, sig) => sig == Base58.Repeat('s', SIGNATURE_SIZE), Spell, Unspell)
  }

  lemma CipherLawful(hash: string -> Digest)
    ensures Lawful(Cipher(hash))
  {
    forall text
      ensures Encodes(Cipher(hash), text)
    {
      UnspellSpell(text);
    }
  }

  // ---------- one call with two receipts ----------

  const ARGS := Object([Member("x", String("v"))])

  const MESSAGE := Object([Member("method", String("tools/call")),
                           Member("params", Object([Member("name", String("t")), Member("arguments", ARGS)]))])

  const RULES := Policy(None, [Rule("t", []), Rule("*", [])])

  function Keys(): KeyPair { KeyPair([], DidKey.FromPublic(Base58.Repeat(7, 32))) }

  function With(hash: string -> Digest): Setup {
    Setup(Cipher(hash), Kernel.Runtime(_ => None, _ => "", (_, _) => ""), Script(_ => Some(MESSAGE)), RULES, Keys(),
          "server")
  }

  function ReceiptText(k: nat): string { EvidenceLaws.EvidenceText("t", ARGS, Keys().did, "server", "now", k) }

  /** The texts of rules do not depend on the hash. */
  function RuleText(i: nat): string
    requires i < 2
  {
    CommitmentText(With(_ => Mark(0)), RULES.rules[i])
  }

  function Example(): Setup { With(Telling(RuleText(0), RuleText(1), ReceiptText(0))) }

  const EVENTS := [Client("call", "now")]

  lemma MessageReads()
    ensures IsToolCall(MESSAGE) && Gate.ToolOf(MESSAGE) == "t" && ArgsOf(MESSAGE) == ARGS
    ensures Unambiguous(MESSAGE) && Unambiguous(ARGS) && Finite(ARGS)
  {
    var ms := MESSAGE.members;
    var params := ms[1].value.members;
    GetAt(ms, 0);
    GetAt(ms, 1);
    GetAt(params, 0);
    GetAt(params, 1);
    assert Unambiguous(ARGS) && Unambiguous(ms[1].value);
  }

  lemma ExampleSound()
    ensures Sound(Example())
  {
    hide CommitmentText, EvidenceLaws.EvidenceText, Lawful, Unambiguous, DidKey.FromPublic;
    CipherLawful(Example().crypto.sha256);
    MessageReads();
  }

  lemma ExampleApart(x: string, y: string)
    requires x in {RuleText(0), RuleText(1), ReceiptText(0), ReceiptText(1)}
    requires y in {RuleText(0), RuleText(1), ReceiptText(0), ReceiptText(1)}
    ensures !Collision(Example().crypto, x, y)
  {
    hide RuleText, ReceiptText, Collision;
    TellingApart(Example().crypto, RuleText(0), RuleText(1), ReceiptText(0), ReceiptText(1), x, y);
  }

  lemma RulesStandApart()
    ensures RulesApart(Example())
  {
    hide RulesApart, Collision, ReceiptText, Sound, Canonicalize.Canonical, CommitmentBody, DidKey.FromPublic;
    ExampleSound();
    ApartOrCollide(Example());
    if i, k :| RulesCollide(Example(), i, k) {
      assert i == 0 && k == 1;
      ExampleApart(RuleText(0), RuleText(1));
    }
  }

  lemma OneArgument()
    ensures |EmittedOf(Arguments(ARGS), 1)| == 1 && |Arguments(ARGS)| == 1
  {
    var all := Arguments(ARGS);
    assert all == [Member("x", String("v"))];
    SymbolOfX();
    CountOne(all);
    assert Emitted(all, 0);
    EmittedOne(all);
  }

  lemma SymbolOfX()
    ensures Symbolize("x") == "x" && "x" !in RESERVED
  {
    assert "x"[1..] == "" && SymbolParts("") == "";
  }

  lemma CountOne(all: seq<Member>)
    requires |all| == 1
    ensures forall sym :: Count(all, sym, 1) <= 1
  {
    hide Symbolize;
    assert forall sym :: Count(all, sym, 0) == 0;
  }

  lemma EmittedOne(all: seq<Member>)
    requires |all| == 1 && Emitted(all, 0)
    ensures |EmittedOf(all, 1)| == 1
  {
    hide Emitted;
    assert EmittedOf(all, 0) == [];
  }

  lemma TwoReceipts(s: Setup)
    ensures EvidenceTims(s.crypto, "t", ARGS, s.keys, s.server, "now").Some?
    ensures |EvidenceTims(s.crypto, "t", ARGS, s.keys, s.server, "now").value| == 2
  {
    hide SignArtifact, ToolBody, ArgumentTims, Arguments, Emitted;
    MessageReads();
    OneArgument();
    Compliance.EvidenceExists(s.crypto, "t", ARGS, s.keys, s.server, "now");
  }

  lemma ExampleLog()
    ensures var (st, log) := RunFrom(Example(), START, [], EVENTS);
      |log| == 1 && log[0].Rec? && log[0].m == MESSAGE && log[0].now == "now"
  {
    hide EvidenceTims, Step, RuleText, ReceiptText, IsToolCall, ArgsOf, Gate.ToolOf, Arguments, EmittedOf;
    var s := Example();
    MessageReads();
    TwoReceipts(s);
    var log := NextLog(s, START, [], EVENTS[0]);
    assert EVENTS[1..] == [];
    assert RunFrom(s, START, [], EVENTS) == RunFrom(s, Step(s, START, EVENTS[0]).0, log, []);
  }

  /**
   The conditions of the theorems about bundles are met: a sound gate with two rules of different
   cids, whose run leaves one call with two receipts of different cids.
   */
  lemma ConditionsMet() returns (s: Setup, events: seq<Event>)
    ensures Sound(s) && |s.policy.rules| == 2 && RulesApart(s)
    ensures var (st, log) := RunFrom(s, START, [], events);
      |log| == 1 && Setting(s, st, log, 0) && |TimsOf(s, log[0])| == 2
  {
    hide EvidenceTims, RunFrom, RuleText, ReceiptText, ArgsOf, Gate.ToolOf, Sound, RulesApart, Good, Collision,
         CidsOf, Arguments, EmittedOf, DistinctTexts, EvidenceLaws.EvidenceText;
    s, events := Example(), EVENTS;
    var (st, log) := RunFrom(s, START, [], events);
    ExampleSound();
    RulesStandApart();
    ExampleLog();
    MessageReads();
    TwoReceipts(s);
    RunIsGood(s, events);
    EvidenceApartOrCollides(s, st, log, 0);
    if j, k :| EvidenceCollides(s, log, 0, j, k) {
      assert j == 0 && k == 1;
      ReceiptTexts(log[0]);
      ExampleApart(ReceiptText(0), ReceiptText(1));
    }
  }

  lemma ReceiptTexts(r: Rec)
    requires r.Rec? && r.m == MESSAGE && r.now == "now"
    ensures TextOfReceipt(Example(), r, 0) == ReceiptText(0) && TextOfReceipt(Example(), r, 1) == ReceiptText(1)
  {
    hide EvidenceLaws.EvidenceText, ArgsOf, Gate.ToolOf, RuleText;
    MessageReads();
  }
}
