# Arky, modelled and proved in Dafny

Arky turns signed measurements (TIMs) into a three-valued policy decision (the Kernel), gates an
action on that decision, and keeps a chain of receipts that can be replayed offline. This project
models those parts of the repository that are hand-rolled and deterministic, and proves what they
are there for. Each file is one module.

| part | modules | follows |
|---|---|---|
| JSON, RFC 8785 text, numbers | `Decimals`, `Utf16`, `Ordering`, `Json`, `MemberLaws`, `JsonGrammar`, `JsonParser`, `JsonDuplicates`, `Canonicalize`, `JsonRoundTrip`, `EscapeLaws` | `core-go` (number framing also `core-py`) |
| base58 and did:key | `Positional`, `Base58`, `Base58InPlace`, `DidKey` | `core-go`, `core`, `core-py` |
| Merkle batches | `Traversal`, `Merkle` | `scripts/lib/merkle.ts` |
| Ed25519 | `Congruence`, `Edwards`, `Ed25519`, `Curve25519`, `SignatureLaws`, `PointLaws` | `core-py` |
| Dates and time stamps | `Calendar`, `Timestamps` | `core-py` |
| Assertions and the Kernel | `JsNumbers`, `Assertions`, `AssertionParser`, `AssertionRoundTrip`, `ComparisonLaws`, `Kernel`, `KernelLaws`, `SelectionLaws`, `VerdictLaws`, `DocumentLaws` | `core` |
| Signatures, TIMs, settlement | `Jws`, `Tim`, `TimLaws`, `VerificationLaws`, `Settler`, `SettlerLaws`, `SettlementLaws` | `core-go` |
| The tool-call gate and its audit bundle | `Policy`, `PolicyLaws`, `Records`, `Audit`, `Gate`, `GateEngine`, `Compliance`, `ForwardingLaws`, `ArtifactShapes`, `ArtifactFields`, `EvidenceLaws`, `FileNames`, `GateLaws`, `RunLaws`, `Replay`, `ReplayCode`, `ReplayLaws`, `Permuting`, `GroupLaws`, `BundleLaws`, `BundleExample`, `CitationGaps`, `ChainLaws`, `ReportLaws` | `mcp` |

Code that runs step by step is written as methods and classes, and each of them is proved equal to
a function; the laws are lemmas about those functions. What a function decides is also told without
it, from the documents, numbers and texts themselves, in both directions. `Outcomes` holds the option
and result types.

What the code calls but does not contain is a parameter. SHA-256, Ed25519 over text and base64url
are the fields of `Jws.Crypto`, and `Jws.Lawful` says what is asked of them: a signature has 64 bytes
and verifies under its own key, and base64url decodes to what was encoded. Hashing is never taken to
be injective. Some pair of texts always has one hash, so a statement that two texts with one hash
would break names the two texts it is about, out of those that were actually hashed (`Jws.Collision`,
`Merkle.PathCollides`, `BundleLaws.EvidenceCollides`), or asks that the cids in question differ. The
JavaScript engine's `JSON.parse`, `String`, `Date.parse` and the wording of its parse errors are the
fields of `Gate.Script` and `Kernel.Runtime`. In `Ed25519.Theory` the group law behind point addition,
point decoding after encoding and the order of the base point are hypotheses; the addition formulas,
the ladder and the two sides of the verification equation are proved.

## Findings

- Canonical text exists exactly for values with finite numbers; the round trip through parsing asks
  for that and nothing else (`JsonRoundTrip.ParseCanonical`).
- The Notary order compares time stamps as text. On UTC stamps that is the order of their instants,
  which count milliseconds, if and only if the seconds differ, the fractions are equal, or they differ
  at one of the first three digits (`Timestamps.UtcOrderIff`). The gate's own clock gives stamps with
  three digits, which among themselves always compare as instants (`Timestamps.WidthOrder`);
  a stamp without a fraction sorts after one half a second later (`Timestamps.FractionSortsEarly`).
- The bundle verifier compares the number of cited cids with the number of TIM files. Filing one TIM
  twice makes room for a citation of evidence that is not in the bundle, and the report is still valid
  (`CitationGaps.GapIsValid`). The citations are exact if and only if no two TIMs of the call have one
  cid (`ReplayLaws.CitationExactIff`).
- The verifier checks each artifact against the identity it names itself and none against the session,
  so a session record signed by anyone passes (`BundleLaws.AnyKeeperPasses`).

## Model

| member | source | states |
|---|---|---|
| BundleLaws.WrittenIsValid | packages/mcp/src/verify.ts:63-182 | over every run of the gate from a fresh writer, the bundle with all compiled commitments in it is accepted by the verifier, unless the canonical texts of two of its rules, or of two receipts of one of its calls, have one hash |
| BundleLaws.WrittenIsValidIff | packages/mcp/src/verify.ts:63-182 | where the compiled rules have cids of their own, the bundle written over any run is valid exactly when no two receipts of one call have one cid, although TIM files are replayed in name order and whoever signs the session |
| BundleExample.ConditionsMet | packages/mcp/src/proxy.ts:57-144 | the conditions of these theorems are met: a sound gate with two rules and a run with two receipts, all of different cids |
| BundleLaws.CallHasNoErrors | packages/mcp/src/verify.ts:107-179 | the files one call leaves, whatever their listing, pass every check the verifier makes on a call |
| BundleLaws.SameDecision | packages/mcp/src/verify.ts:137-154 | replaying a call's evidence in any order, under the signed commitment artifact, gives the decision that was taken |
| BundleLaws.AnyKeeperPasses | packages/mcp/src/verify.ts:79-93 | the report is the same whoever signs the session record, and the record names the issuer of the decisions exactly when the two dids are equal |
| ChainLaws.DecisionNamesEvidence | packages/mcp/src/verify.ts:107-135 | in any two valid bundles, decisions with one cid are one document, cite the same cids and name one commitment, and without a cid filed twice each piece of evidence of the one call is one measurement with a piece of the other; or two named texts have one hash |
| ChainLaws.DecisionNamesCommitment | packages/mcp/src/verify.ts:81-98 | in any two valid bundles, commitments with one cid are one document, or their two texts have one hash |
| BundleLaws.SharedCommitment | packages/mcp/src/policy.ts:119-151 | two compiled rules share a cid only when they are for one tool, or their own two texts have one hash |
| GroupLaws.EvidencePermuted | packages/mcp/src/verify.ts:100-119 | grouping sorted file names by the text before the first dash recovers exactly the evidence written for that call, up to order |
| FileNames.Recognized | packages/mcp/src/verify.ts:109-111 | each written file name is recognized by the test for its own kind and by no other |
| EvidenceLaws.EvidenceVerifies | packages/mcp/src/audit.ts:48-106 | every TIM the gate builds passes TIM verification under the gate's did |
| EvidenceLaws.SharedCidCollides | packages/mcp/src/audit.ts:75-105 | two TIMs of one call have the same cid only if their own two texts have one hash |
| ReportLaws.ValidIff | packages/mcp/src/verify.ts:63-182 | a report is valid exactly when the session and commitments are signed by those they name, each listed commitment is there, and in each call the evidence verifies and is cited in full, the recorded status, assertions and verbs are those the Kernel replays under the last-filed commitment of that cid, and a receipt is signed, linked and for the recorded arguments |
| ReportLaws.ApprovalIsEarned | packages/mcp/src/verify.ts:137-154 | in a valid bundle a recorded approval rests on proven measures, and its recorded verbs are exactly those of the first consequence for PASS |
| ReplayLaws.ValidMeansJustified | packages/mcp/src/verify.ts:107-181 | if the report is valid, every call with a receipt has an authentic commitment, decision and receipt in the bundle with matching cids and arguments hash, verified and cited evidence, and a Kernel replay that approves |
| ReplayLaws.JustifiedMeansProven | packages/core/src/kernel.ts:198-219 | such an execution rests on a non-empty list of measures, each with evidence and a passing assertion, and on registered verbs only |
| ReplayLaws.CitationExactIff | packages/mcp/src/verify.ts:128-135 | when the citation checks pass, the decision cites exactly its evidence if and only if no two TIMs share a cid |
| ReplayLaws.CitationGap | packages/mcp/src/verify.ts:128-135 | a TIM filed twice lets a citation of absent evidence pass the two citation checks |
| CitationGaps.GapIsValid | packages/mcp/src/verify.ts:107-161 | for every sound gate and tool with a rule, a bundle with a valid report whose decision, an approval where the policy permits the call, cites any given text that is no cid of its evidence |
| ReplayCode.Verify | packages/mcp/src/verify.ts:63-182 | the loops that collect errors and fill the commitment and group maps compute the specified report |
| ReplayCode.GroupCalls | packages/mcp/src/verify.ts:100-105 | the map from prefix to files holds each group, in the order the prefixes are first met |
| ForwardingLaws.CallsForwardedIff | packages/mcp/src/proxy.ts:57-144 | a tools/call is forwarded exactly when its arguments have canonical text, it names a tool, and a rule it complies with governs the tool: the rule of that name, or the rule for any tool where no rule has the name |
| ForwardingLaws.OthersForwarded | packages/mcp/src/proxy.ts:57-78 | any other message that is an object is forwarded as it is and nothing is recorded |
| ForwardingLaws.HeldIsDenied | packages/mcp/src/proxy.ts:123-131 | a call that is held is answered under its id with an error result, and in silence when it has no id |
| ForwardingLaws.MatchIsGoverning | packages/mcp/src/policy.ts:113-116 | matching finds the rule that governs a tool, and only it |
| ForwardingLaws.CompliesIff | packages/mcp/src/policy.ts:119-131 | a rule is complied with exactly when every clause has such an argument and passes on the symbols known by then |
| ForwardingLaws.KnownIs | packages/mcp/src/audit.ts:36-104 | an assertion may use a symbol, with a value, exactly when a clause no later than it is about the symbol and one argument alone gives it as a text, a truth value or a finite number |
| ForwardingLaws.ToolKnown | packages/mcp/src/policy.ts:119-131 | the tool name is a text that every assertion may use |
| Compliance.ForwardedIff | packages/mcp/src/proxy.ts:80-143 | a tool call is forwarded exactly when its arguments have canonical text, the tool is named and has a rule, and each clause in order has a sole primitive argument and a passing assertion on the symbols known by then |
| Compliance.RuleApproves | packages/mcp/src/policy.ts:119-151 | the compiled commitment is approved on a call's evidence exactly when the rule covers the tool and is complied with |
| Compliance.ToolAssertionPasses | packages/mcp/src/policy.ts:120-125 | the compiled text about the tool name tokenizes and parses back, and passes exactly on the tools the rule covers |
| Compliance.EvidenceGives | packages/mcp/src/audit.ts:75-104 | the evidence binds a symbol exactly when one argument stands for it, with that argument's value, and binds the tool name to the tool |
| Compliance.EmittedIffSole | packages/mcp/src/audit.ts:75-92 | an argument becomes evidence exactly when it is primitive and the only one of an unreserved symbol |
| RunLaws.ReceiptsJustified | packages/mcp/src/proxy.ts:45-187 | over every interleaving of messages with ids reused freely, a receipt file belongs to one call forwarded under an approved decision on file, carries that decision's cid, its commitment's cid and the hash of that call's arguments, names the tool, and says failed exactly when the response was an error |
| RunLaws.OneReceiptPerCall | packages/mcp/src/proxy.ts:134-185 | while a call is pending no receipt of its number exists, so no number gets two |
| RunLaws.BatchHeld | packages/mcp/src/proxy.ts:65-78 | a batch with a tools/call in it is never forwarded and changes nothing; each call in it that has an id is denied under that id, in order |
| RunLaws.BatchesLeaveNoTrace | packages/mcp/src/proxy.ts:57-78 | removing the batches from a run leaves the files, the pending calls and the recorded calls unchanged |
| GateLaws.RunGood | packages/mcp/src/proxy.ts:57-187 | every run keeps the invariant: the files are exactly the artifacts of the recorded calls, and the pending map holds only approved, forwarded calls without a receipt, no two with one number |
| GateLaws.ReceiptGood | packages/mcp/src/proxy.ts:157-186 | a response to a pending call adds one receipt, changes no other file and ends the call's wait |
| GateEngine.Engine.HandleClientMessage | packages/mcp/src/proxy.ts:57-144 | the method over the pending map and the writer takes the specified step |
| GateEngine.Engine.HandleServerMessage | packages/mcp/src/proxy.ts:146-187 | likewise for messages from the server |
| GateEngine.HandleBatch | packages/mcp/src/proxy.ts:67-78 | filtering and answering a batch gives the specified reaction |
| Audit.BuildEvidence | packages/mcp/src/audit.ts:48-106 | the map and set loops build the specified TIMs, and report exactly the symbols that collide |
| Audit.SelectArguments | packages/mcp/src/audit.ts:75-105 | the arguments kept are those of unreserved symbols that only they stand for, with primitive values, in order |
| Policy.ValidatePolicy | packages/mcp/src/policy.ts:64-106 | the validation loop accepts and refuses as specified, reporting the first fault |
| Policy.ValidatedGood | packages/mcp/src/policy.ts:76-104 | a policy that validates has distinct, quote-free tools and well-formed, unreserved, distinct symbols |
| PolicyLaws.AcceptedIff | packages/mcp/src/policy.ts:64-106 | a policy document is accepted exactly when it has version 1, a textual scope if any, and a non-empty list of rules with distinct quote-free tools and clauses pairing a free symbol with a text |
| PolicyLaws.PolicyReads | packages/mcp/src/policy.ts:64-106 | an accepted policy is read as its document says: the scope, and tools and clauses in order |
| PolicyLaws.SymbolOfName | packages/mcp/src/policy.ts:58-62 | the symbol of an ASCII name has its letters in lower case and underscores for what no symbol has, after an underscore where a digit or nothing would come first |
| Policy.SymbolizeIdempotent | packages/mcp/src/policy.ts:58-62 | a symbol stands for itself, so symbolizing twice is symbolizing once |
| Records.CommitmentReads | packages/mcp/src/policy.ts:119-151 | a document with the compiled members reads back as the rule's measures and consequence |
| Records.CommitmentSays | packages/mcp/src/policy.ts:132-136 | a compiled commitment names the scope of the policy or the default one, the key of the gate and the call it is about |
| DocumentLaws.CommitmentReads | packages/core/src/kernel.ts:146-200 | a commitment written member by member, with requirements, windows and consequences, reads back as itself |
| DocumentLaws.TimReads | packages/core/src/kernel.ts:78-114 | so does a TIM with stamp, clock, witnesses, issuer, value, unit, device and code |
| VerdictLaws.DecisionIs | packages/core/src/kernel.ts:146-220 | the decision in all cases: rejected unseen on an unknown verb; otherwise a record for each measure with its evidence and verdict, indeterminate when a record is, approved when all pass and a consequence for PASS authorizes something, else rejected |
| VerdictLaws.AssertionSays | packages/core/src/kernel.ts:170-196 | the document of a record says its name, result, value, unit, cids and error |
| VerdictLaws.TrimsTo | packages/core/src/kernel.ts:223-234 | a consequence is for an outcome when its condition is that word between white space |
| KernelLaws.ApprovedIff | packages/core/src/kernel.ts:146-220 | approval holds exactly for a non-empty list of measures, all proven by evidence meeting their filters, registered verbs throughout, and a first PASS consequence that authorizes something; then that is what is authorized, and nothing otherwise |
| KernelLaws.DecisionOrderFree | packages/core/src/kernel.ts:78-114 | permuting TIMs with distinct cids never changes the decision |
| KernelLaws.SelectIsLatest | packages/core/src/kernel.ts:78-114 | selection finds evidence exactly when some meets every filter, and nothing that meets them comes later in Notary order |
| SelectionLaws.SelectionIs | packages/core/src/kernel.ts:78-114 | there is evidence exactly when some receipt has the witnesses, device, code and time asked for; it has them, and no other that has comes after it by stamp, lamport clock, identity and cid |
| SelectionLaws.WindowOnInstants | packages/core/src/kernel.ts:116-130 | where the clock reads stamps as RFC 3339, what is selected lies from the start on, before the end and within the maximal age of now, in milliseconds; and something is selected whenever qualified evidence does |
| SelectionLaws.DurationIs | packages/core/src/kernel.ts:133-143 | PnDTnHnMn.nS is its days, hours, minutes and seconds in milliseconds, whichever of them it has |
| KernelLaws.SelectLatestInstant | packages/core/src/kernel.ts:104-113 | on UTC stamps of one width, with or without a fraction, the selected evidence is of the latest instant |
| KernelLaws.SelectLatestComparable | packages/core/src/kernel.ts:104-113 | on any UTC stamps, the selected evidence is no earlier than any other whose stamp compares as its instant does |
| KernelLaws.BoundMeaning | packages/core/src/kernel.ts:176-196 | a symbol's value is that of the latest evidence of the last measure of its name that had any |
| KernelLaws.BoundIff | packages/core/src/kernel.ts:176-196 | a symbol is bound exactly when a measure of its name has evidence meeting every filter |
| Kernel.SelectLatest | packages/core/src/kernel.ts:78-114 | the filters applied one after another, each only when asked for, then sorting and taking the last, is the specified selection |
| Kernel.EvaluateKernel | packages/core/src/kernel.ts:146-220 | the loops over verbs, measures and consequences compute the specified decision |
| AssertionRoundTrip.ParsePrint | packages/core/src/assert.ts:42-249 | printing an expression with the fewest parentheses, tokenizing and parsing gives the expression back |
| AssertionRoundTrip.PrintParse | packages/core/src/assert.ts:42-249 | every expression the parser returns can be printed and parsed back, exactly when none of its numerals is malformed or too large |
| AssertionRoundTrip.ParseSum | packages/core/src/assert.ts:188-195 | a printed expression is parsed up to the tokens that may extend it, left associated, with ! before && before or |
| AssertionParser.Tokenize | packages/core/src/assert.ts:42-158 | the cursor loop yields the specified tokens or the first error, for every text |
| AssertionParser.Parser.ParseOr | packages/core/src/assert.ts:188-195 | the recursive descent over a token cursor terminates on every token list and parses as specified |
| AssertionParser.ParseAssertion | packages/core/src/assert.ts:183-187 | tokenizing, parsing and refusing trailing tokens gives the specified expression or error |
| Assertions.EvaluateSound | packages/core/src/assert.ts:270-356 | for every text, a definite verdict survives more evidence, an indeterminate one has a reason and only it has, and with every atom definite the verdict is the classical one |
| ComparisonLaws.NumbersCompare | packages/core/src/assert.ts:297-344 | for each of the six operators, the text of a comparison of a symbol with a numeral passes exactly when the two numbers compare so as reals, and fails otherwise |
| ComparisonLaws.TextsCompare | packages/core/src/assert.ts:297-344 | a comparison with a quoted text is by UTF-16 code units, likewise for each operator |
| ComparisonLaws.KindsDiffer | packages/core/src/assert.ts:297-325 | a number is not compared with a text, nor a text ordered against a number: the verdict is indeterminate; as equals a text and a number never are |
| ComparisonLaws.TruthsCompare | packages/core/src/assert.ts:326-344 | a truth value is ordered against a numeral as one or zero and equals none |
| ComparisonLaws.MembershipVerdict | packages/core/src/assert.ts:288-296 | membership is being the same number, text or truth value as a listed literal |
| ComparisonLaws.SymbolVerdict | packages/core/src/assert.ts:278-287 | a bare symbol is its truth value, indeterminate when it has none; every atom of an unbound symbol is indeterminate |
| ComparisonLaws.ConnectiveVerdicts | packages/core/src/assert.ts:252-276 | a failed conjunct or a passed disjunct decides, and negation exchanges the two |
| Assertions.DefiniteWhateverIsMissing | packages/core/src/assert.ts:252-280 | a definite verdict is the classical one under every way of settling the unsettled atoms |
| JsonRoundTrip.ParseCanonical | packages/core-go/canonicalize.go:38-148 | strict parsing of a finite value's canonical text gives the value back with members in canonical order |
| JsonRoundTrip.CanonicalIff | packages/core-go/canonicalize.go:30-94 | canonical texts are equal exactly when the values are the same up to member order |
| JsonRoundTrip.CanonicalAscends | packages/core-go/canonicalize.go:68-74 | in what canonical text reads as, the names of every object go strictly up by code units |
| Canonicalize.CanonicalizeValue | packages/core-go/canonicalize.go:30-148 | the builder-based writer with sorted keys produces the specified text, and fails exactly on non-finite numbers |
| Canonicalize.WriteString | packages/core-go/canonicalize.go:121-148 | escaping character by character appends the quoted string |
| EscapeLaws.ShortestString | packages/core-go/canonicalize.go:121-148 | the canonical text of a string is the shortest that the parser reads as that string |
| EscapeLaws.ControlSpelling | packages/core-go/canonicalize.go:121-148 | where four hexadecimal digits are needed they have small letters |
| EscapeLaws.EscapeReads | packages/core-go/json.go:367-401 | every character is read from the escape of its UTF-16 units, a surrogate pair outside the basic plane, in small letters or capitals |
| EscapeLaws.LoneHalf | packages/core-go/json.go:367-401 | half of a pair on its own is the replacement character |
| EscapeLaws.ShortEscapes | packages/core-go/json.go:312-365 | the eight escapes of two characters are read as their characters |
| JsonParser.Parse | packages/core-go/json.go:168-180 | the cursor-based parser is total and reads exactly what the grammar specifies, strict or lenient |
| JsonParser.Parser.Unicode | packages/core-go/json.go:367-401 | after a failed surrogate pair the cursor goes back six places and still ends beyond where it started, within the text |
| JsonParser.Parser.ReadValue | packages/core-go/json.go:199-221 | the cursor never leaves the text, advances on success, and the value is the specified one |
| JsonParser.MemberTable.Set | packages/core-go/json.go:49-58 | inserting keeps first-insertion order and replacing keeps the place |
| JsonParser.MemberTable.Delete | packages/core-go/json.go:69-84 | removing a name keeps the order of the others |
| JsonDuplicates.StrictIff | packages/core-go/json.go:231-279 | strict accepts exactly the lenient texts without a repeated decoded name at any depth, with the same value |
| JsonDuplicates.LenientCollapses | packages/core-go/json.go:231-279 | the lenient parser keeps the last value of a repeated name at the place of the first |
| Utf16.CompareUtf16 | packages/core-go/canonicalize.go:98-116 | the loop compares by UTF-16 code units, a proper prefix first |
| Decimals.ReadRendered | packages/core-go/canonicalize.go:172-222 | each of the four output shapes reads back as the same number |
| Decimals.RenderInjective | packages/core-go/canonicalize.go:172-222 | distinct numbers have distinct spellings |
| Decimals.ExponentFormIff | packages/core-py/src/arky_core/canonicalize.py:147-178 | exponent form is used exactly from 10^21 up and below 10^-6 |
| Decimals.NormalizeValue | packages/core-py/src/arky_core/canonicalize.py:181-207 | stripping zeros and moving the exponent keeps the value exactly |
| Decimals.ValueDetermines | packages/core-py/src/arky_core/canonicalize.py:181-207 | numbers in normal form with one value are one number |
| Base58InPlace.EncodeGo | packages/core-go/cid.go:15-49 | repeated in-place division terminates and spells the big-endian value in base 58 after one `1` per leading zero byte |
| Base58InPlace.DecodeGo | packages/core-go/cid.go:54-82 | multiply-and-add from the right with a growing buffer decodes as specified, refusing any other character |
| Base58InPlace.EncodeTs | packages/core/src/cid.ts:16-38 | the little-endian digit list with carries encodes the same |
| Base58InPlace.DecodeTs | packages/core/src/cid.ts:41-64 | the little-endian byte list with carries decodes the same |
| Base58InPlace.DivideInPlace | packages/core-go/cid.go:29-34 | one pass leaves the quotient by 58 in the buffer and returns the remainder, each quotient fitting a byte |
| Base58.DecodeEncode | packages/core-py/src/arky_core/cid.py:33-63 | decoding undoes encoding on every byte string |
| Base58.AlphabetIs | packages/core-py/src/arky_core/cid.py:25-26 | the alphabet is the digits and letters without 0, I, O and l, in the order of their codes |
| Base58.EncodeDecode | packages/core-py/src/arky_core/cid.py:33-63 | exactly the strings over the alphabet decode, and encoding gives them back |
| DidKey.StartsZ6Mk | packages/core-go/keys.go:22-27 | every 32-byte key's did starts with did:key:z6Mk |
| DidKey.ResolveFromPublic | packages/core-go/tim.go:90-100 | every key's did resolves to that key |
| DidKey.FromPublicResolve | packages/core-go/tim.go:90-100 | an identity that resolves is the did of the key it resolves to |
| Merkle.ProofsComplete | scripts/lib/merkle.ts:51-74 | every batched cid has a path that verifies against the root |
| Merkle.ProofsSound | scripts/lib/merkle.ts:36-74 | a verifying path of tree-shaped sibling lengths means the leaf is in the batch, or the text hashed at a step of that path and the text of an existing pair in that tree have one hash |
| Merkle.RootOrderFree | scripts/lib/merkle.ts:51-65 | the root does not depend on the order of the cids |
| Merkle.SmallerFirst | scripts/lib/merkle.ts:36-48 | a node is the hash of the smaller child followed by the larger |
| Merkle.RootReads | scripts/lib/merkle.ts:42-65 | a root is multibase text that decodes to the two multihash bytes and the top digest of the sorted leaves |
| Merkle.MerkleRoot | scripts/lib/merkle.ts:51-65 | sorting, padding odd levels and hashing level by level computes the specified root |
| Merkle.VerifyInclusion | scripts/lib/merkle.ts:68-74 | the loop over the path computes the specified check, refusing undecodable cids |
| Edwards.AddOnCurve | packages/core-py/src/arky_core/ed25519.py:73-87 | the addition formulas keep X·Y ≡ Z·T and −X²+Y² ≡ Z²+d·T² |
| Edwards.AddIsCurveSum | packages/core-py/src/arky_core/ed25519.py:73-87 | the sum has x = (x1y2 + x2y1) / (1 + d x1x2y1y2) and y = (y1y2 + x1x2) / (1 - d x1x2y1y2) |
| Ed25519.Multiply | packages/core-py/src/arky_core/ed25519.py:90-104 | the fixed 256-step loop computes the specified ladder |
| Ed25519.TimesIsMultiple | packages/core-py/src/arky_core/ed25519.py:90-104 | the ladder returns the n-fold sum for every n below 2^256 |
| Ed25519.SignVerifies | packages/core-py/src/arky_core/ed25519.py:127-187 | what is signed verifies, for every seed and message, under the curve laws |
| SignatureLaws.VerifiesIff | packages/core-py/src/arky_core/ed25519.py:158-187 | a nonce point [r]B with a response s verifies under the key of a seed exactly when s = (r + k a) mod L, with k hashed from nonce point, key and message |
| SignatureLaws.CarriesOverIff | packages/core-py/src/arky_core/ed25519.py:158-187 | a signature verifies on another message exactly when the two challenges times the scalar agree modulo L |
| SignatureLaws.OneResponse | packages/core-py/src/arky_core/ed25519.py:168-172 | at most one response to a nonce and message verifies, and none from L on |
| SignatureLaws.MalformedRejected | packages/core-py/src/arky_core/ed25519.py:164-180 | wrong sizes, a response out of range, and bytes that are no point are refused |
| SignatureLaws.SignIs | packages/core-py/src/arky_core/ed25519.py:144-155 | what signing makes is that response, for the nonce hashed from the seed and the message |
| SignatureLaws.ScalarIs | packages/core-py/src/arky_core/ed25519.py:127-133 | the scalar of a seed has bit 254 set, the top and the low three bits clear, and the rest as in the hash |
| PointLaws.DecodedIs | packages/core-py/src/arky_core/ed25519.py:49-124 | decoding reads y from the lower 255 bits and the parity of x from the top one, and gives a reduced point of the curve |
| PointLaws.EqualIff | packages/core-py/src/arky_core/ed25519.py:190-193 | two points are equal to the program exactly when their affine coordinates agree |
| PointLaws.EncodeDecoded | packages/core-py/src/arky_core/ed25519.py:107-124 | the bytes a point was decoded from are the bytes it encodes to |
| Curve25519.ParametersAgree | packages/core-py/src/arky_core/ed25519.py:34-70 | the literal d and y solve the equations the code solves, and the base point is on the curve |
| Curve25519.ParametersAreComputed | packages/core-py/src/arky_core/ed25519.py:36-66 | they are the numbers the code computes by raising to P-2, given that this inverts 121666 and 5 |
| Curve25519.SourceVerifies | packages/core-py/src/arky_core/ed25519.py:127-187 | over the literal curve what is signed verifies; its parameters are shown to fit, and only the theory of the curve is assumed |
| SignatureLaws.SourceVerifiesIff | packages/core-py/src/arky_core/ed25519.py:158-187 | over the literal curve the one response that verifies is (r + k a) mod L |
| Calendar.NextDay | packages/core-py/src/arky_core/timeparse.py:130-138 | every valid date maps to one less than its successor |
| Calendar.EpochIsZero | packages/core-py/src/arky_core/timeparse.py:130-138 | 1970-01-01 is day zero |
| Calendar.DaysMonotone | packages/core-py/src/arky_core/timeparse.py:130-138 | date order is day-number order |
| Timestamps.ParseRfc3339 | packages/core-py/src/arky_core/timeparse.py:56-127 | the index-moving parser computes the specified milliseconds or refuses |
| Timestamps.StampOrder | packages/core-go/kernel.go:305-316 | on stamps without a fraction, string order is the order of the instants |
| Timestamps.EpochInstant | packages/core-py/src/arky_core/timeparse.py:56-127 | 1970-01-01T00:00:00Z is instant zero |
| Timestamps.StampIs | packages/core-py/src/arky_core/timeparse.py:56-127 | a stamp is its day number, hours, minutes and seconds in milliseconds |
| Timestamps.UtcOrderIff | packages/core-go/kernel.go:305-316 | on UTC stamps with a fraction of any length or none, string order is the order of the instants in milliseconds exactly when the seconds differ, the fractions are equal, or they differ at one of the first three digits |
| Timestamps.WidthOrder | packages/core-go/kernel.go:305-316 | among stamps of one width an earlier instant sorts first, and with up to three fraction digits, such as the milliseconds the gate writes, the two orders are one |
| Timestamps.FractionSortsEarly | packages/core-go/kernel.go:305-316 | between a stamp without a fraction and one with, it is not: half a second later sorts first |
| Timestamps.OffsetShifts | packages/core-py/src/arky_core/timeparse.py:95-127 | a local time with the designator +hh:mm is the instant of the same text with Z less hh:mm, and with -hh:mm the instant plus it |
| Jws.SignedVerifies | packages/core-go/jws.go:42-115 | a detached signature verifies over its payload under the signer's key, for either stack's header and any key id |
| Jws.VerifyDetached | packages/core-go/jws.go:70-115 | the checks with the scan of crit decide as specified |
| VerificationLaws.VerifiedIff | packages/core-go/jws.go:70-115 | a text verifies exactly when it is two parts around two dots, the first a header that says EdDSA, unencoded payload and marks that critical, the second 64 bytes that sign the first part and the payload |
| Jws.SameCidSameValue | packages/core-go/cid.go:113-124 | values with one cid are the same up to member order, or the hash collides |
| Jws.CidReads | packages/core-py/src/arky_core/cid.py:66-90 | a cid is multibase text that decodes to the two multihash bytes and the SHA-256 digest |
| Tim.CanonicalBody | packages/core-go/tim.go:37-54 | deleting from clones gives the body without cid, sig and witnesses, and without a time left empty |
| Tim.CreateTim | packages/core-go/tim.go:59-76 | deleting and setting members on clones gives the specified signed TIM |
| Tim.VerifyTimAt | packages/core-go/tim.go:130-205 | the verification loops fill in the specified result |
| VerificationLaws.VerifiesIff | packages/core-go/tim.go:130-205 | a TIM verifies exactly when it has the seven required members, its cid names the body, a signature of the body verifies, every witness signed the body, and its expiry is later than the time asked about |
| VerificationLaws.BodyTime | packages/core-go/tim.go:37-54 | the body keeps the time without its witnesses, and drops a time that has nothing else |
| VerificationLaws.BodySays | packages/core-go/tim.go:37-54 | every other member but cid and signature is in the body as it is |
| VerificationLaws.BodyUnsealed | packages/core-go/tim.go:37-54 | the body has neither a cid nor a signature |
| TimLaws.CreatedVerifies | packages/core-go/tim.go:59-76 | a TIM created from a complete body without witnesses verifies under its own did, up to its expiry |
| TimLaws.WitnessesOutside | packages/core-go/tim.go:37-54 | adding, changing or removing witnesses never changes whether the cid and the signature hold |
| TimLaws.CidNamesBody | packages/core-go/tim.go:147-160 | TIMs that verify with one cid have the same body up to member order, or the hash collides |
| Settler.Ledger.Execute | packages/core-go/settler.go:155-238 | one execution returns the specified outcome and leaves the specified store |
| SettlementLaws.SucceedsIff | packages/core-go/settler.go:155-228 | a request succeeds exactly when its verb is known and has its arguments, an amount is positive and finite with a unit, the rail is not marked unknown, and its own key has a receipt or its arguments have canonical text |
| SettlementLaws.ReceiptSays | packages/core-go/settler.go:198-236 | a new receipt repeats the request, its key and the hash of its arguments, as a success |
| SettlerLaws.BoundForever | packages/core-go/settler.go:193-197 | over any run a bound key keeps its first receipt |
| SettlerLaws.OneReceiptPerKey | packages/core-go/settler.go:155-238 | all successes under one key return one receipt |
| SettlerLaws.FailuresKeepStore | packages/core-go/settler.go:155-228 | over any run, dropping the failing calls leaves the final store unchanged and the others still succeed |
| SettlerLaws.StoreStaysFiled | packages/core-go/settler.go:204-236 | over any run each stored receipt sits under its own key with the cid of its body and a verifying signature |
| SettlerLaws.DerivedKeysSeparate | packages/core-go/settler.go:124-140 | requests share a derived key only when they agree on commitment, verb, rail and arguments, or their two argument texts or their two key texts have one hash |

## Left out

- Rounding to binary doubles and the search for shortest digits: a number is an exact decimal in normal form; overflow to infinity is kept.
- Number spelling in the Go parser: it keeps the literal until canonicalization, the model normalizes at once; both give one canonical text.
- Positions inside parse errors, and the wording of the JavaScript engine's own errors.
- Lone surrogates in JavaScript strings: strings are sequences of Unicode scalar values.
- JavaScript object quirks: prototype lookups, `__proto__`, and moving integer-like names to the front.
- ReplayCode.Verify: JSON fields of another type than the TypeScript interfaces declare are read as absent. On such documents the TypeScript verifier compares the value it finds, counts it among the citations, or throws (for instance on a consequence without `then`), where the model may report otherwise, and even report a bundle valid.
- A `crit` header given as a text containing b64, which only the TypeScript verifier accepts.
- The Go kernel leaves a symbol unbound when its measurement is null or an object; the model follows the TypeScript one, which compares it.
- The Go kernel's differences from the TypeScript one: no `require.code`, no check of date separators.
- The text form of bundle files, the file system and the process plumbing; a directory is a list of named documents.
- A gate without a writer, and a settler without a store.
- Truncation of idempotency keys is by character, where Go cuts bytes.
- SHA-256, SHA-512, base64url and the library Ed25519 of the TypeScript and Go stacks.
- The square root in point decoding and the order of the base point: hypotheses of `Ed25519.Theory`.
- Curve25519.ParametersAreComputed: that raising to P-2 inverts 121666 and 5 modulo P, which is prime, is a hypothesis.
- The Rust stack, and the Python ports of what is modelled here after Go and TypeScript.
- SignatureLaws.VerifiesIff: holds under `SignatureLaws.ExactLaws`, which adds to the theory of the curve that equal cross products are equal points and that the base point has exactly the stated order.
- Ed25519.SignVerifies: holds under `Ed25519.CurveLaws`, whose group and decoding laws, collected in `Ed25519.Theory`, are not proved for the literal curve.
- AssertionRoundTrip.ParsePrint: covers what the language can spell; the parser also makes NaN of a malformed numeral and infinity of a huge one (`AssertionRoundTrip.PrintParse`).
- Timestamps.UtcOrderIff: excludes the leap second 60 and offsets other than Z.
- JSON paths used by the site, the registries, the release scripts and the example drivers.
