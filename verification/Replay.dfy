/**
 Offline verification of an audit bundle from its artifacts alone.

 The bundle is a session record, a listing of commitment files and a listing of call files; both
 listings are put in name order first, as the code does.  Every check contributes the messages it
 reports, and the report is valid when there are none.  Each artifact is checked against the identity
 it names itself: commitments against their actor, decisions, receipts and evidence against their
 issuer.  None of these is compared with the did of the session.
 */
module Replay {
  import opened Outcomes
  import opened Ordering
  import opened Json
  import opened Canonicalize
  import opened DidKey
  import opened Jws
  import opened Gate
  import Kernel
  import Records
  import Tim
  import Utf16

  /** A bundle: the session record, if it could be loaded, and the files of its two directories. */
  datatype Bundle = Bundle(session: Option<Value>, commitments: seq<File>, calls: seq<File>)

  datatype Report = Report(valid: bool, errors: seq<string>, calls: nat, commitments: nat)

  /** What verification computes with. */
  datatype Verifier = Verifier(crypto: Crypto, rt: Kernel.Runtime)

  // ---------- file names ----------

  predicate NameBefore(a: File, b: File) { Utf16.Before(a.name, b.name) }

  predicate EndsWith(s: string, end: string) { |s| >= |end| && s[|s| - |end|..] == end }

  /** The part of a name before its first dash. */
  function Prefix(name: string): string {
    if name == "" || name[0] == '-' then "" else [name[0]] + Prefix(name[1..])
  }

  predicate IsTimFile(f: File) { Kernel.Includes(f.name, "-tim-") }

  predicate IsDecisionFile(f: File) { EndsWith(f.name, "-decision.json") }

  predicate IsXrFile(f: File) { EndsWith(f.name, "-xr.json") }

  function TimFiles(files: seq<File>): seq<File> {
    if files == [] then [] else (if IsTimFile(files[0]) then [files[0]] else []) + TimFiles(files[1..])
  }

  function FirstDecision(files: seq<File>): (r: Option<File>)
    ensures r.Some? ==> r.value in files && IsDecisionFile(r.value)
    ensures r.None? ==> forall f | f in files :: !IsDecisionFile(f)
  {
    if files == [] then None else if IsDecisionFile(files[0]) then Some(files[0]) else FirstDecision(files[1..])
  }

  function FirstXr(files: seq<File>): (r: Option<File>)
    ensures r.Some? ==> r.value in files && IsXrFile(r.value)
    ensures r.None? ==> forall f | f in files :: !IsXrFile(f)
  {
    if files == [] then None else if IsXrFile(files[0]) then Some(files[0]) else FirstXr(files[1..])
  }

  /** The files of one call, in the order they are listed. */
  function GroupOf(files: seq<File>, seqNo: string): seq<File> {
    if files == [] then []
    else (if Prefix(files[0].name) == seqNo then [files[0]] else []) + GroupOf(files[1..], seqNo)
  }

  /** The prefixes of the first n files, each once, in the order they are first met. */
  function Prefixes(files: seq<File>, n: nat): (r: seq<string>)
    requires n <= |files|
    ensures forall p :: p in r <==> exists i | 0 <= i < n :: Prefix(files[i].name) == p
  {
    if n == 0 then []
    else
      var before, p := Prefixes(files, n - 1), Prefix(files[n - 1].name);
      if p in before then before else before + [p]
  }

  // ---------- artifacts ----------

  /** Recompute an artifact's cid and check its signature against a did. */
  function ArtifactErrors(c: Crypto, artifact: Value, did: string, tag: string): seq<string> {
    var body := Object(Tim.Unsigned(if artifact.Object? then artifact.members else []));
    match Canonical(body)
    case None => [tag + ": not canonical"]
    case Some(canonical) =>
      (if CidOf(c, canonical) == Str(artifact, ["cid"]) then [] else [tag + ": cid mismatch"]) +
      (if Resolve(did).Some? && Verified(c, Str(artifact, ["sig"]), canonical, Resolve(did).value) then []
       else [tag + ": signature invalid"])
  }

  /** The key for a TIM or a witness: a witness with a did:key kid is checked against that key only. */
  function ReplayResolver(tim: Value, kid: string): Option<PublicKey> {
    if PREFIX <= kid then Resolve(kid) else Resolve(Str(tim, ["identity", "id"]))
  }

  function Commas(ss: seq<string>): string {
    if ss == [] then "" else if |ss| == 1 then ss[0] else ss[0] + ", " + Commas(ss[1..])
  }

  function NoParse(s: string): Option<int> { None }

  /** Verification of one evidence TIM, without freshness. */
  function CheckTim(c: Crypto, tim: Value): Tim.VerifyResult { Tim.Verify(c, tim, ReplayResolver, NoParse, "") }

  function TimErrors(c: Crypto, timFiles: seq<File>, tag: string): seq<string> {
    if timFiles == [] then []
    else
      var res := CheckTim(c, timFiles[0].content);
      (if res.valid then [] else [tag + " " + timFiles[0].name + ": " + Commas(res.errors)]) +
      TimErrors(c, timFiles[1..], tag)
  }

  function Contents(files: seq<File>): (r: seq<Value>)
    ensures |r| == |files| && forall i | 0 <= i < |r| :: r[i] == files[i].content
  {
    seq(|files|, i requires 0 <= i < |files| => files[i].content)
  }

  // ---------- one call ----------

  function SetOf(ss: seq<string>): set<string> { set s | s in ss }

  function Cited(decision: Value): set<string> { SetOf(Records.Texts(Records.Items(decision, ["evidence"]))) }

  function UncitedErrors(cited: set<string>, tims: seq<Value>, tag: string): seq<string> {
    if tims == [] then []
    else (if Str(tims[0], ["cid"]) in cited then []
          else [tag + ": TIM " + Str(tims[0], ["cid"]) + " not cited by decision"]) +
         UncitedErrors(cited, tims[1..], tag)
  }

  function CountErrors(cited: set<string>, tims: seq<Value>, tag: string): seq<string> {
    if |cited| != |tims| then [tag + ": citation count differs"] else []
  }

  predicate SameCanonical(a: Value, b: Value) { Canonical(a).Some? && Canonical(a) == Canonical(b) }

  /** The recomputed verdict is the recorded one. */
  predicate Replays(replay: Kernel.Decision, decision: Value) {
    Records.StatusText(replay.status) == Str(decision, ["status"]) &&
    SameCanonical(Array(Records.AssertionsJson(replay.assertions)), Path(decision, ["assertions"]).GetOr(Null)) &&
    SameCanonical(Array(Records.VerbsJson(replay.authorized)), Path(decision, ["authorized"]).GetOr(Null))
  }

  function ReplayErrors(v: Verifier, commitments: map<string, Value>, decision: Value, tims: seq<Value>, tag: string):
    seq<string>
  {
    var cid := Str(decision, ["commitment_cid"]);
    if cid != "" then
      if cid !in commitments then [tag + ": commitment " + cid + " not in bundle"]
      else if Replays(Records.DecideJson(v.rt, commitments[cid], tims, Str(decision, ["time", "ts"])), decision) then []
      else [tag + ": decision does not replay"]
    else if Str(decision, ["status"]) == "APPROVED" then [tag + ": APPROVED decision without a commitment"]
    else []
  }

  /** The raw arguments the first TIM coded as the tool records. */
  function RawArgs(tims: seq<Value>): Option<Value> {
    if tims == [] then None
    else if Records.OptionalStr(tims[0], ["measurement", "code"]) == Some("tool") then
      Path(tims[0], ["measurement", "provenance", "arguments"])
    else RawArgs(tims[1..])
  }

  /** The hash of recorded arguments; null stands for none. */
  function RecordedHash(c: Crypto, args: Value): Option<string> {
    CidOfValue(c, if args.Null? then Object([]) else args)
  }

  function ArgsErrors(c: Crypto, xr: Value, tims: seq<Value>, tag: string): seq<string> {
    match RawArgs(tims)
    case None => [tag + ": tool TIM missing provenance.arguments"]
    case Some(args) =>
      if RecordedHash(c, args) == Some(Str(xr, ["args_hash"])) then []
      else [tag + ": xr.args_hash does not match recorded arguments"]
  }

  function XrErrors(c: Crypto, xr: Value, decision: Value, tims: seq<Value>, tag: string): seq<string> {
    ArtifactErrors(c, xr, Str(xr, ["identity", "id"]), tag + " xr") +
    (if Str(xr, ["decision_cid"]) != Str(decision, ["cid"]) then [tag + ": xr.decision_cid mismatch"] else []) +
    (if Str(xr, ["commitment_cid"]) == Str(decision, ["commitment_cid"]) then []
     else [tag + ": xr.commitment_cid mismatch"]) +
    (if Str(xr, ["status"]) !in {"success", "failed"} then [tag + ": xr.status invalid"] else []) +
    ArgsErrors(c, xr, tims, tag)
  }

  function ExecutionErrors(c: Crypto, xrFile: Option<File>, decision: Value, tims: seq<Value>,
                           tag: string): seq<string>
  {
    match xrFile
    case None => []
    case Some(f) =>
      (if Str(decision, ["status"]) != "APPROVED" then [tag + ": execution receipt present for non-approved decision"]
       else []) +
      XrErrors(c, f.content, decision, tims, tag)
  }

  function DecisionErrors(v: Verifier, commitments: map<string, Value>, decision: Value, tims: seq<Value>,
                          xrFile: Option<File>, tag: string): seq<string>
  {
    ArtifactErrors(v.crypto, decision, Str(decision, ["identity", "id"]), tag + " decision") +
    UncitedErrors(Cited(decision), tims, tag) +
    CountErrors(Cited(decision), tims, tag) +
    ReplayErrors(v, commitments, decision, tims, tag) +
    ExecutionErrors(v.crypto, xrFile, decision, tims, tag)
  }

  function CallErrors(v: Verifier, commitments: map<string, Value>, seqNo: string, files: seq<File>): seq<string> {
    var tag := "call " + seqNo;
    var timFiles := TimFiles(files);
    TimErrors(v.crypto, timFiles, tag) +
    match FirstDecision(files)
    case None => [tag + ": missing decision artifact"]
    case Some(f) => DecisionErrors(v, commitments, f.content, Contents(timFiles), FirstXr(files), tag)
  }

  // ---------- the bundle ----------

  /** Commitments by cid, later files overriding earlier ones. */
  function CommitmentMap(files: seq<File>, n: nat): map<string, Value>
    requires n <= |files|
  {
    if n == 0 then map[]
    else CommitmentMap(files, n - 1)[Str(files[n - 1].content, ["cid"]) := files[n - 1].content]
  }

  function CommitmentErrors(c: Crypto, files: seq<File>): seq<string> {
    if files == [] then []
    else ArtifactErrors(c, files[0].content, Str(files[0].content, ["actor"]), "commitment " + files[0].name) +
         CommitmentErrors(c, files[1..])
  }

  function DeclaredErrors(declared: seq<string>, commitments: map<string, Value>): seq<string> {
    if declared == [] then []
    else (if declared[0] in commitments then []
          else ["session: declared commitment " + declared[0] + " missing from bundle"]) +
         DeclaredErrors(declared[1..], commitments)
  }

  function GroupErrors(v: Verifier, commitments: map<string, Value>, prefixes: seq<string>,
                       files: seq<File>): seq<string>
  {
    if prefixes == [] then []
    else CallErrors(v, commitments, prefixes[0], GroupOf(files, prefixes[0])) +
         GroupErrors(v, commitments, prefixes[1..], files)
  }

  function Listed(files: seq<File>): (r: seq<File>)
    ensures |r| == |files|
  {
    SortMultiset(NameBefore, files);
    Sort(NameBefore, files)
  }

  function BundleErrors(v: Verifier, b: Bundle, session: Value, did: string): seq<string> {
    var cs, calls := Listed(b.commitments), Listed(b.calls);
    var commitments := CommitmentMap(cs, |cs|);
    ArtifactErrors(v.crypto, session, did, "session") +
    CommitmentErrors(v.crypto, cs) +
    DeclaredErrors(Records.Texts(Records.Items(session, ["commitments"])), commitments) +
    GroupErrors(v, commitments, Prefixes(calls, |calls|), calls)
  }

  function VerifyBundle(v: Verifier, b: Bundle): Report {
    if b.session.None? then Report(false, ["session.json: not loaded"], 0, 0)
    else
      var did := Records.OptionalStr(b.session.value, ["identity", "id"]);
      if did.None? then Report(false, ["session.json: missing identity.id"], 0, 0)
      else
        var errors := BundleErrors(v, b, b.session.value, did.value);
        var cs, calls := Listed(b.commitments), Listed(b.calls);
        Report(errors == [], errors, |Prefixes(calls, |calls|)|, |CommitmentMap(cs, |cs|)|)
  }
}
