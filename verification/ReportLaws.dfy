/**
 When exactly a bundle's report is valid.

 The condition is written out in terms of the documents: who signed them, which identifiers they name,
 and what the Kernel says of the evidence.  In particular a recorded decision agrees with the replayed
 one in status, in every assertion and in every authorized verb, for every call, whether or not it has
 a receipt.  Documents repeat no member name, and a directory holds one file of a name.
 */
module ReportLaws {
  import opened Outcomes
  import opened Json
  import opened Canonicalize
  import opened Jws
  import opened Ordering
  import opened Gate
  import opened Replay
  import opened ReplayLaws
  import opened ChainLaws
  import ArtifactShapes
  import Assertions
  import Compliance
  import GateLaws
  import JsonRoundTrip
  import Kernel
  import KernelLaws
  import MemberLaws
  import Records
  import Tim
  import Utf16

  // ---------- the condition ----------

  /** The list under a name is this one, up to the order of members. */
  predicate Lists(d: Value, key: string, items: seq<Value>) {
    Path(d, [key]).Some? && Same(Array(items), Path(d, [key]).value)
  }

  function VerdictText(status: Kernel.Status): string {
    if status == Kernel.APPROVED then "APPROVED"
    else if status == Kernel.REJECTED then "REJECTED"
    else "INDETERMINATE"
  }

  /** The decision records what the Kernel says of the evidence at its time, under the commitment. */
  predicate Recorded(v: Verifier, d: Value, commitment: Value, tims: seq<Value>) {
    var r := Records.DecideJson(v.rt, commitment, tims, Str(d, ["time", "ts"]));
    Str(d, ["status"]) == VerdictText(r.status) &&
    Lists(d, "assertions", Records.AssertionsJson(r.assertions)) &&
    Lists(d, "authorized", Records.VerbsJson(r.authorized))
  }

  /** Of the commitment files with this cid, the one whose name comes last holds this commitment. */
  ghost predicate FiledLast(files: seq<File>, cid: string, commitment: Value) {
    exists f :: f in files && f.content == commitment && Str(f.content, ["cid"]) == cid &&
      forall g | g in files && Str(g.content, ["cid"]) == cid :: !NameBefore(f, g)
  }

  /** A receipt is signed, belongs to the decision and its commitment, and is for the recorded arguments. */
  ghost predicate ReceiptSound(c: Crypto, xr: Value, d: Value, tims: seq<Value>) {
    Str(d, ["status"]) == "APPROVED" && Authentic(c, xr, Str(xr, ["identity", "id"])) &&
    Str(xr, ["decision_cid"]) == Str(d, ["cid"]) && Str(xr, ["commitment_cid"]) == Str(d, ["commitment_cid"]) &&
    (Str(xr, ["status"]) == "success" || Str(xr, ["status"]) == "failed") &&
    exists args :: ToolArguments(tims, args) &&
      CidOfValue(c, if args == Null then Object([]) else args) == Some(Str(xr, ["args_hash"]))
  }

  /** The first receipt coded as the tool records these arguments. */
  ghost predicate ToolArguments(tims: seq<Value>, args: Value) {
    exists i | 0 <= i < |tims| ::
      Path(tims[i], ["measurement", "code"]) == Some(String("tool")) &&
      Path(tims[i], ["measurement", "provenance", "arguments"]) == Some(args) &&
      forall j | 0 <= j < i :: Path(tims[j], ["measurement", "code"]) != Some(String("tool"))
  }

  function ReceiptOf(b: Bundle, seqNo: string): Option<Value> {
    match FirstXr(GroupOf(Listed(b.calls), seqNo))
    case Some(f) => Some(f.content)
    case None => None
  }

  /** One call: verified evidence, all of it cited and counted, and a signed decision that replays. */
  ghost predicate CallSound(v: Verifier, b: Bundle, seqNo: string) {
    var tims := EvidenceOf(b, seqNo);
    DecisionOf(b, seqNo).Some? &&
    var d := DecisionOf(b, seqNo).value;
    Checked(v.crypto, tims, d) &&
    (if Str(d, ["commitment_cid"]) == "" then Str(d, ["status"]) != "APPROVED"
     else exists c :: FiledLast(b.commitments, Str(d, ["commitment_cid"]), c) && Recorded(v, d, c, tims)) &&
    (ReceiptOf(b, seqNo).Some? ==> ReceiptSound(v.crypto, ReceiptOf(b, seqNo).value, d, tims))
  }

  /** The session record is signed by the did it names, and each commitment it lists is in the bundle. */
  ghost predicate SessionSound(v: Verifier, b: Bundle) {
    b.session.Some? && Path(b.session.value, ["identity", "id"]).Some? &&
    Path(b.session.value, ["identity", "id"]).value.String? &&
    Authentic(v.crypto, b.session.value, Path(b.session.value, ["identity", "id"]).value.text) &&
    forall cid | cid in Records.Texts(Records.Items(b.session.value, ["commitments"])) ::
      exists f :: f in b.commitments && Str(f.content, ["cid"]) == cid
  }

  ghost predicate BundleSound(v: Verifier, b: Bundle) {
    SessionSound(v, b) &&
    (forall f | f in b.commitments :: Authentic(v.crypto, f.content, Str(f.content, ["actor"]))) &&
    forall f | f in b.calls :: CallSound(v, b, Prefix(f.name))
  }

  // ---------- comparing lists by their canonical text ----------

  lemma SameFinite(v: Value, w: Value)
    requires Unambiguous(v) && Unambiguous(w) && Same(v, w)
    ensures Finite(v) <==> Finite(w)
  {
    SameSorts(v, w);
    SortKeeps(v);
    SortKeeps(w);
  }

  /** Comparing canonical texts is comparing documents, where one of them is finite. */
  lemma SameCanonicalIff(v: Value, w: Value)
    requires Unambiguous(v) && Unambiguous(w) && Finite(w)
    ensures SameCanonical(v, w) <==> Same(v, w)
  {
    hide Canonical, Same;
    FiniteCanonical(v);
    FiniteCanonical(w);
    if Same(v, w) { SameFinite(v, w); }
    if Finite(v) { JsonRoundTrip.CanonicalIff(v, w); }
  }

  lemma {:induction false} PathKeeps(v: Value, keys: seq<string>)
    requires Unambiguous(v) && Path(v, keys).Some?
    ensures Unambiguous(Path(v, keys).value) && (Finite(v) ==> Finite(Path(v, keys).value))
    decreases |keys|
  {
    if keys != [] {
      hide Get;
      MemberLaws.GetKeepsValue(v.members, keys[0]);
      PathKeeps(Get(v.members, keys[0]).value, keys[1..]);
    }
  }

  /** A field of an authentic decision is finite. */
  lemma FieldFinite(c: Crypto, d: Value, did: string, key: string)
    requires Authentic(c, d, did) && Unambiguous(d) && key != "cid" && key != "sig" && Path(d, [key]).Some?
    ensures Unambiguous(Path(d, [key]).value) && Finite(Path(d, [key]).value)
  {
    hide Authentic, Path, Tim.BaseOf;
    FiniteSigned(c, d, did);
    SignedSays(d, key);
    Tim.BaseUnambiguous(d);
    PathKeeps(Signed(d), [key]);
  }

  // ---------- what a replay reports is unambiguous ----------

  predicate ClearDecision(r: Kernel.Decision) {
    (forall i | 0 <= i < |r.assertions| :: r.assertions[i].input.Some? ==> Unambiguous(r.assertions[i].input.value)) &&
    forall i | 0 <= i < |r.authorized| :: Unambiguous(r.authorized[i].json)
  }

  lemma TimValueClear(t: Value)
    requires Unambiguous(t)
    ensures Unambiguous(Records.ReadTim(t).value)
  {
    hide Path, Unambiguous;
    if Path(t, ["measurement", "value"]).Some? { PathKeeps(t, ["measurement", "value"]); } else { NullClear(); }
  }

  lemma NullClear()
    ensures Unambiguous(Null)
  {
  }

  lemma ItemsClear(v: Value, key: string)
    requires Unambiguous(v)
    ensures forall x | x in Records.Items(v, [key]) :: Unambiguous(x)
  {
    hide Path;
    if Path(v, [key]).Some? { PathKeeps(v, [key]); }
  }

  /** The verbs of every consequence are documents of the commitment. */
  lemma VerbsClear(v: Value, k: nat, i: nat)
    requires Unambiguous(v) && Records.ReadCommitment(v).Some?
    requires var cs := Records.ReadCommitment(v).value.consequence; k < |cs| && i < |cs[k].verbs|
    ensures Unambiguous(Records.ReadCommitment(v).value.consequence[k].verbs[i].json)
  {
    hide Path, Records.ReadMeasure, Unambiguous;
    ItemsClear(v, "consequence");
    var items := Records.Items(v, ["consequence"]);
    assert items[k] in items;
    ItemsClear(items[k], "then");
    var verbs := Records.Items(items[k], ["then"]);
    assert verbs[i] in verbs;
  }

  lemma {:induction false} AuthorizedFrom(cs: seq<Kernel.Consequence>, overall: Assertions.TriState) returns (k: nat)
    ensures Kernel.Authorized(cs, overall) == [] || (k < |cs| && Kernel.Authorized(cs, overall) == cs[k].verbs)
  {
    hide Kernel.MatchesOutcome;
    k := 0;
    if cs != [] && !Kernel.MatchesOutcome(cs[0].cond, overall) {
      k := AuthorizedFrom(cs[1..], overall);
      k := k + 1;
    }
  }

  lemma DecidedVerbs(rt: Kernel.Runtime, c: Kernel.Commitment, tims: seq<Kernel.Tim>, now: string) returns (k: nat)
    ensures var verbs := Kernel.Decide(rt, c, tims, now).authorized;
      verbs == [] || (k < |c.consequence| && verbs == c.consequence[k].verbs)
  {
    hide Kernel.AssessAll, Kernel.Overall, Kernel.AllRegistered, Kernel.Authorized;
    k := AuthorizedFrom(c.consequence, Kernel.Overall(Kernel.AssessAll(rt, c.measure, tims, now)));
  }

  lemma DecideClear(rt: Kernel.Runtime, commitment: Value, tims: seq<Value>, now: string)
    requires Unambiguous(commitment) && forall t | t in tims :: Unambiguous(t)
    ensures ClearDecision(Records.DecideJson(rt, commitment, tims, now))
  {
    hide Kernel.Decide, Records.ReadTim, Records.ReadCommitment, Unambiguous;
    if Records.ReadCommitment(commitment).Some? {
      var c, read := Records.ReadCommitment(commitment).value, Records.ReadTims(tims);
      var r := Kernel.Decide(rt, c, read, now);
      forall i | 0 <= i < |r.assertions| && r.assertions[i].input.Some?
        ensures Unambiguous(r.assertions[i].input.value)
      {
        Compliance.InputsFromEvidence(rt, c, read, now, i);
        var t :| t in read && t.value == r.assertions[i].input.value;
        var j :| 0 <= j < |read| && read[j] == t;
        assert tims[j] in tims;
        TimValueClear(tims[j]);
      }
      var k := DecidedVerbs(rt, c, read, now);
      forall i | 0 <= i < |r.authorized|
        ensures Unambiguous(r.authorized[i].json)
      {
        VerbsClear(commitment, k, i);
      }
    }
  }

  lemma AssertionClear(a: Kernel.Assertion)
    requires a.input.Some? ==> Unambiguous(a.input.value)
    ensures Unambiguous(Records.AssertionJson(a))
  {
    hide Records.ResultText;
    var blank := a.(input := if a.input.Some? then Some(Null) else None);
    ArtifactShapes.AssertionFit(blank);
    var ms, bs := Records.AssertionJson(a).members, Records.AssertionJson(blank).members;
    assert |ms| == |bs| && forall i | 0 <= i < |ms| :: ms[i].key == bs[i].key;
    forall i | 0 <= i < |ms|
      ensures Unambiguous(ms[i].value)
    {
      assert Unambiguous(bs[i].value);
      assert ms[i] == bs[i] || (a.input.Some? && ms[i].value == a.input.value);
    }
  }

  lemma ListsClear(r: Kernel.Decision)
    requires ClearDecision(r)
    ensures Unambiguous(Array(Records.AssertionsJson(r.assertions))) &&
            Unambiguous(Array(Records.VerbsJson(r.authorized)))
  {
    hide Records.AssertionJson;
    forall i | 0 <= i < |r.assertions| { AssertionClear(r.assertions[i]); }
  }

  /** A decision that replays records what is replayed, and one that records it replays. */
  lemma ReplaysIff(v: Verifier, d: Value, commitment: Value, tims: seq<Value>)
    requires Authentic(v.crypto, d, Str(d, ["identity", "id"])) && Unambiguous(d) && Unambiguous(commitment)
    requires forall t | t in tims :: Unambiguous(t)
    ensures Replays(Records.DecideJson(v.rt, commitment, tims, Str(d, ["time", "ts"])), d) <==>
            Recorded(v, d, commitment, tims)
  {
    hide Authentic, Str, Path, Records.DecideJson, Unambiguous, Same, SameCanonical, ClearDecision,
         Records.AssertionsJson, Records.VerbsJson;
    var r := Records.DecideJson(v.rt, commitment, tims, Str(d, ["time", "ts"]));
    DecideClear(v.rt, commitment, tims, Str(d, ["time", "ts"]));
    ListsClear(r);
    ListIff(v.crypto, d, "assertions", Records.AssertionsJson(r.assertions));
    ListIff(v.crypto, d, "authorized", Records.VerbsJson(r.authorized));
  }

  lemma ListIff(c: Crypto, d: Value, key: string, items: seq<Value>)
    requires Authentic(c, d, Str(d, ["identity", "id"])) && Unambiguous(d) && Unambiguous(Array(items))
    requires key != "cid" && key != "sig"
    ensures SameCanonical(Array(items), Path(d, [key]).GetOr(Null)) <==> Lists(d, key, items)
  {
    hide Authentic, Path, Unambiguous, Same, SameCanonical;
    if Path(d, [key]).Some? {
      FieldFinite(c, d, Str(d, ["identity", "id"]), key);
      SameCanonicalIff(Array(items), Path(d, [key]).value);
    } else {
      NullClear();
      NotNull(items);
      SameCanonicalIff(Array(items), Null);
    }
  }

  lemma NotNull(items: seq<Value>)
    ensures !Same(Array(items), Null) && Finite(Null)
  {
  }

  // ---------- the commitment of a cid ----------

  /** The map holds the last file of a cid. */
  lemma {:induction false} MapLast(files: seq<File>, n: nat, cid: string) returns (i: nat)
    requires n <= |files| && cid in CommitmentMap(files, n)
    ensures i < n && CommitmentMap(files, n)[cid] == files[i].content && Str(files[i].content, ["cid"]) == cid
    ensures forall j | i < j < n :: Str(files[j].content, ["cid"]) != cid
    decreases n
  {
    hide Str;
    if Str(files[n - 1].content, ["cid"]) == cid { i := n - 1; } else { i := MapLast(files, n - 1, cid); }
  }

  lemma {:induction false} MapHasIff(files: seq<File>, n: nat, cid: string)
    requires n <= |files|
    ensures cid in CommitmentMap(files, n) <==> exists i | 0 <= i < n :: Str(files[i].content, ["cid"]) == cid
    decreases n
  {
    hide Str;
    if n > 0 { MapHasIff(files, n - 1, cid); }
  }

  lemma NamesStrict()
    ensures StrictOrder(NameBefore)
  {
    forall x: File, y: File, z: File
      ensures !NameBefore(x, x)
      ensures NameBefore(x, y) && NameBefore(y, z) ==> NameBefore(x, z)
      ensures NameBefore(x, z) ==> NameBefore(x, y) || NameBefore(y, z)
    {
      Utf16.BeforeStrict(x.name, y.name, z.name);
    }
  }

  lemma ListedSorted(files: seq<File>)
    ensures Sorted(NameBefore, Listed(files))
  {
    NamesStrict();
    SortSorted(NameBefore, files);
  }

  lemma MapIff(files: seq<File>, cid: string, commitment: Value)
    requires GateLaws.DistinctNames(files)
    ensures var cs := Listed(files);
      cid in CommitmentMap(cs, |cs|) && CommitmentMap(cs, |cs|)[cid] == commitment <==>
          FiledLast(files, cid, commitment)
  {
    hide Str, Listed, NameBefore, CommitmentMap, Sorted;
    var cs := Listed(files);
    ListedSorted(files);
    forall f
      ensures f in cs <==> f in files
    {
      ListedSame(files, f);
    }
    MapHasIff(cs, |cs|, cid);
    if FiledLast(files, cid, commitment) { FiledListed(files, cid, commitment); }
    if cid in CommitmentMap(cs, |cs|) {
      var i := MapLast(cs, |cs|, cid);
      LastIs(cs, i, cid);
      if FiledLast(files, cid, commitment) {
        var f :| f in files && f.content == commitment && Str(f.content, ["cid"]) == cid &&
          forall g | g in files && Str(g.content, ["cid"]) == cid :: !NameBefore(f, g);
        SameName(f, cs[i]);
        OneOfName(files, f, cs[i]);
      }
    }
  }

  lemma FiledListed(files: seq<File>, cid: string, commitment: Value)
    requires FiledLast(files, cid, commitment)
    ensures exists i | 0 <= i < |Listed(files)| :: Str(Listed(files)[i].content, ["cid"]) == cid
  {
    hide Str, Listed, NameBefore;
    var f :| f in files && Str(f.content, ["cid"]) == cid;
    ListedSame(files, f);
    var j :| 0 <= j < |Listed(files)| && Listed(files)[j] == f;
  }

  lemma SameName(f: File, g: File)
    requires !NameBefore(f, g) && !NameBefore(g, f)
    ensures f.name == g.name
  {
    Utf16.BeforeTotal(f.name, g.name);
  }

  lemma OneOfName(files: seq<File>, f: File, g: File)
    requires GateLaws.DistinctNames(files) && f in files && g in files && f.name == g.name
    ensures f == g
  {
    var i :| 0 <= i < |files| && files[i] == f;
    var j :| 0 <= j < |files| && files[j] == g;
  }

  lemma LastIs(cs: seq<File>, i: nat, cid: string)
    requires Sorted(NameBefore, cs) && i < |cs| && forall j | i < j < |cs| :: Str(cs[j].content, ["cid"]) != cid
    ensures forall g | g in cs && Str(g.content, ["cid"]) == cid :: !NameBefore(cs[i], g)
  {
    hide Str, NameBefore;
    NamesStrict();
    forall g | g in cs && Str(g.content, ["cid"]) == cid
      ensures !NameBefore(cs[i], g)
    {
      var j :| 0 <= j < |cs| && cs[j] == g;
      if j == i { assert !NameBefore(g, g); }
    }
  }

  // ---------- one call ----------

  lemma FilesValidIff(c: Crypto, files: seq<File>, tag: string)
    ensures TimErrors(c, files, tag) == [] <==> forall t | t in Contents(files) :: CheckTim(c, t).valid
  {
    hide CheckTim, TimErrors;
    TimsValid(c, files, tag);
    forall f | f in files
      ensures f.content in Contents(files)
    {
      var i :| 0 <= i < |files| && files[i] == f;
      assert Contents(files)[i] == f.content;
    }
    forall t | t in Contents(files)
      ensures exists f :: f in files && f.content == t
    {
      var i :| 0 <= i < |files| && Contents(files)[i] == t;
      assert files[i] in files;
    }
  }

  lemma {:induction false} RawArgsIff(tims: seq<Value>, args: Value)
    ensures RawArgs(tims) == Some(args) <==> ToolArguments(tims, args)
    decreases |tims|
  {
    hide Path;
    if tims != [] {
      var code := Path(tims[0], ["measurement", "code"]);
      if code != Some(String("tool")) {
        RawArgsIff(tims[1..], args);
        LaterArguments(tims, args);
      }
    }
  }

  lemma LaterArguments(tims: seq<Value>, args: Value)
    requires tims != [] && Path(tims[0], ["measurement", "code"]) != Some(String("tool"))
    ensures ToolArguments(tims, args) <==> ToolArguments(tims[1..], args)
  {
    hide Path;
    var rest := tims[1..];
    assert forall j | 0 <= j < |rest| :: rest[j] == tims[j + 1];
    if ToolArguments(tims, args) {
      var i :| 0 <= i < |tims| && Path(tims[i], ["measurement", "code"]) == Some(String("tool")) &&
        Path(tims[i], ["measurement", "provenance", "arguments"]) == Some(args) &&
        forall j | 0 <= j < i :: Path(tims[j], ["measurement", "code"]) != Some(String("tool"));
      assert rest[i - 1] == tims[i];
    }
    if ToolArguments(rest, args) {
      var i :| 0 <= i < |rest| && Path(rest[i], ["measurement", "code"]) == Some(String("tool")) &&
        Path(rest[i], ["measurement", "provenance", "arguments"]) == Some(args) &&
        forall j | 0 <= j < i :: Path(rest[j], ["measurement", "code"]) != Some(String("tool"));
      assert tims[i + 1] == rest[i];
      forall j | 0 <= j < i + 1
        ensures Path(tims[j], ["measurement", "code"]) != Some(String("tool"))
      {
        if j > 0 { assert tims[j] == rest[j - 1]; }
      }
    }
  }

  lemma ReceiptIff(c: Crypto, xrFile: Option<File>, d: Value, tims: seq<Value>, tag: string)
    ensures ExecutionErrors(c, xrFile, d, tims, tag) == [] <==>
            (xrFile.Some? ==> ReceiptSound(c, xrFile.value.content, d, tims))
  {
    hide Str, ArtifactErrors, Authentic, RawArgs, ToolArguments, CidOf, Canonicalize.Canonical, Records.Strings;
    forall args
      ensures RawArgs(tims) == Some(args) <==> ToolArguments(tims, args)
    {
      RawArgsIff(tims, args);
    }
    if xrFile.Some? {
      AuthenticIff(c, xrFile.value.content, Str(xrFile.value.content, ["identity", "id"]), tag + " xr");
    }
  }

  lemma ReplayIff(v: Verifier, files: seq<File>, d: Value, tims: seq<Value>, tag: string)
    requires GateLaws.DistinctNames(files) && StrictlyRead(files) && Unambiguous(d)
    requires Authentic(v.crypto, d, Str(d, ["identity", "id"])) && forall t | t in tims :: Unambiguous(t)
    ensures var cs := Listed(files);
      ReplayErrors(v, CommitmentMap(cs, |cs|), d, tims, tag) == [] <==>
      if Str(d, ["commitment_cid"]) == "" then Str(d, ["status"]) != "APPROVED"
      else exists c :: FiledLast(files, Str(d, ["commitment_cid"]), c) && Recorded(v, d, c, tims)
  {
    hide Str, Authentic, Listed, CommitmentMap, Replays, Recorded, Unambiguous, Records.DecideJson,
         GateLaws.DistinctNames;
    var cs, cid := Listed(files), Str(d, ["commitment_cid"]);
    forall c | FiledLast(files, cid, c)
      ensures cid in CommitmentMap(cs, |cs|) && CommitmentMap(cs, |cs|)[cid] == c
    {
      MapIff(files, cid, c);
    }
    if cid in CommitmentMap(cs, |cs|) {
      var c := CommitmentMap(cs, |cs|)[cid];
      MapIff(files, cid, c);
      FiledRead(files, cid, c);
      ReplaysIff(v, d, c, tims);
    }
  }

  lemma FiledRead(files: seq<File>, cid: string, commitment: Value)
    requires StrictlyRead(files) && FiledLast(files, cid, commitment)
    ensures Unambiguous(commitment)
  {
    hide Str, NameBefore, Unambiguous;
  }

  lemma CheckedIff(c: Crypto, tims: seq<Value>, d: Value, tag: string)
    ensures ArtifactErrors(c, d, Str(d, ["identity", "id"]), tag + " decision") +
            UncitedErrors(Cited(d), tims, tag) + CountErrors(Cited(d), tims, tag) == [] <==>
            Authentic(c, d, Str(d, ["identity", "id"])) && (forall t | t in tims :: Str(t, ["cid"]) in Cited(d)) &&
            |Cited(d)| == |tims|
  {
    hide Str, ArtifactErrors, Authentic, UncitedErrors, Cited;
    AuthenticIff(c, d, Str(d, ["identity", "id"]), tag + " decision");
    AllCited(Cited(d), tims, tag);
  }

  lemma CallIff(v: Verifier, b: Bundle, seqNo: string)
    requires StrictlyRead(b.calls) && StrictlyRead(b.commitments) && GateLaws.DistinctNames(b.commitments)
    ensures var cs := Listed(b.commitments);
      CallErrors(v, CommitmentMap(cs, |cs|), seqNo, GroupOf(Listed(b.calls), seqNo)) == [] <==> CallSound(v, b, seqNo)
  {
    hide Str, Authentic, Listed, CommitmentMap, GroupOf, TimFiles, FirstXr, FirstDecision, TimErrors, ArtifactErrors,
         UncitedErrors, CountErrors, ReplayErrors, ExecutionErrors, Cited, CheckTim, Recorded, FiledLast,
         ReceiptSound, Unambiguous, StrictlyRead, GateLaws.DistinctNames;
    var g, tag := GroupOf(Listed(b.calls), seqNo), "call " + seqNo;
    FilesValidIff(v.crypto, TimFiles(g), tag);
    if FirstDecision(g).Some? {
      var d, tims := FirstDecision(g).value.content, Contents(TimFiles(g));
      DecisionRead(b, seqNo);
      forall t | t in tims { EvidenceRead(b, seqNo, t); }
      CheckedIff(v.crypto, tims, d, tag);
      ReceiptIff(v.crypto, FirstXr(g), d, tims, tag);
      if Authentic(v.crypto, d, Str(d, ["identity", "id"])) { ReplayIff(v, b.commitments, d, tims, tag); }
    }
  }

  // ---------- the whole bundle ----------

  lemma PrefixesIff(files: seq<File>, p: string)
    ensures p in Prefixes(Listed(files), |files|) <==> exists f :: f in files && Prefix(f.name) == p
  {
    hide Prefix, Listed;
    forall f
      ensures f in Listed(files) <==> f in files
    {
      ListedSame(files, f);
    }
    forall i | 0 <= i < |Listed(files)|
      ensures Listed(files)[i] in files
    {
      assert Listed(files)[i] in Listed(files);
    }
  }

  lemma GroupsIff(v: Verifier, b: Bundle)
    requires StrictlyRead(b.calls) && StrictlyRead(b.commitments) && GateLaws.DistinctNames(b.commitments)
    ensures var cs, calls := Listed(b.commitments), Listed(b.calls);
      GroupErrors(v, CommitmentMap(cs, |cs|), Prefixes(calls, |calls|), calls) == [] <==>
      forall f | f in b.calls :: CallSound(v, b, Prefix(f.name))
  {
    hide CallSound, CallErrors, GroupErrors, Listed, CommitmentMap, Prefixes, GroupOf, Prefix, StrictlyRead,
         CallClean, GateLaws.DistinctNames;
    var cs, calls := Listed(b.commitments), Listed(b.calls);
    GroupsValid(v, CommitmentMap(cs, |cs|), Prefixes(calls, |calls|), calls);
    forall p
      ensures CallClean(v, CommitmentMap(cs, |cs|), p, calls) <==> CallSound(v, b, p)
      ensures p in Prefixes(calls, |calls|) <==> exists f :: f in b.calls && Prefix(f.name) == p
    {
      CleanIs(v, CommitmentMap(cs, |cs|), p, calls);
      CallIff(v, b, p);
      PrefixesIff(b.calls, p);
    }
  }

  lemma DeclaredIff(files: seq<File>, declared: seq<string>)
    ensures var cs := Listed(files);
      DeclaredErrors(declared, CommitmentMap(cs, |cs|)) == [] <==>
      forall cid | cid in declared :: exists f :: f in files && Str(f.content, ["cid"]) == cid
  {
    hide Str, Listed, CommitmentMap;
    var cs := Listed(files);
    DeclaredPresent(declared, CommitmentMap(cs, |cs|));
    forall cid
      ensures cid in CommitmentMap(cs, |cs|) <==> exists f :: f in files && Str(f.content, ["cid"]) == cid
    {
      FiledIff(files, cid);
    }
  }

  lemma FiledIff(files: seq<File>, cid: string)
    ensures var cs := Listed(files);
      cid in CommitmentMap(cs, |cs|) <==> exists f :: f in files && Str(f.content, ["cid"]) == cid
  {
    hide Str, Listed, CommitmentMap;
    var cs := Listed(files);
    MapHasIff(cs, |cs|, cid);
    forall f
      ensures f in cs <==> f in files
    {
      ListedSame(files, f);
    }
    forall i | 0 <= i < |cs|
      ensures cs[i] in files
    {
      assert cs[i] in cs;
    }
  }

  lemma CommitmentsIff(c: Crypto, files: seq<File>)
    ensures CommitmentErrors(c, Listed(files)) == [] <==>
            forall f | f in files :: Authentic(c, f.content, Str(f.content, ["actor"]))
  {
    hide Str, Authentic, Listed, CommitmentErrors;
    CommitmentsValid(c, Listed(files));
    forall f
      ensures f in Listed(files) <==> f in files
    {
      ListedSame(files, f);
    }
  }

  /** A report is valid exactly when its bundle is sound. */
  lemma ValidIff(v: Verifier, b: Bundle)
    requires StrictlyRead(b.calls) && StrictlyRead(b.commitments) && GateLaws.DistinctNames(b.commitments)
    ensures VerifyBundle(v, b).valid <==> BundleSound(v, b)
  {
    hide Str, Path, Authentic, Listed, CommitmentMap, Prefixes, CommitmentErrors, DeclaredErrors, GroupErrors,
         ArtifactErrors, CallSound, Records.Texts, Records.Items, StrictlyRead, GateLaws.DistinctNames, Prefix;
    GroupsIff(v, b);
    CommitmentsIff(v.crypto, b.commitments);
    if b.session.Some? {
      DeclaredIff(b.commitments, Records.Texts(Records.Items(b.session.value, ["commitments"])));
      var id := Records.OptionalStr(b.session.value, ["identity", "id"]);
      if id.Some? { AuthenticIff(v.crypto, b.session.value, id.value, "session"); }
    }
  }

  /**
   In a valid bundle an approval under a commitment is what its measures prove, and the recorded verbs
   are exactly those of the first consequence for PASS.
   */
  lemma ApprovalIsEarned(v: Verifier, b: Bundle, seqNo: string, f: File) returns (commitment: Value, k: nat)
    requires StrictlyRead(b.calls) && StrictlyRead(b.commitments) && GateLaws.DistinctNames(b.commitments)
    requires VerifyBundle(v, b).valid && f in b.calls && Prefix(f.name) == seqNo
    requires DecisionOf(b, seqNo).Some? && Str(DecisionOf(b, seqNo).value, ["status"]) == "APPROVED"
    ensures var d := DecisionOf(b, seqNo).value;
      FiledLast(b.commitments, Str(d, ["commitment_cid"]), commitment) &&
      Records.ReadCommitment(commitment).Some? &&
      var c, tims, now := Records.ReadCommitment(commitment).value, Records.ReadTims(EvidenceOf(b, seqNo)),
          Str(d, ["time", "ts"]);
      c.measure != [] && (forall i: nat | i < |c.measure| :: KernelLaws.Proven(v.rt, c.measure, tims, now, i)) &&
      KernelLaws.Fires(c.consequence, k) && Lists(d, "authorized", Records.VerbsJson(c.consequence[k].verbs))
  {
    hide Str, VerifyBundle, Checked, FiledLast, Lists, EvidenceOf, DecisionOf, ReceiptOf, ReceiptSound, StrictlyRead,
         GateLaws.DistinctNames, Prefix, Kernel.Decide, KernelLaws.Proven, KernelLaws.Fires, Records.ReadCommitment,
         Kernel.AllRegistered, SessionSound, Records.AssertionsJson, Authentic;
    ValidIff(v, b);
    assert CallSound(v, b, Prefix(f.name));
    var d, tims := DecisionOf(b, seqNo).value, EvidenceOf(b, seqNo);
    commitment :| FiledLast(b.commitments, Str(d, ["commitment_cid"]), commitment) && Recorded(v, d, commitment, tims);
    k := 0;
    var c := Records.ReadCommitment(commitment);
    if c.Some? {
      KernelLaws.ApprovedIff(v.rt, c.value, Records.ReadTims(tims), Str(d, ["time", "ts"]));
      k :| KernelLaws.Fires(c.value.consequence, k);
    }
  }
}
