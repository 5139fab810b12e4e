/**
 Receipts of a run: each belongs to one forwarded, approved call.

 These are the safety statements over whole runs.  Clients may reuse request ids, responses may
 come late, twice or never, and batches may hide calls; through all of that a receipt in the files
 leads back to one numbered call, to the decision that approved it and to its arguments.  They
 follow from the invariant kept by every step, read off at the end of the run.  Nothing is assumed
 of the policy beyond what validation establishes.
 */
module RunLaws {
  import opened Outcomes
  import opened Json
  import opened Policy
  import opened Audit
  import opened Gate
  import opened FileNames
  import opened GateLaws
  import ArtifactFields
  import Compliance
  import Records
  import Settler

  /** The ids of the batched calls that have one, in order. */
  function BatchedIds(items: seq<Value>): seq<Value> {
    if items == [] then []
    else (if IsToolCall(items[0]) && Field(items[0], "id").Some? then [Field(items[0], "id").value] else []) +
         BatchedIds(items[1..])
  }

  lemma DenyCarriesId(id: Value, detail: string)
    ensures Field(DenyReply(id, detail), "id") == Some(id)
  {
    hide Get;
    GetAt(DenyReply(id, detail).members, 1);
  }

  lemma {:induction false} RepliesFor(items: seq<Value>)
    ensures |BatchReplies(items)| == |BatchedIds(items)|
    ensures forall k | 0 <= k < |BatchReplies(items)| ::
            Field(BatchReplies(items)[k], "id") == Some(BatchedIds(items)[k])
  {
    hide IsToolCall, DenyReply, Field;
    if items != [] {
      RepliesFor(items[1..]);
      if Field(items[0], "id").Some? {
        DenyCarriesId(Field(items[0], "id").value, "batched tools/call is not allowed");
      }
    }
  }

  /**
   A batch with a tool call in it is not forwarded and changes nothing; each call in it that has an id
   is answered, in order.
   */
  lemma BatchHeld(s: Setup, st: State, raw: string, now: string, items: seq<Value>)
    requires s.js.parse(raw) == Some(Array(items)) && SmugglesCall(items)
    ensures var (st', reaction) := ClientStep(s, st, raw, now);
      st' == st && reaction == (if BatchedIds(items) == [] then Silent else Reply(Array(BatchReplies(items))))
    ensures |BatchReplies(items)| == |BatchedIds(items)|
    ensures forall k | 0 <= k < |BatchReplies(items)| ::
            Field(BatchReplies(items)[k], "id") == Some(BatchedIds(items)[k])
  {
    hide SmugglesCall, BatchReplies, BatchedIds;
    RepliesFor(items);
  }

  predicate IsBatch(s: Setup, e: Event) {
    e.Client? && s.js.parse(e.raw).Some? && s.js.parse(e.raw).value.Array?
  }

  function WithoutBatches(s: Setup, events: seq<Event>): seq<Event> {
    if events == [] then []
    else (if IsBatch(s, events[0]) then [] else [events[0]]) + WithoutBatches(s, events[1..])
  }

  lemma BatchStep(s: Setup, st: State, log: seq<Rec>, e: Event)
    requires IsBatch(s, e)
    ensures Step(s, st, e).0 == st && NextLog(s, st, log, e) == log
  {
    hide BatchReaction;
  }

  /** Batches leave no trace: a run ends with the same files, pending calls and log without them. */
  lemma {:induction false} BatchesLeaveNoTrace(s: Setup, st: State, log: seq<Rec>, events: seq<Event>)
    ensures RunFrom(s, st, log, WithoutBatches(s, events)) == RunFrom(s, st, log, events)
    decreases |events|
  {
    hide IsBatch, Step, NextLog;
    if events != [] {
      var rest := WithoutBatches(s, events[1..]);
      if IsBatch(s, events[0]) {
        BatchStep(s, st, log, events[0]);
        assert [] + rest == rest;
        BatchesLeaveNoTrace(s, st, log, events[1..]);
      } else {
        assert ([events[0]] + rest)[1..] == rest;
        BatchesLeaveNoTrace(s, Step(s, st, events[0]).0, NextLog(s, st, log, events[0]), events[1..]);
      }
    }
  }

  lemma FileKnown(s: Setup, st: State, log: seq<Rec>, f: File, n: nat, k: Kind)
    requires Good(s, st, log) && f in st.files && f.name == FileName(SeqNo(n), KindText(k))
    ensures n < |log| && ContentOf(s, log[n], n, k) == Some(f.content)
  {
    hide ContentOf, RecOk, PendingExact, DistinctNames, FileName, SeqNo, KindText, Good;
    var m, j := FileHasRecord(s, st, log, f);
    FileOfUnique(s, log, f, m, j, n, k);
  }

  lemma FilePresent(s: Setup, st: State, log: seq<Rec>, f: File, n: nat, k: Kind)
    requires Good(s, st, log) && n < |log| && f.name == FileName(SeqNo(n), KindText(k))
    requires ContentOf(s, log[n], n, k) == Some(f.content)
    ensures f in st.files
  {
    hide ContentOf, RecOk, PendingExact, DistinctNames, FileName, SeqNo, KindText;
    assert FileOf(s, log, f, n, k);
  }

  lemma RecordOk(s: Setup, st: State, log: seq<Rec>, n: nat)
    requires Good(s, st, log) && n < |log|
    ensures RecOk(s, log[n], n)
  {
    hide RecOk, PendingExact, DistinctNames, FilesExact;
  }

  /** The decision recorded for a call, as it reads. */
  lemma DecisionOfCall(s: Setup, r: Rec, n: nat)
    requires GoodPolicy(s.policy) && r.Rec? && RecOk(s, r, n)
    ensures var a := ArtifactOf(s, r);
      Str(a, ["status"]) == Records.StatusText(JudgedOf(s, r).0.status) &&
      Path(a, ["assertions"]) == Some(Array(Records.AssertionsJson(JudgedOf(s, r).0.assertions))) &&
      Path(a, ["authorized"]) == Some(Array(Records.VerbsJson(JudgedOf(s, r).0.authorized))) &&
      Str(a, ["commitment_cid"]) == JudgedOf(s, r).1 &&
      Records.Texts(Records.Items(a, ["evidence"])) == CidsOf(TimsOf(s, r)) &&
      Str(a, ["identity", "id"]) == s.keys.did && Str(a, ["time", "ts"]) == r.now
  {
    hide EvidenceTims, Judgement, SignArtifact, DecisionBody, Gate.ToolOf, ArgsOf, Path, Finite, Unambiguous,
         Approved, XrOf, Records.AssertionsJson, Records.VerbsJson, Records.Texts, Records.StatusText, CidsOf;
    Compliance.VerdictFit(s, Gate.ToolOf(r.m), ArgsOf(r.m), r.now);
    var (d, cid) := JudgedOf(s, r);
    ArtifactFields.DecisionReads(s.crypto, d, cid, CidsOf(TimsOf(s, r)), s.keys, r.now);
  }

  /**
   Over every interleaving of messages: a receipt file belongs to one numbered call, which was
   forwarded under an approved decision; the decision is on file; and the receipt carries its cid,
   the cid of the commitment it was taken under, and the hash of the arguments of that very call.  It
   names the tool, and says whether the server's response was a success.
   */
  lemma ReceiptsJustified(s: Setup, events: seq<Event>, f: File, n: nat)
    requires SetupOk(s)
    requires f in RunFrom(s, START, [], events).0.files && f.name == FileName(SeqNo(n), "xr")
    ensures var (st, log) := RunFrom(s, START, [], events);
      n < |log| && log[n].Rec? && log[n].reaction == Forward(log[n].raw) && Approved(s, log[n]) &&
      File(FileName(SeqNo(n), "decision"), ArtifactOf(s, log[n])) in st.files &&
      Str(ArtifactOf(s, log[n]), ["status"]) == "APPROVED" &&
      Str(f.content, ["decision_cid"]) == Str(ArtifactOf(s, log[n]), ["cid"]) &&
      Str(f.content, ["commitment_cid"]) == Str(ArtifactOf(s, log[n]), ["commitment_cid"]) &&
      Settler.ArgsHash(s.crypto, ArgsOf(log[n].m)) == Some(Str(f.content, ["args_hash"])) &&
      log[n].xr.Some? && RecordsOutcome(f.content, log[n].xr.value.m) &&
      Str(f.content, ["tool"]) == Gate.ToolOf(log[n].m) && Str(f.content, ["time", "ts"]) == log[n].xr.value.now
    ensures forall g | g in RunFrom(s, START, [], events).0.files && g.name == f.name :: g == f
  {
    hide RunFrom, Good, ContentOf, RecOk, Approved, ArtifactOf, FileName, SeqNo, JudgedOf, Str, Settler.ArgsHash,
         ArgsOf, Gate.ToolOf, RecordsOutcome, DistinctNames, SetupOk;
    var (st, log) := RunFrom(s, START, [], events);
    StartGood(s);
    RunGood(s, START, [], events);
    assert KindText(XrFile) == "xr" && KindText(DecisionFile) == "decision";
    FileKnown(s, st, log, f, n, XrFile);
    RecordOk(s, st, log, n);
    HasReceipt(s, log[n], n, f.content);
    FilePresent(s, st, log, File(FileName(SeqNo(n), "decision"), ArtifactOf(s, log[n])), n, DecisionFile);
    ReceiptCarries(s, log[n], n);
    NamesTell(s, st, log, f);
  }

  /**
   The receipt says failed exactly when the response has an error or a result marked as one, and success
   otherwise.
   */
  predicate RecordsOutcome(xr: Value, response: Value) {
    Str(xr, ["status"]) ==
    if Field(response, "error").Some? || Path(response, ["result", "isError"]) == Some(Bool(true)) then "failed"
    else "success"
  }

  lemma HasReceipt(s: Setup, r: Rec, n: nat, content: Value)
    requires RecOk(s, r, n) && ContentOf(s, r, n, XrFile) == Some(content)
    ensures r.Rec? && r.xr.Some? && XrOf(s, r, n) == Some(content) && Approved(s, r) && r.reaction == Forward(r.raw)
    ensures ContentOf(s, r, n, DecisionFile) == Some(ArtifactOf(s, r))
  {
    hide XrOf, Approved, ArtifactOf, EvidenceTims, Finite, Unambiguous;
  }

  lemma ReceiptCarries(s: Setup, r: Rec, n: nat)
    requires SetupOk(s) && r.Rec? && r.xr.Some? && RecOk(s, r, n) && Approved(s, r) && XrOf(s, r, n).Some?
    ensures var xr, a := XrOf(s, r, n).value, ArtifactOf(s, r);
      Str(a, ["status"]) == "APPROVED" && Str(xr, ["decision_cid"]) == Str(a, ["cid"]) &&
      Str(xr, ["commitment_cid"]) == Str(a, ["commitment_cid"]) &&
      Settler.ArgsHash(s.crypto, ArgsOf(r.m)) == Some(Str(xr, ["args_hash"])) &&
      RecordsOutcome(xr, r.xr.value.m) && Str(xr, ["tool"]) == Gate.ToolOf(r.m) &&
      Str(xr, ["time", "ts"]) == r.xr.value.now
  {
    hide RecOk, BuildXr, JudgedOf, ArtifactOf, Str, Settler.ArgsHash, ArgsOf, Gate.ToolOf, GoodPolicy, Path, Field;
    DecisionOfCall(s, r, n);
    ArtifactFields.XrReads(s.crypto, XrFor(s, CallOf(s, r, n), r.xr.value.m, r.xr.value.now), s.keys);
  }

  lemma NamesTell(s: Setup, st: State, log: seq<Rec>, f: File)
    requires Good(s, st, log) && f in st.files
    ensures forall g | g in st.files && g.name == f.name :: g == f
  {
    hide RecOk, PendingExact, FilesExact;
    forall g | g in st.files && g.name == f.name
      ensures g == f
    {
      var i :| 0 <= i < |st.files| && st.files[i] == f;
      var j :| 0 <= j < |st.files| && st.files[j] == g;
      assert i == j;
    }
  }

  /**
   In every run, no receipt is ever written over another: while a call is pending, no receipt of its
   number exists.
   */
  lemma OneReceiptPerCall(s: Setup, events: seq<Event>, id: string)
    requires SetupOk(s) && id in RunFrom(s, START, [], events).0.pending
    ensures var st := RunFrom(s, START, [], events).0;
      forall f | f in st.files :: f.name != FileName(st.pending[id].seqNo, "xr")
  {
    hide RunFrom, Good, SetupOk, FileName;
    StartGood(s);
    RunGood(s, START, [], events);
    ReceiptIsNew(s, RunFrom(s, START, [], events).0, RunFrom(s, START, [], events).1, id);
  }
}
