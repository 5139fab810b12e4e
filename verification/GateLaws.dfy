/**
 What holds over every interleaving of client and server messages.

 A run is a list of events.  Beside the state of the gate a log is kept that the code does not have:
 for each sequence number, the message, how it was answered, and the response its receipt stands
 for.  The invariant relates the two: the files are exactly the artifacts of the logged calls, and
 the pending map holds only forwarded, approved calls that still wait for a response, no two of them
 with one number.  Each kind of step is shown to keep it, first for the files, then for the
 pending map; a call that cannot be signed, a refused call and a receipt are treated in turn, and
 the whole run follows by induction.
 */
module GateLaws {
  import opened Outcomes
  import opened Json
  import opened Jws
  import opened Policy
  import opened Audit
  import opened Gate
  import opened FileNames
  import Compliance
  import D = Decimals
  import Kernel

  // ---------- runs, and what is recorded of each call ----------

  datatype Event = Client(raw: string, now: string) | Server(raw: string, now: string)

  function Step(s: Setup, st: State, e: Event): (State, Reaction) {
    match e
    case Client(raw, now) => ClientStep(s, st, raw, now)
    case Server(raw, now) => ServerStep(s, st, raw, now)
  }

  datatype Response = Response(m: Value, now: string)

  /** One numbered call: its message, when it came, how it was answered, and the response it got a receipt for. */
  datatype Rec = Refused | Rec(m: Value, raw: string, now: string, reaction: Reaction, xr: Option<Response>)

  function TimsOf(s: Setup, r: Rec): seq<Value>
    requires r.Rec?
  {
    EvidenceTims(s.crypto, Gate.ToolOf(r.m), ArgsOf(r.m), s.keys, s.server, r.now).GetOr([])
  }

  /** The decision and the commitment's cid. */
  function JudgedOf(s: Setup, r: Rec): (Kernel.Decision, string)
    requires r.Rec?
  {
    Judgement(s, Gate.ToolOf(r.m), TimsOf(s, r), r.now)
  }

  function ArtifactOf(s: Setup, r: Rec): Value
    requires r.Rec?
  {
    var (d, cid) := JudgedOf(s, r);
    SignArtifact(s.crypto, DecisionBody(d, cid, CidsOf(TimsOf(s, r)), s.keys.did, r.now), s.keys).GetOr(Null)
  }

  function CallOf(s: Setup, r: Rec, n: nat): PendingCall
    requires r.Rec?
  {
    PendingCall(SeqNo(n), Gate.ToolOf(r.m), ArgsOf(r.m), JudgedOf(s, r).1, Str(ArtifactOf(s, r), ["cid"]))
  }

  function XrOf(s: Setup, r: Rec, n: nat): Option<Value>
    requires r.Rec? && r.xr.Some?
  {
    BuildXr(s.crypto, XrFor(s, CallOf(s, r, n), r.xr.value.m, r.xr.value.now), s.keys)
  }

  predicate Approved(s: Setup, r: Rec)
    requires r.Rec?
  {
    JudgedOf(s, r).0.status == Kernel.APPROVED
  }

  /** The artifact a call leaves of a kind, if it leaves one. */
  function ContentOf(s: Setup, r: Rec, n: nat, k: Kind): Option<Value> {
    if r.Refused? then None
    else match k
      case TimFile(i) => if i < |TimsOf(s, r)| then Some(TimsOf(s, r)[i]) else None
      case DecisionFile => Some(ArtifactOf(s, r))
      case XrFile => if r.xr.None? then None else XrOf(s, r, n)
  }

  // ---------- the record kept along a run ----------

  function NextLog(s: Setup, st: State, log: seq<Rec>, e: Event): seq<Rec> {
    match s.js.parse(e.raw)
    case None => log
    case Some(m) =>
      if e.Client? then
        if !IsToolCall(m) then log
        else if EvidenceTims(s.crypto, Gate.ToolOf(m), ArgsOf(m), s.keys, s.server, e.now).None? then log + [Refused]
        else log + [Rec(m, e.raw, e.now, Step(s, st, e).1, None)]
      else if !IsResponse(m) || s.rt.show(Field(m, "id").value) !in st.pending then log
      else Receipted(s, log, st.pending[s.rt.show(Field(m, "id").value)], m, e.now)
  }

  /** The log once a pending call has its receipt. */
  function Receipted(s: Setup, log: seq<Rec>, call: PendingCall, m: Value, now: string): seq<Rec> {
    if !D.AllDigits(call.seqNo) || D.NatOf(call.seqNo) >= |log| then log
    else
      var n := D.NatOf(call.seqNo);
      if log[n].Rec? && BuildXr(s.crypto, XrFor(s, call, m, now), s.keys).Some? then
        log[n := log[n].(xr := Some(Response(m, now)))]
      else log
  }

  const START := State(0, map[], [])

  /** State and log after a run. */
  function RunFrom(s: Setup, st: State, log: seq<Rec>, events: seq<Event>): (State, seq<Rec>)
    decreases |events|
  {
    if events == [] then (st, log)
    else RunFrom(s, Step(s, st, events[0]).0, NextLog(s, st, log, events[0]), events[1..])
  }

  // ---------- the invariant ----------

  /** A file is one of the artifacts of the n-th call. */
  ghost predicate FileOf(s: Setup, log: seq<Rec>, f: File, n: nat, k: Kind) {
    n < |log| && f.name == FileName(SeqNo(n), KindText(k)) && ContentOf(s, log[n], n, k) == Some(f.content)
  }

  /** The files are exactly the artifacts of the calls. */
  ghost predicate FilesExact(s: Setup, files: seq<File>, log: seq<Rec>) {
    forall f :: f in files <==> exists n, k :: FileOf(s, log, f, n, k)
  }

  predicate DistinctNames(files: seq<File>) { forall i, j | 0 <= i < j < |files| :: files[i].name != files[j].name }

  /** The call was forwarded under an approved decision, and has no receipt yet. */
  predicate Awaiting(s: Setup, log: seq<Rec>, call: PendingCall, n: nat) {
    n < |log| && log[n].Rec? && Approved(s, log[n]) && log[n].xr.None? && call == CallOf(s, log[n], n)
  }

  ghost predicate PendingExact(s: Setup, pending: map<string, PendingCall>, log: seq<Rec>) {
    (forall id | id in pending :: exists n: nat :: Awaiting(s, log, pending[id], n)) &&
    forall id, other | id in pending && other in pending && id != other :: pending[id].seqNo != pending[other].seqNo
  }

  predicate RecOk(s: Setup, r: Rec, n: nat) {
    r.Rec? ==>
      && EvidenceTims(s.crypto, Gate.ToolOf(r.m), ArgsOf(r.m), s.keys, s.server, r.now).Some?
      && Unambiguous(ArgsOf(r.m)) && Finite(ArgsOf(r.m))
      && (r.reaction == Forward(r.raw) <==> Approved(s, r))
      && (r.xr.Some? ==> Approved(s, r) && XrOf(s, r, n).Some?)
  }

  ghost predicate Good(s: Setup, st: State, log: seq<Rec>) {
    && |log| == st.next
    && (forall n: nat | n < |log| :: RecOk(s, log[n], n))
    && DistinctNames(st.files) && FilesExact(s, st.files, log)
    && PendingExact(s, st.pending, log)
  }

  /** A validated policy, and JSON.parse never yields a repeated member name. */
  ghost predicate SetupOk(s: Setup) {
    GoodPolicy(s.policy) && forall raw :: s.js.parse(raw).Some? ==> Unambiguous(s.js.parse(raw).value)
  }

  lemma StartGood(s: Setup)
    ensures Good(s, START, [])
  {
  }

  // ---------- writing files ----------

  lemma {:induction false} PutExact(files: seq<File>, name: string, v: Value)
    requires DistinctNames(files)
    ensures DistinctNames(Put(files, name, v))
    ensures forall f :: f in Put(files, name, v) <==> f == File(name, v) || (f in files && f.name != name)
  {
    if files != [] {
      var head, rest := files[0], files[1..];
      assert files == [head] + rest;
      if head.name == name {
        assert forall f | f in rest :: f.name != name;
      } else {
        PutExact(rest, name, v);
        var more := Put(rest, name, v);
        assert forall i | 0 <= i < |more| :: more[i] in more;
      }
    }
  }

  lemma {:induction false} PutTimsExact(files: seq<File>, n: nat, tims: seq<Value>, m: nat)
    requires DistinctNames(files) && m <= |tims|
    requires forall f, i: nat | f in files :: f.name != FileName(SeqNo(n), TimKind(i))
    ensures DistinctNames(PutTims(files, SeqNo(n), tims, m))
    ensures forall f :: f in PutTims(files, SeqNo(n), tims, m) <==>
              f in files || exists i: nat :: i < m && f == File(FileName(SeqNo(n), TimKind(i)), tims[i])
    decreases m
  {
    hide FileName, SeqNo, TimKind, Put;
    if m > 0 {
      PutTimsExact(files, n, tims, m - 1);
      var before := PutTims(files, SeqNo(n), tims, m - 1);
      PutExact(before, FileName(SeqNo(n), TimKind(m - 1)), tims[m - 1]);
      forall i: nat | i < m - 1
        ensures FileName(SeqNo(n), TimKind(i)) != FileName(SeqNo(n), TimKind(m - 1))
      {
        if FileName(SeqNo(n), TimKind(i)) == FileName(SeqNo(n), TimKind(m - 1)) {
          NameInjective(n, TimKind(i), n, TimKind(m - 1));
          TimKindInjective(i, m - 1);
        }
      }
    }
  }

  /** A file's call and kind are told by its name. */
  lemma FileOfUnique(s: Setup, log: seq<Rec>, f: File, n: nat, k: Kind, m: nat, j: Kind)
    requires FileOf(s, log, f, n, k) && f.name == FileName(SeqNo(m), KindText(j))
    ensures m == n && j == k
  {
    hide ContentOf, FileName, SeqNo, KindText;
    KindNameInjective(m, j, n, k);
  }

  lemma NoFutureFiles(s: Setup, files: seq<File>, log: seq<Rec>, j: Kind)
    requires FilesExact(s, files, log)
    ensures forall f | f in files :: f.name != FileName(SeqNo(|log|), KindText(j))
  {
    hide ContentOf, FileName, SeqNo, KindText;
    forall f | f in files
      ensures f.name != FileName(SeqNo(|log|), KindText(j))
    {
      var n, k :| FileOf(s, log, f, n, k);
      if f.name == FileName(SeqNo(|log|), KindText(j)) { FileOfUnique(s, log, f, n, k, |log|, j); }
    }
  }

  // ---------- a call keeps the invariant ----------

  /** Appending a record keeps the artifacts of the earlier calls. */
  lemma AppendFiles(s: Setup, log: seq<Rec>, r: Rec, f: File, n: nat, k: Kind)
    ensures FileOf(s, log + [r], f, n, k) <==>
            FileOf(s, log, f, n, k) ||
            (n == |log| && f.name == FileName(SeqNo(n), KindText(k)) && ContentOf(s, r, n, k) == Some(f.content))
  {
    hide ContentOf, FileName, SeqNo, KindText;
  }

  lemma CallFiles(s: Setup, files: seq<File>, log: seq<Rec>, r: Rec)
    requires DistinctNames(files) && FilesExact(s, files, log) && r.Rec? && r.xr.None?
    ensures var tims, seqNo := TimsOf(s, r), SeqNo(|log|);
      var after := Put(PutTims(files, seqNo, tims, |tims|), FileName(seqNo, "decision"), ArtifactOf(s, r));
      DistinctNames(after) && FilesExact(s, after, log + [r])
  {
    hide TimsOf, ArtifactOf, FileName, SeqNo, TimKind, Put, PutTims, DistinctNames, FilesExact, FileOf;
    var tims, n := TimsOf(s, r), |log|;
    var name := FileName(SeqNo(n), "decision");
    NoTimsYet(s, files, log);
    PutTimsExact(files, n, tims, |tims|);
    var mid := PutTims(files, SeqNo(n), tims, |tims|);
    PutExact(mid, name, ArtifactOf(s, r));
    NoFutureFiles(s, files, log, DecisionFile);
    forall i: nat
      ensures FileName(SeqNo(n), TimKind(i)) != name
    {
      if FileName(SeqNo(n), TimKind(i)) == name { KindNameInjective(n, TimFile(i), n, DecisionFile); }
    }
    var after := Put(mid, name, ArtifactOf(s, r));
    forall f
      ensures f in after <==> f in files || NewFile(s, r, n, f)
    {
      NewFileIs(s, r, n, f);
    }
    CallFilesExact(s, files, after, log, r);
  }

  /** An artifact of the call just decided. */
  ghost predicate NewFile(s: Setup, r: Rec, n: nat, f: File) {
    exists k :: f.name == FileName(SeqNo(n), KindText(k)) && ContentOf(s, r, n, k) == Some(f.content)
  }

  lemma NewFileIs(s: Setup, r: Rec, n: nat, f: File)
    requires r.Rec? && r.xr.None?
    ensures NewFile(s, r, n, f) <==>
            f == File(FileName(SeqNo(n), "decision"), ArtifactOf(s, r)) ||
            exists i: nat :: i < |TimsOf(s, r)| && f == File(FileName(SeqNo(n), TimKind(i)), TimsOf(s, r)[i])
  {
    hide TimsOf, ArtifactOf, FileName, SeqNo, TimKind;
    if f == File(FileName(SeqNo(n), "decision"), ArtifactOf(s, r)) {
      assert f.name == FileName(SeqNo(n), KindText(DecisionFile)) &&
          ContentOf(s, r, n, DecisionFile) == Some(f.content);
    }
    if exists i: nat :: i < |TimsOf(s, r)| && f == File(FileName(SeqNo(n), TimKind(i)), TimsOf(s, r)[i]) {
      var i: nat :| i < |TimsOf(s, r)| && f == File(FileName(SeqNo(n), TimKind(i)), TimsOf(s, r)[i]);
      assert f.name == FileName(SeqNo(n), KindText(TimFile(i))) && ContentOf(s, r, n, TimFile(i)) == Some(f.content);
    }
  }

  lemma NoTimsYet(s: Setup, files: seq<File>, log: seq<Rec>)
    requires FilesExact(s, files, log)
    ensures forall f, i: nat | f in files :: f.name != FileName(SeqNo(|log|), TimKind(i))
  {
    hide FilesExact, FileName, SeqNo, TimKind;
    forall f, i: nat | f in files
      ensures f.name != FileName(SeqNo(|log|), TimKind(i))
    {
      NoFutureFiles(s, files, log, TimFile(i));
    }
  }

  lemma CallFilesExact(s: Setup, files: seq<File>, after: seq<File>, log: seq<Rec>, r: Rec)
    requires FilesExact(s, files, log) && forall f :: f in after <==> f in files || NewFile(s, r, |log|, f)
    ensures FilesExact(s, after, log + [r])
  {
    hide ContentOf, FileName, SeqNo, KindText, FileOf;
    forall f
      ensures f in after <==> exists n, k :: FileOf(s, log + [r], f, n, k)
    {
      forall n, k { AppendFiles(s, log, r, f, n, k); }
      if f in files {
        var n, k :| FileOf(s, log, f, n, k);
        assert FileOf(s, log + [r], f, n, k);
      } else if NewFile(s, r, |log|, f) {
        var k :| f.name == FileName(SeqNo(|log|), KindText(k)) && ContentOf(s, r, |log|, k) == Some(f.content);
        assert FileOf(s, log + [r], f, |log|, k);
      }
      if exists n, k :: FileOf(s, log + [r], f, n, k) {
        var n, k :| FileOf(s, log + [r], f, n, k);
        if FileOf(s, log, f, n, k) { assert f in files; }
      }
    }
  }

  /** What a decided call leaves in the state. */
  lemma CallLeaves(s: Setup, st: State, m: Value, raw: string, now: string)
    requires GoodPolicy(s.policy)
    requires EvidenceTims(s.crypto, Gate.ToolOf(m), ArgsOf(m), s.keys, s.server, now).Some?
    ensures var (next, reaction) := CallStep(s, st, m, raw, now);
      var r := Rec(m, raw, now, reaction, None);
      next.next == st.next + 1 &&
      next.files == Put(PutTims(st.files, SeqNo(st.next), TimsOf(s, r), |TimsOf(s, r)|),
                        FileName(SeqNo(st.next), "decision"), ArtifactOf(s, r)) &&
      next.pending == (if Approved(s, r) && Field(m, "id").Some?
                       then st.pending[s.rt.show(Field(m, "id").value) := CallOf(s, r, st.next)] else st.pending) &&
      (reaction == Forward(raw) <==> Approved(s, r))
  {
    hide EvidenceTims, Judgement, SignArtifact, DecisionBody, CidsOf, PutTims, Put, FileName, SeqNo, Gate.ToolOf,
         ArgsOf, Field, Detail, DenyReply;
    Compliance.DecisionSigns(s, Gate.ToolOf(m), ArgsOf(m), now);
  }

  /** Records already kept stay as they are. */
  lemma AwaitingLater(s: Setup, log: seq<Rec>, r: Rec, call: PendingCall, n: nat)
    requires Awaiting(s, log, call, n)
    ensures Awaiting(s, log + [r], call, n) && call.seqNo == SeqNo(n)
  {
    hide Approved, SeqNo, JudgedOf, ArtifactOf;
  }

  lemma CallPending(s: Setup, pending: map<string, PendingCall>, log: seq<Rec>, r: Rec, id: string)
    requires PendingExact(s, pending, log)
    ensures PendingExact(s, pending, log + [r])
    ensures r.Rec? && Approved(s, r) && r.xr.None? ==>
            PendingExact(s, pending[id := CallOf(s, r, |log|)], log + [r])
  {
    hide Approved, Awaiting, SeqNo, CallOf;
    var log' := log + [r];
    forall i | i in pending
      ensures (exists n: nat :: Awaiting(s, log', pending[i], n)) && pending[i].seqNo != SeqNo(|log|)
    {
      var n: nat :| Awaiting(s, log, pending[i], n);
      AwaitingLater(s, log, r, pending[i], n);
      AwaitingBounds(s, log, pending[i], n);
      if SeqNo(n) == SeqNo(|log|) { SeqNoInjective(n, |log|); }
    }
    if r.Rec? && Approved(s, r) && r.xr.None? {
      NewAwaiting(s, log, r);
      assert CallOf(s, r, |log|).seqNo == SeqNo(|log|) by { CallSeq(s, r, |log|); }
    }
  }

  lemma AwaitingBounds(s: Setup, log: seq<Rec>, call: PendingCall, n: nat)
    requires Awaiting(s, log, call, n)
    ensures n < |log|
  {
    hide Approved, CallOf;
  }

  lemma CallSeq(s: Setup, r: Rec, n: nat)
    requires r.Rec?
    ensures CallOf(s, r, n).seqNo == SeqNo(n)
  {
    hide JudgedOf, ArtifactOf, SeqNo;
  }

  lemma NewAwaiting(s: Setup, log: seq<Rec>, r: Rec)
    requires r.Rec? && Approved(s, r) && r.xr.None?
    ensures Awaiting(s, log + [r], CallOf(s, r, |log|), |log|)
  {
    hide Approved, CallOf;
  }

  lemma CallGood(s: Setup, st: State, log: seq<Rec>, m: Value, raw: string, now: string)
    requires GoodPolicy(s.policy) && Unambiguous(m) && Good(s, st, log)
    requires EvidenceTims(s.crypto, Gate.ToolOf(m), ArgsOf(m), s.keys, s.server, now).Some?
    ensures var (next, reaction) := CallStep(s, st, m, raw, now);
      Good(s, next, log + [Rec(m, raw, now, reaction, None)])
  {
    hide CallStep, FilesExact, PendingExact, Put, PutTims, SeqNo, FileName, EvidenceTims, Gate.ToolOf, ArgsOf, Field,
         TimsOf, ArtifactOf, Approved, CallOf, DistinctNames, Finite, Unambiguous;
    var (next, reaction) := CallStep(s, st, m, raw, now);
    var r := Rec(m, raw, now, reaction, None);
    CallLeaves(s, st, m, raw, now);
    CallFiles(s, st.files, log, r);
    CallPending(s, st.pending, log, r, s.rt.show(Field(m, "id").GetOr(Null)));
    ArgsUnambiguous(m);
    Compliance.EvidenceExists(s.crypto, Gate.ToolOf(m), ArgsOf(m), s.keys, s.server, now);
    assert RecOk(s, r, |log|);
  }

  lemma RefusedGood(s: Setup, st: State, log: seq<Rec>)
    requires Good(s, st, log)
    ensures Good(s, st.(next := st.next + 1), log + [Refused])
  {
    hide FilesExact, PendingExact, DistinctNames, RecOk;
    RefusedFiles(s, st.files, log);
    CallPending(s, st.pending, log, Refused, "");
    assert RecOk(s, Refused, |log|) by { RefusedOk(s, |log|); }
  }

  lemma RefusedOk(s: Setup, n: nat)
    ensures RecOk(s, Refused, n)
  {
  }

  lemma RefusedFiles(s: Setup, files: seq<File>, log: seq<Rec>)
    requires FilesExact(s, files, log)
    ensures FilesExact(s, files, log + [Refused])
  {
    hide FileOf, FilesExact;
    forall f
      ensures !NewFile(s, Refused, |log|, f)
    {
    }
    CallFilesExact(s, files, files, log, Refused);
  }

  // ---------- a receipt keeps the invariant ----------

  /** The record a pending call belongs to, by its sequence number. */
  lemma PendingRecord(s: Setup, st: State, log: seq<Rec>, id: string) returns (n: nat)
    requires Good(s, st, log) && id in st.pending
    ensures Awaiting(s, log, st.pending[id], n) && n < |log|
    ensures st.pending[id].seqNo == SeqNo(n) && D.AllDigits(st.pending[id].seqNo) && D.NatOf(st.pending[id].seqNo) == n
  {
    hide Awaiting, FilesExact, RecOk, SeqNo, DistinctNames;
    n :| Awaiting(s, log, st.pending[id], n);
    AwaitingBounds(s, log, st.pending[id], n);
    AwaitingLater(s, log, Refused, st.pending[id], n);
    SeqNoReads(n);
  }

  /** No receipt is ever written over another: while a call is pending, its receipt's file does not exist. */
  lemma ReceiptIsNew(s: Setup, st: State, log: seq<Rec>, id: string)
    requires Good(s, st, log) && id in st.pending
    ensures forall f | f in st.files :: f.name != FileName(st.pending[id].seqNo, "xr")
  {
    hide Awaiting, PendingExact, RecOk, SeqNo, FileName, Good;
    var n := PendingRecord(s, st, log, id);
    forall f | f in st.files
      ensures f.name != FileName(SeqNo(n), "xr")
    {
      if f.name == FileName(SeqNo(n), "xr") {
        var m, k := FileHasRecord(s, st, log, f);
        FileOfUnique(s, log, f, m, k, n, XrFile);
        NoReceiptYet(s, log, f, n, st.pending[id]);
      }
    }
  }

  lemma FileHasRecord(s: Setup, st: State, log: seq<Rec>, f: File) returns (n: nat, k: Kind)
    requires Good(s, st, log) && f in st.files
    ensures FileOf(s, log, f, n, k)
  {
    hide FileOf, RecOk, PendingExact, DistinctNames;
    n, k :| FileOf(s, log, f, n, k);
  }

  lemma NoReceiptYet(s: Setup, log: seq<Rec>, f: File, n: nat, call: PendingCall)
    requires Awaiting(s, log, call, n)
    ensures !FileOf(s, log, f, n, XrFile)
  {
    hide Approved, CallOf, XrOf, FileName, SeqNo;
  }

  /** Giving one record its receipt changes no other artifact. */
  lemma ReceiptFiles(s: Setup, files: seq<File>, log: seq<Rec>, n: nat, resp: Response)
    requires DistinctNames(files) && FilesExact(s, files, log)
    requires n < |log| && log[n].Rec? && log[n].xr.None?
    requires forall f | f in files :: f.name != FileName(SeqNo(n), "xr")
    requires XrOf(s, log[n].(xr := Some(resp)), n).Some?
    ensures var r := log[n].(xr := Some(resp));
      var after := Put(files, FileName(SeqNo(n), "xr"), XrOf(s, r, n).value);
      DistinctNames(after) && FilesExact(s, after, log[n := r])
  {
    hide XrOf, FileName, SeqNo, Put, DistinctNames, FileOf;
    var r := log[n].(xr := Some(resp));
    var log', name := log[n := r], FileName(SeqNo(n), "xr");
    var after := Put(files, name, XrOf(s, r, n).value);
    PutExact(files, name, XrOf(s, r, n).value);
    forall f
      ensures f in after <==> exists m, k :: FileOf(s, log', f, m, k)
    {
      forall m, k { OtherFiles(s, log, n, resp, f, m, k); }
      if f in files {
        var m, k :| FileOf(s, log, f, m, k);
        assert FileOf(s, log', f, m, k);
      } else if f == File(name, XrOf(s, r, n).value) {
        OtherFiles(s, log, n, resp, f, n, XrFile);
        assert FileOf(s, log', f, n, XrFile);
      }
      if exists m, k :: FileOf(s, log', f, m, k) {
        var m, k :| FileOf(s, log', f, m, k);
        if FileOf(s, log, f, m, k) { assert f in files; }
      }
    }
  }

  lemma OtherFiles(s: Setup, log: seq<Rec>, n: nat, resp: Response, f: File, m: nat, k: Kind)
    requires n < |log| && log[n].Rec? && log[n].xr.None? && XrOf(s, log[n].(xr := Some(resp)), n).Some?
    ensures var r := log[n].(xr := Some(resp));
      FileOf(s, log[n := r], f, m, k) <==>
      FileOf(s, log, f, m, k) ||
      (m == n && k == XrFile && f == File(FileName(SeqNo(n), "xr"), XrOf(s, r, n).value))
  {
    hide XrOf, FileName, SeqNo, ContentOf;
    ContentAfter(s, log[n], resp, n, k);
    assert KindText(XrFile) == "xr";
  }

  /** A receipt adds one artifact and keeps the others. */
  lemma ContentAfter(s: Setup, r: Rec, resp: Response, n: nat, k: Kind)
    requires r.Rec? && r.xr.None?
    ensures var r' := r.(xr := Some(resp));
      ContentOf(s, r', n, k) == if k.XrFile? then XrOf(s, r', n) else ContentOf(s, r, n, k)
    ensures k.XrFile? ==> ContentOf(s, r, n, k) == None
  {
    hide XrOf, EvidenceTims, Judgement, SignArtifact, DecisionBody, Gate.ToolOf, ArgsOf;
    var r' := r.(xr := Some(resp));
    assert TimsOf(s, r') == TimsOf(s, r);
    assert ArtifactOf(s, r') == ArtifactOf(s, r);
  }

  lemma ReceiptPending(s: Setup, pending: map<string, PendingCall>, log: seq<Rec>, id: string, n: nat, resp: Response)
    requires PendingExact(s, pending, log) && id in pending && Awaiting(s, log, pending[id], n) && n < |log| &&
             log[n].Rec?
    ensures PendingExact(s, pending - {id}, log[n := log[n].(xr := Some(resp))])
  {
    hide Awaiting, Approved, SeqNo, CallOf;
    var log' := log[n := log[n].(xr := Some(resp))];
    AwaitingLater(s, log, Refused, pending[id], n);
    var left := pending - {id};
    forall other | other in left
      ensures exists m: nat :: Awaiting(s, log', left[other], m)
    {
      var m: nat :| Awaiting(s, log, pending[other], m);
      AwaitingLater(s, log, Refused, pending[other], m);
      assert m != n;
      StillAwaiting(s, log, log', pending[other], m);
      assert Awaiting(s, log', left[other], m);
    }
  }

  lemma StillAwaiting(s: Setup, log: seq<Rec>, log': seq<Rec>, call: PendingCall, m: nat)
    requires Awaiting(s, log, call, m) && |log'| == |log| && (m < |log| ==> log'[m] == log[m])
    ensures Awaiting(s, log', call, m)
  {
    hide Approved, CallOf;
  }

  /** A receipt's content depends on the call and the response alone. */
  lemma SameCall(s: Setup, log: seq<Rec>, call: PendingCall, n: nat, m: Value, now: string)
    requires Awaiting(s, log, call, n)
    ensures n < |log| && log[n].Rec? && log[n].xr.None?
    ensures XrOf(s, log[n].(xr := Some(Response(m, now))), n) == BuildXr(s.crypto, XrFor(s, call, m, now), s.keys)
    ensures Approved(s, log[n].(xr := Some(Response(m, now))))
  {
    hide BuildXr, XrFor, EvidenceTims, Judgement, SignArtifact, DecisionBody, SeqNo;
  }

  lemma ReceiptOk(s: Setup, r: Rec, n: nat, resp: Response)
    requires RecOk(s, r, n) && r.Rec? && XrOf(s, r.(xr := Some(resp)), n).Some?
    requires Approved(s, r.(xr := Some(resp)))
    ensures RecOk(s, r.(xr := Some(resp)), n)
  {
    hide XrOf, Unambiguous, Finite, EvidenceTims, Judgement;
  }

  lemma ReceiptGood(s: Setup, st: State, log: seq<Rec>, id: string, m: Value, raw: string, now: string)
    requires Good(s, st, log) && id in st.pending
    ensures Good(s, ReceiptStep(s, st, id, m, raw, now).0, Receipted(s, log, st.pending[id], m, now))
  {
    hide Awaiting, RecOk, SeqNo, FileName, FilesExact, PendingExact, DistinctNames, Put, BuildXr, XrFor, XrOf, Approved;
    var call := st.pending[id];
    var n := PendingRecord(s, st, log, id);
    SameCall(s, log, call, n, m, now);
    if BuildXr(s.crypto, XrFor(s, call, m, now), s.keys).Some? {
      ReceiptIsNew(s, st, log, id);
      ReceiptFiles(s, st.files, log, n, Response(m, now));
      ReceiptPending(s, st.pending, log, id, n, Response(m, now));
      ReceiptOk(s, log[n], n, Response(m, now));
    } else {
      DropPending(s, st.pending, log, id);
    }
  }

  lemma DropPending(s: Setup, pending: map<string, PendingCall>, log: seq<Rec>, id: string)
    requires PendingExact(s, pending, log)
    ensures PendingExact(s, pending - {id}, log)
  {
    hide Awaiting;
    forall other | other in pending - {id}
      ensures exists n: nat :: Awaiting(s, log, (pending - {id})[other], n)
    {
      var n: nat :| Awaiting(s, log, pending[other], n);
      assert Awaiting(s, log, (pending - {id})[other], n);
    }
  }

  // ---------- every run keeps it ----------

  lemma StepGood(s: Setup, st: State, log: seq<Rec>, e: Event)
    requires SetupOk(s) && Good(s, st, log)
    ensures Good(s, Step(s, st, e).0, NextLog(s, st, log, e))
  {
    hide Good, CallStep, ReceiptStep, Receipted, EvidenceTims, IsResponse, GoodPolicy, BatchReaction, Gate.ToolOf,
         ArgsOf, Unambiguous;
    match s.js.parse(e.raw)
    case None =>
    case Some(m) =>
      if e.Client? {
        if IsToolCall(m) {
          if EvidenceTims(s.crypto, Gate.ToolOf(m), ArgsOf(m), s.keys, s.server, e.now).None? {
            RefusedGood(s, st, log);
            RefusedStep(s, st, m, e.raw, e.now);
          } else {
            CallGood(s, st, log, m, e.raw, e.now);
          }
        }
      } else if IsResponse(m) {
        ResponseIsObject(m);
        var id := s.rt.show(Field(m, "id").value);
        if id in st.pending { ReceiptGood(s, st, log, id, m, e.raw, e.now); }
      }
  }

  lemma RefusedStep(s: Setup, st: State, m: Value, raw: string, now: string)
    requires EvidenceTims(s.crypto, Gate.ToolOf(m), ArgsOf(m), s.keys, s.server, now).None?
    ensures CallStep(s, st, m, raw, now) == (st.(next := st.next + 1), Throws)
  {
    hide EvidenceTims, Judgement, SignArtifact, DecisionBody, Gate.ToolOf, ArgsOf;
  }

  lemma ResponseIsObject(m: Value)
    requires IsResponse(m)
    ensures m.Object? && Field(m, "id").Some?
  {
  }

  /** Over every interleaving of messages, the files and the pending calls are those of the recorded calls. */
  lemma {:induction false} RunGood(s: Setup, st: State, log: seq<Rec>, events: seq<Event>)
    requires SetupOk(s) && Good(s, st, log)
    ensures Good(s, RunFrom(s, st, log, events).0, RunFrom(s, st, log, events).1)
    decreases |events|
  {
    hide Good, Step, NextLog, SetupOk;
    if events != [] {
      StepGood(s, st, log, events[0]);
      RunGood(s, Step(s, st, events[0]).0, NextLog(s, st, log, events[0]), events[1..]);
    }
  }
}
