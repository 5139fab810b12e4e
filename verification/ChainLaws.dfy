/**
 A decision's cid names all that the decision rests on.

 Take two valid bundles, written by anyone, with a call in each whose decisions have one cid.  Then the
 decisions are one document, they name one commitment, and wherever the evidence of the two calls has
 one cid it is one measurement; when no cid is filed twice, each piece of evidence of the one call has
 its counterpart in the other.  Where one of these fails, two texts that were hashed collide.
 */
module ChainLaws {
  import opened Outcomes
  import opened Json
  import opened Canonicalize
  import opened Jws
  import opened Gate
  import opened Replay
  import opened ReplayLaws
  import EvidenceLaws
  import GroupLaws
  import MemberLaws
  import Records
  import Tim
  import TimLaws

  // ---------- what is compared ----------

  /** The signed part of an artifact. */
  function Signed(artifact: Value): Value { Object(Tim.BaseOf(artifact)) }

  function SignedText(artifact: Value): string { Canonical(Signed(artifact)).GetOr("") }

  /** One document up to member order, or two signed texts with one hash. */
  predicate OneArtifact(c: Crypto, a: Value, b: Value) {
    Same(Signed(a), Signed(b)) || Collision(c, SignedText(a), SignedText(b))
  }

  function BodyText(tim: Value): string { Canonical(Tim.BodyOf(tim)).GetOr("") }

  /** One measurement up to member order and witnesses, or two signed texts with one hash. */
  predicate OneTim(c: Crypto, t: Value, u: Value) {
    Same(Tim.BodyOf(t), Tim.BodyOf(u)) || Collision(c, BodyText(t), BodyText(u))
  }

  /** Each of the one list has a counterpart of its cid in the other. */
  ghost predicate Covered(c: Crypto, tims: seq<Value>, others: seq<Value>) {
    forall t | t in tims :: exists u :: u in others && Str(u, ["cid"]) == Str(t, ["cid"]) && OneTim(c, t, u)
  }

  /** Files are parsed strictly, so no document repeats a member name. */
  predicate StrictlyRead(files: seq<File>) { forall f | f in files :: Unambiguous(f.content) }

  /** The decision of a call, if there is one. */
  function DecisionOf(b: Bundle, seqNo: string): Option<Value> {
    match FirstDecision(GroupOf(Listed(b.calls), seqNo))
    case Some(f) => Some(f.content)
    case None => None
  }

  // ---------- artifacts with one cid ----------

  lemma FiniteSigned(c: Crypto, a: Value, did: string)
    requires Authentic(c, a, did)
    ensures Finite(Signed(a)) && CidOfValue(c, Signed(a)) == Some(Str(a, ["cid"])) && a.Object?
  {
    hide CidOf, Canonical, Verified;
    FiniteCanonical(Signed(a));
    CidNotEmpty(c, Canonical(Signed(a)).value);
  }

  lemma CidNotEmpty(c: Crypto, text: string)
    ensures CidOf(c, text) != ""
  {
  }

  /** Two authentic artifacts with one cid are one document. */
  lemma CidNamesArtifact(c: Crypto, a: Value, b: Value, did: string, other: string)
    requires Authentic(c, a, did) && Authentic(c, b, other) && Str(a, ["cid"]) == Str(b, ["cid"])
    requires Unambiguous(a) && Unambiguous(b)
    ensures OneArtifact(c, a, b)
  {
    hide Authentic, CidOfValue, Canonical, Same, Str, Collision, Tim.BaseOf;
    FiniteSigned(c, a, did);
    FiniteSigned(c, b, other);
    Tim.BaseUnambiguous(a);
    Tim.BaseUnambiguous(b);
    FiniteCanonical(Signed(a));
    FiniteCanonical(Signed(b));
    SameCidSameValue(c, Signed(a), Signed(b));
  }

  // ---------- what one document says, the other says ----------

  lemma SameBack(v: Value, w: Value)
    requires Unambiguous(v) && Unambiguous(w) && Same(v, w)
    ensures Same(w, v)
  {
    hide Same, SortMembers;
    SameSorts(v, w);
    SortsSame(w, v);
  }

  lemma SameString(v: Value, w: Value, key: string)
    requires Unambiguous(v) && Unambiguous(w) && Same(v, w)
    ensures Str(v, [key]) == Str(w, [key])
  {
    hide Same, Path;
    SameBack(v, w);
    if Str(v, [key]) != "" {
      EvidenceLaws.SameText(v, w, [key], Str(v, [key]));
    } else if Str(w, [key]) != "" {
      EvidenceLaws.SameText(w, v, [key], Str(w, [key]));
    }
  }

  lemma {:induction false} SameTexts(a: seq<Value>, b: seq<Value>)
    requires |a| == |b| && forall i | 0 <= i < |a| :: Same(a[i], b[i])
    ensures Records.Texts(a) == Records.Texts(b)
  {
    if a != [] {
      assert Same(a[0], b[0]);
      forall i | 0 <= i < |a[1..]|
        ensures Same(a[1..][i], b[1..][i])
      {
        assert Same(a[i + 1], b[i + 1]);
      }
      hide Same;
      SameTexts(a[1..], b[1..]);
    }
  }

  /** The list of texts under a name, where the one document has a list. */
  lemma SameList(v: Value, w: Value, key: string)
    requires v.Object? && w.Object? && Unambiguous(v) && Same(v, w)
    requires Get(v.members, key).Some? && Get(v.members, key).value.Array?
    ensures Records.Texts(Records.Items(v, [key])) == Records.Texts(Records.Items(w, [key]))
  {
    hide Get, Path, Records.Texts;
    EvidenceLaws.SameGet(v.members, w.members, key);
    TimLaws.OneStep(v.members, key);
    TimLaws.OneStep(w.members, key);
    var x, y := Get(v.members, key).value, Get(w.members, key).value;
    ArraysSame(x, y);
    SameTexts(x.items, y.items);
  }

  lemma ArraysSame(x: Value, y: Value)
    requires Same(x, y) && x.Array?
    ensures y.Array? && |x.items| == |y.items| && forall i | 0 <= i < |x.items| :: Same(x.items[i], y.items[i])
  {
  }

  /** Without a list there are no texts. */
  lemma NoList(v: Value, key: string)
    requires v.Object? && !(Get(v.members, key).Some? && Get(v.members, key).value.Array?)
    ensures Records.Texts(Records.Items(v, [key])) == []
  {
    hide Get, Path;
    TimLaws.OneStep(v.members, key);
  }

  lemma SameTextList(v: Value, w: Value, key: string)
    requires v.Object? && w.Object? && Unambiguous(v) && Unambiguous(w) && Same(v, w)
    ensures Records.Texts(Records.Items(v, [key])) == Records.Texts(Records.Items(w, [key]))
  {
    hide Get, Same, Records.Texts, Records.Items, Unambiguous;
    SameBack(v, w);
    if Get(v.members, key).Some? && Get(v.members, key).value.Array? {
      SameList(v, w, key);
    } else if Get(w.members, key).Some? && Get(w.members, key).value.Array? {
      SameList(w, v, key);
    } else {
      NoList(v, key);
      NoList(w, key);
    }
  }

  /** What an artifact says is in its signed part, but for cid and signature. */
  lemma SignedSays(a: Value, key: string)
    requires a.Object? && key != "cid" && key != "sig"
    ensures Path(Signed(a), [key]) == Path(a, [key])
  {
    hide Get, Path, DeleteMember;
    MemberLaws.GetDelete(a.members, "cid", key);
    MemberLaws.GetDelete(DeleteMember(a.members, "cid"), "sig", key);
    TimLaws.OneStep(a.members, key);
    TimLaws.OneStep(Tim.BaseOf(a), key);
  }

  /** Decisions that are one document cite the same cids and name the same commitment. */
  lemma SameReferences(a: Value, b: Value)
    requires a.Object? && b.Object? && Unambiguous(a) && Unambiguous(b) && Same(Signed(a), Signed(b))
    ensures Cited(a) == Cited(b) && Str(a, ["commitment_cid"]) == Str(b, ["commitment_cid"])
  {
    hide Path, Same, Unambiguous, Tim.BaseOf, Records.Texts;
    Tim.BaseUnambiguous(a);
    Tim.BaseUnambiguous(b);
    SameString(Signed(a), Signed(b), "commitment_cid");
    SameTextList(Signed(a), Signed(b), "evidence");
    SignedSays(a, "commitment_cid");
    SignedSays(b, "commitment_cid");
    SignedSays(a, "evidence");
    SignedSays(b, "evidence");
  }

  // ---------- one call of a valid bundle ----------

  /** What the verifier has established of a call with a decision. */
  predicate Checked(c: Crypto, tims: seq<Value>, decision: Value) {
    Authentic(c, decision, Str(decision, ["identity", "id"])) &&
    (forall t | t in tims :: CheckTim(c, t).valid && Str(t, ["cid"]) in Cited(decision)) &&
    |Cited(decision)| == |tims|
  }

  lemma CallChecked(v: Verifier, commitments: map<string, Value>, seqNo: string, g: seq<File>)
    requires CallErrors(v, commitments, seqNo, g) == [] && FirstDecision(g).Some?
    ensures Checked(v.crypto, Contents(TimFiles(g)), FirstDecision(g).value.content)
  {
    hide TimErrors, UncitedErrors, ArtifactErrors, ReplayErrors, ExecutionErrors, TimFiles, FirstXr, FirstDecision,
         Authentic, CheckTim, Str, Cited;
    var tag, decision := "call " + seqNo, FirstDecision(g).value.content;
    TimsValid(v.crypto, TimFiles(g), tag);
    ContentsValid(v.crypto, TimFiles(g));
    AllCited(Cited(decision), Contents(TimFiles(g)), tag);
    AuthenticIff(v.crypto, decision, Str(decision, ["identity", "id"]), tag + " decision");
  }

  lemma ValidChecked(v: Verifier, b: Bundle, seqNo: string)
    requires VerifyBundle(v, b).valid && DecisionOf(b, seqNo).Some?
    ensures Checked(v.crypto, EvidenceOf(b, seqNo), DecisionOf(b, seqNo).value)
  {
    hide VerifyBundle, CallErrors, GroupErrors, CommitmentErrors, Checked, Listed, FirstDecision, GroupOf, Prefixes,
         CommitmentMap, CallClean;
    ValidParts(v, b);
    var cs, calls := Listed(b.commitments), Listed(b.calls);
    var g := GroupOf(calls, seqNo);
    GroupHasPrefix(calls, seqNo, FirstDecision(g).value);
    GroupsValid(v, CommitmentMap(cs, |cs|), Prefixes(calls, |calls|), calls);
    CleanIs(v, CommitmentMap(cs, |cs|), seqNo, calls);
    CallChecked(v, CommitmentMap(cs, |cs|), seqNo, g);
  }

  // ---------- what was read ----------

  lemma GroupRead(b: Bundle, seqNo: string, f: File)
    requires StrictlyRead(b.calls) && f in GroupOf(Listed(b.calls), seqNo)
    ensures Unambiguous(f.content)
  {
    hide Unambiguous, Listed, GroupOf, Prefix;
    GroupLaws.InGroup(Listed(b.calls), seqNo, f);
    ListedSame(b.calls, f);
  }

  lemma DecisionRead(b: Bundle, seqNo: string)
    requires StrictlyRead(b.calls) && DecisionOf(b, seqNo).Some?
    ensures Unambiguous(DecisionOf(b, seqNo).value)
  {
    hide Unambiguous, Listed, GroupOf, FirstDecision, StrictlyRead;
    GroupRead(b, seqNo, FirstDecision(GroupOf(Listed(b.calls), seqNo)).value);
  }

  lemma EvidenceRead(b: Bundle, seqNo: string, t: Value)
    requires StrictlyRead(b.calls) && t in EvidenceOf(b, seqNo)
    ensures Unambiguous(t)
  {
    hide Unambiguous, Listed, GroupOf, TimFiles, StrictlyRead;
    var files := TimFiles(GroupOf(Listed(b.calls), seqNo));
    var i :| 0 <= i < |files| && Contents(files)[i] == t;
    GroupLaws.InTimFiles(GroupOf(Listed(b.calls), seqNo), files[i]);
    GroupRead(b, seqNo, files[i]);
  }

  // ---------- evidence with one cid ----------

  lemma CidNamesTim(c: Crypto, t: Value, u: Value)
    requires CheckTim(c, t).valid && CheckTim(c, u).valid && Unambiguous(t) && Unambiguous(u)
    requires Str(t, ["cid"]) == Str(u, ["cid"])
    ensures OneTim(c, t, u)
  {
    hide Str, Canonical, Same, Tim.BodyOf, Collision;
    ValidHasCid(c, t);
    ValidHasCid(c, u);
    TimLaws.CidNamesBody(c, t, u, ReplayResolver, NoParse, "");
  }

  lemma ValidHasCid(c: Crypto, t: Value)
    requires CheckTim(c, t).valid
    ensures CheckTim(c, t).cidValid
  {
    hide Canonical, Tim.BodyOf, Tim.MissingOf, CidOf, Str, Tim.WitnessErrors, Tim.SignatureErrors, Tim.SignatureOk,
         Tim.Expired;
  }

  /** Where no cid is filed twice, whatever is cited is there. */
  lemma CitedIsThere(tims: seq<Value>, cited: set<string>, cid: string)
    requires (forall t | t in tims :: Str(t, ["cid"]) in cited) && |cited| == |tims|
    requires DistinctTexts(CidsOf(tims)) && cid in cited
    ensures exists u :: u in tims && Str(u, ["cid"]) == cid
  {
    hide Str, DistinctTexts;
    CidsInCited(tims, cited);
    SetSize(CidsOf(tims));
    SubsetSameSize(SetOf(CidsOf(tims)), cited);
    var i :| 0 <= i < |tims| && CidsOf(tims)[i] == cid;
    assert tims[i] in tims;
  }

  lemma Counterparts(c: Crypto, tims: seq<Value>, others: seq<Value>, d: Value, e: Value)
    requires Checked(c, tims, d) && Checked(c, others, e) && Cited(d) == Cited(e) && DistinctTexts(CidsOf(others))
    requires forall t | t in tims + others :: Unambiguous(t)
    ensures Covered(c, tims, others)
  {
    hide Str, Authentic, CheckTim, Unambiguous, OneTim, DistinctTexts, Cited;
    forall t | t in tims
      ensures exists u :: u in others && Str(u, ["cid"]) == Str(t, ["cid"]) && OneTim(c, t, u)
    {
      CitedIsThere(others, Cited(e), Str(t, ["cid"]));
      var u :| u in others && Str(u, ["cid"]) == Str(t, ["cid"]);
      assert t in tims + others && u in tims + others;
      CidNamesTim(c, t, u);
    }
  }

  // ---------- the law ----------

  /**
   Two valid bundles, and a call in each, with decisions of one cid: the decisions are one document or
   their texts collide.  If one document, they cite the same cids and name one commitment, and each
   piece of evidence of the one call is matched in the other unless the other files a cid twice.
   */
  lemma DecisionNamesEvidence(v: Verifier, a: Bundle, p: string, b: Bundle, q: string)
    requires VerifyBundle(v, a).valid && VerifyBundle(v, b).valid && StrictlyRead(a.calls) && StrictlyRead(b.calls)
    requires DecisionOf(a, p).Some? && DecisionOf(b, q).Some?
    requires Str(DecisionOf(a, p).value, ["cid"]) == Str(DecisionOf(b, q).value, ["cid"])
    ensures var d, e := DecisionOf(a, p).value, DecisionOf(b, q).value;
      OneArtifact(v.crypto, d, e) &&
      (Same(Signed(d), Signed(e)) ==>
         Cited(d) == Cited(e) && Str(d, ["commitment_cid"]) == Str(e, ["commitment_cid"]) &&
         (DistinctTexts(CidsOf(EvidenceOf(b, q))) ==> Covered(v.crypto, EvidenceOf(a, p), EvidenceOf(b, q))) &&
         (DistinctTexts(CidsOf(EvidenceOf(a, p))) ==> Covered(v.crypto, EvidenceOf(b, q), EvidenceOf(a, p))))
  {
    hide VerifyBundle, StrictlyRead, DecisionOf, EvidenceOf, Str, Same, OneArtifact, Covered, Signed, Authentic,
         Cited, CheckTim, Unambiguous, DistinctTexts;
    var c, d, e, tims, others := v.crypto, DecisionOf(a, p).value, DecisionOf(b, q).value, EvidenceOf(a, p),
        EvidenceOf(b, q);
    ValidChecked(v, a, p);
    ValidChecked(v, b, q);
    DecisionRead(a, p);
    DecisionRead(b, q);
    CidNamesArtifact(c, d, e, Str(d, ["identity", "id"]), Str(e, ["identity", "id"]));
    if Same(Signed(d), Signed(e)) {
      FiniteSigned(c, d, Str(d, ["identity", "id"]));
      FiniteSigned(c, e, Str(e, ["identity", "id"]));
      SameReferences(d, e);
      forall t | t in tims { EvidenceRead(a, p, t); }
      forall t | t in others { EvidenceRead(b, q, t); }
      if DistinctTexts(CidsOf(others)) { Counterparts(c, tims, others, d, e); }
      if DistinctTexts(CidsOf(tims)) { Counterparts(c, others, tims, e, d); }
    }
  }

  /** And the commitments they name are one document, wherever they are filed. */
  lemma DecisionNamesCommitment(v: Verifier, a: Bundle, b: Bundle, f: File, g: File)
    requires VerifyBundle(v, a).valid && VerifyBundle(v, b).valid && f in a.commitments && g in b.commitments
    requires StrictlyRead(a.commitments) && StrictlyRead(b.commitments) &&
             Str(f.content, ["cid"]) == Str(g.content, ["cid"])
    ensures OneArtifact(v.crypto, f.content, g.content)
  {
    hide VerifyBundle, CommitmentErrors, GroupErrors, Listed, Prefixes, CommitmentMap, Authentic, Str, OneArtifact,
         Unambiguous;
    ValidParts(v, a);
    ValidParts(v, b);
    CommitmentsValid(v.crypto, Listed(a.commitments));
    CommitmentsValid(v.crypto, Listed(b.commitments));
    ListedSame(a.commitments, f);
    ListedSame(b.commitments, g);
    CidNamesArtifact(v.crypto, f.content, g.content, Str(f.content, ["actor"]), Str(g.content, ["actor"]));
  }
}
