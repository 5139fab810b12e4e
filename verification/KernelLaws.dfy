/** Approval is justified by evidence, evidence order does not matter, and the latest evidence decides. */
module KernelLaws {
  import opened Outcomes
  import opened Ordering
  import opened JsNumbers
  import opened Assertions
  import opened Kernel
  import D = Decimals
  import Utf16
  import Timestamps

  // ---------- the Notary order ----------

  predicate IdBefore(a: Tim, b: Tim) {
    if a.identity != b.identity then Utf16.Before(a.identity, b.identity) else Utf16.Before(a.cid, b.cid)
  }

  predicate ClockBefore(a: Tim, b: Tim) {
    if D.ValueOf(a.lamport) != D.ValueOf(b.lamport) then D.ValueOf(a.lamport) < D.ValueOf(b.lamport) else IdBefore(a, b)
  }

  lemma IdStrict(a: Tim, b: Tim, c: Tim)
    ensures !IdBefore(a, a)
    ensures IdBefore(a, b) && IdBefore(b, c) ==> IdBefore(a, c)
    ensures IdBefore(a, c) ==> IdBefore(a, b) || IdBefore(b, c)
  {
    hide Utf16.Before;
    Utf16.BeforeStrict(a.identity, b.identity, c.identity);
    Utf16.BeforeStrict(a.identity, b.identity, a.identity);
    Utf16.BeforeTotal(a.identity, b.identity);
    Utf16.BeforeStrict(a.cid, b.cid, c.cid);
  }

  lemma ClockStrict(a: Tim, b: Tim, c: Tim)
    ensures !ClockBefore(a, a)
    ensures ClockBefore(a, b) && ClockBefore(b, c) ==> ClockBefore(a, c)
    ensures ClockBefore(a, c) ==> ClockBefore(a, b) || ClockBefore(b, c)
  {
    hide IdBefore, D.ValueOf;
    IdStrict(a, b, c);
  }

  lemma NotaryOneStrict(a: Tim, b: Tim, c: Tim)
    ensures !NotaryBefore(a, a)
    ensures NotaryBefore(a, b) && NotaryBefore(b, c) ==> NotaryBefore(a, c)
    ensures NotaryBefore(a, c) ==> NotaryBefore(a, b) || NotaryBefore(b, c)
  {
    hide Utf16.Before, D.ValueOf;
    ClockStrict(a, b, c);
    Utf16.BeforeStrict(a.ts, b.ts, c.ts);
    Utf16.BeforeStrict(a.ts, b.ts, a.ts);
    Utf16.BeforeTotal(a.ts, b.ts);
  }

  lemma NotaryStrict()
    ensures StrictOrder(NotaryBefore)
  {
    forall a: Tim, b: Tim, c: Tim
      ensures !NotaryBefore(a, a)
      ensures NotaryBefore(a, b) && NotaryBefore(b, c) ==> NotaryBefore(a, c)
      ensures NotaryBefore(a, c) ==> NotaryBefore(a, b) || NotaryBefore(b, c)
    {
      hide NotaryBefore;
      NotaryOneStrict(a, b, c);
    }
  }

  /** A cid names one receipt. */
  predicate DistinctCids(tims: seq<Tim>) {
    forall i, j | 0 <= i < |tims| && 0 <= j < |tims| && tims[i].cid == tims[j].cid :: tims[i] == tims[j]
  }

  lemma CidsDecide(a: Tim, b: Tim)
    requires a.cid != b.cid
    ensures NotaryBefore(a, b) || NotaryBefore(b, a)
  {
    hide Utf16.Before, D.ValueOf;
    Utf16.BeforeTotal(a.ts, b.ts);
    Utf16.BeforeTotal(a.identity, b.identity);
    Utf16.BeforeTotal(a.cid, b.cid);
  }

  lemma NotaryDecides(tims: seq<Tim>)
    requires DistinctCids(tims)
    ensures Decided(NotaryBefore, tims)
  {
    hide NotaryBefore;
    forall x, y | x in tims && y in tims
      ensures x == y || NotaryBefore(x, y) || NotaryBefore(y, x)
    {
      var i :| 0 <= i < |tims| && tims[i] == x;
      var j :| 0 <= j < |tims| && tims[j] == y;
      if x.cid != y.cid { CidsDecide(x, y); }
    }
  }

  // ---------- candidates ----------

  lemma {:induction false} CandidateCount(rt: Runtime, spec: MeasureSpec, now: string, tims: seq<Tim>, t: Tim)
    ensures multiset(Candidates(rt, spec, now, tims))[t] == if Meets(rt, spec, now, t) then multiset(tims)[t] else 0
  {
    hide Meets;
    if tims != [] {
      CandidateCount(rt, spec, now, tims[1..], t);
      assert tims == [tims[0]] + tims[1..];
    }
  }

  /** The candidates are the evidence that meets the specification. */
  lemma CandidatesExact(rt: Runtime, spec: MeasureSpec, now: string, tims: seq<Tim>, t: Tim)
    ensures t in Candidates(rt, spec, now, tims) <==> t in tims && Meets(rt, spec, now, t)
  {
    hide Meets, Candidates;
    CandidateCount(rt, spec, now, tims, t);
    assert t in Candidates(rt, spec, now, tims) <==> t in multiset(Candidates(rt, spec, now, tims));
    assert t in tims <==> t in multiset(tims);
  }

  lemma CandidatesPermuted(rt: Runtime, spec: MeasureSpec, now: string, a: seq<Tim>, b: seq<Tim>)
    requires multiset(a) == multiset(b)
    ensures multiset(Candidates(rt, spec, now, a)) == multiset(Candidates(rt, spec, now, b))
  {
    hide Meets, Candidates;
    forall t: Tim
      ensures multiset(Candidates(rt, spec, now, a))[t] == multiset(Candidates(rt, spec, now, b))[t]
    {
      CandidateCount(rt, spec, now, a, t);
      CandidateCount(rt, spec, now, b, t);
    }
  }

  lemma CandidatesDistinct(rt: Runtime, spec: MeasureSpec, now: string, tims: seq<Tim>)
    requires DistinctCids(tims)
    ensures DistinctCids(Candidates(rt, spec, now, tims))
  {
    hide Meets, Candidates;
    var kept := Candidates(rt, spec, now, tims);
    forall i, j | 0 <= i < |kept| && 0 <= j < |kept| && kept[i].cid == kept[j].cid
      ensures kept[i] == kept[j]
    {
      CandidatesExact(rt, spec, now, tims, kept[i]);
      CandidatesExact(rt, spec, now, tims, kept[j]);
    }
  }

  lemma SelectPermuted(rt: Runtime, spec: MeasureSpec, now: string, a: seq<Tim>, b: seq<Tim>)
    requires multiset(a) == multiset(b) && DistinctCids(a)
    ensures Select(rt, spec, a, now) == Select(rt, spec, b, now)
  {
    hide Meets, Candidates, NotaryBefore;
    CandidatesPermuted(rt, spec, now, a, b);
    CandidatesDistinct(rt, spec, now, a);
    NotaryStrict();
    NotaryDecides(Candidates(rt, spec, now, a));
    SortPermuted(NotaryBefore, Candidates(rt, spec, now, a), Candidates(rt, spec, now, b));
  }

  lemma {:induction false} BoundPermuted(rt: Runtime, measure: seq<MeasureSpec>, now: string, n: nat,
                                         a: seq<Tim>, b: seq<Tim>)
    requires multiset(a) == multiset(b) && DistinctCids(a) && n <= |measure|
    ensures BoundBy(rt, measure, a, now, n) == BoundBy(rt, measure, b, now, n)
  {
    hide Select;
    if n > 0 {
      BoundPermuted(rt, measure, now, n - 1, a, b);
      SelectPermuted(rt, measure[n - 1], now, a, b);
    }
  }

  lemma AssessPermuted(rt: Runtime, measure: seq<MeasureSpec>, now: string, a: seq<Tim>, b: seq<Tim>)
    requires multiset(a) == multiset(b) && DistinctCids(a)
    ensures AssessAll(rt, measure, a, now) == AssessAll(rt, measure, b, now)
  {
    hide Select, BoundBy, Judge;
    forall i | 0 <= i < |measure|
      ensures Assess(rt, measure, a, now, i) == Assess(rt, measure, b, now, i)
    {
      SelectPermuted(rt, measure[i], now, a, b);
      BoundPermuted(rt, measure, now, i + 1, a, b);
    }
  }

  /** The order in which evidence is presented never changes the decision. */
  lemma DecisionOrderFree(rt: Runtime, c: Commitment, now: string, a: seq<Tim>, b: seq<Tim>)
    requires multiset(a) == multiset(b) && DistinctCids(a)
    ensures Decide(rt, c, a, now) == Decide(rt, c, b, now)
  {
    hide AssessAll;
    AssessPermuted(rt, c.measure, now, a, b);
  }

  // ---------- the latest evidence ----------

  /** Evidence meeting the specification, with none after it in the Notary order. */
  predicate IsLatest(rt: Runtime, spec: MeasureSpec, tims: seq<Tim>, now: string, t: Tim) {
    t in tims && Meets(rt, spec, now, t) &&
    forall u | u in tims :: Meets(rt, spec, now, u) ==> !NotaryBefore(t, u)
  }

  /** Some evidence meets the specification. */
  predicate Supported(rt: Runtime, spec: MeasureSpec, tims: seq<Tim>, now: string) {
    exists t | t in tims :: Meets(rt, spec, now, t)
  }

  lemma SortedLast(s: seq<Tim>, t: Tim)
    requires Sorted(NotaryBefore, s) && s != [] && t in s
    ensures !NotaryBefore(s[|s| - 1], t)
  {
    hide NotaryBefore;
    NotaryStrict();
    var i :| 0 <= i < |s| && s[i] == t;
    if i == |s| - 1 { assert !NotaryBefore(t, t); }
  }

  /** Selection finds the latest evidence exactly when there is any. */
  lemma SelectIsLatest(rt: Runtime, spec: MeasureSpec, tims: seq<Tim>, now: string)
    ensures Select(rt, spec, tims, now).Some? <==> Supported(rt, spec, tims, now)
    ensures Select(rt, spec, tims, now).Some? ==> IsLatest(rt, spec, tims, now, Select(rt, spec, tims, now).value)
  {
    hide Meets, Candidates, NotaryBefore;
    var kept := Candidates(rt, spec, now, tims);
    var sorted := Sort(NotaryBefore, kept);
    NotaryStrict();
    SortSorted(NotaryBefore, kept);
    SortMultiset(NotaryBefore, kept);
    if kept == [] {
      forall t | t in tims
        ensures !Meets(rt, spec, now, t)
      {
        CandidatesExact(rt, spec, now, tims, t);
      }
    } else {
      var last := sorted[|sorted| - 1];
      assert last in multiset(kept);
      CandidatesExact(rt, spec, now, tims, last);
      forall u | u in tims && Meets(rt, spec, now, u)
        ensures !NotaryBefore(last, u)
      {
        CandidatesExact(rt, spec, now, tims, u);
        assert u in multiset(sorted);
        SortedLast(sorted, u);
      }
    }
  }

  /**
   The selected evidence is of the latest instant among all evidence whose stamp compares with its
   own as the instants do.
   */
  lemma SelectLatestComparable(rt: Runtime, spec: MeasureSpec, tims: seq<Tim>, now: string, u: Tim)
    requires forall t | t in tims :: Timestamps.IsUtc(t.ts)
    requires u in tims && Meets(rt, spec, now, u)
    ensures Select(rt, spec, tims, now).Some? && Select(rt, spec, tims, now).value in tims
    ensures var t := Select(rt, spec, tims, now).value;
      Timestamps.ParseMs(t.ts).Some? && Timestamps.ParseMs(u.ts).Some? &&
      (Timestamps.Comparable(t.ts, u.ts) ==> Timestamps.ParseMs(u.ts).value <= Timestamps.ParseMs(t.ts).value)
  {
    hide Meets, Select, Timestamps.IsUtc, Timestamps.ParseMs, Utf16.Before, Timestamps.Comparable;
    SelectIsLatest(rt, spec, tims, now);
    var t := Select(rt, spec, tims, now).value;
    assert t in tims && !NotaryBefore(t, u);
    Timestamps.UtcOrderIff(t.ts, u.ts);
  }

  /** On UTC stamps of one width, with a fraction or without, the selected evidence is of the latest instant. */
  lemma SelectLatestInstant(rt: Runtime, spec: MeasureSpec, tims: seq<Tim>, now: string, width: nat, u: Tim)
    requires forall t | t in tims :: Timestamps.IsUtc(t.ts) && |t.ts| == width
    requires u in tims && Meets(rt, spec, now, u)
    ensures Select(rt, spec, tims, now).Some?
    ensures var t := Select(rt, spec, tims, now).value;
      Timestamps.ParseMs(t.ts).Some? && Timestamps.ParseMs(u.ts).Some? &&
      Timestamps.ParseMs(u.ts).value <= Timestamps.ParseMs(t.ts).value
  {
    hide Meets, Select, Timestamps.IsUtc, Timestamps.ParseMs, Utf16.Before, Timestamps.Comparable,
         Timestamps.OrdersAgree;
    SelectIsLatest(rt, spec, tims, now);
    var t := Select(rt, spec, tims, now).value;
    assert t in tims && !NotaryBefore(t, u);
    Timestamps.WidthOrder(t.ts, u.ts);
  }

  // ---------- what a symbol means ----------

  /** The symbol's value comes from the last of the first n measures of that name with evidence. */
  predicate BindsLast(rt: Runtime, measure: seq<MeasureSpec>, tims: seq<Tim>, now: string, n: nat,
                      name: string, j: nat, t: Tim)
    requires n <= |measure|
  {
    j < n && measure[j].name == name && IsLatest(rt, measure[j], tims, now, t) &&
    forall k | j < k < n && measure[k].name == name :: !Supported(rt, measure[k], tims, now)
  }

  lemma {:induction false} BoundMeaning(rt: Runtime, measure: seq<MeasureSpec>, tims: seq<Tim>, now: string,
                                        n: nat, name: string)
    returns (j: nat, t: Tim)
    requires n <= |measure| && name in BoundBy(rt, measure, tims, now, n)
    ensures BindsLast(rt, measure, tims, now, n, name, j, t)
    ensures BoundBy(rt, measure, tims, now, n)[name] == SymbolValue(rt, t.value)
    decreases n
  {
    hide Select, IsLatest, SymbolValue, Supported;
    SelectIsLatest(rt, measure[n - 1], tims, now);
    if Evidence(rt, measure[n - 1], tims, now).Some? && measure[n - 1].name == name {
      j, t := n - 1, Select(rt, measure[n - 1], tims, now).value;
    } else {
      j, t := BoundMeaning(rt, measure, tims, now, n - 1, name);
    }
  }

  /** A symbol is bound exactly when one of the measures of its name has evidence. */
  lemma {:induction false} BoundIff(rt: Runtime, measure: seq<MeasureSpec>, tims: seq<Tim>, now: string,
                                    n: nat, name: string)
    requires n <= |measure|
    ensures name in BoundBy(rt, measure, tims, now, n) <==>
            exists j: nat :: j < n && measure[j].name == name && Supported(rt, measure[j], tims, now)
    decreases n
  {
    hide Select, Supported, SymbolValue;
    if n > 0 {
      BoundIff(rt, measure, tims, now, n - 1, name);
      SelectIsLatest(rt, measure[n - 1], tims, now);
    }
  }

  // ---------- approval ----------

  /** The measure has evidence, and its assertion passes on the symbols bound up to it. */
  predicate Proven(rt: Runtime, measure: seq<MeasureSpec>, tims: seq<Tim>, now: string, i: nat)
    requires i < |measure|
  {
    Supported(rt, measure[i], tims, now) &&
    Evaluate(measure[i].assertion, BoundBy(rt, measure, tims, now, i + 1)).result == PASS
  }

  /** The first consequence for PASS, and it authorizes something. */
  predicate Fires(cs: seq<Consequence>, k: nat) {
    k < |cs| && Trim(cs[k].cond) == "PASS" && cs[k].verbs != [] &&
    forall j | 0 <= j < k :: Trim(cs[j].cond) != "PASS"
  }

  lemma {:induction false} AuthorizedFires(cs: seq<Consequence>)
    ensures Authorized(cs, PASS) != [] <==> exists k: nat :: Fires(cs, k)
    ensures forall k: nat | Fires(cs, k) :: Authorized(cs, PASS) == cs[k].verbs
  {
    hide Trim;
    if cs != [] {
      AuthorizedFires(cs[1..]);
      if Trim(cs[0].cond) == "PASS" {
        if cs[0].verbs != [] { assert Fires(cs, 0); }
      } else {
        forall k: nat | Fires(cs, k)
          ensures k > 0 && Fires(cs[1..], k - 1)
        {
        }
        forall k: nat | Fires(cs[1..], k)
          ensures Fires(cs, k + 1)
        {
          assert forall j | 0 < j <= k :: cs[j] == cs[1..][j - 1];
        }
      }
    }
  }

  lemma AssessPasses(rt: Runtime, measure: seq<MeasureSpec>, tims: seq<Tim>, now: string, i: nat)
    requires i < |measure|
    ensures Assess(rt, measure, tims, now, i).result == PASS <==> Proven(rt, measure, tims, now, i)
  {
    hide Select, BoundBy, Supported, Evaluate;
    SelectIsLatest(rt, measure[i], tims, now);
  }

  /**
   A commitment is approved exactly when it measures something, every verb in it is
   registered, every measure is proven by evidence meeting its requirements, and a
   consequence for PASS authorizes something; and then that is what is authorized.
   */
  lemma ApprovedIff(rt: Runtime, c: Commitment, tims: seq<Tim>, now: string)
    ensures Decide(rt, c, tims, now).status == APPROVED <==>
            c.measure != [] && AllRegistered(c.consequence) &&
            (forall i: nat | i < |c.measure| :: Proven(rt, c.measure, tims, now, i)) &&
            exists k: nat :: Fires(c.consequence, k)
    ensures Decide(rt, c, tims, now).status == APPROVED ==>
            forall k: nat | Fires(c.consequence, k) :: Decide(rt, c, tims, now).authorized == c.consequence[k].verbs
    ensures Decide(rt, c, tims, now).status != APPROVED ==> Decide(rt, c, tims, now).authorized == []
  {
    hide Assess, Proven, Authorized, Fires, AllRegistered;
    var results := AssessAll(rt, c.measure, tims, now);
    forall i: nat | i < |c.measure|
      ensures results[i].result == PASS <==> Proven(rt, c.measure, tims, now, i)
    {
      AssessPasses(rt, c.measure, tims, now, i);
    }
    AuthorizedFires(c.consequence);
    assert Overall(results) == PASS <==> results != [] && forall i: nat | i < |results| :: results[i].result == PASS;
  }
}
