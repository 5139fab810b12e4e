/**
 What a decision records.

 A commitment with a verb nobody knows is rejected unseen.  Otherwise the decision has one record for
 each measure, telling the evidence taken and the verdict on it; it is indeterminate when a record is,
 approved when all pass and a consequence for that authorizes something, and rejected in all other
 cases.  The documents say the same.
 */
module VerdictLaws {
  import opened Outcomes
  import opened Json
  import opened JsNumbers
  import opened Assertions
  import opened Kernel
  import KernelLaws
  import Records

  // ---------- records ----------

  /** A measure without evidence. */
  predicate Unsupported(spec: MeasureSpec, a: Assertion) {
    a.name == spec.name && a.result == INDETERMINATE && a.input.None? && a.unit.None? && a.inputs.None? &&
    a.error == Some("no matching receipts")
  }

  /** The verdict on a receipt, with the receipt's value, unit and cid. */
  predicate JudgedOn(spec: MeasureSpec, t: Tim, verdict: Verdict, a: Assertion) {
    a.name == spec.name && a.result == verdict.result && a.input == Some(t.value) && a.unit == t.unit &&
    a.inputs == Some(if t.cid == "" then [] else [t.cid]) && (a.error.Some? <==> verdict.error.Some?)
  }

  /** The i-th record: the evidence selected for the measure, and the verdict with all symbols bound so far. */
  predicate RecordOf(rt: Runtime, measure: seq<MeasureSpec>, tims: seq<Tim>, now: string, i: nat, a: Assertion)
    requires i < |measure|
  {
    match Select(rt, measure[i], tims, now)
    case None => Unsupported(measure[i], a)
    case Some(t) =>
      JudgedOn(measure[i], t, Evaluate(measure[i].assertion, BoundBy(rt, measure, tims, now, i + 1)), a)
  }

  predicate KnownVerbs(cs: seq<Consequence>) {
    forall i, j | 0 <= i < |cs| && 0 <= j < |cs[i].verbs| ::
      var n := cs[i].verbs[j].name;
      n == "arky:verb/pay@v1" || n == "arky:verb/refund@v1" || n == "arky:verb/slash@v1" ||
      n == "arky:verb/revoke@v1" || n == "arky:verb/upgrade@v1" || n == "arky:verb/signal@v1" ||
      n == "arky:verb/control@v1"
  }

  lemma VerbsIff(cs: seq<Consequence>)
    ensures AllRegistered(cs) <==> KnownVerbs(cs)
  {
  }

  lemma AssessIs(rt: Runtime, measure: seq<MeasureSpec>, tims: seq<Tim>, now: string, i: nat)
    requires i < |measure|
    ensures RecordOf(rt, measure, tims, now, i, Assess(rt, measure, tims, now, i))
  {
    hide Select, BoundBy, Evaluate;
  }

  /** The decision, in all cases. */
  lemma DecisionIs(rt: Runtime, c: Commitment, tims: seq<Tim>, now: string)
    ensures var d := Decide(rt, c, tims, now);
      if !KnownVerbs(c.consequence) then d == Decision(REJECTED, [], [], ["kernel.unknown_verb"])
      else
        |d.assertions| == |c.measure| && d.errors == [] &&
        (forall i | 0 <= i < |c.measure| :: RecordOf(rt, c.measure, tims, now, i, d.assertions[i])) &&
        (d.status == INDETERMINATE_STATUS <==>
            exists i | 0 <= i < |d.assertions| :: d.assertions[i].result == INDETERMINATE) &&
        (d.status == APPROVED <==>
           d.assertions != [] && (forall i | 0 <= i < |d.assertions| :: d.assertions[i].result == PASS) &&
           exists k :: KernelLaws.Fires(c.consequence, k))
  {
    hide RecordOf, Assess, Authorized, KernelLaws.Fires, AllRegistered, KnownVerbs;
    VerbsIff(c.consequence);
    forall i | 0 <= i < |c.measure| { AssessIs(rt, c.measure, tims, now, i); }
    KernelLaws.AuthorizedFires(c.consequence);
    var results := AssessAll(rt, c.measure, tims, now);
    assert forall i | 0 <= i < |results| :: results[i] == Assess(rt, c.measure, tims, now, i);
    NothingForFailure(c, results);
  }

  lemma NothingForFailure(c: Commitment, results: seq<Assertion>)
    ensures Overall(results) == PASS <==> results != [] && forall i | 0 <= i < |results| :: results[i].result == PASS
    ensures Overall(results) == INDETERMINATE <==> exists i | 0 <= i < |results| :: results[i].result == INDETERMINATE
  {
  }

  // ---------- conditions ----------

  predicate White(s: string) { forall i | 0 <= i < |s| :: IsWhite(s[i]) }

  lemma {:induction false} TrimStartIs(a: string, s: string)
    requires White(a) && s != "" && !IsWhite(s[0])
    ensures TrimStart(a + s) == s
  {
    if a == "" {
      assert a + s == s;
    } else {
      assert (a + s)[1..] == a[1..] + s;
      TrimStartIs(a[1..], s);
    }
  }

  lemma {:induction false} TrimEndIs(s: string, b: string)
    requires White(b) && s != "" && !IsWhite(s[|s| - 1])
    ensures TrimEnd(s + b) == s
    decreases |b|
  {
    if b == "" {
      assert s + b == s;
    } else {
      var front := b[..|b| - 1];
      assert (s + b)[..|s + b| - 1] == s + front;
      assert (s + b)[|s + b| - 1] == b[|b| - 1];
      TrimEndIs(s, front);
    }
  }

  lemma {:induction false} TrimStartCuts(s: string)
    ensures exists a :: White(a) && s == a + TrimStart(s)
  {
    if s != "" && IsWhite(s[0]) {
      TrimStartCuts(s[1..]);
      var a :| White(a) && s[1..] == a + TrimStart(s[1..]);
      assert s == [s[0]] + s[1..] == ([s[0]] + a) + TrimStart(s);
      assert White([s[0]] + a);
    } else {
      assert s == "" + TrimStart(s) && White("");
    }
  }

  lemma {:induction false} TrimEndCuts(s: string)
    ensures exists b :: White(b) && s == TrimEnd(s) + b
    decreases |s|
  {
    if s != "" && IsWhite(s[|s| - 1]) {
      var front := s[..|s| - 1];
      TrimEndCuts(front);
      var b :| White(b) && front == TrimEnd(front) + b;
      assert s == front + [s[|s| - 1]] == TrimEnd(s) + (b + [s[|s| - 1]]);
      assert White(b + [s[|s| - 1]]);
    } else {
      assert s == TrimEnd(s) + "" && White("");
    }
  }

  /** A condition is a word when it is that word between white space. */
  lemma TrimsTo(cond: string, word: string)
    requires word != "" && !IsWhite(word[0]) && !IsWhite(word[|word| - 1])
    ensures Trim(cond) == word <==> exists a, b :: White(a) && White(b) && cond == a + word + b
  {
    hide IsWhite, TrimStart, TrimEnd;
    if Trim(cond) == word {
      TrimStartCuts(cond);
      var a :| White(a) && cond == a + TrimStart(cond);
      TrimEndCuts(TrimStart(cond));
      var b :| White(b) && TrimStart(cond) == word + b;
      assert cond == a + (word + b) == a + word + b;
    }
    if exists a, b :: White(a) && White(b) && cond == a + word + b {
      var a, b :| White(a) && White(b) && cond == a + word + b;
      assert cond == a + (word + b) && (word + b)[0] == word[0];
      TrimStartIs(a, word + b);
      TrimEndIs(word, b);
    }
  }

  // ---------- the documents ----------

  lemma AssertionKeys(a: Assertion)
    ensures DistinctKeys(Records.AssertionJson(a).members)
  {
    hide Records.ResultText, Records.Strings;
  }

  lemma FieldSays(ms: seq<Member>, i: nat)
    requires DistinctKeys(ms) && i < |ms|
    ensures Path(Object(ms), [ms[i].key]) == Some(ms[i].value)
  {
    hide Path;
    Records.Field(ms, i, ms[i].key);
  }

  function ResultWord(r: TriState): string {
    if r == PASS then "PASS" else if r == FAIL then "FAIL" else "INDETERMINATE"
  }

  /** The document of a record says its name, its result, and what there is of value, unit, cids and error. */
  lemma AssertionSays(a: Assertion)
    ensures var v := Records.AssertionJson(a);
      Json.Str(v, ["name"]) == a.name && Json.Str(v, ["result"]) == ResultWord(a.result) &&
      (a.input.Some? ==> Path(v, ["input_value"]) == a.input) &&
      (a.unit.Some? ==> Path(v, ["unit"]) == Some(String(a.unit.value))) &&
      (a.inputs.Some? ==> Path(v, ["inputs"]) == Some(Array(Records.Strings(a.inputs.value)))) &&
      (a.error.Some? ==> Path(v, ["error"]) == Some(String(a.error.value)))
  {
    hide Path, DistinctKeys, Records.Strings;
    var ms := Records.AssertionJson(a).members;
    AssertionKeys(a);
    forall i | 0 <= i < |ms| { FieldSays(ms, i); }
    var n := if a.input.Some? then 3 else 2;
    var u := if a.unit.Some? then n + 1 else n;
    var s := if a.inputs.Some? then u + 1 else u;
    assert ms[0].key == "name" && ms[1].key == "result";
    if a.input.Some? { assert ms[2] == Member("input_value", a.input.value); }
    if a.unit.Some? { assert ms[n] == Member("unit", String(a.unit.value)); }
    if a.inputs.Some? { assert ms[u] == Member("inputs", Array(Records.Strings(a.inputs.value))); }
    if a.error.Some? { assert ms[s] == Member("error", String(a.error.value)); }
  }
}
