/** Policy evaluation: evidence selection, assertion binding and the three-valued decision. */
module Kernel {
  import opened Outcomes
  import opened Ordering
  import opened JsNumbers
  import opened Json
  import opened Assertions
  import D = Decimals
  import Utf16

  // ---------- what the surrounding runtime supplies ----------

  /** Date.parse, String(x), and the text of a parse failure belong to the JavaScript engine. */
  datatype Runtime = Runtime(parseDate: string -> Option<int>, show: Value -> string,
                             complain: (string, SyntaxError) -> string)

  // ---------- commitments and evidence ----------

  datatype Window = Window(start: string, end: string, maxAge: string)

  /**
   What a text must be: one of a list, in which an entry that is no text is None and allows nothing, or
   a part of a text given in place of a list.
   */
  datatype Choice = OneOf(entries: seq<Option<string>>) | PartOf(text: string) {
    predicate Given() { if OneOf? then entries != [] else text != "" }
  }

  datatype Requirement = Requirement(minWitnesses: Option<D.Num>, deviceClass: Choice, code: Choice)

  datatype MeasureSpec = MeasureSpec(name: string, assertion: string, require: Requirement, window: Option<Window>)

  /** A verb: its registered name, and the whole object the commitment gives. */
  datatype Verb = Verb(name: string, json: Value)

  datatype Consequence = Consequence(cond: string, verbs: seq<Verb>)

  datatype Commitment = Commitment(measure: seq<MeasureSpec>, consequence: seq<Consequence>)

  datatype Tim = Tim(ts: string, witnesses: nat, lamport: D.Num, identity: string, cid: string,
                     value: Value, unit: Option<string>, device: Option<string>, code: Option<string>)

  const REGISTERED: set<string> :=
    {"arky:verb/pay@v1", "arky:verb/refund@v1", "arky:verb/slash@v1", "arky:verb/revoke@v1",
     "arky:verb/upgrade@v1", "arky:verb/signal@v1", "arky:verb/control@v1"}

  // ---------- ISO durations ----------

  /** The digits before a unit letter, and what follows the letter; nothing consumed otherwise. */
  function Component(t: string, mark: char): (D.Digits, string) {
    var (digits, rest) := D.TakeDigits(t);
    if digits != [] && D.StartsWith(rest, mark) then (digits, rest[1..]) else ([], t)
  }

  function Seconds(t: string): (real, string) {
    var (whole, t1) := D.TakeDigits(t);
    if whole == [] then (0.0, t)
    else if D.StartsWith(t1, 'S') then (D.NatOf(whole) as real, t1[1..])
    else if D.StartsWith(t1, '.') then
      var (frac, t2) := D.TakeDigits(t1[1..]);
      if frac != [] && D.StartsWith(t2, 'S') then (D.Scaled(whole + frac, -|frac|), t2[1..]) else (0.0, t)
    else (0.0, t)
  }

  /** PnDTnHnMnS in milliseconds. */
  function DurationMs(d: string): Option<real> {
    if !D.StartsWith(d, 'P') then None
    else
      var (days, t1) := Component(d[1..], 'D');
      var dayMs := D.NatOf(days) as real * 86400000.0;
      if t1 == [] then Some(dayMs)
      else if t1[0] != 'T' then None
      else
        var (hours, t2) := Component(t1[1..], 'H');
        var (minutes, t3) := Component(t2, 'M');
        var (seconds, t4) := Seconds(t3);
        if t4 != [] then None
        else Some(dayMs + D.NatOf(hours) as real * 3600000.0 + D.NatOf(minutes) as real * 60000.0 + seconds * 1000.0)
  }

  // ---------- selection ----------

  /** Whether two optional numbers satisfy a comparison; a missing one is NaN and satisfies none. */
  predicate Known(a: Option<int>, b: Option<int>, holds: (int, int) -> bool) {
    a.Some? && b.Some? && holds(a.value, b.value)
  }

  predicate TooOld(ts: Option<int>, now: Option<int>, maxAge: string) {
    ts.Some? && now.Some? && DurationMs(maxAge).Some? && (now.value - ts.value) as real > DurationMs(maxAge).value
  }

  predicate WithinWindow(rt: Runtime, ts: string, w: Window, now: string) {
    var t := rt.parseDate(ts);
    && !(w.start != "" && Known(t, rt.parseDate(w.start), (a, b) => a < b))
    && !(w.end != "" && Known(t, rt.parseDate(w.end), (a, b) => a >= b))
    && !(w.maxAge != "" && TooOld(t, rt.parseDate(now), w.maxAge))
  }

  predicate EnoughWitnesses(r: Requirement, t: Tim) {
    r.minWitnesses.Some? ==> t.witnesses as real >= D.ValueOf(r.minWitnesses.value)
  }

  predicate Includes(s: string, part: string) { exists i | 0 <= i <= |s| :: part <= s[i..] }

  /** An absent text is looked for in a text as JavaScript spells it, `undefined`. */
  predicate Allows(choice: Choice, v: Option<string>) {
    choice.Given() ==>
      match choice
      case OneOf(entries) => v.Some? && v in entries
      case PartOf(text) => Includes(text, v.GetOr("undefined"))
  }

  predicate InWindow(rt: Runtime, spec: MeasureSpec, t: Tim, now: string) {
    spec.window.Some? ==> WithinWindow(rt, t.ts, spec.window.value, now)
  }

  /** The four filters, in the order they are applied. */
  predicate Passes(rt: Runtime, spec: MeasureSpec, now: string, t: Tim, filter: nat) {
    if filter == 0 then EnoughWitnesses(spec.require, t)
    else if filter == 1 then Allows(spec.require.deviceClass, t.device)
    else if filter == 2 then Allows(spec.require.code, t.code)
    else InWindow(rt, spec, t, now)
  }

  /** The evidence meets every requirement and the window. */
  predicate Meets(rt: Runtime, spec: MeasureSpec, now: string, t: Tim) {
    forall filter: nat | filter < 4 :: Passes(rt, spec, now, t, filter)
  }

  /** The Notary tuple (ts, lamport, identity, cid), ascending. */
  predicate NotaryBefore(a: Tim, b: Tim) {
    if a.ts != b.ts then Utf16.Before(a.ts, b.ts)
    else if D.ValueOf(a.lamport) != D.ValueOf(b.lamport) then D.ValueOf(a.lamport) < D.ValueOf(b.lamport)
    else if a.identity != b.identity then Utf16.Before(a.identity, b.identity)
    else Utf16.Before(a.cid, b.cid)
  }

  function Candidates(rt: Runtime, spec: MeasureSpec, now: string, tims: seq<Tim>): seq<Tim> {
    if tims == [] then []
    else (if Meets(rt, spec, now, tims[0]) then [tims[0]] else []) + Candidates(rt, spec, now, tims[1..])
  }

  /** The last candidate in Notary order. */
  function Select(rt: Runtime, spec: MeasureSpec, tims: seq<Tim>, now: string): Option<Tim> {
    var sorted := Sort(NotaryBefore, Candidates(rt, spec, now, tims));
    if sorted == [] then None else Some(sorted[|sorted| - 1])
  }

  // ---------- evaluation ----------

  /** The literal a measured value is; none for null, arrays and objects. */
  function LiteralOf(v: Value): Option<Assertions.Literal> {
    match v
    case Bool(b) => Some(Boolean(b))
    case Number(n) => Some(Num(OfNum(n)))
    case String(s) => Some(Str(s))
    case _ => None
  }

  /** A measured value as the assertion language sees it: null converts to zero, arrays and objects to their text. */
  function SymbolValue(rt: Runtime, v: Value): Bound {
    match LiteralOf(v)
    case Some(lit) => Plain(lit)
    case None => Foreign(if v.Null? then Num(JS_ZERO) else Str(rt.show(v)))
  }

  datatype Assertion = Assertion(name: string, result: TriState, input: Option<Value>, unit: Option<string>,
                                 inputs: Option<seq<string>>, error: Option<string>)

  datatype Status = APPROVED | REJECTED | INDETERMINATE_STATUS

  datatype Decision = Decision(status: Status, assertions: seq<Assertion>, authorized: seq<Verb>, errors: seq<string>)

  function ReasonText(rt: Runtime, text: string, r: Reason): string {
    match r
    case NoReceipts(sym) => "no matching receipts for symbol '" + sym + "'"
    case NotBoolean(sym) => "symbol '" + sym + "' is not boolean"
    case NumericVsString => "type mismatch: numeric symbol compared to string literal"
    case NumericVsBoolean => "type mismatch: numeric symbol compared to boolean literal"
    case StringVsOther => "type mismatch: string symbol compared to non-string literal"
    case ParseFailure(e) => "parse error: " + rt.complain(text, e)
  }

  /** The assertion's record once its evidence is bound. */
  function Judge(rt: Runtime, spec: MeasureSpec, t: Tim, symbols: Symbols): Assertion {
    var v := Evaluate(spec.assertion, symbols);
    Assertion(spec.name, v.result, Some(t.value), t.unit, Some(if t.cid != "" then [t.cid] else []),
              if v.error.Some? then Some(ReasonText(rt, spec.assertion, v.error.value)) else None)
  }

  function Unbound(spec: MeasureSpec): Assertion {
    Assertion(spec.name, INDETERMINATE, None, None, None, Some("no matching receipts"))
  }

  /** The value a measure's latest evidence gives its symbol. */
  function Evidence(rt: Runtime, spec: MeasureSpec, tims: seq<Tim>, now: string): Option<Bound> {
    var t :- Select(rt, spec, tims, now);
    Some(SymbolValue(rt, t.value))
  }

  /** The symbols after a measure: its name is bound when it has evidence. */
  function Bind(rt: Runtime, spec: MeasureSpec, tims: seq<Tim>, now: string, symbols: Symbols): Symbols {
    match Evidence(rt, spec, tims, now)
    case None => symbols
    case Some(v) => symbols[spec.name := v]
  }

  /** The symbols bound by the first n measures, later ones overriding earlier ones. */
  function BoundBy(rt: Runtime, measure: seq<MeasureSpec>, tims: seq<Tim>, now: string, n: nat): Symbols
    requires n <= |measure|
  {
    if n == 0 then map[] else Bind(rt, measure[n - 1], tims, now, BoundBy(rt, measure, tims, now, n - 1))
  }

  /** The record of the i-th measure. */
  function Assess(rt: Runtime, measure: seq<MeasureSpec>, tims: seq<Tim>, now: string, i: nat): Assertion
    requires i < |measure|
  {
    match Select(rt, measure[i], tims, now)
    case None => Unbound(measure[i])
    case Some(t) => Judge(rt, measure[i], t, BoundBy(rt, measure, tims, now, i + 1))
  }

  function AssessAll(rt: Runtime, measure: seq<MeasureSpec>, tims: seq<Tim>, now: string): (r: seq<Assertion>)
    ensures |r| == |measure|
  {
    seq(|measure|, i requires 0 <= i < |measure| => Assess(rt, measure, tims, now, i))
  }

  predicate AllRegistered(cs: seq<Consequence>) {
    forall i, j | 0 <= i < |cs| && 0 <= j < |cs[i].verbs| :: cs[i].verbs[j].name in REGISTERED
  }

  function Overall(results: seq<Assertion>): TriState {
    if exists i | 0 <= i < |results| :: results[i].result == INDETERMINATE then INDETERMINATE
    else if results != [] && forall i | 0 <= i < |results| :: results[i].result == PASS then PASS
    else FAIL
  }

  predicate MatchesOutcome(cond: string, overall: TriState) {
    var c := Trim(cond);
    (c == "PASS" && overall == PASS) || (c == "FAIL" && overall == FAIL) ||
    (c == "INDETERMINATE" && overall == INDETERMINATE)
  }

  /** What the first matching consequence authorizes. */
  function Authorized(cs: seq<Consequence>, overall: TriState): seq<Verb> {
    if cs == [] then []
    else if MatchesOutcome(cs[0].cond, overall) then cs[0].verbs
    else Authorized(cs[1..], overall)
  }

  function Decide(rt: Runtime, c: Commitment, tims: seq<Tim>, now: string): Decision {
    if !AllRegistered(c.consequence) then Decision(REJECTED, [], [], ["kernel.unknown_verb"])
    else
      var results := AssessAll(rt, c.measure, tims, now);
      var overall := Overall(results);
      if overall == INDETERMINATE then Decision(INDETERMINATE_STATUS, results, [], [])
      else
        var verbs := Authorized(c.consequence, overall);
        if overall == PASS && verbs != [] then Decision(APPROVED, results, verbs, [])
        else Decision(REJECTED, results, [], [])
  }

  // ---------- the code ----------

  /** What one filter keeps. */
  function Kept(rt: Runtime, spec: MeasureSpec, now: string, tims: seq<Tim>, filter: nat): seq<Tim> {
    if tims == [] then []
    else (if Passes(rt, spec, now, tims[0], filter) then [tims[0]] else []) + Kept(rt, spec, now, tims[1..], filter)
  }

  lemma KeptNone(rt: Runtime, spec: MeasureSpec, now: string, tims: seq<Tim>, filter: nat)
    ensures [] + Kept(rt, spec, now, tims[0..], filter) == Kept(rt, spec, now, tims, filter)
    ensures Kept(rt, spec, now, tims[|tims|..], filter) == []
  {
    assert tims[0..] == tims;
  }

  lemma KeptNext(rt: Runtime, spec: MeasureSpec, now: string, tims: seq<Tim>, i: nat, filter: nat, kept: seq<Tim>)
    requires i < |tims|
    ensures kept + Kept(rt, spec, now, tims[i..], filter) ==
            (if Passes(rt, spec, now, tims[i], filter) then kept + [tims[i]] else kept) +
            Kept(rt, spec, now, tims[i + 1..], filter)
  {
    hide Passes;
    assert tims[i..][1..] == tims[i + 1..];
  }

  method FilterTims(rt: Runtime, spec: MeasureSpec, now: string, tims: seq<Tim>, filter: nat) returns (kept: seq<Tim>)
    ensures kept == Kept(rt, spec, now, tims, filter)
  {
    hide Passes, Kept;
    kept := [];
    KeptNone(rt, spec, now, tims, filter);
    for i := 0 to |tims|
      invariant kept + Kept(rt, spec, now, tims[i..], filter) == Kept(rt, spec, now, tims, filter)
    {
      KeptNext(rt, spec, now, tims, i, filter, kept);
      if Passes(rt, spec, now, tims[i], filter) { kept := kept + [tims[i]]; }
    }
  }

  /** Whether the specification asks for this filter. */
  predicate Wanted(spec: MeasureSpec, filter: nat) {
    if filter == 0 then spec.require.minWitnesses.Some?
    else if filter == 1 then spec.require.deviceClass.Given()
    else if filter == 2 then spec.require.code.Given()
    else spec.window.Some?
  }

  /** A filter that is not wanted would keep everything. */
  lemma {:induction false} KeptUnwanted(rt: Runtime, spec: MeasureSpec, now: string, tims: seq<Tim>, filter: nat)
    requires !Wanted(spec, filter)
    ensures Kept(rt, spec, now, tims, filter) == tims
  {
    if tims != [] { KeptUnwanted(rt, spec, now, tims[1..], filter); }
  }

  /** The four filters in turn. */
  function KeptByAll(rt: Runtime, spec: MeasureSpec, now: string, tims: seq<Tim>): seq<Tim> {
    Kept(rt, spec, now, Kept(rt, spec, now, Kept(rt, spec, now, Kept(rt, spec, now, tims, 0), 1), 2), 3)
  }

  lemma KeptCons(rt: Runtime, spec: MeasureSpec, now: string, t: Tim, rest: seq<Tim>, filter: nat)
    ensures Kept(rt, spec, now, [t] + rest, filter) ==
            (if Passes(rt, spec, now, t, filter) then [t] else []) + Kept(rt, spec, now, rest, filter)
  {
    assert ([t] + rest)[1..] == rest;
  }

  lemma {:induction false} FiltersMeet(rt: Runtime, spec: MeasureSpec, now: string, tims: seq<Tim>)
    ensures KeptByAll(rt, spec, now, tims) == Candidates(rt, spec, now, tims)
  {
    hide Passes;
    if tims != [] {
      var t, rest := tims[0], tims[1..];
      FiltersMeet(rt, spec, now, rest);
      var k0 := Kept(rt, spec, now, rest, 0);
      var k1 := Kept(rt, spec, now, k0, 1);
      var k2 := Kept(rt, spec, now, k1, 2);
      KeptCons(rt, spec, now, t, k0, 1);
      KeptCons(rt, spec, now, t, k1, 2);
      KeptCons(rt, spec, now, t, k2, 3);
      assert [] + k0 == k0 && [] + k1 == k1 && [] + k2 == k2;
      var all := Passes(rt, spec, now, t, 0) && Passes(rt, spec, now, t, 1) && Passes(rt, spec, now, t, 2) &&
                 Passes(rt, spec, now, t, 3);
      assert all == Meets(rt, spec, now, t);
    }
  }

  /** Each filter is applied only when its requirement is present. */
  method SelectLatest(rt: Runtime, spec: MeasureSpec, tims: seq<Tim>, now: string) returns (r: Option<Tim>)
    ensures r == Select(rt, spec, tims, now)
  {
    hide Passes, Kept, Candidates;
    var candidates := tims;
    if spec.require.minWitnesses.Some? {
      candidates := FilterTims(rt, spec, now, candidates, 0);
    } else {
      KeptUnwanted(rt, spec, now, candidates, 0);
    }
    if spec.require.deviceClass.Given() {
      candidates := FilterTims(rt, spec, now, candidates, 1);
    } else {
      KeptUnwanted(rt, spec, now, candidates, 1);
    }
    if spec.require.code.Given() {
      candidates := FilterTims(rt, spec, now, candidates, 2);
    } else {
      KeptUnwanted(rt, spec, now, candidates, 2);
    }
    if spec.window.Some? {
      candidates := FilterTims(rt, spec, now, candidates, 3);
    } else {
      KeptUnwanted(rt, spec, now, candidates, 3);
    }
    FiltersMeet(rt, spec, now, tims);
    if |candidates| == 0 { return None; }
    SortMultiset(NotaryBefore, candidates);
    candidates := Sort(NotaryBefore, candidates);
    r := Some(candidates[|candidates| - 1]);
  }

  method VerbsRegistered(cs: seq<Consequence>) returns (ok: bool)
    ensures ok == AllRegistered(cs)
  {
    for i := 0 to |cs|
      invariant AllRegistered(cs[..i])
    {
      for j := 0 to |cs[i].verbs|
        invariant forall k | 0 <= k < j :: cs[i].verbs[k].name in REGISTERED
      {
        if cs[i].verbs[j].name !in REGISTERED { return false; }
      }
      assert cs[..i + 1] == cs[..i] + [cs[i]];
    }
    assert cs[..|cs|] == cs;
    ok := true;
  }

  /** Bind every measure's symbol in order, judging each assertion as it is bound. */
  method BindMeasures(rt: Runtime, measure: seq<MeasureSpec>, tims: seq<Tim>, now: string)
    returns (results: seq<Assertion>)
    ensures results == AssessAll(rt, measure, tims, now)
  {
    hide Select, Judge;
    var symbols: Symbols := map[];
    results := [];
    for i := 0 to |measure|
      invariant |results| == i && symbols == BoundBy(rt, measure, tims, now, i)
      invariant forall k | 0 <= k < i :: results[k] == Assess(rt, measure, tims, now, k)
    {
      var spec := measure[i];
      var tim := SelectLatest(rt, spec, tims, now);
      if tim.None? {
        results := results + [Unbound(spec)];
      } else {
        symbols := symbols[spec.name := SymbolValue(rt, tim.value.value)];
        results := results + [Judge(rt, spec, tim.value, symbols)];
      }
    }
  }

  method FirstMatch(cs: seq<Consequence>, overall: TriState) returns (verbs: seq<Verb>)
    ensures verbs == Authorized(cs, overall)
  {
    hide MatchesOutcome;
    verbs := [];
    assert cs[0..] == cs;
    for i := 0 to |cs|
      invariant verbs == [] && Authorized(cs, overall) == Authorized(cs[i..], overall)
    {
      assert cs[i..][1..] == cs[i + 1..];
      if MatchesOutcome(cs[i].cond, overall) { return cs[i].verbs; }
    }
  }

  method EvaluateKernel(rt: Runtime, c: Commitment, tims: seq<Tim>, now: string) returns (d: Decision)
    ensures d == Decide(rt, c, tims, now)
  {
    hide AssessAll, Authorized;
    var ok := VerbsRegistered(c.consequence);
    if !ok { return Decision(REJECTED, [], [], ["kernel.unknown_verb"]); }
    var results := BindMeasures(rt, c.measure, tims, now);
    var anyIndet := exists i | 0 <= i < |results| :: results[i].result == INDETERMINATE;
    var allPass := |results| > 0 && forall i | 0 <= i < |results| :: results[i].result == PASS;
    var overall := if anyIndet then INDETERMINATE else if allPass then PASS else FAIL;
    if overall == INDETERMINATE { return Decision(INDETERMINATE_STATUS, results, [], []); }
    var authorized := FirstMatch(c.consequence, overall);
    var status := if overall == PASS && authorized != [] then APPROVED else REJECTED;
    d := Decision(status, results, if status == APPROVED then authorized else [], []);
  }
}
