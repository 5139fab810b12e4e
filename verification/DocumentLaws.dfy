/**
 Commitments and TIMs as documents read back as what they say.

 A commitment and a TIM are written here member by member, with optional members left out where there
 is nothing to say; reading the documents gives the same commitment and the same evidence.
 */
module DocumentLaws {
  import opened Outcomes
  import opened Json
  import opened Kernel
  import D = Decimals
  import Records
  import Tim
  import TimLaws

  // ---------- writing ----------

  function MaybeText(key: string, v: Option<string>): seq<Member> {
    if v.Some? then [Member(key, String(v.value))] else []
  }

  function MaybeNumber(key: string, v: Option<D.Num>): seq<Member> {
    if v.Some? then [Member(key, Number(v.value))] else []
  }

  function EntryJson(e: Option<string>): Value { if e.Some? then String(e.value) else Null }

  function EntriesJson(es: seq<Option<string>>): (r: seq<Value>)
    ensures |r| == |es| && forall i | 0 <= i < |r| :: r[i] == EntryJson(es[i])
  {
    seq(|es|, i requires 0 <= i < |es| => EntryJson(es[i]))
  }

  function ChoiceJson(c: Choice): Value {
    match c
    case OneOf(es) => Array(EntriesJson(es))
    case PartOf(text) => String(text)
  }

  function RequireJson(r: Requirement): Value {
    Object(MaybeNumber("min_witnesses", r.minWitnesses) +
           [Member("device_class", ChoiceJson(r.deviceClass)), Member("code", ChoiceJson(r.code))])
  }

  function WindowJson(w: Window): Value {
    Object([Member("start", String(w.start)), Member("end", String(w.end)), Member("max_age", String(w.maxAge))])
  }

  function MeasureJson(m: MeasureSpec): Value {
    Object([Member("name", String(m.name)), Member("assert", String(m.assertion)),
            Member("require", RequireJson(m.require))] +
           if m.window.Some? then [Member("window", WindowJson(m.window.value))] else [])
  }

  function VerbsJson(vs: seq<Verb>): (r: seq<Value>)
    ensures |r| == |vs| && forall i | 0 <= i < |r| :: r[i] == vs[i].json
  {
    seq(|vs|, i requires 0 <= i < |vs| => vs[i].json)
  }

  function ConsequenceJson(c: Consequence): Value {
    Object([Member("if", String(c.cond)), Member("then", Array(VerbsJson(c.verbs)))])
  }

  function MeasuresJson(ms: seq<MeasureSpec>): (r: seq<Value>)
    ensures |r| == |ms| && forall i | 0 <= i < |r| :: r[i] == MeasureJson(ms[i])
  {
    seq(|ms|, i requires 0 <= i < |ms| => MeasureJson(ms[i]))
  }

  function ConsequencesJson(cs: seq<Consequence>): (r: seq<Value>)
    ensures |r| == |cs| && forall i | 0 <= i < |r| :: r[i] == ConsequenceJson(cs[i])
  {
    seq(|cs|, i requires 0 <= i < |cs| => ConsequenceJson(cs[i]))
  }

  function CommitmentJson(c: Commitment): Value {
    Object([Member("measure", Array(MeasuresJson(c.measure))),
            Member("consequence", Array(ConsequencesJson(c.consequence)))])
  }

  function Nulls(n: nat): (r: seq<Value>)
    ensures |r| == n
  {
    seq(n, _ => Null)
  }

  function TimJson(t: Kernel.Tim): Value {
    Object([Member("time", Object([Member("ts", String(t.ts)), Member("witnesses", Array(Nulls(t.witnesses))),
                                   Member("ordering", Object([Member("lamport", Number(t.lamport))]))])),
            Member("identity", Object([Member("id", String(t.identity))])),
            Member("measurement", Object([Member("value", t.value)] + MaybeText("unit", t.unit) +
                                         MaybeText("device", t.device) + MaybeText("code", t.code))),
            Member("cid", String(t.cid))])
  }

  // ---------- looking up optional members ----------

  lemma FieldOf(ms: seq<Member>, i: nat)
    requires DistinctKeys(ms) && i < |ms|
    ensures Path(Object(ms), [ms[i].key]) == Some(ms[i].value)
  {
    hide Path;
    Records.Field(ms, i, ms[i].key);
  }

  lemma TwoDeep(v: Value, key: string, inner: string)
    requires Path(v, [key]).Some?
    ensures Path(v, [key, inner]) == Path(Path(v, [key]).value, [inner])
  {
    hide Get;
    assert [key, inner][1..] == [inner] && [key][1..] == [];
  }

  lemma NotThere(ms: seq<Member>, key: string)
    requires !HasKey(ms, key)
    ensures Path(Object(ms), [key]) == None
  {
    hide Path;
    Records.Absent(ms, key);
  }

  // ---------- measures ----------

  lemma EntriesRead(es: seq<Option<string>>)
    ensures Records.Allowed(EntriesJson(es)) == es
  {
  }

  lemma RequireReads(v: Value, r: Requirement)
    requires Path(v, ["require"]) == Some(RequireJson(r))
    ensures Records.NumberAt(v, ["require", "min_witnesses"]) == r.minWitnesses
    ensures Records.ReadChoice(v, ["require", "device_class"]) == r.deviceClass
    ensures Records.ReadChoice(v, ["require", "code"]) == r.code
  {
    hide Path, EntriesJson, Records.Allowed;
    var ms := RequireJson(r).members;
    var n := if r.minWitnesses.Some? then 1 else 0;
    assert |ms| == n + 2 && ms[n] == Member("device_class", ChoiceJson(r.deviceClass));
    assert ms[n + 1] == Member("code", ChoiceJson(r.code));
    TwoDeep(v, "require", "min_witnesses");
    TwoDeep(v, "require", "device_class");
    TwoDeep(v, "require", "code");
    FieldOf(ms, n);
    FieldOf(ms, n + 1);
    if r.minWitnesses.Some? { FieldOf(ms, 0); } else { NotThere(ms, "min_witnesses"); }
    if r.deviceClass.OneOf? { EntriesRead(r.deviceClass.entries); }
    if r.code.OneOf? { EntriesRead(r.code.entries); }
  }

  lemma WindowReads(v: Value, w: Window)
    requires Path(v, ["window"]) == Some(WindowJson(w))
    ensures Records.ReadWindow(v) == Some(w)
  {
    hide Path;
    var ms := WindowJson(w).members;
    FieldOf(ms, 0);
    FieldOf(ms, 1);
    FieldOf(ms, 2);
  }

  lemma MeasureReads(m: MeasureSpec)
    ensures Records.ReadMeasure(MeasureJson(m)) == m
  {
    hide Path, RequireJson, WindowJson;
    var v := MeasureJson(m);
    var ms := v.members;
    assert ms[0] == Member("name", String(m.name)) && ms[1] == Member("assert", String(m.assertion));
    assert ms[2] == Member("require", RequireJson(m.require));
    FieldOf(ms, 0);
    FieldOf(ms, 1);
    FieldOf(ms, 2);
    RequireReads(v, m.require);
    if m.window.Some? {
      assert ms[3] == Member("window", WindowJson(m.window.value));
      FieldOf(ms, 3);
      WindowReads(v, m.window.value);
    } else {
      NotThere(ms, "window");
    }
  }

  // ---------- consequences ----------

  /** A verb goes by the name its document gives. */
  predicate NamedVerbs(c: Consequence) {
    forall i | 0 <= i < |c.verbs| :: c.verbs[i].name == Str(c.verbs[i].json, ["name"])
  }

  lemma ConsequenceReads(c: Consequence)
    requires NamedVerbs(c)
    ensures Records.ReadConsequence(ConsequenceJson(c)) == c
  {
    hide Path;
    var ms := ConsequenceJson(c).members;
    FieldOf(ms, 0);
    FieldOf(ms, 1);
    assert Records.ReadVerbs(VerbsJson(c.verbs)) == c.verbs;
  }

  /** A commitment's document reads back as the commitment. */
  lemma CommitmentReads(c: Commitment)
    requires forall i | 0 <= i < |c.consequence| :: NamedVerbs(c.consequence[i])
    ensures Records.ReadCommitment(CommitmentJson(c)) == Some(c)
  {
    hide Path, Records.ReadMeasure, Records.ReadConsequence, MeasureJson, ConsequenceJson, NamedVerbs;
    var ms := CommitmentJson(c).members;
    FieldOf(ms, 0);
    FieldOf(ms, 1);
    forall i | 0 <= i < |c.measure| { MeasureReads(c.measure[i]); }
    forall i | 0 <= i < |c.consequence| { ConsequenceReads(c.consequence[i]); }
    assert Records.ReadMeasures(MeasuresJson(c.measure)) == c.measure;
    assert Records.ReadConsequences(ConsequencesJson(c.consequence)) == c.consequence;
  }

  // ---------- evidence ----------

  /** The first of two lists of members that has the name decides. */
  lemma {:induction false} GetJoined(a: seq<Member>, b: seq<Member>, key: string)
    ensures Get(a + b, key) == if HasKey(a, key) then Get(a, key) else Get(b, key)
  {
    if a == [] {
      assert a + b == b;
    } else {
      assert (a + b)[1..] == a[1..] + b && (a + b)[0] == a[0];
      GetJoined(a[1..], b, key);
      HasKeyCons(a[0], a[1..]);
      assert [a[0]] + a[1..] == a;
    }
  }

  lemma PathJoined(a: seq<Member>, b: seq<Member>, key: string)
    ensures Path(Object(a + b), [key]) == if HasKey(a, key) then Path(Object(a), [key]) else Path(Object(b), [key])
  {
    hide Get, Path;
    GetJoined(a, b, key);
    TimLaws.OneStep(a + b, key);
    TimLaws.OneStep(a, key);
    TimLaws.OneStep(b, key);
  }

  lemma MaybeReads(key: string, v: Option<string>, other: string)
    ensures HasKey(MaybeText(key, v), other) <==> v.Some? && key == other
    ensures Path(Object(MaybeText(key, v)), [key]) == if v.Some? then Some(String(v.value)) else None
  {
    hide Path;
    var ms := MaybeText(key, v);
    if v.Some? {
      assert ms[0].key == key;
      FieldOf(ms, 0);
    } else {
      NotThere(ms, key);
    }
  }

  /** A member that may be there, after some and before others that are not called so. */
  lemma MaybeAmong(before: seq<Member>, key: string, v: Option<string>, after: seq<Member>)
    requires !HasKey(before, key) && !HasKey(after, key)
    ensures Path(Object(before + MaybeText(key, v) + after), [key]) == if v.Some? then Some(String(v.value)) else None
  {
    hide Path, MaybeText;
    var mid := MaybeText(key, v);
    MaybeReads(key, v, key);
    assert before + mid + after == before + (mid + after);
    PathJoined(before, mid + after, key);
    PathJoined(mid, after, key);
    if v.None? { NotThere(after, key); }
  }

  lemma JoinedKeys(a: seq<Member>, b: seq<Member>, key: string)
    ensures HasKey(a + b, key) <==> HasKey(a, key) || HasKey(b, key)
  {
    var ms := a + b;
    if HasKey(a, key) {
      var i :| 0 <= i < |a| && a[i].key == key;
      assert ms[i].key == key;
    }
    if HasKey(b, key) {
      var i :| 0 <= i < |b| && b[i].key == key;
      assert ms[|a| + i].key == key;
    }
  }

  lemma MeasurementReads(v: Value, t: Kernel.Tim)
    requires Path(v, ["measurement"]) ==
             Some(Object([Member("value", t.value)] + MaybeText("unit", t.unit) + MaybeText("device", t.device) +
                         MaybeText("code", t.code)))
    ensures Path(v, ["measurement", "value"]) == Some(t.value)
    ensures Records.OptionalStr(v, ["measurement", "unit"]) == t.unit
    ensures Records.OptionalStr(v, ["measurement", "device"]) == t.device
    ensures Records.OptionalStr(v, ["measurement", "code"]) == t.code
  {
    hide Path, MaybeText, HasKey;
    var value, unit := [Member("value", t.value)], MaybeText("unit", t.unit);
    var device, code := MaybeText("device", t.device), MaybeText("code", t.code);
    TwoDeep(v, "measurement", "value");
    TwoDeep(v, "measurement", "unit");
    TwoDeep(v, "measurement", "device");
    TwoDeep(v, "measurement", "code");
    ValueAlone(t.value);
    assert value + unit + device + code == value + (unit + device + code) == value + unit + (device + code) ==
           value + unit + device + code + [];
    PathJoined(value, unit + device + code, "value");
    forall other
      ensures HasKey(unit, other) <==> t.unit.Some? && other == "unit"
      ensures HasKey(device, other) <==> t.device.Some? && other == "device"
      ensures HasKey(code, other) <==> t.code.Some? && other == "code"
    {
      MaybeReads("unit", t.unit, other);
      MaybeReads("device", t.device, other);
      MaybeReads("code", t.code, other);
    }
    JoinedKeys(device, code, "unit");
    MaybeAmong(value, "unit", t.unit, device + code);
    JoinedKeys(value, unit, "device");
    MaybeAmong(value + unit, "device", t.device, code);
    JoinedKeys(value, unit, "code");
    JoinedKeys(value + unit, device, "code");
    NoKeys("code");
    MaybeAmong(value + unit + device, "code", t.code, []);
  }

  lemma NoKeys(key: string)
    ensures !HasKey([], key)
  {
  }

  lemma ValueAlone(value: Value)
    ensures HasKey([Member("value", value)], "value") &&
            Path(Object([Member("value", value)]), ["value"]) == Some(value)
    ensures forall k | k != "value" :: !HasKey([Member("value", value)], k)
  {
    hide Path;
    var ms := [Member("value", value)];
    assert ms[0].key == "value";
    FieldOf(ms, 0);
  }

  lemma TimeReads(v: Value, t: Kernel.Tim)
    requires Path(v, ["time"]) ==
             Some(Object([Member("ts", String(t.ts)), Member("witnesses", Array(Nulls(t.witnesses))),
                          Member("ordering", Object([Member("lamport", Number(t.lamport))]))]))
    ensures Str(v, ["time", "ts"]) == t.ts && |Tim.WitnessesOf(v)| == t.witnesses
    ensures Records.NumberAt(v, ["time", "ordering", "lamport"]) == Some(t.lamport)
  {
    hide Path;
    var time := Path(v, ["time"]).value;
    TwoDeep(v, "time", "ts");
    TwoDeep(v, "time", "witnesses");
    FieldOf(time.members, 0);
    FieldOf(time.members, 1);
    FieldOf(time.members, 2);
    ThreeDeep(v, "time", "ordering", "lamport");
    FieldOf(time.members[2].value.members, 0);
  }

  lemma ThreeDeep(v: Value, a: string, b: string, c: string)
    requires Path(v, [a]).Some? && Path(Path(v, [a]).value, [b]).Some?
    ensures Path(v, [a, b, c]) == Path(Path(Path(v, [a]).value, [b]).value, [c])
  {
    hide Get;
    assert [a, b, c][1..] == [b, c] && [b, c][1..] == [c] && [a][1..] == [] && [b][1..] == [];
  }

  /** A TIM's document reads back as the evidence. */
  lemma TimReads(t: Kernel.Tim)
    ensures Records.ReadTim(TimJson(t)) == t
  {
    hide Path, MaybeText, Nulls;
    var v := TimJson(t);
    FieldOf(v.members, 0);
    FieldOf(v.members, 1);
    FieldOf(v.members, 2);
    FieldOf(v.members, 3);
    TimeReads(v, t);
    MeasurementReads(v, t);
    TwoDeep(v, "identity", "id");
    FieldOf(v.members[1].value.members, 0);
  }
}
