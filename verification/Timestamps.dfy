/** RFC 3339 timestamps: parsing to milliseconds, offsets, and when string order is time order. */
module Timestamps {
  import opened Outcomes
  import opened Decimals
  import opened Ordering
  import opened Calendar
  import Utf16

  // ---------- parsing ----------

  /** The digits t[a..z] as a number. */
  function DigitsAt(t: string, a: nat, z: nat): Option<nat>
    requires a <= z <= |t|
  {
    if AllDigits(t[a..z]) then Some(NatOf(t[a..z])) else None
  }

  /** The first three fraction digits, short ones filled with zeros. */
  function Millis(frac: Digits): nat {
    NatOf(if |frac| >= 3 then frac[..3] else frac + Zeros(3 - |frac|))
  }

  /** Milliseconds of an optional fraction, and what follows; none for a bare point. */
  function FractionAt(u: string): Option<(nat, string)> {
    if !StartsWith(u, '.') then Some((0, u))
    else
      var (frac, rest) := TakeDigits(u[1..]);
      if frac == [] then None else Some((Millis(frac), rest))
  }

  /** The whole designator: 'Z', or a sign with hours up to 23 and minutes up to 59. */
  function OffsetAt(u: string): Option<int> {
    if u == "Z" then Some(0)
    else if |u| == 6 && (u[0] == '+' || u[0] == '-') && u[3] == ':' then
      var oh :- DigitsAt(u, 1, 3);
      var om :- DigitsAt(u, 4, 6);
      if oh > 23 || om > 59 then None
      else Some((if u[0] == '-' then -1 else 1) * (oh * 3600 + om * 60) * 1000)
    else None
  }

  datatype Fields = Fields(date: Date, h: nat, mi: nat, s: nat)

  predicate Separated(t: string)
    requires |t| >= 20
  {
    t[4] == '-' && t[7] == '-' && t[10] == 'T' && t[13] == ':' && t[16] == ':'
  }

  function FieldsAt(t: string): Option<Fields>
    requires |t| >= 20
  {
    var y :- DigitsAt(t, 0, 4);
    var mo :- DigitsAt(t, 5, 7);
    var d :- DigitsAt(t, 8, 10);
    var h :- DigitsAt(t, 11, 13);
    var mi :- DigitsAt(t, 14, 16);
    var s :- DigitsAt(t, 17, 19);
    if Separated(t) then Some(Fields(Date(y, mo, d), h, mi, s)) else None
  }

  function LocalMs(f: Fields): int {
    (DaysFromCivil(f.date) * 86400 + f.h * 3600 + f.mi * 60 + f.s) * 1000
  }

  /** Epoch milliseconds, or none for malformed text. */
  function ParseMs(t: string): Option<int> {
    if |t| < 20 then None
    else
      var f :- FieldsAt(t);
      var (ms, rest) :- FractionAt(t[19..]);
      var offset :- OffsetAt(rest);
      Some(LocalMs(f) + ms - offset)
  }

  method ParseRfc3339(t: string) returns (r: Option<int>)
    ensures r == ParseMs(t)
  {
    hide OffsetAt, LocalMs, Millis;
    if |t| < 20 || t[10] != 'T' { return None; }
    var fields := FieldsAt(t);
    if fields.None? { return None; }
    var index, millis := 19, 0;
    ghost var tail := t[19..];
    if t[index] == '.' {
      index := index + 1;
      var start := index;
      while index < |t| && IsDigit(t[index])
        invariant start <= index <= |t| && AllDigits(t[start..index])
      {
        assert t[start..index + 1] == t[start..index] + [t[index]];
        index := index + 1;
      }
      var frac: Digits := t[start..index];
      assert tail[1..] == t[20..] == frac + t[index..];
      TakeDigitsExact(frac, t[index..]);
      if frac == [] { return None; }
      millis := Millis(frac);
    }
    assert FractionAt(tail) == Some((millis, t[index..]));
    var offset := Offset(t, index);
    if offset.None? { return None; }
    r := Some(LocalMs(fields.value) + millis - offset.value);
  }

  method Offset(t: string, from: nat) returns (r: Option<int>)
    requires from <= |t|
    ensures r == OffsetAt(t[from..])
  {
    var index := from;
    ghost var u := t[from..];
    if index >= |t| { return None; }
    var offset := 0;
    if t[index] == 'Z' {
      index := index + 1;
      assert index == |t| ==> u == "Z";
    } else if t[index] == '+' || t[index] == '-' {
      var sign: int := if t[index] == '-' then -1 else 1;
      index := index + 1;
      if index + 5 > |t| || t[index + 2] != ':' { return None; }
      assert u[1..3] == t[index..index + 2] && u[4..6] == t[index + 3..index + 5];
      var oh := DigitsAt(t, index, index + 2);
      var om := DigitsAt(t, index + 3, index + 5);
      if oh.None? || om.None? || oh.value > 23 || om.value > 59 { return None; }
      offset := sign * (oh.value * 3600 + om.value * 60) * 1000;
      index := index + 5;
    } else {
      return None;
    }
    if index != |t| { return None; }
    r := Some(offset);
  }

  // ---------- stamps whose order is time order ----------

  predicate ValidTime(f: Fields) { ValidDate(f.date) && f.h < 24 && f.mi < 60 && f.s < 60 }

  /** YYYY-MM-DDTHH:MM:SSZ with calendar fields. */
  predicate IsStamp(t: string) {
    |t| == 20 && t[19] == 'Z' && FieldsAt(t).Some? && ValidTime(FieldsAt(t).value)
  }

  lemma StampMs(t: string)
    requires IsStamp(t)
    ensures ParseMs(t) == Some(LocalMs(FieldsAt(t).value))
  {
    assert t[19..] == "Z";
  }

  /** A stamp without a fraction counts days, hours, minutes and seconds from the first instant of 1970. */
  lemma StampIs(t: string, days: int, h: nat, mi: nat, s: nat)
    requires IsStamp(t) && DaysFromCivil(FieldsAt(t).value.date) == days
    requires NatOf(t[11..13]) == h && NatOf(t[14..16]) == mi && NatOf(t[17..19]) == s
    ensures ParseMs(t) == Some(days * 86400000 + h * 3600000 + mi * 60000 + s * 1000)
  {
    hide NatOf, DaysFromCivil;
    StampMs(t);
    StampText(t);
  }

  lemma FieldsAre(t: string)
    requires |t| >= 20 && Separated(t) && AllDigits(t[0..4]) && AllDigits(t[5..7]) && AllDigits(t[8..10])
    requires AllDigits(t[11..13]) && AllDigits(t[14..16]) && AllDigits(t[17..19])
    ensures FieldsAt(t) == Some(Fields(Date(NatOf(t[0..4]), NatOf(t[5..7]), NatOf(t[8..10])),
                                       NatOf(t[11..13]), NatOf(t[14..16]), NatOf(t[17..19])))
  {
    hide NatOf;
  }

  /** 1970-01-01T00:00:00Z is instant zero. */
  lemma EpochInstant()
    ensures IsStamp("1970-01-01T00:00:00Z") && ParseMs("1970-01-01T00:00:00Z") == Some(0)
  {
    hide NatOf, DaysFromCivil, ParseMs, FieldsAt;
    var t := "1970-01-01T00:00:00Z";
    EpochDigits();
    assert t[0..4] == "1970" && t[5..7] == "01" && t[8..10] == "01";
    assert t[11..13] == "00" && t[14..16] == "00" && t[17..19] == "00";
    FieldsAre(t);
    EpochIsZero();
    EpochValid();
    StampIs(t, 0, 0, 0, 0);
  }

  lemma EpochValid()
    ensures ValidTime(Fields(Date(1970, 1, 1), 0, 0, 0))
  {
  }

  lemma EpochDigits()
    ensures NatOf("1970") == 1970 && NatOf("01") == 1 && NatOf("00") == 0
  {
    assert "1970"[..3] == "197" && "197"[..2] == "19" && "19"[..1] == "1" && "1"[..0] == "";
    assert "01"[..1] == "0" && "00"[..1] == "0" && "0"[..0] == "";
  }

  predicate TimeBefore(a: Fields, b: Fields) {
    DateBefore(a.date, b.date) ||
    (a.date == b.date && (a.h < b.h || (a.h == b.h && (a.mi < b.mi || (a.mi == b.mi && a.s < b.s)))))
  }

  lemma LocalMonotone(a: Fields, b: Fields)
    requires ValidTime(a) && ValidTime(b)
    ensures TimeBefore(a, b) <==> LocalMs(a) < LocalMs(b)
  {
    DaysMonotone(a.date, b.date);
    DaysMonotone(b.date, a.date);
    var i, j := a.h * 3600 + a.mi * 60 + a.s, b.h * 3600 + b.mi * 60 + b.s;
    assert i < 86400 && j < 86400;
  }

  // ---------- comparing text field by field ----------

  lemma {:induction false} LessBlock(u: seq<int>, v: seq<int>, x: seq<int>, y: seq<int>)
    requires |u| == |v|
    ensures Less(u + x, v + y) <==> Less(u, v) || (u == v && Less(x, y))
  {
    if u == [] {
      assert u + x == x && v + y == y;
    } else {
      assert (u + x)[1..] == u[1..] + x && (v + y)[1..] == v[1..] + y;
      LessBlock(u[1..], v[1..], x, y);
      assert u == [u[0]] + u[1..] && v == [v[0]] + v[1..];
    }
  }

  lemma {:induction false} UnitsConcat(a: string, b: string)
    ensures Utf16.Units(a + b) == Utf16.Units(a) + Utf16.Units(b)
  {
    if a == [] {
      assert a + b == b;
    } else {
      assert (a + b)[1..] == a[1..] + b;
      UnitsConcat(a[1..], b);
    }
  }

  predicate Ascii(s: string) { forall i | 0 <= i < |s| :: s[i] as int < 128 }

  lemma {:induction false} UnitsAscii(s: string)
    requires Ascii(s)
    ensures |Utf16.Units(s)| == |s| && forall i | 0 <= i < |s| :: Utf16.Units(s)[i] == s[i] as int
  {
    if s != [] { UnitsAscii(s[1..]); }
  }

  /** Equally long ASCII blocks decide first; then the rest does. */
  lemma BeforeBlock(a: string, b: string, x: string, y: string)
    requires |a| == |b| && Ascii(a) && Ascii(b)
    ensures Utf16.Before(a + x, b + y) <==> Utf16.Before(a, b) || (a == b && Utf16.Before(x, y))
  {
    UnitsConcat(a, x);
    UnitsConcat(b, y);
    UnitsAscii(a);
    UnitsAscii(b);
    LessBlock(Utf16.Units(a), Utf16.Units(b), Utf16.Units(x), Utf16.Units(y));
    if Utf16.Units(a) == Utf16.Units(b) { Utf16.UnitsInjective(a, b); }
  }

  /** Equally long digit strings compare as the numbers they denote. */
  lemma {:induction false} BeforeDigits(c: Digits, d: Digits)
    requires |c| == |d|
    ensures Utf16.Before(c, d) <==> NatOf(c) < NatOf(d)
    ensures c == d <==> NatOf(c) == NatOf(d)
    decreases |c|
  {
    if c != [] {
      var m := |c| - 1;
      BeforeDigits(c[..m], d[..m]);
      assert c == c[..m] + [c[m]] && d == d[..m] + [d[m]];
      BeforeBlock(c[..m], d[..m], [c[m]], [d[m]]);
      SingleBefore(c[m], d[m]);
    }
  }

  lemma LessSingle(x: int, y: int)
    ensures Less([x], [y]) <==> x < y
  {
    assert [x][1..] == [] && [y][1..] == [];
    assert !Less([], []);
  }

  lemma SingleBefore(c: char, d: char)
    requires IsDigit(c) && IsDigit(d)
    ensures Utf16.Before([c], [d]) <==> DigitValue(c) < DigitValue(d)
  {
    UnitsAscii([c]);
    UnitsAscii([d]);
    assert Utf16.Units([c]) == [c as int] && Utf16.Units([d]) == [d as int];
    LessSingle(c as int, d as int);
  }

  /** A digit field and its separator. */
  lemma BeforeField(c: Digits, d: Digits, sep: char, x: string, y: string)
    requires |c| == |d| && sep as int < 128
    ensures Utf16.Before(c + ([sep] + x), d + ([sep] + y)) <==>
            NatOf(c) < NatOf(d) || (NatOf(c) == NatOf(d) && Utf16.Before(x, y))
  {
    BeforeDigits(c, d);
    BeforeBlock(c, d, [sep] + x, [sep] + y);
    Utf16.BeforeStrict([sep], [sep], [sep]);
    BeforeBlock([sep], [sep], x, y);
  }

  function Cut(t: string, a: nat): string
    requires a <= |t|
  {
    t[a..]
  }

  lemma FieldSplit(t: string, a: nat, z: nat)
    requires a <= z < |t|
    ensures Cut(t, a) == t[a..z] + ([t[z]] + Cut(t, z + 1))
  {
  }

  /** One field of two stamps, and the rest of both. */
  lemma StepField(a: string, b: string, from: nat, to: nat)
    requires from <= to < |a| && to < |b| && a[to] == b[to] && a[to] as int < 128
    requires AllDigits(a[from..to]) && AllDigits(b[from..to])
    ensures var m, n := NatOf(a[from..to]), NatOf(b[from..to]);
      Utf16.Before(Cut(a, from), Cut(b, from)) <==>
      m < n || (m == n && Utf16.Before(Cut(a, to + 1), Cut(b, to + 1)))
  {
    FieldSplit(a, from, to);
    FieldSplit(b, from, to);
    BeforeField(a[from..to], b[from..to], a[to], Cut(a, to + 1), Cut(b, to + 1));
  }

  lemma StampText(t: string)
    requires IsStamp(t)
    ensures AllDigits(t[0..4]) && AllDigits(t[5..7]) && AllDigits(t[8..10])
    ensures AllDigits(t[11..13]) && AllDigits(t[14..16]) && AllDigits(t[17..19])
    ensures FieldsAt(t).value == Fields(Date(NatOf(t[0..4]), NatOf(t[5..7]), NatOf(t[8..10])),
                                        NatOf(t[11..13]), NatOf(t[14..16]), NatOf(t[17..19]))
  {
  }

  lemma StampTextOrder(a: string, b: string)
    requires IsStamp(a) && IsStamp(b)
    ensures Utf16.Before(a, b) <==> TimeBefore(FieldsAt(a).value, FieldsAt(b).value)
  {
    StampText(a);
    StampText(b);
    StepField(a, b, 0, 4);
    StepField(a, b, 5, 7);
    StepField(a, b, 8, 10);
    StepField(a, b, 11, 13);
    StepField(a, b, 14, 16);
    StepField(a, b, 17, 19);
    assert Cut(a, 0) == a && Cut(b, 0) == b && Cut(a, 20) == [] == Cut(b, 20);
    Utf16.BeforeStrict([], [], []);
  }

  /** On well-formed UTC stamps, string order is the order of the instants. */
  lemma StampOrder(a: string, b: string)
    requires IsStamp(a) && IsStamp(b)
    ensures Utf16.Before(a, b) <==> ParseMs(a).value < ParseMs(b).value
    ensures a == b <==> ParseMs(a) == ParseMs(b)
  {
    StampMs(a);
    StampMs(b);
    StampTextOrder(a, b);
    StampTextOrder(b, a);
    LocalMonotone(FieldsAt(a).value, FieldsAt(b).value);
    LocalMonotone(FieldsAt(b).value, FieldsAt(a).value);
    Utf16.BeforeTotal(a, b);
  }

  // ---------- UTC stamps with a fraction of a second ----------

  /** The digits after the point; none without one. */
  function FractionOf(t: string): string
    requires |t| >= 20
  {
    if t[19] == '.' && |t| > 20 then t[20..|t| - 1] else ""
  }

  function SecondOf(t: string): string
    requires |t| >= 20
  {
    t[..19] + "Z"
  }

  /** YYYY-MM-DDTHH:MM:SSZ with calendar fields, or the same with a fraction of a second. */
  predicate IsUtc(t: string) {
    |t| >= 20 && IsStamp(SecondOf(t)) &&
    (t == SecondOf(t) || (FractionOf(t) != "" && AllDigits(FractionOf(t)) &&
        t == t[..19] + ("." + FractionOf(t) + "Z")))
  }

  /** What follows the seconds. */
  function Tail(f: string): string { if f == "" then "Z" else "." + f + "Z" }

  lemma UtcText(t: string)
    requires IsUtc(t)
    ensures |t| >= 20
    ensures t == t[..19] + Tail(FractionOf(t)) && Ascii(t[..19]) && AllDigits(FractionOf(t))
  {
    StampAscii(SecondOf(t));
    assert SecondOf(t)[..19] == t[..19];
    if t == SecondOf(t) { assert t[19] == 'Z'; }
  }

  /** The i-th digit of a fraction, zero beyond its end. */
  function DigitOf(f: Digits, i: nat): nat { if i < |f| then DigitValue(f[i]) else 0 }

  lemma ThreeDigits(f: Digits)
    requires |f| == 3
    ensures NatOf(f) == 100 * DigitValue(f[0]) + 10 * DigitValue(f[1]) + DigitValue(f[2])
  {
    assert f[..2][..1] == f[..1] && f[..1][..0] == "";
    assert NatOf(f[..1]) == DigitValue(f[0]) && NatOf(f[..2]) == 10 * NatOf(f[..1]) + DigitValue(f[1]);
  }

  lemma MillisOf(f: Digits)
    ensures Millis(f) == 100 * DigitOf(f, 0) + 10 * DigitOf(f, 1) + DigitOf(f, 2) < 1000
  {
    hide NatOf;
    var full: Digits := if |f| >= 3 then f[..3] else f + Zeros(3 - |f|);
    ThreeDigits(full);
    assert forall i | 0 <= i < 3 :: DigitValue(full[i]) == DigitOf(f, i);
  }

  /** Milliseconds of a stamp: those of its second, and those of its fraction. */
  lemma UtcMs(t: string)
    requires IsUtc(t)
    ensures ParseMs(SecondOf(t)).Some? && ParseMs(SecondOf(t)).value % 1000 == 0
    ensures ParseMs(t) == Some(ParseMs(SecondOf(t)).value + Millis(FractionOf(t)))
  {
    hide NatOf, FieldsAt, LocalMs, IsStamp, Ascii;
    UtcText(t);
    var f := FractionOf(t);
    StampMs(SecondOf(t));
    WholeMs(FieldsAt(SecondOf(t)).value);
    MillisOf(f);
    SameFields(SecondOf(t), t);
    assert t[19..] == Tail(f);
    if f == "" {
      assert DigitOf(f, 0) == DigitOf(f, 1) == DigitOf(f, 2) == 0;
    } else {
      TakeDigitsExact(f, "Z");
      assert Tail(f)[1..] == f + "Z";
    }
  }

  lemma WholeMs(f: Fields)
    ensures LocalMs(f) % 1000 == 0
  {
  }

  lemma SameFields(t: string, u: string)
    requires |t| >= 20 && |u| >= 20 && t[..19] == u[..19]
    ensures FieldsAt(t) == FieldsAt(u)
  {
    assert forall a: nat, z: nat | a <= z <= 19 :: t[a..z] == t[..19][a..z] == u[a..z];
    assert forall i | 0 <= i < 19 :: t[i] == t[..19][i] == u[i];
  }

  /** Where two ASCII texts first differ decides which comes first. */
  lemma FirstDifference(x: string, y: string, k: nat)
    requires Ascii(x) && Ascii(y) && k < |x| && k < |y| && x[..k] == y[..k] && x[k] != y[k]
    ensures Utf16.Before(x, y) <==> x[k] < y[k]
  {
    UnitsAscii(x);
    UnitsAscii(y);
    assert Utf16.Units(x)[..k] == Utf16.Units(y)[..k] by {
      assert forall i | 0 <= i < k :: x[i] == x[..k][i] == y[..k][i] == y[i];
    }
    DecideAt(Utf16.Units(x), Utf16.Units(y), k);
  }

  /** String order and time order agree on the two stamps. */
  predicate OrdersAgree(a: string, b: string)
    requires ParseMs(a).Some? && ParseMs(b).Some?
  {
    (Utf16.Before(a, b) <==> ParseMs(a).value < ParseMs(b).value) &&
    (Utf16.Before(b, a) <==> ParseMs(b).value < ParseMs(a).value)
  }

  /** Two fractions differ at one of the first three digits, which both have. */
  predicate FractionsApart(f: string, g: string) { exists k: nat :: k < 3 && k < |f| && k < |g| && f[k] != g[k] }

  /** The stamps are of different seconds, have one fraction, or fractions that differ in milliseconds both spell. */
  predicate Comparable(a: string, b: string)
    requires |a| >= 20 && |b| >= 20
  {
    a[..19] != b[..19] || FractionOf(a) == FractionOf(b) || FractionsApart(FractionOf(a), FractionOf(b))
  }

  /** Texts that begin with different seconds are ordered by them. */
  lemma SecondsFirst(a: string, b: string)
    requires IsUtc(a) && IsUtc(b) && a[..19] != b[..19]
    ensures Utf16.Before(a, b) <==> Utf16.Before(SecondOf(a), SecondOf(b))
  {
    hide IsUtc, IsStamp, Utf16.Before, Ascii;
    UtcText(a);
    UtcText(b);
    BeforeBlock(a[..19], b[..19], Tail(FractionOf(a)), Tail(FractionOf(b)));
    BeforeBlock(a[..19], b[..19], "Z", "Z");
  }

  /** Whole seconds decide, whatever milliseconds are added. */
  lemma WholeSeconds(x: int, y: int, m: nat, n: nat)
    requires x % 1000 == 0 && y % 1000 == 0 && m < 1000 && n < 1000 && x != y
    ensures x + m < y + n <==> x < y
  {
  }

  lemma SecondsApart(a: string, b: string)
    requires IsUtc(a) && IsUtc(b) && a[..19] != b[..19]
    ensures ParseMs(SecondOf(a)).Some? && ParseMs(SecondOf(b)).Some?
    ensures ParseMs(SecondOf(a)).value != ParseMs(SecondOf(b)).value
    ensures Utf16.Before(a, b) <==> ParseMs(SecondOf(a)).value < ParseMs(SecondOf(b)).value
  {
    hide IsUtc, IsStamp, ParseMs, Utf16.Before, SecondOf;
    UtcText(a);
    UtcText(b);
    UtcStamp(a);
    UtcStamp(b);
    UtcMs(a);
    UtcMs(b);
    SecondsFirst(a, b);
    SecondsDiffer(a, b);
    StampOrder(SecondOf(a), SecondOf(b));
  }

  lemma SecondsDecide(a: string, b: string)
    requires IsUtc(a) && IsUtc(b) && a[..19] != b[..19] && ParseMs(a).Some? && ParseMs(b).Some?
    ensures OrdersAgree(a, b)
  {
    hide IsUtc, ParseMs, Utf16.Before, Millis, FractionOf, SecondOf;
    UtcText(a);
    UtcText(b);
    UtcMs(a);
    UtcMs(b);
    MillisOf(FractionOf(a));
    MillisOf(FractionOf(b));
    SecondsApart(a, b);
    SecondsApart(b, a);
    WholeSeconds(ParseMs(SecondOf(a)).value, ParseMs(SecondOf(b)).value, Millis(FractionOf(a)), Millis(FractionOf(b)));
    WholeSeconds(ParseMs(SecondOf(b)).value, ParseMs(SecondOf(a)).value, Millis(FractionOf(b)), Millis(FractionOf(a)));
  }

  lemma SecondsDiffer(a: string, b: string)
    requires |a| >= 20 && |b| >= 20 && a[..19] != b[..19]
    ensures SecondOf(a) != SecondOf(b)
  {
    assert SecondOf(a)[..19] == a[..19] && SecondOf(b)[..19] == b[..19];
  }

  lemma UtcStamp(t: string)
    requires IsUtc(t)
    ensures IsStamp(SecondOf(t))
  {
  }

  lemma TailAscii(f: Digits)
    ensures Ascii(Tail(f))
  {
  }

  /** A fraction that another one continues sorts after it, yet is not later. */
  lemma PrefixSortsLate(f: Digits, g: Digits)
    requires f < g
    ensures Utf16.Before(Tail(g), Tail(f)) && Millis(f) <= Millis(g) && !FractionsApart(f, g)
  {
    hide Utf16.Before, Millis;
    TailAscii(f);
    TailAscii(g);
    MillisOf(f);
    MillisOf(g);
    assert forall i | 0 <= i < |f| :: f[i] == g[i];
    if f == "" {
      FirstDifference(Tail(g), Tail(f), 0);
    } else {
      assert Tail(f)[..|f| + 1] == "." + f == Tail(g)[..|f| + 1];
      FirstDifference(Tail(g), Tail(f), |f| + 1);
    }
  }

  /** Fractions that first differ at a digit are ordered by it as text, and as time if it counts for milliseconds. */
  lemma DifferenceDecides(f: Digits, g: Digits, k: nat)
    requires k < |f| && k < |g| && f[..k] == g[..k] && f[k] != g[k]
    ensures Utf16.Before(Tail(f), Tail(g)) <==> f[k] < g[k]
    ensures k < 3 ==> (Millis(f) < Millis(g) <==> f[k] < g[k])
    ensures k >= 3 ==> Millis(f) == Millis(g)
    ensures k < 3 <==> FractionsApart(f, g)
  {
    hide Utf16.Before, Millis;
    TailAscii(f);
    TailAscii(g);
    MillisOf(f);
    MillisOf(g);
    assert forall i | 0 <= i < k :: f[i] == f[..k][i] == g[..k][i] == g[i];
    assert Tail(f)[..k + 1] == "." + f[..k] && Tail(g)[..k + 1] == "." + g[..k];
    FirstDifference(Tail(f), Tail(g), k + 1);
  }

  lemma {:induction false} FirstIndex(f: string, g: string) returns (k: nat)
    requires f != g && !(f < g) && !(g < f)
    ensures k < |f| && k < |g| && f[..k] == g[..k] && f[k] != g[k]
  {
    if f[0] != g[0] {
      k := 0;
    } else {
      assert f == [f[0]] + f[1..] && g == [g[0]] + g[1..];
      var j := FirstIndex(f[1..], g[1..]);
      k := j + 1;
      assert f[..k] == [f[0]] + f[1..][..j] && g[..k] == [g[0]] + g[1..][..j];
    }
  }

  /** Within one second the tails decide. */
  lemma TailsDecide(a: string, b: string)
    requires IsUtc(a) && IsUtc(b) && a[..19] == b[..19]
    ensures Utf16.Before(a, b) <==> Utf16.Before(Tail(FractionOf(a)), Tail(FractionOf(b)))
    ensures ParseMs(a).Some? && ParseMs(b).Some?
    ensures ParseMs(a).value < ParseMs(b).value <==> Millis(FractionOf(a)) < Millis(FractionOf(b))
  {
    hide IsUtc, ParseMs, Utf16.Before, Millis, Ascii;
    UtcText(a);
    UtcText(b);
    UtcMs(a);
    UtcMs(b);
    BeforeBlock(a[..19], b[..19], Tail(FractionOf(a)), Tail(FractionOf(b)));
    Utf16.BeforeStrict(a[..19], a[..19], a[..19]);
  }

  /** Two different tails, and the milliseconds of their fractions. */
  lemma TailOrder(f: Digits, g: Digits)
    requires f != g
    ensures FractionsApart(f, g) <==>
            ((Utf16.Before(Tail(f), Tail(g)) <==> Millis(f) < Millis(g)) &&
             (Utf16.Before(Tail(g), Tail(f)) <==> Millis(g) < Millis(f)))
    ensures |f| == |g| && Millis(f) < Millis(g) ==> Utf16.Before(Tail(f), Tail(g))
  {
    hide Utf16.Before, Millis, Tail, FractionsApart;
    if f < g {
      PrefixSortsLate(f, g);
    } else if g < f {
      PrefixSortsLate(g, f);
      ApartSymmetric(f, g);
    } else {
      var k := FirstIndex(f, g);
      DifferenceDecides(f, g, k);
      DifferenceDecides(g, f, k);
    }
  }

  lemma ApartSymmetric(f: string, g: string)
    ensures FractionsApart(f, g) <==> FractionsApart(g, f)
  {
  }

  /**
   String order is time order, in milliseconds, on two UTC stamps exactly when they are of different
   seconds, have the same fraction, or have fractions that differ at one of the first three digits.
   A fraction that the other continues, as none is by any, is not enough; nor is a later digit.
   */
  lemma UtcOrderIff(a: string, b: string)
    requires IsUtc(a) && IsUtc(b)
    ensures ParseMs(a).Some? && ParseMs(b).Some?
    ensures OrdersAgree(a, b) <==> Comparable(a, b)
  {
    hide IsUtc, ParseMs, Utf16.Before, Millis, Tail, FractionsApart;
    UtcText(a);
    UtcText(b);
    UtcMs(a);
    UtcMs(b);
    if a[..19] != b[..19] {
      SecondsDecide(a, b);
    } else {
      var f, g := FractionOf(a), FractionOf(b);
      TailsDecide(a, b);
      TailsDecide(b, a);
      if f == g { Utf16.BeforeStrict(Tail(f), Tail(f), Tail(f)); } else { TailOrder(f, g); }
    }
  }

  /**
   Among stamps of one width an earlier instant always sorts first; up to milliseconds, as in the
   stamps the gate writes, string order is time order.
   */
  lemma WidthOrder(a: string, b: string)
    requires IsUtc(a) && IsUtc(b) && |a| == |b|
    ensures ParseMs(a).Some? && ParseMs(b).Some?
    ensures ParseMs(a).value < ParseMs(b).value ==> Utf16.Before(a, b)
    ensures |a| <= 24 ==> Comparable(a, b) && OrdersAgree(a, b) && (a == b <==> ParseMs(a) == ParseMs(b))
  {
    hide IsUtc, ParseMs, Utf16.Before, Millis, FractionsApart;
    UtcText(a);
    UtcText(b);
    var f, g := FractionOf(a), FractionOf(b);
    assert |f| == |g| && (|a| <= 24 ==> |f| <= 3) by { TailWidth(a); TailWidth(b); }
    UtcOrderIff(a, b);
    Utf16.BeforeTotal(a, b);
    if a[..19] == b[..19] && f != g {
      TailsDecide(a, b);
      TailOrder(f, g);
      if |f| <= 3 { ShortApart(f, g); }
    }
  }

  lemma TailWidth(t: string)
    requires IsUtc(t)
    ensures |FractionOf(t)| == if |t| == 20 then 0 else |t| - 21
  {
    UtcText(t);
  }

  lemma ShortApart(f: string, g: string)
    requires |f| == |g| <= 3 && f != g
    ensures FractionsApart(f, g)
  {
    var k := FirstIndex(f, g);
  }

  // ---------- offsets ----------

  lemma NothingAfter(r: string, end: string)
    requires r != "" && (end == "Z" || |end| == 6)
    ensures OffsetAt(r + end).None?
  {
    if end == "Z" && |r| == 5 { assert (r + end)[4..6][1] == 'Z'; }
  }

  lemma FractionBefore(x: string, end: string)
    requires end != "" && !IsDigit(end[0]) && end[0] != '.'
    ensures FractionAt(x + end) ==
            match FractionAt(x)
            case None => None
            case Some((ms, rest)) => Some((ms, rest + end))
  {
    if StartsWith(x, '.') {
      assert (x + end)[1..] == x[1..] + end;
      DigitsBefore(x[1..], end);
    }
  }

  lemma DigitsBefore(x: string, end: string)
    requires end != "" && !IsDigit(end[0])
    ensures TakeDigits(x + end) == (TakeDigits(x).0, TakeDigits(x).1 + end)
  {
    var (d, rest) := TakeDigits(x);
    assert x + end == d + (rest + end);
    TakeDigitsExact(d, rest + end);
  }

  /** The designator +hh:mm, or -hh:mm. */
  function OffsetText(east: bool, hh: Digits, mm: Digits): string { (if east then "+" else "-") + hh + ":" + mm }

  /** A clock ahead of UTC shows an instant that is earlier by the offset, one behind UTC a later one. */
  lemma OffsetShifts(local: string, east: bool, hh: Digits, mm: Digits)
    requires |local| >= 19 && |hh| == 2 && |mm| == 2 && NatOf(hh) <= 23 && NatOf(mm) <= 59
    ensures ParseMs(local + OffsetText(east, hh, mm)) ==
            match ParseMs(local + "Z")
            case None => None
            case Some(ms) => Some(ms - (if east then 1 else -1) * (60 * NatOf(hh) + NatOf(mm)) * 60000)
  {
    hide NatOf, FractionAt, FieldsAt, LocalMs;
    var end := OffsetText(east, hh, mm);
    var t, u := local + "Z", local + end;
    assert t[..19] == local[..19] == u[..19];
    SameFields(t, u);
    assert t[19..] == local[19..] + "Z" && u[19..] == local[19..] + end;
    FractionBefore(local[19..], "Z");
    FractionBefore(local[19..], end);
    if FractionAt(local[19..]).Some? {
      var rest := FractionAt(local[19..]).value.1;
      if rest == "" {
        assert rest + "Z" == "Z" && rest + end == end;
        assert end[1..3] == hh && end[4..6] == mm;
      } else {
        NothingAfter(rest, "Z");
        NothingAfter(rest, end);
      }
    }
  }

  // ---------- and where it is not ----------

  /** A half second later, yet sorted before: '.' precedes 'Z'. */
  lemma FractionSortsEarly(t: string)
    requires IsStamp(t)
    ensures var later := t[..19] + ".5Z";
      Utf16.Before(later, t) && ParseMs(later) == Some(ParseMs(t).value + 500)
  {
    var whole := t[..19];
    assert t == whole + "Z";
    assert forall i | 0 <= i < 19 :: whole[i] == t[i];
    StampAscii(t);
    StampMs(t);
    FractionStamp(whole);
    BeforeBlock(whole, whole, ".5Z", "Z");
    PointBeforeZ();
  }

  lemma StampAscii(t: string)
    requires IsStamp(t)
    ensures Ascii(t[..19])
  {
    StampText(t);
    assert t[..19] == t[0..4] + "-" + t[5..7] + "-" + t[8..10] + "T" + t[11..13] + ":" + t[14..16] + ":" + t[17..19];
  }

  lemma PointBeforeZ()
    ensures Utf16.Before(".5Z", "Z")
  {
    UnitsAscii(".5Z");
    UnitsAscii("Z");
    assert Utf16.Units(".5Z")[0] == '.' as int && Utf16.Units("Z")[0] == 'Z' as int;
  }

  lemma FractionStamp(whole: string)
    requires |whole| == 19 && FieldsAt(whole + "Z").Some?
    ensures ParseMs(whole + "Z").Some?
    ensures ParseMs(whole + ".5Z") == Some(ParseMs(whole + "Z").value + 500)
  {
    var t, u := whole + "Z", whole + ".5Z";
    assert forall a: nat, z: nat | a <= z <= 19 :: t[a..z] == whole[a..z] == u[a..z];
    assert FieldsAt(u) == FieldsAt(t);
    assert t[19..] == "Z" && u[19..] == ".5Z";
    TakeDigitsExact("5", "Z");
    assert u[19..][1..] == "5" + "Z";
    assert "5" + Zeros(2) == "500";
    assert NatOf("500") == 500 by { assert "500"[..2] == "50" && "50"[..1] == "5" && "5"[..0] == ""; }
  }
}
