/**
 Which evidence a measure takes, told from the evidence itself.

 A receipt qualifies by its witnesses, its device, its code and its instant; the measure takes, of all
 that qualify, one that none comes after in the order of stamp, lamport clock, identity and cid.  With
 a clock that reads stamps as RFC 3339 does, the window means start at the earliest, before the end,
 and no older than the maximal age.
 */
module SelectionLaws {
  import opened Outcomes
  import opened Kernel
  import D = Decimals
  import KernelLaws
  import Timestamps
  import Utf16

  // ---------- what qualifies ----------

  /** One of the listed texts, or part of the given one; nothing is asked by an empty list or text. */
  ghost predicate Fits(choice: Choice, v: Option<string>) {
    match choice
    case OneOf(entries) => entries == [] || exists i | 0 <= i < |entries| :: v.Some? && entries[i] == v
    case PartOf(text) => text == "" || exists a, b :: text == a + v.GetOr("undefined") + b
  }

  /** Not before the start, before the end, not too old; a text that is no date excludes nothing. */
  predicate InTime(rt: Runtime, w: Window, now: string, ts: string) {
    var t, start, end := rt.parseDate(ts), rt.parseDate(w.start), rt.parseDate(w.end);
    (w.start != "" && t.Some? && start.Some? ==> start.value <= t.value) &&
    (w.end != "" && t.Some? && end.Some? ==> t.value < end.value) &&
    (w.maxAge != "" && t.Some? && rt.parseDate(now).Some? && DurationMs(w.maxAge).Some? ==>
       (rt.parseDate(now).value - t.value) as real <= DurationMs(w.maxAge).value)
  }

  ghost predicate Qualified(spec: MeasureSpec, t: Tim) {
    (spec.require.minWitnesses.Some? ==> t.witnesses as real >= D.ValueOf(spec.require.minWitnesses.value)) &&
    Fits(spec.require.deviceClass, t.device) && Fits(spec.require.code, t.code)
  }

  ghost predicate Qualifies(rt: Runtime, spec: MeasureSpec, now: string, t: Tim) {
    Qualified(spec, t) && (spec.window.Some? ==> InTime(rt, spec.window.value, now, t.ts))
  }

  lemma IncludesIff(s: string, part: string)
    ensures Includes(s, part) <==> exists a, b :: s == a + part + b
  {
    if Includes(s, part) {
      var i :| 0 <= i <= |s| && part <= s[i..];
      assert s == s[..i] + part + s[i..][|part|..];
    }
    if exists a, b :: s == a + part + b {
      var a, b :| s == a + part + b;
      assert s[|a|..] == part + b && part <= s[|a|..];
    }
  }

  lemma AllowsIff(choice: Choice, v: Option<string>)
    ensures Allows(choice, v) <==> Fits(choice, v)
  {
    hide Includes;
    match choice
    case OneOf(_) =>
    case PartOf(text) => IncludesIff(text, v.GetOr("undefined"));
  }

  lemma WindowIff(rt: Runtime, w: Window, now: string, ts: string)
    ensures WithinWindow(rt, ts, w, now) <==> InTime(rt, w, now, ts)
  {
    hide DurationMs;
  }

  lemma MeetsIff(rt: Runtime, spec: MeasureSpec, now: string, t: Tim)
    ensures Meets(rt, spec, now, t) <==> Qualifies(rt, spec, now, t)
  {
    hide WithinWindow, InTime, Allows, Fits, D.ValueOf;
    AllowsIff(spec.require.deviceClass, t.device);
    AllowsIff(spec.require.code, t.code);
    if spec.window.Some? { WindowIff(rt, spec.window.value, now, t.ts); }
    assert Meets(rt, spec, now, t) <==>
           Passes(rt, spec, now, t, 0) && Passes(rt, spec, now, t, 1) && Passes(rt, spec, now, t, 2) &&
           Passes(rt, spec, now, t, 3);
  }

  // ---------- what comes last ----------

  /** Later by stamp, then by lamport clock, then by identity, then by cid. */
  predicate After(a: Tim, b: Tim) {
    var m, n := D.ValueOf(a.lamport), D.ValueOf(b.lamport);
    Utf16.Before(b.ts, a.ts) ||
    (a.ts == b.ts && m > n) ||
    (a.ts == b.ts && m == n && Utf16.Before(b.identity, a.identity)) ||
    (a.ts == b.ts && m == n && a.identity == b.identity && Utf16.Before(b.cid, a.cid))
  }

  lemma AfterIff(a: Tim, b: Tim)
    ensures NotaryBefore(b, a) <==> After(a, b)
  {
    hide Utf16.Before, D.ValueOf;
    Utf16.BeforeStrict(a.ts, a.ts, a.ts);
    Utf16.BeforeStrict(a.identity, a.identity, a.identity);
  }

  /** There is evidence exactly when some receipt qualifies; it qualifies, and no other that does comes after it. */
  lemma SelectionIs(rt: Runtime, spec: MeasureSpec, tims: seq<Tim>, now: string)
    ensures Select(rt, spec, tims, now).Some? <==> exists t | t in tims :: Qualifies(rt, spec, now, t)
    ensures Select(rt, spec, tims, now).Some? ==>
      var t := Select(rt, spec, tims, now).value;
      t in tims && Qualifies(rt, spec, now, t) && forall u | u in tims && Qualifies(rt, spec, now, u) :: !After(u, t)
  {
    hide Select, Meets, Qualifies, NotaryBefore, After;
    KernelLaws.SelectIsLatest(rt, spec, tims, now);
    forall t: Tim
      ensures Meets(rt, spec, now, t) <==> Qualifies(rt, spec, now, t)
    {
      MeetsIff(rt, spec, now, t);
    }
    forall t: Tim, u: Tim
      ensures NotaryBefore(t, u) <==> After(u, t)
    {
      AfterIff(u, t);
    }
  }

  // ---------- the window, on instants ----------

  /** The clock reads this stamp as RFC 3339 does. */
  predicate Reads(rt: Runtime, text: string) {
    Timestamps.ParseMs(text).Some? && rt.parseDate(text) == Timestamps.ParseMs(text)
  }

  function Instant(text: string): int { Timestamps.ParseMs(text).GetOr(0) }

  /** The clock reads every text the window needs, and the maximal age is a duration. */
  predicate ReadsWindow(rt: Runtime, w: Window, now: string) {
    (w.start != "" ==> Reads(rt, w.start)) && (w.end != "" ==> Reads(rt, w.end)) &&
    (w.maxAge != "" ==> Reads(rt, now) && DurationMs(w.maxAge).Some?)
  }

  /** From the start on, before the end, and at most the maximal age before now, in milliseconds. */
  predicate Inside(w: Window, now: string, ts: string) {
    (w.start != "" ==> Instant(w.start) <= Instant(ts)) && (w.end != "" ==> Instant(ts) < Instant(w.end)) &&
    (w.maxAge != "" ==>
       DurationMs(w.maxAge).Some? && (Instant(now) - Instant(ts)) as real <= DurationMs(w.maxAge).value)
  }

  /** Evidence is found exactly when some of it is qualified and inside the window, and what is found is. */
  lemma WindowOnInstants(rt: Runtime, spec: MeasureSpec, tims: seq<Tim>, now: string)
    requires spec.window.Some? && ReadsWindow(rt, spec.window.value, now) && forall t | t in tims :: Reads(rt, t.ts)
    ensures Select(rt, spec, tims, now).Some? <==>
            exists t | t in tims :: Qualified(spec, t) && Inside(spec.window.value, now, t.ts)
    ensures Select(rt, spec, tims, now).Some? ==>
      var t := Select(rt, spec, tims, now).value;
      t in tims && Qualified(spec, t) && Inside(spec.window.value, now, t.ts)
  {
    hide Select, Qualified, After, DurationMs, Timestamps.ParseMs;
    SelectionIs(rt, spec, tims, now);
    forall t | t in tims
      ensures InTime(rt, spec.window.value, now, t.ts) <==> Inside(spec.window.value, now, t.ts)
    {
    }
  }

  // ---------- durations ----------

  /** A number with its letter, or nothing. */
  function Part(d: D.Digits, mark: char): string { if d == [] then "" else d + [mark] }

  /** Seconds with a fraction or without. */
  function SecondsText(s: D.Digits, f: D.Digits): string {
    if s == [] then "" else if f == [] then s + "S" else s + "." + f + "S"
  }

  function TimeText(h: D.Digits, m: D.Digits, s: D.Digits, f: D.Digits): string {
    "T" + Part(h, 'H') + Part(m, 'M') + SecondsText(s, f)
  }

  /** What stands before a letter this component does not have. */
  predicate Stops(t: string, mark: char) { !D.StartsWith(D.TakeDigits(t).1, mark) }

  lemma ComponentReads(d: D.Digits, mark: char, rest: string)
    requires !D.IsDigit(mark) && Stops(rest, mark)
    ensures Component(Part(d, mark) + rest, mark) == (d, rest)
  {
    if d == [] {
      assert Part(d, mark) + rest == rest;
    } else {
      D.TakeDigitsExact(d, [mark] + rest);
      assert Part(d, mark) + rest == d + ([mark] + rest);
    }
  }

  lemma DigitsThen(d: D.Digits, mark: char, rest: string)
    requires !D.IsDigit(mark) && d != []
    ensures D.TakeDigits(d + [mark] + rest) == (d, [mark] + rest)
  {
    D.TakeDigitsExact(d, [mark] + rest);
    assert d + [mark] + rest == d + ([mark] + rest);
  }

  lemma SecondsStop(s: D.Digits, f: D.Digits, mark: char)
    requires mark == 'H' || mark == 'M'
    ensures Stops(SecondsText(s, f), mark)
  {
    if s != [] {
      if f == [] {
        DigitsThen(s, 'S', "");
        assert s + "S" + "" == s + "S";
      } else {
        DigitsThen(s, '.', f + "S");
        assert s + "." + f + "S" == s + "." + (f + "S");
      }
    }
  }

  lemma MinutesStop(m: D.Digits, s: D.Digits, f: D.Digits)
    ensures Stops(Part(m, 'M') + SecondsText(s, f), 'H')
  {
    if m == [] {
      assert Part(m, 'M') + SecondsText(s, f) == SecondsText(s, f);
      SecondsStop(s, f, 'H');
    } else {
      DigitsThen(m, 'M', SecondsText(s, f));
      assert Part(m, 'M') + SecondsText(s, f) == m + "M" + SecondsText(s, f);
    }
  }

  lemma WholeIs(s: D.Digits)
    ensures D.Scaled(s, 0) == D.NatOf(s) as real
  {
    assert D.Shift(D.NatOf(s) as real, 0) == D.NatOf(s) as real;
  }

  lemma SecondsRead(s: D.Digits, f: D.Digits)
    requires s == [] ==> f == []
    ensures Seconds(SecondsText(s, f)) == (D.Scaled(s + f, -|f|), "")
  {
    hide D.TakeDigits, D.Scaled, D.NatOf;
    if s == [] {
      assert s + f == [] && [] + "" == "";
      D.TakeDigitsExact([], "");
      D.ScaledEmpty(0);
    } else if f == [] {
      DigitsThen(s, 'S', "");
      assert s + "S" + "" == s + "S" && s + f == s;
      WholeIs(s);
    } else {
      DigitsThen(s, '.', f + "S");
      assert s + "." + f + "S" == s + "." + (f + "S");
      DigitsThen(f, 'S', "");
      assert f + "S" + "" == f + "S" && ("." + (f + "S"))[1..] == f + "S";
    }
  }

  /** The seconds of days, hours, minutes and seconds with a fraction. */
  function TotalSeconds(d: D.Digits, h: D.Digits, m: D.Digits, s: D.Digits, f: D.Digits): real {
    (D.NatOf(d) * 86400 + D.NatOf(h) * 3600 + D.NatOf(m) * 60) as real + D.Scaled(s + f, -|f|)
  }

  /** The time part of a duration, component by component. */
  lemma TimeReads(h: D.Digits, m: D.Digits, s: D.Digits, f: D.Digits)
    requires s == [] ==> f == []
    ensures var seconds := SecondsText(s, f);
      var minutes := Part(m, 'M') + seconds;
      Component(Part(h, 'H') + minutes, 'H') == (h, minutes) && Component(minutes, 'M') == (m, seconds) &&
      Seconds(seconds) == (D.Scaled(s + f, -|f|), "")
  {
    hide Component, Seconds, D.Scaled, D.TakeDigits, SecondsText;
    MinutesStop(m, s, f);
    ComponentReads(h, 'H', Part(m, 'M') + SecondsText(s, f));
    SecondsStop(s, f, 'M');
    ComponentReads(m, 'M', SecondsText(s, f));
    SecondsRead(s, f);
  }

  lemma DaysRead(d: D.Digits, rest: string)
    requires rest == "" || rest[0] == 'T'
    ensures Component(("P" + Part(d, 'D') + rest)[1..], 'D') == (d, rest)
  {
    hide Component;
    assert ("P" + Part(d, 'D') + rest)[1..] == Part(d, 'D') + rest;
    DateStops(rest);
    ComponentReads(d, 'D', rest);
  }

  /** PnDTnHnMn.nS is its days, hours, minutes and seconds in milliseconds, whichever of them it has. */
  lemma DurationIs(d: D.Digits, h: D.Digits, m: D.Digits, s: D.Digits, f: D.Digits)
    requires s == [] ==> f == []
    ensures DurationMs("P" + Part(d, 'D') + TimeText(h, m, s, f)) == Some(TotalSeconds(d, h, m, s, f) * 1000.0)
    ensures DurationMs("P" + Part(d, 'D')) == Some(D.NatOf(d) as real * 86400000.0)
  {
    hide D.Scaled, Seconds, D.NatOf, Component, D.TakeDigits, Part, SecondsText;
    var hours := Part(h, 'H') + (Part(m, 'M') + SecondsText(s, f));
    DaysRead(d, "T" + hours);
    assert TimeText(h, m, s, f) == "T" + hours && ("T" + hours)[1..] == hours;
    TimeReads(h, m, s, f);
    DaysRead(d, "");
    assert "P" + Part(d, 'D') + "" == "P" + Part(d, 'D');
  }

  lemma DateStops(rest: string)
    requires rest == "" || rest[0] == 'T'
    ensures Stops(rest, 'D')
  {
    D.TakeDigitsExact([], rest);
    assert [] + rest == rest;
  }
}
