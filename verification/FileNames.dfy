/**
 The names of a call's files: which call and which artifact they stand for.

 A name is a padded sequence number, a dash and a kind.  Padding stops helping at the hundred
 thousandth call, where numbers grow longer, so nothing here relies on a fixed width: the text before
 the first dash always reads back as the number, whatever its length.  The tests the verifier makes
 on a name, a part it includes or an ending it has, tell the three kinds apart.
 */
module FileNames {
  import opened Gate
  import opened Replay
  import D = Decimals
  import Kernel
  import Json

  // ---------- sequence numbers ----------

  predicate DashFree(s: string) { forall i | 0 <= i < |s| :: s[i] != '-' }

  lemma {:induction false} PadKeeps(s: D.Digits, n: nat)
    ensures D.AllDigits(PadTo(s, n)) && D.NatOf(PadTo(s, n)) == D.NatOf(s)
    decreases n - |s|
  {
    if |s| < n {
      var t: D.Digits := "0" + s;
      D.DropLeadingZero(t);
      assert t[1..] == s;
      PadKeeps(t, n);
    }
  }

  lemma SeqNoReads(n: nat)
    ensures D.AllDigits(SeqNo(n)) && D.NatOf(SeqNo(n)) == n && DashFree(SeqNo(n))
  {
    PadKeeps(D.Itoa(n), 5);
  }

  lemma SeqNoInjective(m: nat, n: nat)
    requires SeqNo(m) == SeqNo(n)
    ensures m == n
  {
    SeqNoReads(m);
    SeqNoReads(n);
  }

  lemma TimKindInjective(i: nat, j: nat)
    requires TimKind(i) == TimKind(j)
    ensures i == j
  {
    assert TimKind(i)[4..] == D.Itoa(i) && TimKind(j)[4..] == D.Itoa(j);
    assert D.NatOf(D.Itoa(i)) == i && D.NatOf(D.Itoa(j)) == j;
  }

  // ---------- prefixes ----------

  lemma {:induction false} PrefixStops(d: string, rest: string)
    requires DashFree(d)
    ensures Prefix(d + "-" + rest) == d
  {
    var s := d + "-" + rest;
    if d != "" {
      assert d[0] != '-' && DashFree(d[1..]);
      assert s[1..] == d[1..] + "-" + rest && s[0] == d[0];
      PrefixStops(d[1..], rest);
      assert [d[0]] + d[1..] == d;
    } else {
      assert s == "-" + rest;
    }
  }

  lemma NamePrefix(n: nat, kind: string)
    ensures Prefix(FileName(SeqNo(n), kind)) == SeqNo(n)
  {
    SeqNoReads(n);
    assert FileName(SeqNo(n), kind) == SeqNo(n) + "-" + (kind + ".json");
    PrefixStops(SeqNo(n), kind + ".json");
  }

  lemma NameInjective(m: nat, kind: string, n: nat, other: string)
    requires FileName(SeqNo(m), kind) == FileName(SeqNo(n), other)
    ensures m == n && kind == other
  {
    NamePrefix(m, kind);
    NamePrefix(n, other);
    SeqNoInjective(m, n);
    var d, a, b := SeqNo(m) + "-", kind + ".json", other + ".json";
    assert FileName(SeqNo(m), kind) == d + a && FileName(SeqNo(n), other) == d + b;
    assert (d + a)[|d|..] == a && (d + b)[|d|..] == b;
    assert a[..|a| - 5] == kind && b[..|b| - 5] == other;
  }

  // ---------- kinds ----------

  datatype Kind = TimFile(i: nat) | DecisionFile | XrFile

  function KindText(k: Kind): string {
    match k
    case TimFile(i) => TimKind(i)
    case DecisionFile => "decision"
    case XrFile => "xr"
  }

  lemma KindInjective(j: Kind, k: Kind)
    requires KindText(j) == KindText(k)
    ensures j == k
  {
    hide D.Itoa;
    if j.TimFile? && k.TimFile? { TimKindInjective(j.i, k.i); }
    if j.TimFile? { assert TimKind(j.i)[0] == 't' && TimKind(j.i)[1] == 'i'; }
    if k.TimFile? { assert TimKind(k.i)[0] == 't' && TimKind(k.i)[1] == 'i'; }
  }

  lemma KindNameInjective(m: nat, j: Kind, n: nat, k: Kind)
    requires FileName(SeqNo(m), KindText(j)) == FileName(SeqNo(n), KindText(k))
    ensures m == n && j == k
  {
    hide KindText, FileName, SeqNo;
    NameInjective(m, KindText(j), n, KindText(k));
    KindInjective(j, k);
  }

  /** A name of a digits-only call number, a dash, and a text starting with no dash and holding at most one. */
  lemma OneDash(d: string, rest: string, part: string, i: nat)
    requires DashFree(d) && DashFree(rest) && i <= |d + "-" + rest| && part != "" && part[0] == '-'
    requires part <= (d + "-" + rest)[i..]
    ensures i == |d|
  {
    var s := d + "-" + rest;
    assert forall j | 0 <= j < |d| :: s[j] == d[j];
    assert forall j | |d| < j < |s| :: s[j] == rest[j - |d| - 1];
    assert s[i] == s[i..][0] == part[0];
  }

  lemma TimName(n: nat, i: nat)
    ensures Kernel.Includes(FileName(SeqNo(n), TimKind(i)), "-tim-")
  {
    var d, s := SeqNo(n), FileName(SeqNo(n), TimKind(i));
    assert s == d + "-tim-" + D.Itoa(i) + ".json";
    assert s[|d|..] == "-tim-" + D.Itoa(i) + ".json";
    assert "-tim-" <= s[|d|..];
  }

  lemma SecondChar(s: string, i: nat)
    requires i <= |s| && "-tim-" <= s[i..]
    ensures i + 1 < |s| && s[i + 1] == 't'
  {
    assert "-tim-"[1] == s[i..][1];
  }

  lemma NotTimName(n: nat, kind: string)
    requires kind == "decision" || kind == "xr"
    ensures !Kernel.Includes(FileName(SeqNo(n), kind), "-tim-")
  {
    SeqNoReads(n);
    var d, rest := SeqNo(n), kind + ".json";
    var s := FileName(d, kind);
    assert s == d + "-" + rest;
    assert s[|d| + 1] == rest[0] == kind[0];
    forall i: nat | i <= |s|
      ensures !("-tim-" <= s[i..])
    {
      if "-tim-" <= s[i..] {
        SecondChar(s, i);
        OneDash(d, rest, "-tim-", i);
        assert false;
      }
    }
  }

  /** The character before the extension tells the kinds apart. */
  function BeforeExtension(s: string): char { if |s| < 6 then ' ' else s[|s| - 6] }

  lemma LastOfKind(n: nat, k: Kind)
    ensures var s := FileName(SeqNo(n), KindText(k));
      |s| >= 6 && (match k
                   case TimFile(_) => D.IsDigit(BeforeExtension(s))
                   case DecisionFile => BeforeExtension(s) == 'n'
                   case XrFile => BeforeExtension(s) == 'r')
  {
    var t := KindText(k);
    var s := FileName(SeqNo(n), t);
    assert s == SeqNo(n) + "-" + t + ".json";
    assert t != "" && s[|s| - 6] == t[|t| - 1];
    if k.TimFile? {
      var digits := D.Itoa(k.i);
      assert t[|t| - 1] == digits[|digits| - 1];
    }
  }

  lemma SuffixChar(s: string, end: string)
    requires EndsWith(s, end) && |end| >= 6
    ensures BeforeExtension(s) == BeforeExtension(end)
  {
    assert s[|s| - 6] == s[|s| - |end|..][|end| - 6];
  }

  /** Each kind is recognized by its own test and by no other. */
  lemma Recognized(n: nat, k: Kind, content: Json.Value)
    ensures var f := File(FileName(SeqNo(n), KindText(k)), content);
      IsTimFile(f) == k.TimFile? && IsDecisionFile(f) == k.DecisionFile? && IsXrFile(f) == k.XrFile?
  {
    hide D.Itoa, SeqNo, Kernel.Includes, FileName, EndsWith;
    RecognizedSuffix(n, k);
    match k
    case TimFile(i) => TimName(n, i);
    case DecisionFile => NotTimName(n, "decision");
    case XrFile => NotTimName(n, "xr");
  }

  lemma RecognizedSuffix(n: nat, k: Kind)
    ensures var s := FileName(SeqNo(n), KindText(k));
      EndsWith(s, "-decision.json") == k.DecisionFile? && EndsWith(s, "-xr.json") == k.XrFile?
  {
    hide D.Itoa, SeqNo, FileName, EndsWith, BeforeExtension;
    var s := FileName(SeqNo(n), KindText(k));
    LastOfKind(n, k);
    Extensions();
    assert "-" + "decision" + ".json" == "-decision.json" && "-" + "xr" + ".json" == "-xr.json";
    if k.DecisionFile? { OwnSuffix(n, "decision"); }
    if k.XrFile? { OwnSuffix(n, "xr"); }
    if EndsWith(s, "-decision.json") { SuffixChar(s, "-decision.json"); }
    if EndsWith(s, "-xr.json") { SuffixChar(s, "-xr.json"); }
  }

  lemma Extensions()
    ensures BeforeExtension("-decision.json") == 'n' && BeforeExtension("-xr.json") == 'r'
  {
  }

  lemma OwnSuffix(n: nat, kind: string)
    ensures EndsWith(FileName(SeqNo(n), kind), "-" + kind + ".json")
  {
    var d, end := SeqNo(n), "-" + kind + ".json";
    assert FileName(d, kind) == d + end;
    assert (d + end)[|d|..] == end;
  }
}
