/**
 Escapes in JSON strings: what they denote, and that the canonical writer uses the shortest.

 Every character has an escape of four hexadecimal digits, or of two for the halves of its surrogate
 pair, and the parser reads it back whichever letters the digits use.  The writer never spends more
 text on a string than any text the parser reads as that string.
 */
module EscapeLaws {
  import opened Outcomes
  import opened JsonGrammar
  import opened Canonicalize
  import Utf16

  // ---------- hexadecimal escapes ----------

  function UpperDigit(n: nat): char
    requires n < 16
  {
    if n < 10 then (n + '0' as int) as char else (n - 10 + 'A' as int) as char
  }

  /** Four hexadecimal digits, with small letters or capitals. */
  function Hex(n: nat, upper: bool): string
    requires n < 0x1_0000
  {
    var a, b, c, d := n / 0x1000, n / 0x100 % 16, n / 0x10 % 16, n % 16;
    if upper then [UpperDigit(a), UpperDigit(b), UpperDigit(c), UpperDigit(d)]
    else [HexDigit(a), HexDigit(b), HexDigit(c), HexDigit(d)]
  }

  lemma DigitReads(n: nat)
    requires n < 16
    ensures IsHex(HexDigit(n)) && HexValue(HexDigit(n)) == n
    ensures IsHex(UpperDigit(n)) && HexValue(UpperDigit(n)) == n
    ensures !('A' <= HexDigit(n) <= 'Z')
  {
  }

  lemma PlacesAdd(n: nat)
    requires n < 0x1_0000
    ensures n == 0x1000 * (n / 0x1000) + 0x100 * (n / 0x100 % 16) + 0x10 * (n / 0x10 % 16) + n % 16
    ensures n / 0x1000 < 16
  {
    assert n / 0x10 == 16 * (n / 0x100) + n / 0x10 % 16;
    assert n / 0x100 == 16 * (n / 0x1000) + n / 0x100 % 16;
  }

  lemma HexReads(n: nat, upper: bool, rest: string)
    requires n < 0x1_0000
    ensures Hex4(Hex(n, upper) + rest) == Ok((n, rest))
  {
    hide HexDigit, UpperDigit, HexValue, IsHex;
    PlacesAdd(n);
    DigitReads(n / 0x1000);
    DigitReads(n / 0x100 % 16);
    DigitReads(n / 0x10 % 16);
    DigitReads(n % 16);
    var t := Hex(n, upper) + rest;
    assert t[0] == Hex(n, upper)[0] && t[1] == Hex(n, upper)[1] && t[2] == Hex(n, upper)[2] && t[3] == Hex(n, upper)[3];
    assert t[4..] == rest;
  }

  /** Outside the basic plane a character is a lead and a trail surrogate, ten bits in each. */
  lemma UnitsCombine(c: char)
    requires c as int >= 0x1_0000
    ensures var u := Utf16.UnitsOfChar(c);
      |u| == 2 && IsPair(u[0], u[1]) && Combine(u[0], u[1]) == c &&
      c as int == 0x1_0000 + (u[0] - 0xD800) * 0x400 + (u[1] - 0xDC00)
  {
  }

  lemma UnitsPlain(c: char)
    requires c as int < 0x1_0000
    ensures Utf16.UnitsOfChar(c) == [c as int] && !IsSurrogate(c as int)
  {
  }

  /** The escape of a character: one for each of its UTF-16 units. */
  function Escape(c: char, upper: bool): string {
    var u := Utf16.UnitsOfChar(c);
    if c as int < 0x1_0000 then UnitsPlain(c); "\\u" + Hex(u[0], upper)
    else UnitsCombine(c); "\\u" + Hex(u[0], upper) + "\\u" + Hex(u[1], upper)
  }

  /** Every character is read from its escape, capitals or not. */
  lemma EscapeReads(c: char, upper: bool, rest: string)
    ensures StringChar(Escape(c, upper) + rest) == Ok((c, rest))
  {
    hide Hex, Hex4;
    var u := Utf16.UnitsOfChar(c);
    if c as int < 0x1_0000 {
      UnitsPlain(c);
      var t := "\\u" + Hex(u[0], upper) + rest;
      assert t[2..] == Hex(u[0], upper) + rest;
      HexReads(u[0], upper, rest);
    } else {
      UnitsCombine(c);
      var after := "\\u" + (Hex(u[1], upper) + rest);
      var t := "\\u" + Hex(u[0], upper) + "\\u" + Hex(u[1], upper) + rest;
      assert t == "\\u" + (Hex(u[0], upper) + after);
      assert t[2..] == Hex(u[0], upper) + after;
      HexReads(u[0], upper, after);
      HexReads(u[1], upper, rest);
      assert after[2..] == Hex(u[1], upper) + rest;
    }
  }

  /** Half of a pair on its own is the replacement character, and what follows it is read for itself. */
  lemma LoneHalf(n: nat, upper: bool, rest: string)
    requires IsSurrogate(n) && !StartsUnicode(rest)
    ensures StringChar("\\u" + Hex(n, upper) + rest) == Ok((REPLACEMENT, rest))
  {
    hide Hex, Hex4;
    var t := "\\u" + Hex(n, upper) + rest;
    assert t[2..] == Hex(n, upper) + rest;
    HexReads(n, upper, rest);
  }

  /** The eight escapes of two characters. */
  lemma ShortEscapes(rest: string)
    ensures StringChar("\\\"" + rest) == Ok(('"', rest)) && StringChar("\\\\" + rest) == Ok(('\\', rest))
    ensures StringChar("\\/" + rest) == Ok(('/', rest)) && StringChar("\\b" + rest) == Ok(('\U{8}', rest))
    ensures StringChar("\\f" + rest) == Ok(('\U{C}', rest)) && StringChar("\\n" + rest) == Ok(('\n', rest))
    ensures StringChar("\\r" + rest) == Ok(('\r', rest)) && StringChar("\\t" + rest) == Ok(('\t', rest))
  {
    assert ("\\\"" + rest)[2..] == rest && ("\\\\" + rest)[2..] == rest && ("\\/" + rest)[2..] == rest;
    assert ("\\b" + rest)[2..] == rest && ("\\f" + rest)[2..] == rest && ("\\n" + rest)[2..] == rest;
    assert ("\\r" + rest)[2..] == rest && ("\\t" + rest)[2..] == rest;
  }

  // ---------- the shortest spelling ----------

  /** No text is read as a character at less cost than the writer's. */
  lemma ShortestChar(t: string)
    requires t != "" && t[0] != '"' && StringChar(t).Ok?
    ensures var (c, rest) := StringChar(t).value; |EscapeChar(c)| + |rest| <= |t|
  {
    hide Hex4;
    if t[0] == '\\' && |t| > 1 && t[1] == 'u' {
      UnicodeCost(t[2..]);
      EscapeCost(StringChar(t).value.0);
    }
  }

  lemma EscapeCost(c: char)
    ensures 1 <= |EscapeChar(c)| <= 6
  {
  }

  lemma UnicodeCost(t: string)
    ensures UnicodeEscape(t).Ok? ==> |UnicodeEscape(t).value.1| + 4 <= |t|
  {
  }

  /** The writer's text of a string is the shortest that the parser reads as that string. */
  lemma {:induction false} ShortestString(t: string)
    requires StringBody(t).Ok?
    ensures var (s, rest) := StringBody(t).value; |EscapeAll(s)| + 1 + |rest| <= |t|
    decreases |t|
  {
    hide StringChar, EscapeChar;
    if t[0] != '"' {
      ShortestChar(t);
      var (c, after) := StringChar(t).value;
      ShortestString(after);
      var (s, rest) := StringBody(after).value;
      assert ([c] + s)[0] == c && ([c] + s)[1..] == s;
    }
  }

  /** Where the writer must use four digits it writes them with small letters. */
  lemma ControlSpelling(c: char)
    requires |EscapeChar(c)| == 6
    ensures c as int < 0x20 && EscapeChar(c) == "\\u" + Hex(c as int, false)
    ensures forall i | 0 <= i < 6 :: !('A' <= EscapeChar(c)[i] <= 'Z')
  {
    DigitReads(c as int / 16);
    DigitReads(c as int % 16);
    var e := EscapeChar(c);
    assert e == "\\u00" + [HexDigit(c as int / 16), HexDigit(c as int % 16)];
    assert e == ['\\', 'u', '0', '0', HexDigit(c as int / 16), HexDigit(c as int % 16)];
    assert HexDigit(0) == '0';
  }
}
