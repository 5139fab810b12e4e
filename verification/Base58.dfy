/** base58btc: the conversion over whole numbers, and its laws. */
module Base58 {
  import opened Outcomes
  import opened Positional

  type Byte = b: nat | b < 256

  /** Digits and letters without the look-alikes 0, I, O and l. */
  const ALPHABET := "123456789" + "ABCDEFGH" + "JKLMN" + "PQRSTUVWXYZ" + "abcdefghijk" + "mnopqrstuvwxyz"

  /** The place of a character in the alphabet. */
  function AlphabetIndex(c: char): Option<nat> { IndexFrom(ALPHABET, c, 0) }

  function IndexFrom(s: string, c: char, i: nat): (r: Option<nat>)
    requires i <= |s|
    ensures r.Some? ==> r.value < |s| && s[r.value] == c
    ensures r.None? ==> forall j | i <= j < |s| :: s[j] != c
    decreases |s| - i
  {
    if i == |s| then None else if s[i] == c then Some(i) else IndexFrom(s, c, i + 1)
  }

  /** The alphabet is five runs of consecutive characters. */
  function CharOf(d: nat): char
    requires d < 58
  {
    if d < 9 then ('1' as int + d) as char
    else if d < 17 then ('A' as int + d - 9) as char
    else if d < 22 then ('J' as int + d - 17) as char
    else if d < 33 then ('P' as int + d - 22) as char
    else if d < 44 then ('a' as int + d - 33) as char
    else ('m' as int + d - 44) as char
  }

  function Run(first: char, n: nat): (r: string)
    requires 'A' <= first <= 'm' || first == '1'
    requires n < 15
    ensures |r| == n && forall i | 0 <= i < n :: r[i] == (first as int + i) as char
  {
    seq(n, i requires 0 <= i < n => (first as int + i) as char)
  }

  lemma AlphabetRuns()
    ensures |ALPHABET| == 58 && forall d | 0 <= d < 58 :: ALPHABET[d] == CharOf(d)
  {
    assert Run('1', 9) == "123456789";
    assert Run('A', 8) == "ABCDEFGH";
    assert Run('J', 5) == "JKLMN";
    assert Run('P', 11) == "PQRSTUVWXYZ";
    assert Run('a', 11) == "abcdefghijk";
    assert Run('m', 14) == "mnopqrstuvwxyz";
    assert ALPHABET == Run('1', 9) + Run('A', 8) + Run('J', 5) + Run('P', 11) + Run('a', 11) + Run('m', 14);
  }

  /** Alphabet places and characters determine each other. */
  lemma IndexOfChar(d: nat)
    requires d < 58
    ensures AlphabetIndex(CharOf(d)) == Some(d)
  {
    AlphabetRuns();
    var r := AlphabetIndex(CharOf(d));
    assert ALPHABET[d] == CharOf(d);
    assert r.Some?;
    assert CharOf(r.value) == CharOf(d);
  }

  lemma CharOfIndex(c: char)
    requires AlphabetIndex(c).Some?
    ensures AlphabetIndex(c).value < 58 && CharOf(AlphabetIndex(c).value) == c
  {
    AlphabetRuns();
  }

  /** The digits and letters but for four, in the order of their codes. */
  lemma AlphabetIs()
    ensures |ALPHABET| == 58 && forall i, j | 0 <= i < j < 58 :: ALPHABET[i] < ALPHABET[j]
    ensures forall c :: c in ALPHABET <==>
      ('0' <= c <= '9' || 'A' <= c <= 'Z' || 'a' <= c <= 'z') && c != '0' && c != 'I' && c != 'O' && c != 'l'
  {
    AlphabetRuns();
    forall c: char | ('1' <= c <= '9' || 'A' <= c <= 'Z' || 'a' <= c <= 'z') && c != 'I' && c != 'O' && c != 'l'
      ensures c in ALPHABET
    {
      var n := c as int;
      var d := if c <= '9' then n - '1' as int
               else if c < 'I' then n - 'A' as int + 9
               else if c < 'O' then n - 'J' as int + 17
               else if c <= 'Z' then n - 'P' as int + 22
               else if c < 'l' then n - 'a' as int + 33
               else n - 'm' as int + 44;
      assert CharOf(d) == c;
    }
  }

  // ---------- the conversion ----------

  /** How many times x opens the sequence. */
  function Leading<T(==)>(s: seq<T>, x: T): (n: nat)
    ensures n <= |s| && forall i | 0 <= i < n :: s[i] == x
    ensures n < |s| ==> s[n] != x
  {
    if s != [] && s[0] == x then 1 + Leading(s[1..], x) else 0
  }

  function Repeat<T>(x: T, n: nat): (s: seq<T>)
    ensures |s| == n && forall i | 0 <= i < n :: s[i] == x
  {
    seq(n, _ => x)
  }

  function Chars(ds: seq<nat>): (s: string)
    requires DigitsBelow(ds, 58)
    ensures |s| == |ds| && forall i | 0 <= i < |ds| :: s[i] == CharOf(ds[i])
  {
    seq(|ds|, i requires 0 <= i < |ds| => CharOf(ds[i]))
  }

  predicate InAlphabet(s: string) { forall i | 0 <= i < |s| :: AlphabetIndex(s[i]).Some? }

  function Indices(s: string): (ds: seq<nat>)
    requires InAlphabet(s)
    ensures |ds| == |s| && forall i | 0 <= i < |s| :: ds[i] == AlphabetIndex(s[i]).value
  {
    seq(|s|, i requires 0 <= i < |s| => AlphabetIndex(s[i]).value)
  }

  /** One '1' per leading zero byte, then the whole value in base 58. */
  function Encode(data: seq<Byte>): string {
    Repeat('1', Leading(data, 0)) + Chars(DigitsOf(Val(data, 256), 58))
  }

  /** One zero byte per leading '1', then the value in base 256; none outside the alphabet. */
  function Decode(s: string): Option<seq<Byte>> {
    var zeros := Leading(s, '1');
    if InAlphabet(s[zeros..]) then Some(Repeat(0, zeros) + DigitsOf(Val(Indices(s[zeros..]), 58), 256))
    else None
  }

  // ---------- the laws ----------

  lemma LeadingExact<T>(x: T, n: nat, rest: seq<T>)
    requires rest != [] ==> rest[0] != x
    ensures Leading(Repeat(x, n) + rest, x) == n
    ensures (Repeat(x, n) + rest)[n..] == rest
  {
    var s := Repeat(x, n) + rest;
    if n < |s| { assert s[n] == rest[0]; }
  }

  lemma CharsIndices(ds: seq<nat>)
    requires DigitsBelow(ds, 58)
    ensures InAlphabet(Chars(ds)) && Indices(Chars(ds)) == ds
  {
    forall i | 0 <= i < |ds| { IndexOfChar(ds[i]); }
  }

  lemma IndicesChars(s: string)
    requires InAlphabet(s)
    ensures DigitsBelow(Indices(s), 58) && Chars(Indices(s)) == s
  {
    forall i | 0 <= i < |s| { CharOfIndex(s[i]); }
  }

  lemma OnlyZeroIsOne(d: nat)
    requires d < 58
    ensures CharOf(d) == '1' <==> d == 0
  {
  }

  /** The bytes after the leading zeros are the value's own digits. */
  lemma SplitZeros(ds: seq<nat>, b: nat)
    requires b >= 2 && DigitsBelow(ds, b)
    ensures ds == Repeat(0, Leading(ds, 0)) + DigitsOf(Val(ds, b), b)
  {
    var n := Leading(ds, 0);
    DropZeros(ds, b, n);
    DigitsUnique(ds[n..], b);
  }

  /** Every byte string comes back. */
  lemma DecodeEncode(data: seq<Byte>)
    ensures Decode(Encode(data)) == Some(data)
  {
    var zeros := Leading(data, 0);
    var ds := DigitsOf(Val(data, 256), 58);
    DecodeDigits(zeros, ds);
    DigitsBack(data);
  }

  /** The proper base-58 digits of a value have that value. */
  lemma DigitsBack(data: seq<Byte>)
    ensures Repeat(0, Leading(data, 0)) + DigitsOf(Val(DigitsOf(Val(data, 256), 58), 58), 256) == data
  {
    SplitZeros(data, 256);
  }

  /** Ones and the characters of proper digits are read back. */
  lemma DecodeDigits(zeros: nat, ds: seq<nat>)
    requires Proper(ds, 58)
    ensures Decode(Repeat('1', zeros) + Chars(ds)) == Some(Repeat(0, zeros) + DigitsOf(Val(ds, 58), 256))
  {
    if ds != [] { OnlyZeroIsOne(ds[0]); }
    LeadingExact('1', zeros, Chars(ds));
    CharsIndices(ds);
  }

  /** The bytes of proper base-58 digits, after some zero bytes, are spelled by those digits. */
  lemma EncodeDigits(zeros: nat, ds: seq<nat>)
    requires Proper(ds, 58)
    ensures Encode(Repeat(0, zeros) + DigitsOf(Val(ds, 58), 256)) == Repeat('1', zeros) + Chars(ds)
  {
    DigitsUnique(ds, 58);
    var body := DigitsOf(Val(ds, 58), 256);
    var data: seq<nat> := Repeat(0, zeros) + body;
    LeadingExact<nat>(0, zeros, body);
    DropZeros(data, 256, zeros);
  }

  lemma AfterOnes(s: string, zeros: nat)
    requires zeros <= |s| && forall i | 0 <= i < zeros :: s[i] == CharOf(0)
    ensures InAlphabet(s) <==> InAlphabet(s[zeros..])
  {
    IndexOfChar(0);
    if InAlphabet(s) { assert forall i | 0 <= i < |s| - zeros :: s[zeros..][i] == s[zeros + i]; }
    if InAlphabet(s[zeros..]) {
      forall i | 0 <= i < |s|
        ensures AlphabetIndex(s[i]).Some?
      {
        if i >= zeros { assert s[i] == s[zeros..][i - zeros]; }
      }
    }
  }

  /** Every string over the alphabet comes back; any other is refused. */
  lemma EncodeDecode(s: string)
    ensures Decode(s).Some? <==> InAlphabet(s)
    ensures Decode(s).Some? ==> Encode(Decode(s).value) == s
  {
    var zeros := Leading(s, '1');
    IndexOfChar(0);
    assert s == s[..zeros] + s[zeros..];
    AfterOnes(s, zeros);
    if InAlphabet(s[zeros..]) {
      var ds := Indices(s[zeros..]);
      IndicesChars(s[zeros..]);
      if ds != [] { OnlyZeroIsOne(ds[0]); CharOfIndex(s[zeros]); }
      EncodeDigits(zeros, ds);
      assert s[..zeros] == Repeat('1', zeros);
    }
  }

  /** So two byte strings never share an encoding. */
  lemma EncodeInjective(a: seq<Byte>, b: seq<Byte>)
    requires Encode(a) == Encode(b)
    ensures a == b
  {
    DecodeEncode(a);
    DecodeEncode(b);
  }
}
