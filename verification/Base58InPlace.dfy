/** The in-place base58 conversions, each proved to compute the whole-number one. */
module Base58InPlace {
  import opened Outcomes
  import opened Positional
  import opened Base58

  method CountLeading<T(==)>(s: seq<T>, x: T) returns (n: nat)
    ensures n == Leading(s, x)
  {
    n := 0;
    while n < |s| && s[n] == x
      invariant n <= |s| && Leading(s, x) == n + Leading(s[n..], x)
    {
      assert s[n..][1..] == s[n + 1..];
      n := n + 1;
    }
  }

  function Reversed<T>(s: seq<T>): (r: seq<T>)
    ensures |r| == |s| && forall i | 0 <= i < |s| :: r[i] == s[|s| - 1 - i]
  {
    seq(|s|, i requires 0 <= i < |s| => s[|s| - 1 - i])
  }

  // ---------- big-endian long division (Go) ----------

  /** Divide buf[start..] by 58 in place; the quotient stays in the buffer. */
  method DivideInPlace(buf: array<Byte>, start: nat) returns (carry: nat)
    requires start <= buf.Length
    modifies buf
    ensures carry < 58 && buf[..start] == old(buf[..start])
    ensures Val(old(buf[start..]), 256) == 58 * Val(buf[start..], 256) + carry
  {
    carry := 0;
    ghost var was := buf[..];
    for i := start to buf.Length
      invariant carry < 58
      invariant buf[..start] == was[..start] && buf[i..] == was[i..]
      invariant Val(was[start..i], 256) == 58 * Val(buf[start..i], 256) + carry
    {
      var cur := carry * 256 + buf[i];
      ghost var quotient, tail := buf[start..i], buf[i + 1..];
      NextAt(buf[..], was, i);
      SliceSnoc(was, start, i);
      DivideStep(was[start..i], was[i], quotient, carry, cur / 58, cur % 58);
      buf[i] := cur / 58;
      carry := cur % 58;
      SliceSnoc(buf[..], start, i);
      assert buf[start..i] == quotient && buf[i + 1..] == tail;
    }
    assert buf[start..buf.Length] == buf[start..] && was[start..buf.Length] == was[start..];
  }

  lemma SliceSnoc<T>(s: seq<T>, start: nat, i: nat)
    requires start <= i < |s|
    ensures s[start..i + 1] == s[start..i] + [s[i]]
  {
  }

  /** Equal rests have equal heads and equal tails. */
  lemma NextAt<T>(s: seq<T>, t: seq<T>, i: nat)
    requires i < |s| == |t| && s[i..] == t[i..]
    ensures s[i] == t[i] && s[i + 1..] == t[i + 1..]
  {
    assert s[i] == s[i..][0] && t[i] == t[i..][0];
    assert s[i + 1..] == s[i..][1..] && t[i + 1..] == t[i..][1..];
  }

  lemma DivideStep(was: seq<nat>, digit: nat, quotient: seq<nat>, carry: nat, q: nat, r: nat)
    requires Val(was, 256) == 58 * Val(quotient, 256) + carry && carry * 256 + digit == 58 * q + r
    ensures Val(was + [digit], 256) == 58 * Val(quotient + [q], 256) + r
  {
    Snoc(was, digit, 256);
    Snoc(quotient, q, 256);
  }

  lemma ReversedSnoc<T>(s: seq<T>, x: T)
    ensures Reversed(s + [x]) == [x] + Reversed(s)
  {
  }

  method SkipZeros(buf: array<Byte>, from: nat) returns (start: nat)
    requires from <= buf.Length
    ensures from <= start <= buf.Length && (start < buf.Length ==> buf[start] != 0)
    ensures Val(buf[start..], 256) == Val(buf[from..], 256)
  {
    start := from;
    while start < buf.Length && buf[start] == 0
      invariant from <= start <= buf.Length
      invariant Val(buf[start..], 256) == Val(buf[from..], 256)
    {
      DropZeros(buf[start..], 256, 1);
      assert buf[start..][1..] == buf[start + 1..];
      start := start + 1;
    }
  }

  lemma DivisionStep(before: nat, after: nat, carry: nat, seen: seq<nat>, target: seq<nat>)
    requires before > 0 && carry < 58 && before == 58 * after + carry
    requires DigitsOf(before, 58) + Reversed(seen) == target
    ensures DigitsOf(after, 58) + Reversed(seen + [carry]) == target
    ensures after < before
  {
    DivideSum(58, after, carry);
    ReversedSnoc(seen, carry);
    assert DigitsOf(after, 58) + ([carry] + Reversed(seen)) == DigitsOf(after, 58) + [carry] + Reversed(seen);
  }

  /** Repeated division by 58 until nothing is left: digits come out last first. */
  method LongDivision(buf: array<Byte>, zeros: nat) returns (out: seq<nat>)
    requires zeros <= buf.Length && (zeros < buf.Length ==> buf[zeros] != 0)
    modifies buf
    ensures DigitsBelow(out, 58) && Reversed(out) == DigitsOf(Val(old(buf[zeros..]), 256), 58)
  {
    hide DigitsOf, Val;
    ghost var target := DigitsOf(Val(buf[zeros..], 256), 58);
    out := [];
    var start := zeros;
    while start < buf.Length
      invariant zeros <= start <= buf.Length
      invariant start < buf.Length ==> buf[start] != 0
      invariant DigitsBelow(out, 58)
      invariant DigitsOf(Val(buf[start..], 256), 58) + Reversed(out) == target
      decreases Val(buf[start..], 256)
    {
      ghost var before := Val(buf[start..], 256);
      FirstNonZero(buf[start..]);
      var carry := DivideInPlace(buf, start);
      DivisionStep(before, Val(buf[start..], 256), carry, out, target);
      out := out + [carry];
      start := SkipZeros(buf, start);
    }
    assert buf[start..] == [];
    NothingLeft();
  }

  lemma NothingLeft()
    ensures DigitsOf(Val([], 256), 58) == []
  {
  }

  /** Write the digits, last to first, through the alphabet. */
  method SpellBackwards(out: seq<nat>) returns (text: string)
    requires DigitsBelow(out, 58)
    ensures text == Chars(Reversed(out))
  {
    AlphabetRuns();
    text := "";
    ghost var digits := Reversed(out);
    var i: nat := |out|;
    while i > 0
      invariant i <= |out| && text == Chars(digits[..|out| - i])
    {
      i := i - 1;
      assert digits[..|out| - i] == digits[..|out| - i - 1] + [out[i]];
      text := text + [ALPHABET[out[i]]];
    }
    assert digits[..|out|] == digits;
  }

  method EncodeGo(input: seq<Byte>) returns (text: string)
    ensures text == Encode(input)
  {
    if |input| == 0 { return ""; }
    var zeros := CountLeading(input, 0);
    var buf := new Byte[|input|](i requires 0 <= i < |input| => input[i]);
    assert buf[zeros..] == input[zeros..];
    DropZeros(input, 256, zeros);
    var out := LongDivision(buf, zeros);
    var body := SpellBackwards(out);
    text := Repeat('1', zeros) + body;
  }

  lemma FirstNonZero(ds: seq<nat>)
    requires ds != [] && ds[0] != 0
    ensures Val(ds, 256) > 0
  {
    assert ds == [ds[0]] + ds[1..];
    ValCons(ds[0], ds[1..], 256);
    UpOrder(1, ds[0], 256, |ds| - 1);
    UpPositive(256, |ds| - 1);
  }

  lemma {:induction false} UpPositive(b: nat, k: nat)
    requires b > 0
    ensures Up(1, b, k) > 0
  {
    if k > 0 { UpPositive(b, k - 1); PositiveProduct(b, Up(1, b, k - 1)); }
  }

  lemma PositiveProduct(a: nat, b: nat)
    requires a > 0 && b > 0
    ensures a * b > 0
  {
  }

  // ---------- big-endian multiplication (Go) ----------

  /** buf * 58 + add in place from the right; what does not fit is carried out. */
  method MultiplyInPlace(buf: array<Byte>, add: nat) returns (carry: nat)
    requires add < 58
    modifies buf
    ensures Up(carry, 256, buf.Length) + Val(buf[..], 256) == 58 * Val(old(buf[..]), 256) + add
  {
    hide Up, Val;
    carry := add;
    ghost var was := buf[..];
    var j := buf.Length;
    NothingYet(add);
    assert was[j..] == [] && buf[j..] == [];
    while j > 0
      invariant 0 <= j <= buf.Length
      invariant buf[..j] == was[..j]
      invariant Up(carry, 256, buf.Length - j) + Val(buf[j..], 256) == 58 * Val(was[j..], 256) + add
    {
      j := j - 1;
      assert buf[j] == buf[..j + 1][j] == was[..j + 1][j] == was[j];
      var cur := buf[j] * 58 + carry;
      ghost var tail := buf[j + 1..];
      MultiplyStep(was[j], carry, cur / 256, cur % 256, tail, was[j + 1..], add);
      assert was[j..] == [was[j]] + was[j + 1..];
      buf[j] := cur % 256;
      carry := cur / 256;
      assert buf[j..] == [cur % 256] + tail;
      assert buf[..j] == was[..j + 1][..j];
    }
    assert buf[0..] == buf[..] && was[0..] == was;
  }

  lemma NothingYet(add: nat)
    ensures Up(add, 256, 0) + Val([], 256) == 58 * Val([], 256) + add
  {
  }

  lemma MultiplyStep(digit: nat, carry: nat, q: nat, r: nat, tail: seq<nat>, wasTail: seq<nat>, add: nat)
    requires 256 * q + r == 58 * digit + carry && |tail| == |wasTail|
    requires Up(carry, 256, |tail|) + Val(tail, 256) == 58 * Val(wasTail, 256) + add
    ensures Up(q, 256, |tail| + 1) + Val([r] + tail, 256) == 58 * Val([digit] + wasTail, 256) + add
  {
    var n := |tail|;
    ValCons(r, tail, 256);
    ValCons(digit, wasTail, 256);
    CarrySplit(digit, carry, q, r, n);
  }

  lemma CarrySplit(digit: nat, carry: nat, q: nat, r: nat, n: nat)
    requires 256 * q + r == 58 * digit + carry
    ensures Up(q, 256, n + 1) + Up(r, 256, n) == 58 * Up(digit, 256, n) + Up(carry, 256, n)
  {
    UpStep(q, 256, n);
    UpSum(256 * q, r, 256, n);
    UpSum(58 * digit, carry, 256, n);
    UpTimes(58, digit, 256, n);
  }

  /** Put the digits of what was carried out in front. */
  method PrependCarry(buf: seq<Byte>, c: nat) returns (r: seq<Byte>)
    ensures Val(r, 256) == Up(c, 256, |buf|) + Val(buf, 256)
    ensures c == 0 ==> r == buf
    ensures c > 0 ==> r != [] && r[0] != 0
  {
    r := buf;
    var carry := c;
    while carry > 0
      invariant Up(carry, 256, |r|) + Val(r, 256) == Up(c, 256, |buf|) + Val(buf, 256)
      invariant c == 0 ==> r == buf
      invariant c > 0 && carry == 0 ==> r != [] && r[0] != 0
    {
      ValCons(carry % 256, r, 256);
      UpStep(carry / 256, 256, |r|);
      UpSum(256 * (carry / 256), carry % 256, 256, |r|);
      r := [carry % 256] + r;
      carry := carry / 256;
    }
    UpZero(256, |r|);
  }

  lemma {:induction false} UpZero(b: nat, k: nat)
    ensures Up(0, b, k) == 0
  {
    if k > 0 { UpZero(b, k - 1); }
  }

  lemma IndicesSnoc(s: string, n: nat)
    requires n < |s| && InAlphabet(s[..n]) && AlphabetIndex(s[n]).Some?
    ensures InAlphabet(s[..n + 1])
    ensures Val(Indices(s[..n + 1]), 58) == 58 * Val(Indices(s[..n]), 58) + AlphabetIndex(s[n]).value
  {
    var front, last := s[..n], s[n];
    assert s[..n + 1] == front + [last];
    forall i | 0 <= i < |front + [last]|
      ensures AlphabetIndex((front + [last])[i]).Some?
    {
      assert (front + [last])[i] == if i < n then front[i] else last;
    }
    assert Indices(front + [last]) == Indices(front) + [AlphabetIndex(last).value];
    Snoc(Indices(front), AlphabetIndex(last).value, 58);
  }

  /** Multiplying proper digits by 58 and adding keeps them proper. */
  lemma StaysProper(was: seq<nat>, now: seq<nat>, add: nat)
    requires Proper(was, 256) && DigitsBelow(now, 256) && |was| == |now|
    requires Val(now, 256) == 58 * Val(was, 256) + add
    ensures Proper(now, 256)
  {
    if was != [] && now[0] == 0 {
      ValAtLeast(was, 256);
      DropZeros(now, 256, 1);
      ValBound(now[1..], 256);
      assert false;
    }
  }

  /** One character of the body: multiply the buffer by 58 and add the digit. */
  method MultiplyAdd(digits: seq<Byte>, add: nat) returns (r: seq<Byte>)
    requires Proper(digits, 256) && add < 58 && (digits == [] ==> add > 0)
    ensures Proper(r, 256) && r != [] && Val(r, 256) == 58 * Val(digits, 256) + add
  {
    var buf := new Byte[|digits|](i requires 0 <= i < |digits| => digits[i]);
    assert buf[..] == digits;
    var carry := MultiplyInPlace(buf, add);
    r := PrependCarry(buf[..], carry);
    if carry == 0 {
      UpZero(256, buf.Length);
      StaysProper(digits, r, add);
    }
  }

  lemma EmptyDecodes()
    ensures Decode("") == Some([])
  {
    var none := ""[0..];
    assert none == "" && Indices(none) == [];
    assert Val([], 58) == 0;
    var empty: seq<Byte> := Repeat(0, 0) + DigitsOf(0, 256);
    assert empty == [];
  }

  method DecodeGo(s: string) returns (r: Option<seq<Byte>>)
    ensures r == Decode(s)
  {
    if s == "" {
      EmptyDecodes();
      return Some([]);
    }
    var zeros := CountLeading(s, '1');
    var body := s[zeros..];
    var buf: seq<Byte> := [];
    for i := 0 to |body|
      invariant InAlphabet(body[..i])
      invariant Proper(buf, 256) && Val(buf, 256) == Val(Indices(body[..i]), 58) && (i > 0 ==> buf != [])
    {
      var idx := AlphabetIndex(body[i]);
      if idx.None? {
        assert !InAlphabet(s[zeros..]);
        return None;
      }
      CharOfIndex(body[i]);
      FirstNotOne(s, zeros);
      IndicesSnoc(body, i);
      buf := MultiplyAdd(buf, idx.value);
    }
    assert body[..|body|] == body;
    DigitsUnique(buf, 256);
    var out: seq<Byte> := Repeat(0, zeros) + buf;
    assert out == Decode(s).value;
    r := Some(out);
  }

  lemma FirstNotOne(s: string, zeros: nat)
    requires zeros == Leading(s, '1') && zeros < |s|
    ensures AlphabetIndex(s[zeros]).Some? ==> AlphabetIndex(s[zeros]).value > 0
  {
    if AlphabetIndex(s[zeros]).Some? { CharOfIndex(s[zeros]); }
  }

  // ---------- little-endian digit lists (TypeScript) ----------

  /** The value of digits listed least significant first. */
  function ValLow(ds: seq<nat>, b: nat): nat { Val(Reversed(ds), b) }

  lemma {:induction false} ValLowSnoc(ds: seq<nat>, d: nat, b: nat)
    ensures ValLow(ds + [d], b) == ValLow(ds, b) + Up(d, b, |ds|)
  {
    assert Reversed(ds + [d]) == [d] + Reversed(ds);
    ValCons(d, Reversed(ds), b);
  }

  /** digits * factor + add over the places there are; what does not fit is carried out. */
  method MultiplyLow(was: seq<nat>, b: nat, factor: nat, add: nat) returns (digits: seq<nat>, carry: nat)
    requires b >= 2 && DigitsBelow(was, b)
    ensures DigitsBelow(digits, b) && |digits| == |was|
    ensures ValLow(digits, b) + Up(carry, b, |digits|) == factor * ValLow(was, b) + add
  {
    hide *;
    digits, carry := was, add;
    NoPlaces(add, b);
    var j := 0;
    assert digits[..0] == [] == was[..0];
    while j < |digits|
      invariant 0 <= j <= |digits| == |was|
      invariant DigitsBelow(digits, b) && digits[j..] == was[j..]
      invariant ValLow(digits[..j], b) + Up(carry, b, j) == factor * ValLow(was[..j], b) + add
    {
      var sum := carry + digits[j] * factor;
      Quotient(sum, b);
      PlaceStep(digits, was, j, carry, sum / b, sum % b, b, factor, add);
      digits := digits[j := sum % b];
      carry := sum / b;
      j := j + 1;
    }
    assert digits[..j] == digits && was[..j] == was;
  }

  lemma NoPlaces(c: nat, b: nat)
    ensures ValLow([], b) == 0 && Up(c, b, 0) == c
  {
  }

  /** One turn of the loop: the digit at j takes what fits, and the rest is carried on. */
  lemma PlaceStep(digits: seq<nat>, was: seq<nat>, j: nat, carry: nat, q: nat, r: nat, b: nat, factor: nat, add: nat)
    requires j < |digits| == |was| && digits[j..] == was[j..] && DigitsBelow(digits, b)
    requires carry + digits[j] * factor == b * q + r && r < b
    requires ValLow(digits[..j], b) + Up(carry, b, j) == factor * ValLow(was[..j], b) + add
    ensures var next := digits[j := r];
      DigitsBelow(next, b) && next[j + 1..] == was[j + 1..] &&
      ValLow(next[..j + 1], b) + Up(q, b, j + 1) == factor * ValLow(was[..j + 1], b) + add
  {
    hide ValLow, Up;
    SameRest(digits, was, j, r);
    CarryStep(digits[..j], was[..j], was[j], carry, q, r, b, factor, add);
  }

  /** Rewriting the first of the digits that are still as they were. */
  lemma SameRest(digits: seq<nat>, was: seq<nat>, j: nat, d: nat)
    requires j < |digits| == |was| && digits[j..] == was[j..]
    ensures digits[j] == was[j] && was[..j + 1] == was[..j] + [was[j]]
    ensures digits[j := d][j + 1..] == was[j + 1..] && digits[j := d][..j + 1] == digits[..j] + [d]
  {
    assert digits[j] == digits[j..][0] && was[j] == was[j..][0];
    assert digits[j + 1..] == digits[j..][1..] && was[j + 1..] == was[j..][1..];
  }

  /** Append the digits of what was carried out. */
  method PushCarry(low: seq<nat>, b: nat, c: nat) returns (digits: seq<nat>)
    requires b >= 2 && DigitsBelow(low, b)
    requires c == 0 && low != [] ==> low[|low| - 1] != 0
    ensures DigitsBelow(digits, b) && (digits != [] ==> digits[|digits| - 1] != 0)
    ensures ValLow(digits, b) == ValLow(low, b) + Up(c, b, |low|)
  {
    digits := low;
    var carry: nat := c;
    while carry > 0
      invariant DigitsBelow(digits, b)
      invariant ValLow(digits, b) + Up(carry, b, |digits|) == ValLow(low, b) + Up(c, b, |low|)
      invariant carry == 0 ==> (digits != [] ==> digits[|digits| - 1] != 0)
    {
      PushStep(digits, carry, b);
      CarryShrinks(carry, b);
      digits := digits + [carry % b];
      carry := carry / b;
    }
    UpZero(b, |digits|);
  }

  /** digits * factor + add, carrying upwards; the last digit stays nonzero. */
  method CarryUp(was: seq<nat>, b: nat, factor: nat, add: nat) returns (digits: seq<nat>)
    requires b >= 2 && factor >= 1 && DigitsBelow(was, b) && (was != [] ==> was[|was| - 1] != 0)
    ensures DigitsBelow(digits, b) && (digits != [] ==> digits[|digits| - 1] != 0)
    ensures ValLow(digits, b) == factor * ValLow(was, b) + add
  {
    var low, carry := MultiplyLow(was, b, factor, add);
    LastStays(was, low, carry, b, factor, add);
    digits := PushCarry(low, b, carry);
  }

  lemma ProductZero(b: nat, c: nat)
    requires c == 0
    ensures b * c == 0
  {
  }

  lemma CarryStep(low: seq<nat>, wasLow: seq<nat>, d: nat, carry: nat, q: nat, r: nat, b: nat, factor: nat, add: nat)
    requires |low| == |wasLow| && carry + d * factor == b * q + r
    requires ValLow(low, b) + Up(carry, b, |low|) == factor * ValLow(wasLow, b) + add
    ensures ValLow(low + [r], b) + Up(q, b, |low| + 1) == factor * ValLow(wasLow + [d], b) + add
  {
    hide ValLow, Up;
    var n := |low|;
    ValLowSnoc(low, r, b);
    ValLowSnoc(wasLow, d, b);
    UpStep(q, b, n);
    UpSum(b * q, r, b, n);
    UpSum(carry, d * factor, b, n);
    UpTimes(factor, d, b, n);
    Distribute(factor, ValLow(wasLow, b), Up(d, b, n));
    assert d * factor == factor * d;
  }

  lemma Distribute(a: nat, x: nat, y: nat)
    ensures a * (x + y) == a * x + a * y
  {
  }

  lemma CarryShrinks(carry: nat, b: nat)
    requires b >= 2 && carry > 0
    ensures 0 <= carry / b < carry && 0 <= carry % b < b && (carry / b == 0 ==> carry % b != 0)
  {
    Quotient(carry, b);
    if carry / b == 0 { ProductZero(b, carry / b); }
  }

  lemma PushStep(digits: seq<nat>, carry: nat, b: nat)
    requires b >= 2
    ensures ValLow(digits + [carry % b], b) + Up(carry / b, b, |digits| + 1) ==
            ValLow(digits, b) + Up(carry, b, |digits|)
  {
    ValLowSnoc(digits, carry % b, b);
    UpSplit(carry, b, |digits|);
  }

  lemma UpSplit(x: nat, b: nat, n: nat)
    requires b >= 2
    ensures Up(x % b, b, n) + Up(x / b, b, n + 1) == Up(x, b, n)
  {
    UpStep(x / b, b, n);
    Quotient(x, b);
    UpSum(b * (x / b), x % b, b, n);
  }

  /** Without a carry out, the top digit is still nonzero: the value did not shrink. */
  lemma LastStays(was: seq<nat>, now: seq<nat>, carry: nat, b: nat, factor: nat, add: nat)
    requires b >= 2 && factor >= 1 && |was| == |now| && DigitsBelow(now, b)
    requires was != [] ==> was[|was| - 1] != 0
    requires ValLow(now, b) + Up(carry, b, |now|) == factor * ValLow(was, b) + add
    ensures carry == 0 && now != [] ==> now[|now| - 1] != 0
  {
    if carry == 0 && now != [] && now[|now| - 1] == 0 {
      UpZero(b, |now|);
      var w, n := Reversed(was), Reversed(now);
      ValAtLeast(w, b);
      DropZeros(n, b, 1);
      ValBound(n[1..], b);
      AtLeastOnce(factor, Val(w, b));
      assert false;
    }
  }

  lemma AtLeastOnce(factor: nat, x: nat)
    requires factor >= 1
    ensures factor * x >= x
  {
  }

  lemma ReversedProper(ds: seq<nat>, b: nat)
    requires b >= 2 && DigitsBelow(ds, b) && (ds != [] ==> ds[|ds| - 1] != 0)
    ensures Reversed(ds) == DigitsOf(ValLow(ds, b), b)
  {
    DigitsUnique(Reversed(ds), b);
  }

  method EncodeTs(bytes: seq<Byte>) returns (text: string)
    ensures text == Encode(bytes)
  {
    var zeros := CountLeading(bytes, 0);
    DropZeros(bytes, 256, zeros);
    var body := bytes[zeros..];
    var digits: seq<nat> := [];
    for i := 0 to |body|
      invariant DigitsBelow(digits, 58) && (digits != [] ==> digits[|digits| - 1] != 0)
      invariant ValLow(digits, 58) == Val(body[..i], 256)
    {
      Snoc(body[..i], body[i], 256);
      assert body[..i + 1] == body[..i] + [body[i]];
      digits := CarryUp(digits, 58, 256, body[i]);
    }
    assert body[..|body|] == body;
    ReversedProper(digits, 58);
    var rest := SpellBackwards(digits);
    text := Repeat('1', zeros) + rest;
  }

  method DecodeTs(s: string) returns (r: Option<seq<Byte>>)
    ensures r == Decode(s)
  {
    var zeros := CountLeading(s, '1');
    var body := s[zeros..];
    var bytes: seq<nat> := [];
    for i := 0 to |body|
      invariant InAlphabet(body[..i])
      invariant DigitsBelow(bytes, 256) && (bytes != [] ==> bytes[|bytes| - 1] != 0)
      invariant ValLow(bytes, 256) == Val(Indices(body[..i]), 58)
    {
      var val := AlphabetIndex(body[i]);
      if val.None? { return None; }
      IndicesSnoc(body, i);
      bytes := CarryUp(bytes, 256, 58, val.value);
    }
    assert body[..|body|] == body;
    ReversedProper(bytes, 256);
    r := Some(Repeat(0, zeros) + Reversed(bytes));
  }
}
