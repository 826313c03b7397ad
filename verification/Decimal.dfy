/**
 Decimal text of the wide integers.  A text is the characters before the terminator of a
 C string; a buffer is an array that must also hold the terminator.
 */
module Decimal {
  import opened Words
  import opened WideArithmetic

  /** The declared buffer size: sign, thirty-nine digits and the terminator. */
  const CAPACITY: nat := 41
  const MAXIMUM_DIGITS: nat := 39

  // ---- specification -----------------------------------------------------------------

  function DigitValue(c: char): int {
    c as int - '0' as int
  }

  function DigitChar(d: int): (c: char)
    requires 0 <= d <= 9
    ensures IsDigit(c) && DigitValue(c) == d
  {
    ('0' as int + d) as char
  }

  predicate IsDigit(c: char) {
    '0' <= c <= '9'
  }

  predicate AllDigits(s: string) {
    forall i :: 0 <= i < |s| ==> IsDigit(s[i])
  }

  function DigitsValue(s: string): (v: int)
    requires AllDigits(s)
    ensures v >= 0
  {
    if |s| == 0 then 0 else 10 * DigitsValue(s[..|s| - 1]) + DigitValue(s[|s| - 1])
  }

  predicate HasSign(text: string) {
    |text| > 0 && (text[0] == '-' || text[0] == '+')
  }

  function Digits(text: string): string {
    if HasSign(text) then text[1..] else text
  }

  /** The integer a text denotes, of any size, or nothing when it is malformed. */
  function ParseValue(text: string): Option<int> {
    var digits := Digits(text);
    if |digits| == 0 || !AllDigits(digits) then None
    else if text[0] == '-' then Some(-DigitsValue(digits))
    else Some(DigitsValue(digits))
  }

  /** What parsing must answer: the canonical limbs of a denoted integer that fits. */
  function Parsed(text: string): Option<Wide> {
    match ParseValue(text)
    case None => None
    case Some(v) => Checked(v)
  }

  function DigitsOf(n: nat): (s: string)
    ensures |s| >= 1 && AllDigits(s)
  {
    if n < 10 then [DigitChar(n)] else DigitsOf(n / 10) + [DigitChar(n % 10)]
  }

  function TextOf(v: int): string {
    if v < 0 then ['-'] + DigitsOf(-v) else DigitsOf(v)
  }

  // ---- round trip ----------------------------------------------------------------------

  lemma {:induction false} DigitsRoundTrip(n: nat)
    ensures DigitsValue(DigitsOf(n)) == n
  {
    if n < 10 {
      assert DigitsOf(n)[..0] == [];
    } else {
      DigitsRoundTrip(n / 10);
      assert DigitsOf(n)[..|DigitsOf(n)| - 1] == DigitsOf(n / 10);
    }
  }

  function Pow10(n: nat): (p: int)
    ensures p >= 1
  {
    if n == 0 then 1 else 10 * Pow10(n - 1)
  }

  lemma {:induction false} DigitCount(n: nat, k: nat)
    requires k >= 1 && n < Pow10(k)
    ensures |DigitsOf(n)| <= k
  {
    if n >= 10 {
      assert k >= 2 by {
        assert Pow10(1) == 10;
      }
      DigitCount(n / 10, k - 1);
    }
  }

  lemma {:induction false} Pow10Add(a: nat, b: nat)
    ensures Pow10(a + b) == Pow10(a) * Pow10(b)
  {
    if a != 0 {
      Pow10Add(a - 1, b);
      assert 10 * (Pow10(a - 1) * Pow10(b)) == (10 * Pow10(a - 1)) * Pow10(b);
    }
  }

  lemma MaximumHas39Digits()
    ensures MAXIMUM < Pow10(MAXIMUM_DIGITS)
  {
    assert Pow10(3) == 1000;
    hide Pow10;
    Pow10Sum(3, 1000, 3, 1000);
    Pow10Sum(6, 1_000_000, 6, 1_000_000);
    Pow10Sum(12, 1_000_000_000_000, 12, 1_000_000_000_000);
    Pow10Sum(24, 1_000_000_000_000_000_000_000_000, 12, 1_000_000_000_000);
    Pow10Sum(36, 1_000_000_000_000_000_000_000_000_000_000_000_000, 3, 1000);
  }

  lemma Pow10Sum(a: nat, p: int, b: nat, q: int)
    requires Pow10(a) == p && Pow10(b) == q
    ensures Pow10(a + b) == p * q
  {
    Pow10Add(a, b);
  }

  lemma MagnitudeDigits(n: nat)
    requires n <= MAXIMUM
    ensures |DigitsOf(n)| <= MAXIMUM_DIGITS
  {
    MaximumHas39Digits();
    DigitCount(n, MAXIMUM_DIGITS);
  }

  /** Every value in the domain survives formatting and parsing, and its text fits the declared buffer. */
  lemma RoundTrip(v: int)
    requires Fits(v)
    ensures |TextOf(v)| + 1 <= CAPACITY
    ensures Parsed(TextOf(v)) == Some(Encode(v))
  {
    MagnitudeDigits(Abs(v));
    DigitsRoundTrip(Abs(v));
    if v < 0 {
      assert TextOf(v)[1..] == DigitsOf(-v);
    } else {
      assert IsDigit(DigitsOf(v)[0]);
    }
  }

  /** A text denotes a number exactly when it is digits, bare or behind one sign. */
  lemma ParseMeans(text: string)
    ensures ParseValue(text).Some?
            <==> exists digits :: Numeral(digits) && text in {digits, ['-'] + digits, ['+'] + digits}
  {
    if ParseValue(text).Some? {
      var digits := Digits(text);
      assert Numeral(digits);
      if HasSign(text) {
        assert text == [text[0]] + digits;
      }
    }
    forall digits | Numeral(digits) && text in {digits, ['-'] + digits, ['+'] + digits}
      ensures ParseValue(text).Some?
    {
      SignsMean(digits);
    }
  }

  predicate Numeral(s: string) {
    |s| > 0 && AllDigits(s)
  }

  /** A minus sign negates, a plus sign does nothing. */
  lemma SignsMean(digits: string)
    requires Numeral(digits)
    ensures ParseValue(digits) == Some(DigitsValue(digits)) == ParseValue(['+'] + digits)
    ensures ParseValue(['-'] + digits) == Some(-DigitsValue(digits))
  {
    assert IsDigit(digits[0]);
    assert (['+'] + digits)[1..] == digits && (['-'] + digits)[1..] == digits;
  }

  /** Each digit weighs ten times the digits after it. */
  lemma {:induction false} DigitsWeigh(a: string, b: string)
    requires AllDigits(a) && AllDigits(b)
    ensures AllDigits(a + b) && DigitsValue(a + b) == DigitsValue(a) * Pow10(|b|) + DigitsValue(b)
    decreases |b|
  {
    hide DigitValue, IsDigit;
    if b == [] {
      assert a + b == a;
    } else {
      var n := |b| - 1;
      DigitsWeigh(a, b[..n]);
      assert (a + b)[..|a| + n] == a + b[..n];
      TenTimes(DigitsValue(a), Pow10(n));
    }
  }

  lemma TenTimes(a: int, p: int)
    ensures 10 * (a * p) == a * (10 * p)
  {
  }

  /** A formatted number has no leading zero. */
  lemma {:induction false} NoLeadingZero(n: nat)
    ensures DigitsOf(n)[0] == '0' <==> n == 0
  {
    if n >= 10 {
      NoLeadingZero(n / 10);
    }
  }

  // ---- parsing -------------------------------------------------------------------------

  lemma {:induction false} PrefixValue(s: string, k: nat)
    requires AllDigits(s) && k <= |s|
    ensures DigitsValue(s[..k]) <= DigitsValue(s)
    decreases |s|
  {
    if k == |s| {
      assert s[..k] == s;
    } else {
      assert s[..|s| - 1][..k] == s[..k];
      PrefixValue(s[..|s| - 1], k);
    }
  }

  lemma NextDigit(s: string, k: nat)
    requires k < |s| && AllDigits(s[..k]) && IsDigit(s[k])
    ensures AllDigits(s[..k + 1]) && DigitsValue(s[..k + 1]) == 10 * DigitsValue(s[..k]) + DigitValue(s[k])
  {
    assert s[..k + 1][..k] == s[..k];
  }

  method MagnitudeMultiplySmall(value: Wide, multiplier: U32) returns (result: Option<Wide>)
    ensures result.Some? <==> Magnitude(value) * multiplier <= MAXIMUM
    ensures result.Some? ==> !result.value.negative && Magnitude(result.value) == Magnitude(value) * multiplier
  {
    hide Encode;
    result := MagnitudeMultiply(value, FromI64(multiplier));
  }

  method MagnitudeAddSmall(value: Wide, addend: U32) returns (result: Option<Wide>)
    ensures result.Some? <==> Magnitude(value) + addend <= MAXIMUM
    ensures result.Some? ==> !result.value.negative && Magnitude(result.value) == Magnitude(value) + addend
  {
    hide Encode;
    result := MagnitudeAdd(value, FromI64(addend));
  }

  /** Accumulates digits until a bad character or an overflow. */
  method ParseMagnitude(digits: string) returns (result: Option<Wide>)
    ensures result.Some? <==> AllDigits(digits) && DigitsValue(digits) <= MAXIMUM
    ensures result.Some? ==> Magnitude(result.value) == DigitsValue(digits)
  {
    var magnitude := ZERO;
    assert IsZero(magnitude);
    assert DigitsValue(digits[..0]) == 0;
    hide Magnitude, DigitsValue;
    var i := 0;
    while i < |digits|
      invariant 0 <= i <= |digits| && AllDigits(digits[..i])
      invariant Magnitude(magnitude) == DigitsValue(digits[..i]) <= MAXIMUM
    {
      if digits[i] < '0' || digits[i] > '9' {
        return None;
      }
      NextDigit(digits, i);
      if AllDigits(digits) {
        PrefixValue(digits, i + 1);
      }
      var scaled := MagnitudeMultiplySmall(magnitude, 10);
      if scaled == None {
        return None;
      }
      var sum := MagnitudeAddSmall(scaled.value, DigitValue(digits[i]));
      if sum == None {
        return None;
      }
      magnitude := sum.value;
      i := i + 1;
    }
    assert digits[..i] == digits;
    result := Some(magnitude);
  }

  /** Refuses the malformed texts and those whose magnitude exceeds 2^127 - 1, and no others. */
  method ParseDecimal(text: string) returns (result: Option<Wide>)
    ensures result == Parsed(text)
  {
    if |text| == 0 {
      return None;
    }
    var negative := false;
    var digits := text;
    if text[0] == '-' || text[0] == '+' {
      negative := text[0] == '-';
      digits := text[1..];
    }
    if |digits| == 0 {
      return None;
    }
    assert ParseValue(text) == if !AllDigits(digits) then None
                               else Some(if negative then -DigitsValue(digits) else DigitsValue(digits));
    hide Magnitude, Encode, DigitsValue, ParseValue, AllDigits, Make;
    var magnitude := ParseMagnitude(digits);
    if magnitude == None {
      return None;
    }
    MakeIsCanonical(magnitude.value, negative);
    result := Some(Make(magnitude.value.high, magnitude.value.low, negative));
  }

  // ---- formatting ----------------------------------------------------------------------

  /** The digits still to be produced for what remains of the magnitude. */
  ghost function Leading(remaining: int): string
    requires remaining >= 0
  {
    if remaining == 0 then [] else DigitsOf(remaining)
  }

  ghost predicate Reversed(buffer: seq<char>, text: string) {
    |buffer| == |text| && forall k :: 0 <= k < |text| ==> text[k] == buffer[|text| - 1 - k]
  }

  lemma ReversedAppend(buffer: seq<char>, text: string, c: char)
    requires Reversed(buffer, text)
    ensures Reversed(buffer + [c], [c] + text)
  {
  }

  lemma LeadingStep(remaining: int)
    requires remaining > 0
    ensures 0 <= remaining / 10 < remaining && 0 <= remaining % 10 <= 9
    ensures Leading(remaining) == Leading(remaining / 10) + [DigitChar(remaining % 10)]
  {
  }

  /** One more digit: the text is still what is left to produce followed by what was produced. */
  lemma ReverseStep(text: string, remaining: int, tail: string, buffer: seq<char>)
    requires remaining > 0 && |text| <= MAXIMUM_DIGITS
    requires text == Leading(remaining) + tail && Reversed(buffer, tail)
    ensures 0 <= remaining / 10 < remaining && 0 <= remaining % 10 <= 9
    ensures var digit := DigitChar(remaining % 10);
            && |tail| < MAXIMUM_DIGITS
            && text == Leading(remaining / 10) + ([digit] + tail)
            && Reversed(buffer + [digit], [digit] + tail)
  {
    LeadingStep(remaining);
    var digit := DigitChar(remaining % 10);
    assert Leading(remaining) + tail == Leading(remaining / 10) + ([digit] + tail);
    ReversedAppend(buffer, tail, digit);
  }

  /** Produces the digits of a magnitude, least significant first. */
  method ReverseDigits(value: Wide, reversed: array<char>) returns (count: nat)
    requires 0 < Magnitude(value) <= MAXIMUM && reversed.Length == MAXIMUM_DIGITS
    modifies reversed
    ensures count <= MAXIMUM_DIGITS && Reversed(reversed[..count], DigitsOf(Magnitude(value)))
  {
    ghost var text := DigitsOf(Magnitude(value));
    MagnitudeDigits(Magnitude(value));
    ghost var tail: string := [];
    count := 0;
    var remaining := Wide(value.high, value.low, false);
    var ten := FromI64(10);
    assert Magnitude(remaining) == Magnitude(value) && Magnitude(ten) == 10;
    assert text == Leading(Magnitude(remaining)) + tail;
    hide Magnitude, Encode, DigitsOf, Leading, DigitChar;
    while !IsZero(remaining)
      invariant 0 <= Magnitude(remaining) <= MAXIMUM
      invariant count == |tail| <= MAXIMUM_DIGITS
      invariant text == Leading(Magnitude(remaining)) + tail
      invariant Reversed(reversed[..count], tail)
      decreases Magnitude(remaining)
    {
      ReverseStep(text, Magnitude(remaining), tail, reversed[..count]);
      var quotient, remainder := MagnitudeDivide(remaining, ten);
      SmallMagnitude(remainder);
      tail := [DigitChar(remainder.low)] + tail;
      ghost var before := reversed[..count];
      reversed[count] := DigitChar(remainder.low);
      assert reversed[..count + 1] == before + [DigitChar(remainder.low)];
      count := count + 1;
      remaining := quotient;
    }
    NothingLeading(text, tail);
  }

  lemma NothingLeading(text: string, tail: string)
    requires text == Leading(0) + tail
    ensures text == tail
  {
  }

  lemma SmallMagnitude(w: Wide)
    requires Magnitude(w) < WORD
    ensures w.high == 0 && w.low == Magnitude(w)
  {
  }

  /** Writes the reversed digits forwards from the cursor, then the terminator. */
  method WriteDigits(reversed: array<char>, count: nat, output: array<char>, start: nat, ghost digits: string)
    requires count <= reversed.Length && start + count < output.Length && output != reversed
    requires Reversed(reversed[..count], digits)
    modifies output
    ensures output[..] == old(output[..start]) + digits + ['\0'] + old(output[start + count + 1..])
  {
    ghost var was := output[..];
    var cursor, left := start, count;
    while left != 0
      invariant 0 <= left <= count && cursor + left == start + count
      invariant forall k :: 0 <= k < start ==> output[k] == was[k]
      invariant forall k :: start <= k < cursor ==> output[k] == digits[k - start]
      invariant forall k :: cursor <= k < output.Length ==> output[k] == was[k]
    {
      left := left - 1;
      output[cursor] := reversed[left];
      assert reversed[..count][left] == digits[count - 1 - left];
      cursor := cursor + 1;
    }
    output[cursor] := '\0';
    assert output[..] == was[..start] + digits + ['\0'] + was[start + count + 1..];
  }

  /** Both the text and its terminator are in place, and the rest of the buffer is as it was. */
  ghost predicate Written(buffer: seq<char>, was: seq<char>, text: string) {
    && |text| + 1 <= |was|
    && buffer == text + ['\0'] + was[|text| + 1..]
  }

  method FormatNonZero(value: Wide, output: array<char>) returns (ok: bool)
    requires Valid(value) && !IsZero(value)
    modifies output
    ensures ok <==> |TextOf(Value(value))| + 1 <= output.Length
    ensures ok ==> Written(output[..], old(output[..]), TextOf(Value(value)))
    ensures !ok ==> output[..] == old(output[..])
  {
    ghost var was := output[..];
    ghost var text := TextOf(Value(value));
    ghost var digits := DigitsOf(Magnitude(value));
    assert text == (if value.negative then ['-'] else []) + digits;
    var reversed := new char[MAXIMUM_DIGITS];
    var count := ReverseDigits(value, reversed);
    hide Magnitude, Value, DigitsOf, TextOf, Valid, IsZero;
    var sign := if value.negative then 1 else 0;
    assert |text| == sign + count;
    if output.Length < count + sign + 1 {
      return false;
    }
    if value.negative {
      output[0] := '-';
    }
    assert output[..sign] == if value.negative then ['-'] else [];
    assert output[sign + count + 1..] == was[sign + count + 1..];
    WriteDigits(reversed, count, output, sign, digits);
    return true;
  }

  method FormatZero(output: array<char>) returns (ok: bool)
    modifies output
    ensures ok <==> |TextOf(0)| + 1 <= output.Length
    ensures ok ==> Written(output[..], old(output[..]), TextOf(0))
    ensures !ok ==> output[..] == old(output[..])
  {
    assert TextOf(0) == "0";
    hide TextOf;
    if output.Length < 2 {
      return false;
    }
    ghost var was := output[..];
    output[0], output[1] := '0', '\0';
    assert output[..] == "0" + ['\0'] + was[2..];
    return true;
  }

  /** Writes the text when the buffer holds it and its terminator, and otherwise leaves the buffer alone. */
  method FormatDecimal(value: Wide, output: array<char>) returns (ok: bool)
    modifies output
    ensures ok <==> Valid(value) && |TextOf(Value(value))| + 1 <= output.Length
    ensures ok ==> Written(output[..], old(output[..]), TextOf(Value(value)))
    ensures !ok ==> output[..] == old(output[..])
  {
    hide TextOf, Written, Magnitude;
    if output.Length == 0 || !Valid(value) {
      return false;
    }
    if IsZero(value) {
      ok := FormatZero(output);
    } else {
      ok := FormatNonZero(value, output);
    }
  }
}
