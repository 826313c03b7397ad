/**
 Signed magnitude in two 64-bit limbs, with the symmetric domain
 [-(2^127 - 1), 2^127 - 1].  Straight-line tests are functions; operations that report
 success and an answer through out-parameters are methods.  Each checked method is proved
 to be exact integer arithmetic: it answers with the canonical encoding of the true
 result when that result fits, and refuses exactly when it does not.
 */
module WideArithmetic {
  import opened Words

  const MAXIMUM_HIGH: int := 0x7FFF_FFFF_FFFF_FFFF
  /** 2^127 - 1, the largest magnitude. */
  const MAXIMUM: int := 0x7FFF_FFFF_FFFF_FFFF_FFFF_FFFF_FFFF_FFFF

  datatype Wide = Wide(high: U64, low: U64, negative: bool)

  const ZERO: Wide := Wide(0, 0, false)

  // ---- representation ----------------------------------------------------------------

  /** The normalising constructor: a zero is never negative. */
  function Make(high: U64, low: U64, isNegative: bool): Wide {
    Wide(high, low, isNegative && (high != 0 || low != 0))
  }

  function FromI64(value: I64): (w: Wide)
    ensures Valid(w) && Value(w) == value && w == Encode(value)
  {
    Wide(0, if value < 0 then WrapSub(0, value % WORD) else value, value < 0)
  }

  function FromU64(value: U64): (w: Wide)
    ensures Valid(w) && Value(w) == value && w == Encode(value)
  {
    Make(0, value, false)
  }

  predicate IsZero(w: Wide)
    ensures IsZero(w) <==> Magnitude(w) == 0
  {
    w.high == 0 && w.low == 0
  }

  predicate Valid(w: Wide) {
    w.high <= MAXIMUM_HIGH && (!w.negative || !IsZero(w))
  }

  function Magnitude(w: Wide): (m: int)
    ensures m >= 0
  {
    w.high * 0x1_0000_0000_0000_0000 + w.low
  }

  function Value(w: Wide): int {
    if w.negative then -Magnitude(w) else Magnitude(w)
  }

  predicate Fits(v: int) {
    -MAXIMUM <= v <= MAXIMUM
  }

  /** The canonical limbs of an integer in the domain. */
  function Encode(v: int): (w: Wide)
    requires Fits(v)
    ensures Valid(w) && Value(w) == v
  {
    var m := Abs(v);
    Wide(m / WORD, m % WORD, v < 0)
  }

  /** What a checked operation must answer when the true result is `v`. */
  function Checked(v: int): Option<Wide> {
    if Fits(v) then Some(Encode(v)) else None
  }

  lemma ValidIsCanonical(w: Wide)
    requires Valid(w)
    ensures Fits(Value(w)) && Encode(Value(w)) == w
  {
    DivUnique(Magnitude(w), WORD, w.high, w.low);
  }

  lemma MakeIsCanonical(w: Wide, isNegative: bool)
    requires Magnitude(w) <= MAXIMUM
    ensures Make(w.high, w.low, isNegative) == Encode(if isNegative then -Magnitude(w) else Magnitude(w))
  {
    DivUnique(Magnitude(w), WORD, w.high, w.low);
  }

  // ---- comparison --------------------------------------------------------------------

  function MagnitudeCompare(left: Wide, right: Wide): (c: int)
    ensures c < 0 <==> Magnitude(left) < Magnitude(right)
    ensures c > 0 <==> Magnitude(left) > Magnitude(right)
    ensures -1 <= c <= 1
  {
    if left.high != right.high then (if left.high < right.high then -1 else 1)
    else if left.low != right.low then (if left.low < right.low then -1 else 1)
    else 0
  }

  predicate Equal(left: Wide, right: Wide) {
    (IsZero(left) && IsZero(right)) ||
    (left.negative == right.negative && MagnitudeCompare(left, right) == 0)
  }

  /** Orders any two representations, negative zeros included, as the integers they denote. */
  function Compare(left: Wide, right: Wide): (c: int)
    ensures c < 0 <==> Value(left) < Value(right)
    ensures c == 0 <==> Value(left) == Value(right)
  {
    if Equal(left, right) then 0
    else if left.negative != right.negative then (if left.negative then -1 else 1)
    else if left.negative then -MagnitudeCompare(left, right)
    else MagnitudeCompare(left, right)
  }

  predicate Less(left: Wide, right: Wide)
    ensures Less(left, right) <==> Value(left) < Value(right)
  {
    Compare(left, right) < 0
  }

  // ---- magnitudes --------------------------------------------------------------------

  /** Adds limb by limb with carry detection by comparison. */
  method MagnitudeAdd(left: Wide, right: Wide) returns (result: Option<Wide>)
    ensures result.Some? <==> Magnitude(left) + Magnitude(right) <= MAXIMUM
    ensures result.Some? ==> !result.value.negative
    ensures result.Some? ==> Magnitude(result.value) == Magnitude(left) + Magnitude(right)
  {
    var low := WrapAdd(left.low, right.low);
    var carry := if low < left.low then 1 else 0;
    var highWithoutCarry := WrapAdd(left.high, right.high);
    if highWithoutCarry < left.high {
      return None;
    }
    var high := WrapAdd(highWithoutCarry, carry);
    if high < highWithoutCarry || high > MAXIMUM_HIGH {
      return None;
    }
    result := Some(Make(high, low, false));
  }

  /** Borrow-detecting subtraction of a smaller magnitude. */
  method MagnitudeSubtract(left: Wide, right: Wide) returns (difference: Wide)
    requires Magnitude(left) >= Magnitude(right)
    ensures !difference.negative && Magnitude(difference) == Magnitude(left) - Magnitude(right)
  {
    var borrow := if left.low < right.low then 1 else 0;
    difference := Make(WrapSub(WrapSub(left.high, right.high), borrow), WrapSub(left.low, right.low), false);
  }

  /** Shifts the two-limb container left, refusing to drop its top bit. */
  method MagnitudeShiftLeftOne(w: Wide) returns (result: Option<Wide>)
    ensures result.Some? <==> Magnitude(w) <= MAXIMUM
    ensures result.Some? ==> Magnitude(result.value) == 2 * Magnitude(w)
    ensures result.Some? ==> result.value.negative == w.negative
  {
    if w.high >= HALF_WORD {
      return None;
    }
    // The shifted limb has a clear bottom bit, so `|` is addition.
    result := Some(Wide((w.high * 2) % WORD + w.low / HALF_WORD, (w.low * 2) % WORD, w.negative));
  }

  method MagnitudeShiftRightOne(w: Wide) returns (result: Wide)
    ensures Magnitude(result) == Magnitude(w) / 2
    ensures result.negative == w.negative
  {
    result := Wide(w.high / 2, w.low / 2 + (w.high % 2) * HALF_WORD, w.negative);
  }

  lemma LowBit(w: Wide)
    ensures w.low % 2 == Magnitude(w) % 2
  {
  }

  /** One round of shift-and-add keeps `done + m * n`. */
  lemma MultiplyRound(m: int, n: int)
    requires m >= 0 && n > 0
    ensures m * n == (2 * m) * (n / 2) + (if n % 2 == 1 then m else 0)
    ensures n / 2 > 0 ==> (2 * m) * (n / 2) >= 2 * m
    ensures (2 * m) * (n / 2) >= 0
  {
    var h := n / 2;
    assert m * n == m * (2 * h + n % 2) == (2 * m) * h + m * (n % 2);
    if h > 0 {
      MulAtLeast(h, 2 * m);
    }
  }

  /** Shift-and-add multiplication. */
  method MagnitudeMultiply(left: Wide, right: Wide) returns (result: Option<Wide>)
    ensures result.Some? <==> Magnitude(left) * Magnitude(right) <= MAXIMUM
    ensures result.Some? ==> !result.value.negative
    ensures result.Some? ==> Magnitude(result.value) == Magnitude(left) * Magnitude(right)
  {
    hide Magnitude;
    ghost var target := Magnitude(left) * Magnitude(right);
    ghost var m, n := Magnitude(left), Magnitude(right);
    var product := ZERO;
    assert IsZero(product);
    var multiplicand := left;
    var remaining := right;
    while !IsZero(remaining)
      invariant !product.negative && Magnitude(product) <= MAXIMUM
      invariant n == Magnitude(remaining)
      invariant n > 0 ==> m == Magnitude(multiplicand)
      invariant target == Magnitude(product) + (if n == 0 then 0 else m * n)
      decreases n
    {
      MultiplyRound(m, n);
      LowBit(remaining);
      if remaining.low % 2 != 0 {
        var sum := MagnitudeAdd(product, multiplicand);
        if sum == None {
          return None;
        }
        product := sum.value;
      }
      remaining := MagnitudeShiftRightOne(remaining);
      if !IsZero(remaining) {
        var shifted := MagnitudeShiftLeftOne(multiplicand);
        if shifted == None {
          return None;
        }
        multiplicand := shifted.value;
      }
      m, n := 2 * m, n / 2;
    }
    result := Some(product);
  }

  predicate MagnitudeBit(w: Wide, bit: nat)
    requires bit < 128
  {
    if bit < 64 then w.low / Pow2(bit) % 2 != 0 else w.high / Pow2(bit - 64) % 2 != 0
  }

  lemma LowDivision(high: int, low: int, bit: nat)
    requires bit < 64
    ensures (high * WORD + low) / Pow2(bit) % 2 == low / Pow2(bit) % 2
  {
    Pow2Word();
    Pow2Add(bit, 63 - bit);
    EvenMultiple(high, low, Pow2(bit), Pow2(63 - bit));
  }

  lemma ProductAssociates(high: int, p: int, k: int)
    ensures high * (p * k) == (high * k) * p
  {
  }

  lemma EvenMultiple(high: int, low: int, p: int, k: int)
    requires p > 0 && p * k == HALF_WORD
    ensures (high * WORD + low) / p % 2 == low / p % 2
  {
    var h := high * k;
    assert high * WORD == (2 * h) * p by {
      ProductAssociates(high, p, k);
    }
    DivAddMultiple(2 * h, p, low);
  }

  lemma HighDivision(high: int, low: int, bit: nat)
    requires 64 <= bit < 128 && 0 <= low < WORD
    ensures (high * WORD + low) / Pow2(bit) == high / Pow2(bit - 64)
  {
    Pow2Word();
    Pow2Add(64, bit - 64);
    DivUnique(high * WORD + low, WORD, high, low);
    DivDiv(high * WORD + low, WORD, Pow2(bit - 64));
  }

  /** A bit of the container is the bit of the magnitude. */
  lemma MagnitudeBitIsBit(w: Wide, bit: nat)
    requires bit < 128
    ensures MagnitudeBit(w, bit) <==> Magnitude(w) / Pow2(bit) % 2 != 0
  {
    assert Magnitude(w) == w.high * WORD + w.low;
    hide Magnitude, Pow2;
    if bit < 64 {
      LowDivision(w.high, w.low, bit);
    } else {
      HighDivision(w.high, w.low, bit);
    }
  }

  /** `|=` with one shifted bit, into a container whose bits up to that one are clear. */
  function MagnitudeSetBit(w: Wide, bit: nat): (r: Wide)
    requires bit < 128
    requires Magnitude(w) % Pow2(bit + 1) == 0
    ensures Magnitude(r) == Magnitude(w) + Pow2(bit) && r.negative == w.negative
  {
    if bit < 64 then
      ClearLowBits(w.high, w.low, bit);
      w.(low := w.low + Pow2(bit))
    else
      ClearHighBits(w.high, w.low, bit);
      w.(high := w.high + Pow2(bit - 64))
  }

  lemma ClearLowBits(high: int, low: int, bit: nat)
    requires bit < 64 && 0 <= low < WORD
    requires (high * WORD + low) % Pow2(bit + 1) == 0
    ensures low + Pow2(bit) < WORD
  {
    var p, k := Pow2(bit + 1), Pow2(63 - bit);
    assert p * k == WORD && Pow2(bit) <= p by {
      Pow2Word();
      Pow2Add(bit + 1, 63 - bit);
    }
    LowRoom(high, low, p, k);
  }

  lemma LowRoom(high: int, low: int, p: int, k: int)
    requires p > 0 && k > 0 && p * k == WORD && 0 <= low < WORD
    requires (high * WORD + low) % p == 0
    ensures low + p <= WORD
  {
    var q := (high * WORD + low) / p;
    assert high * (p * k) + low == q * p;
    MultipleOfDivisor(high, low, p, k, q);
    RoomInMultiple(low, p, q - high * k, k);
  }

  lemma MultipleOfDivisor(high: int, low: int, p: int, k: int, q: int)
    requires high * (p * k) + low == q * p
    ensures low == (q - high * k) * p
  {
    assert high * (p * k) == (high * k) * p;
  }

  lemma ClearHighBits(high: int, low: int, bit: nat)
    requires 64 <= bit < 128 && 0 <= low < WORD && 0 <= high < WORD
    requires (high * WORD + low) % Pow2(bit + 1) == 0
    ensures high + Pow2(bit - 64) < WORD && Pow2(bit) == Pow2(bit - 64) * WORD
  {
    Pow2Word();
    Pow2Add(64, bit - 64);
    Pow2Add(64, bit - 63);
    Pow2Add(bit - 63, 127 - bit);
    HighRoom(high, low, Pow2(bit - 63), Pow2(127 - bit));
  }

  lemma HighRoom(high: int, low: int, p: int, k: int)
    requires p > 0 && k > 0 && p * k == WORD && 0 <= low < WORD && 0 <= high < WORD
    requires (high * WORD + low) % (WORD * p) == 0
    ensures high + p <= WORD
  {
    var q := (high * WORD + low) / (WORD * p);
    HighIsMultiple(high, low, p, q);
    RoomInMultiple(high, p, q, k);
  }

  lemma HighIsMultiple(high: int, low: int, p: int, q: int)
    requires 0 <= low < WORD && high * WORD + low == (WORD * p) * q
    ensures high == q * p
  {
    assert (WORD * p) * q == (q * p) * WORD;
    EuclidUnique(WORD, high, low, q * p, 0);
  }

  lemma RoomInMultiple(limb: int, p: int, q: int, k: int)
    requires p > 0 && k > 0 && limb == q * p && limb < p * k
    ensures limb + p <= p * k
  {
    if q >= k {
      MulAtMost(k, q, p);
    }
    MulAtMost(q + 1, k, p);
    assert (q + 1) * p == q * p + p;
  }

  /** The top bit of the low limb moves into the high one. */
  lemma ShiftLimbs(high: U64, low: U64)
    requires high * WORD + low < MAXIMUM
    ensures high * 2 % WORD == high * 2 && 0 <= low / HALF_WORD <= 1 && high * 2 + low / HALF_WORD < WORD
    ensures low * 2 % WORD == low * 2 - low / HALF_WORD * WORD && low * 2 % WORD + 1 < WORD
  {
    var carry := low / HALF_WORD;
    DivUnique(low * 2, WORD, carry, low * 2 - carry * WORD);
    DivUnique(high * 2, WORD, 0, high * 2);
  }

  /** The remainder's shift: the container never loses a bit, because the divisor is below 2^127. */
  method ShiftIn(rest: Wide, one: bool) returns (shifted: Wide)
    requires Magnitude(rest) < MAXIMUM
    ensures Magnitude(shifted) == 2 * Magnitude(rest) + (if one then 1 else 0)
    ensures shifted.negative == rest.negative
  {
    ShiftLimbs(rest.high, rest.low);
    shifted := Wide((rest.high * 2) % WORD + rest.low / HALF_WORD,
                    (rest.low * 2) % WORD + (if one then 1 else 0), rest.negative);
  }

  /** Long division after all bits from `bit` up: the quotient so far, and what is left of their value. */
  ghost predicate Divided(n: int, d: int, bit: nat, quotient: int, rest: int) {
    && quotient == quotient / Pow2(bit) * Pow2(bit)
    && n / Pow2(bit) == quotient / Pow2(bit) * d + rest
    && 0 <= rest < d
  }

  lemma DividedStart(n: int, d: int)
    requires 0 <= n < WORD * WORD && d > 0
    ensures Divided(n, d, 128, 0, 0)
  {
    Pow2Word();
    DivUnique(n, Pow2(128), 0, n);
    DivUnique(0, Pow2(128), 0, 0);
  }

  lemma DividedRound(n: int, d: int, bit: nat, quotient: int, rest: int)
    requires Divided(n, d, bit + 1, quotient, rest)
    ensures quotient % Pow2(bit + 1) == 0
    ensures var next := 2 * rest + n / Pow2(bit) % 2;
            if next < d then Divided(n, d, bit, quotient, next)
            else Divided(n, d, bit, quotient + Pow2(bit), next - d)
  {
    var p, q := Pow2(bit), quotient / Pow2(bit + 1);
    assert Pow2(bit + 1) == 2 * p;
    hide Pow2;
    DivUnique(quotient, 2 * p, q, 0);
    DivDiv(n, p, 2);
    assert n / p == 2 * (q * d + rest) + n / p % 2;
    assert q * (2 * p) == (2 * q) * p;
    DivUnique(quotient, p, 2 * q, 0);
    DivUnique(quotient + p, p, 2 * q + 1, 0);
    assert 2 * (q * d) == (2 * q) * d && (2 * q + 1) * d == 2 * (q * d) + d;
  }

  lemma DividedEnd(n: int, d: int, quotient: int, rest: int)
    requires Divided(n, d, 0, quotient, rest)
    ensures n / d == quotient && n % d == rest
  {
    assert Pow2(0) == 1;
    DivUnique(n, d, quotient, rest);
  }

  /** Restoring division, one quotient bit per round from bit 127 down. */
  method MagnitudeDivide(numerator: Wide, denominator: Wide) returns (quotient: Wide, remainder: Wide)
    requires 0 < Magnitude(denominator) <= MAXIMUM
    ensures Magnitude(quotient) == Magnitude(numerator) / Magnitude(denominator)
    ensures Magnitude(remainder) == Magnitude(numerator) % Magnitude(denominator)
    ensures !quotient.negative && !remainder.negative
  {
    ghost var n, d := Magnitude(numerator), Magnitude(denominator);
    assert n < WORD * WORD;
    hide Magnitude, Pow2, Divided;
    quotient, remainder := ZERO, ZERO;
    assert IsZero(quotient) && IsZero(remainder);
    DividedStart(n, d);
    var bit := 127;
    while bit >= 0
      invariant -1 <= bit <= 127
      invariant !quotient.negative && !remainder.negative
      invariant Divided(n, d, bit + 1, Magnitude(quotient), Magnitude(remainder))
      invariant Magnitude(remainder) < d
    {
      DividedRound(n, d, bit, Magnitude(quotient), Magnitude(remainder));
      MagnitudeBitIsBit(numerator, bit);
      remainder := ShiftIn(remainder, MagnitudeBit(numerator, bit));
      if MagnitudeCompare(remainder, denominator) >= 0 {
        remainder := MagnitudeSubtract(remainder, denominator);
        quotient := MagnitudeSetBit(quotient, bit);
      }
      DividedRest(n, d, bit, Magnitude(quotient), Magnitude(remainder));
      bit := bit - 1;
    }
    DividedEnd(n, d, Magnitude(quotient), Magnitude(remainder));
  }

  lemma DividedRest(n: int, d: int, bit: nat, quotient: int, rest: int)
    requires Divided(n, d, bit, quotient, rest)
    ensures rest < d
  {
  }

  // ---- checked signed operations -------------------------------------------------------

  method ToI64(w: Wide) returns (result: Option<I64>)
    ensures result == if Valid(w) && -HALF_WORD <= Value(w) < HALF_WORD then Some(Value(w)) else None
  {
    if !Valid(w) || w.high != 0 {
      return None;
    }
    if !w.negative {
      return if w.low > HALF_WORD - 1 then None else Some(w.low);
    }
    if w.low > HALF_WORD {
      return None;
    }
    if w.low == HALF_WORD {
      return Some(-HALF_WORD);
    }
    var magnitude: int := w.low;
    result := Some(-magnitude);
  }

  method ToU64(w: Wide) returns (result: Option<U64>)
    ensures result == if Valid(w) && 0 <= Value(w) < WORD then Some(Value(w)) else None
  {
    if !Valid(w) || w.negative || w.high != 0 {
      return None;
    }
    result := Some(w.low);
  }

  method Absolute(w: Wide) returns (result: Option<Wide>)
    ensures result == if Valid(w) then Checked(Abs(Value(w))) else None
  {
    if !Valid(w) {
      return None;
    }
    MakeIsCanonical(w, false);
    result := Some(Make(w.high, w.low, false));
  }

  method Negate(w: Wide) returns (result: Option<Wide>)
    ensures result == if Valid(w) then Checked(-Value(w)) else None
  {
    if !Valid(w) {
      return None;
    }
    MakeIsCanonical(w, !w.negative);
    result := Some(Make(w.high, w.low, !w.negative));
  }

  /** Adds operands of opposite signs: the larger magnitude lends its sign. */
  method AddOpposite(left: Wide, right: Wide) returns (sum: Wide)
    requires Valid(left) && Valid(right) && left.negative != right.negative
    ensures Fits(Value(left) + Value(right)) && sum == Encode(Value(left) + Value(right))
  {
    ValidFits(left);
    ValidFits(right);
    ZeroIsCanonical();
    hide Magnitude, Encode, Make, MagnitudeCompare, Valid;
    var comparison := MagnitudeCompare(left, right);
    if comparison == 0 {
      sum := ZERO;
    } else if comparison > 0 {
      var difference := MagnitudeSubtract(left, right);
      MakeIsCanonical(difference, left.negative);
      sum := Make(difference.high, difference.low, left.negative);
    } else {
      var difference := MagnitudeSubtract(right, left);
      MakeIsCanonical(difference, right.negative);
      sum := Make(difference.high, difference.low, right.negative);
    }
  }

  /** Adds operands of one sign. */
  method AddSameSign(left: Wide, right: Wide) returns (result: Option<Wide>)
    requires Valid(left) && Valid(right) && left.negative == right.negative
    ensures result == Checked(Value(left) + Value(right))
  {
    hide Magnitude, Encode, Make;
    var sum := MagnitudeAdd(left, right);
    if sum == None {
      return None;
    }
    MakeIsCanonical(sum.value, left.negative);
    result := Some(Make(sum.value.high, sum.value.low, left.negative));
  }

  method CheckedAdd(left: Wide, right: Wide) returns (result: Option<Wide>)
    ensures result == if Valid(left) && Valid(right) then Checked(Value(left) + Value(right)) else None
  {
    hide Magnitude, Encode;
    if !Valid(left) || !Valid(right) {
      return None;
    }
    if left.negative == right.negative {
      result := AddSameSign(left, right);
    } else {
      var sum := AddOpposite(left, right);
      result := Some(sum);
    }
  }

  method CheckedSubtract(left: Wide, right: Wide) returns (result: Option<Wide>)
    ensures result == if Valid(left) && Valid(right) then Checked(Value(left) - Value(right)) else None
  {
    var negated := Negate(right);
    if negated == None {
      return None;
    }
    result := CheckedAdd(left, negated.value);
  }

  method CheckedMultiply(left: Wide, right: Wide) returns (result: Option<Wide>)
    ensures result == if Valid(left) && Valid(right) then Checked(Value(left) * Value(right)) else None
  {
    if !Valid(left) || !Valid(right) {
      return None;
    }
    hide Magnitude, Encode, Make;
    SignOfProduct(left, right);
    var product := MagnitudeMultiply(left, right);
    if product == None {
      return None;
    }
    MakeIsCanonical(product.value, left.negative != right.negative);
    result := Some(Make(product.value.high, product.value.low, left.negative != right.negative));
  }

  lemma SignOfProduct(left: Wide, right: Wide)
    ensures var m := Magnitude(left) * Magnitude(right);
            m >= 0 && Value(left) * Value(right) == if left.negative != right.negative then -m else m
  {
    hide Magnitude;
  }

  /** Division truncating toward zero, as a relation between integers. */
  predicate Truncates(n: int, d: int, q: int, r: int) {
    n == q * d + r && Abs(r) < Abs(d) && (r == 0 || (r < 0 <==> n < 0))
  }

  lemma TruncationIsUnique(n: int, d: int, q: int, r: int, q': int, r': int)
    requires Truncates(n, d, q, r) && Truncates(n, d, q', r')
    ensures q == q' && r == r'
  {
    assert (q - q') * d == r' - r;
    if q != q' {
      assert Abs((q - q') * d) >= Abs(d) by {
        AbsTimes(q - q', d);
      }
    }
  }

  lemma AbsTimes(a: int, d: int)
    requires a != 0
    ensures Abs(a * d) >= Abs(d)
  {
    var x, y: int := Abs(a), Abs(d);
    MulAtLeast(x, y);
    assert a * d == x * y || a * d == -(x * y);
  }

  method Divide(numerator: Wide, denominator: Wide) returns (result: Option<(Wide, Wide)>)
    ensures result.Some? <==> Valid(numerator) && Valid(denominator) && Value(denominator) != 0
    ensures result.Some? ==>
              var (quotient, remainder) := result.value;
              && Valid(quotient) && Valid(remainder)
              && Truncates(Value(numerator), Value(denominator), Value(quotient), Value(remainder))
  {
    if !Valid(numerator) || !Valid(denominator) || IsZero(denominator) {
      return None;
    }
    var quotient, remainder := MagnitudeDivide(numerator, denominator);
    QuotientFits(Magnitude(numerator), Magnitude(denominator));
    result := Some((Make(quotient.high, quotient.low, numerator.negative != denominator.negative),
                    Make(remainder.high, remainder.low, numerator.negative)));
  }

  lemma QuotientFits(n: int, d: int)
    requires n >= 0 && d > 0
    ensures 0 <= n / d <= n && 0 <= n % d <= n
    ensures n == n / d * d + n % d && -n == (-(n / d)) * d - n % d
    ensures n == (-(n / d)) * (-d) + n % d && -n == (n / d) * (-d) - n % d
  {
    var q := n / d;
    assert (-q) * d == -(q * d) == q * (-d) && (-q) * (-d) == q * d;
    DivNonNegative(n, d);
  }

  lemma ZeroIsCanonical()
    ensures Encode(0) == ZERO
  {
  }

  lemma ZeroValue()
    ensures Valid(ZERO) && Value(ZERO) == 0
  {
  }

  lemma ValidFits(w: Wide)
    ensures Valid(w) ==> Fits(Value(w))
  {
  }
}
