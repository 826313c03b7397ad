/**
 The machine integers of the firmware, and the few facts about division and powers of
 two that the limb arithmetic needs.  Every wrap-around is written out as `% WORD`.
 */
module Words {
  const WORD: int := 0x1_0000_0000_0000_0000
  const HALF_WORD: int := 0x8000_0000_0000_0000
  const WORD32: int := 0x1_0000_0000

  type U64 = x: int | 0 <= x < 0x1_0000_0000_0000_0000
  type I64 = x: int | -0x8000_0000_0000_0000 <= x < 0x8000_0000_0000_0000
  type U32 = x: int | 0 <= x < 0x1_0000_0000
  type I32 = x: int | -0x8000_0000 <= x < 0x8000_0000

  datatype Option<+T> = None | Some(value: T)

  function Abs(x: int): nat {
    if x < 0 then -x else x
  }

  /** The sum of two words as the processor forms it. */
  function WrapAdd(a: U64, b: U64): (r: U64)
    ensures r == if a + b < WORD then a + b else a + b - WORD
  {
    (a + b) % WORD
  }

  function WrapSub(a: U64, b: U64): (r: U64)
    ensures r == if a >= b then a - b else a - b + WORD
  {
    (a - b) % WORD
  }

  function Pow2(n: nat): (p: int)
    ensures p >= 1
  {
    if n == 0 then 1 else 2 * Pow2(n - 1)
  }

  lemma {:induction false} Pow2Add(a: nat, b: nat)
    ensures Pow2(a + b) == Pow2(a) * Pow2(b)
  {
    if a != 0 {
      Pow2Add(a - 1, b);
      assert 2 * (Pow2(a - 1) * Pow2(b)) == (2 * Pow2(a - 1)) * Pow2(b);
    }
  }

  lemma Pow2Double(a: nat, p: int)
    requires Pow2(a) == p
    ensures Pow2(2 * a) == p * p
  {
    Pow2Add(a, a);
  }

  lemma Pow2Word()
    ensures Pow2(64) == WORD && Pow2(63) == HALF_WORD && Pow2(128) == WORD * WORD
    ensures Pow2(32) == WORD32
  {
    assert Pow2(8) == 256;
    assert Pow2(64) == 2 * Pow2(63);
    hide Pow2;
    Pow2Double(8, 256);
    Pow2Double(16, 0x1_0000);
    Pow2Double(32, WORD32);
    Pow2Double(64, WORD);
  }

  lemma MulAtLeast(k: int, d: int)
    requires k >= 1 && d >= 0
    ensures k * d >= d
  {
    assert (k - 1) * d >= 0;
    assert (k - 1) * d == k * d - d;
  }

  lemma MulAtMost(x: int, y: int, d: int)
    requires x <= y && d >= 0
    ensures x * d <= y * d
  {
    assert (y - x) * d >= 0;
    assert (y - x) * d == y * d - x * d;
  }

  lemma MulCancel(x: int, y: int, r: int, d: int)
    requires x * d <= y * d + r && r < d && d > 0
    ensures x <= y
  {
    assert (x - y) * d == x * d - y * d;
    if x - y >= 1 {
      MulAtLeast(x - y, d);
    }
  }

  lemma EuclidUnique(d: int, q: int, r: int, q': int, r': int)
    requires q * d + r == q' * d + r' && 0 <= r < d && 0 <= r' < d
    ensures q == q' && r == r'
  {
    assert (q - q') * d == q * d - q' * d;
    assert (q' - q) * d == q' * d - q * d;
    if q' < q {
      MulAtLeast(q - q', d);
    } else if q < q' {
      MulAtLeast(q' - q, d);
    }
  }

  lemma DivUnique(x: int, d: int, q: int, r: int)
    requires d > 0 && x == q * d + r && 0 <= r < d
    ensures x / d == q && x % d == r
  {
    EuclidUnique(d, q, r, x / d, x % d);
  }

  /** Dividing in two stages is dividing by the product. */
  lemma DivDiv(x: int, a: int, b: int)
    requires a > 0 && b > 0
    ensures a * b > 0 && x / a / b == x / (a * b)
  {
    var q, r := x / a, x % a;
    var q', r' := q / b, q % b;
    calc {
      x;
      q * a + r;
      (q' * b + r') * a + r;
      q' * (a * b) + (r' * a + r);
    }
    MulAtMost(r', b - 1, a);
    assert (b - 1) * a == a * b - a;
    DivUnique(x, a * b, q', r' * a + r);
  }

  lemma DivAddMultiple(k: int, d: int, x: int)
    requires d > 0
    ensures (k * d + x) / d == k + x / d && (k * d + x) % d == x % d
  {
    DivUnique(k * d + x, d, k + x / d, x % d);
  }

  lemma DivMonotone(x: int, y: int, d: int)
    requires d > 0 && x <= y
    ensures x / d <= y / d
  {
    assert x / d * d <= y / d * d + y % d;
    MulCancel(x / d, y / d, y % d, d);
  }

  lemma DivNonNegative(x: int, d: int)
    requires x >= 0 && d > 0
    ensures 0 <= x / d <= x && 0 <= x % d <= x
  {
    DivMonotone(0, x, d);
    DivUnique(0, d, 0, 0);
    assert x == x / d * d + x % d;
    if x / d > 0 {
      MulAtLeast(d, x / d);
      assert d * (x / d) == x / d * d;
    }
  }

  /** Reduction may be dropped from either side of a difference that is itself reduced. */
  lemma ModMinus(a: int, b: int, m: int)
    requires m > 0
    ensures (a % m - b) % m == (a - b) % m
    ensures (a - b % m) % m == (a - b) % m
  {
    DivAddMultiple(a / m, m, a % m - b);
    assert a - b == a / m * m + (a % m - b);
    DivAddMultiple(-(b / m), m, a - b % m);
    assert a - b == -(b / m) * m + (a - b % m);
  }
}
