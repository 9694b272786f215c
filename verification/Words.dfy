/**
 Machine words as natural numbers, with the bitwise operators the program applies to them.
 A word is read least significant bit first: `BitAt(x, 0)` is the lowest bit of `x`.
 */
module Words {

  type u8 = x: nat | x < 256

  type u64 = x: nat | x < 0x1_0000_0000_0000_0000

  datatype Option<+T> = None | Some(value: T)

  function Pow2(n: nat): (p: nat)
    ensures p >= 1
  {
    if n == 0 then 1 else 2 * Pow2(n - 1)
  }

  predicate BitAt(x: nat, i: nat)
    decreases i
  {
    if i == 0 then x % 2 == 1 else BitAt(x / 2, i - 1)
  }

  /** The low `n` bits of `x`, lowest first. */
  function Bits(x: nat, n: nat): (s: seq<bool>)
    ensures |s| == n
    ensures forall i :: 0 <= i < n ==> s[i] == BitAt(x, i)
  {
    seq(n, i requires 0 <= i < n => BitAt(x, i))
  }

  function BoolToNat(b: bool): nat { if b then 1 else 0 }

  /** The number whose bits, lowest first, are `s`. */
  function Num(s: seq<bool>): nat
  {
    if s == [] then 0 else BoolToNat(s[0]) + 2 * Num(s[1..])
  }

  /** Bitwise or. */
  function Or(x: nat, y: nat): nat
    decreases x
  {
    if x == 0 then y
    else if y == 0 then x
    else 2 * Or(x / 2, y / 2) + BoolToNat(x % 2 == 1 || y % 2 == 1)
  }

  /** Bitwise and. */
  function And(x: nat, y: nat): nat
    decreases x
  {
    if x == 0 || y == 0 then 0
    else 2 * And(x / 2, y / 2) + BoolToNat(x % 2 == 1 && y % 2 == 1)
  }

  /** `x` with `k` zero bits put below it: `x * 2^k`. */
  function Raised(x: nat, k: nat): nat
  {
    if k == 0 then x else 2 * Raised(x, k - 1)
  }

  /** The low `k` bits of `x`, as a number: `x % 2^k`. */
  function LowPart(x: nat, k: nat): nat
    decreases k
  {
    if k == 0 then 0 else x % 2 + 2 * LowPart(x / 2, k - 1)
  }

  /** What is left of `x` above its low `k` bits: `x / 2^k`. */
  function HighPart(x: nat, k: nat): nat
    decreases k
  {
    if k == 0 then x else HighPart(x / 2, k - 1)
  }

  /** `x << k` in a word of `width` bits: the shift must stay below the width, and the top falls off. */
  function Shl(x: nat, k: nat, width: nat): nat
    requires k < width
  {
    LowPart(Raised(x, k), width)
  }

  /** `x >> k` in a word of `width` bits. */
  function Shr(x: nat, k: nat, width: nat): nat
    requires k < width
  {
    HighPart(x, k)
  }

  /** A cast to eight bits. */
  function AsU8(x: nat): u8
  {
    PartsMakeWhole(x, 8);
    Pow2Eight();
    LowPart(x, 8)
  }

  /** `!(MAX << count)` in a word of `width` bits. */
  function OnesBelow(count: nat, width: nat): (m: nat)
    requires count < width
    ensures m == Pow2(count) - 1
  {
    LowOfRaisedOnes(width, count, width);
    Pow2(width) - 1 - Shl(Pow2(width) - 1, count, width)
  }

  /** `!(u64::MAX << count)`. */
  function LowOrderOnes(count: nat): (m: nat)
    requires count < 64
    ensures m == Pow2(count) - 1
  {
    OnesBelow(count, 64)
  }

  // Powers of two

  lemma {:induction false} Pow2Add(a: nat, b: nat)
    ensures Pow2(a + b) == Pow2(a) * Pow2(b)
    decreases b
  {
    if b == 0 {
    } else {
      Pow2Add(a, b - 1);
      assert Pow2(a + b) == 2 * (Pow2(a) * Pow2(b - 1));
      assert Pow2(a) * (2 * Pow2(b - 1)) == 2 * (Pow2(a) * Pow2(b - 1));
    }
  }

  lemma {:induction false} Pow2Monotone(a: nat, b: nat)
    requires a <= b
    ensures Pow2(a) <= Pow2(b)
    decreases b - a
  {
    if a < b { Pow2Monotone(a, b - 1); }
  }

  lemma Pow2Eight()
    ensures Pow2(8) == 256
  {
  }

  lemma Pow2SixtyFour()
    ensures Pow2(64) == 0x1_0000_0000_0000_0000
  {
    hide Pow2;
    Pow2Eight();
    Pow2Add(8, 8);
    Pow2Add(16, 16);
    Pow2Add(32, 32);
  }

  lemma {:induction false} HighOfHigh(x: nat, a: nat, b: nat)
    ensures HighPart(HighPart(x, a), b) == HighPart(x, a + b)
    decreases a
  {
    if a > 0 { HighOfHigh(x / 2, a - 1, b); }
  }

  lemma HighOfNone(x: nat)
    ensures HighPart(x, 0) == x
  {
  }

  lemma {:induction false} HighPartSmaller(x: nat, k: nat)
    ensures HighPart(x, k) <= x
    decreases k
  {
    if k > 0 { HighPartSmaller(x / 2, k - 1); }
  }

  // Division

  lemma MulMonotone(a: int, b: int, d: nat)
    requires a <= b
    ensures a * d <= b * d
  {
  }

  lemma QuotientUnique(q: int, r: int, q': int, r': int, d: nat)
    requires q * d + r == q' * d + r'
    requires 0 <= r < d && 0 <= r' < d
    ensures q == q' && r == r'
  {
    if q > q' {
      MulMonotone(q' + 1, q, d);
    } else if q < q' {
      MulMonotone(q + 1, q', d);
    }
  }

  /** Division and remainder of a number written as quotient and remainder. */
  lemma DivModUnique(q: nat, r: nat, d: nat)
    requires r < d
    ensures (q * d + r) / d == q && (q * d + r) % d == r
  {
    var n := q * d + r;
    assert n == (n / d) * d + n % d;
    QuotientUnique(q, r, n / d, n % d, d);
  }

  lemma DivModWhole(v: nat, d: nat)
    requires d > 0
    ensures (v / d) * d + v % d == v
  {
  }

  lemma QuotientBelow(v: nat, p: nat, d: nat)
    requires d > 0 && v < p * d
    ensures v / d < p
  {
    if v / d >= p { MulMonotone(p, v / d, d); }
  }

  // Single bits of the operators

  lemma {:induction false} BitOfZero(i: nat)
    ensures !BitAt(0, i)
  {
    if i > 0 { BitOfZero(i - 1); }
  }

  lemma {:induction false} BitOfOr(x: nat, y: nat, i: nat)
    ensures BitAt(Or(x, y), i) == (BitAt(x, i) || BitAt(y, i))
    decreases i
  {
    BitOfZero(i);
    if i > 0 && x != 0 && y != 0 { BitOfOr(x / 2, y / 2, i - 1); }
  }

  lemma {:induction false} BitOfAnd(x: nat, y: nat, i: nat)
    ensures BitAt(And(x, y), i) == (BitAt(x, i) && BitAt(y, i))
    decreases i
  {
    BitOfZero(i);
    if i > 0 && x != 0 && y != 0 { BitOfAnd(x / 2, y / 2, i - 1); }
  }

  lemma {:induction false} BitOfRaised(x: nat, k: nat, i: nat)
    ensures BitAt(Raised(x, k), i) == (i >= k && BitAt(x, i - k))
    decreases i
  {
    if k > 0 && i > 0 { BitOfRaised(x, k - 1, i - 1); }
  }

  lemma {:induction false} BitOfHigh(x: nat, k: nat, i: nat)
    ensures BitAt(HighPart(x, k), i) == BitAt(x, i + k)
    decreases k
  {
    if k > 0 { BitOfHigh(x / 2, k - 1, i); }
  }

  lemma {:induction false} BitOfLow(x: nat, k: nat, i: nat)
    ensures BitAt(LowPart(x, k), i) == (i < k && BitAt(x, i))
    decreases k
  {
    if k == 0 {
      BitOfZero(i);
    } else if i > 0 {
      BitOfLow(x / 2, k - 1, i - 1);
    }
  }

  lemma BitOfShl(x: nat, k: nat, width: nat, i: nat)
    requires k < width
    ensures BitAt(Shl(x, k, width), i) == (k <= i < width && BitAt(x, i - k))
  {
    BitOfLow(Raised(x, k), width, i);
    BitOfRaised(x, k, i);
  }

  lemma BitOfAsU8(x: nat, i: nat)
    ensures BitAt(AsU8(x), i) == (i < 8 && BitAt(x, i))
  {
    hide BitAt, LowPart;
    BitOfLow(x, 8, i);
  }

  lemma {:induction false} NoHighBits(x: nat, k: nat, i: nat)
    requires x < Pow2(k) && k <= i
    ensures !BitAt(x, i)
    decreases k
  {
    if k == 0 {
      BitOfZero(i);
    } else {
      NoHighBits(x / 2, k - 1, i - 1);
    }
  }

  /** A word whose bits from `n` up are all zero is below `2^n`. */
  lemma {:induction false} BoundedByBits(x: nat, n: nat)
    requires forall i :: n <= i ==> !BitAt(x, i)
    ensures x < Pow2(n)
    decreases n, x
  {
    forall i | (if n == 0 then 0 else n - 1) <= i
      ensures !BitAt(x / 2, i)
    {
      assert BitAt(x / 2, i) == BitAt(x, i + 1);
    }
    if n > 0 {
      BoundedByBits(x / 2, n - 1);
    } else if x > 0 {
      assert !BitAt(x, 0);
      BoundedByBits(x / 2, 0);
    }
  }

  lemma {:induction false} SameBitsSameWord(x: nat, y: nat, n: nat)
    requires x < Pow2(n) && y < Pow2(n)
    requires Bits(x, n) == Bits(y, n)
    ensures x == y
    decreases n
  {
    if n > 0 {
      assert Bits(x, n)[0] == Bits(y, n)[0];
      forall i | 0 <= i < n - 1
        ensures BitAt(x / 2, i) == BitAt(y / 2, i)
      {
        assert Bits(x, n)[i + 1] == Bits(y, n)[i + 1];
        assert BitAt(x, i + 1) == BitAt(x / 2, i) && BitAt(y, i + 1) == BitAt(y / 2, i);
      }
      assert Bits(x / 2, n - 1) == Bits(y / 2, n - 1);
      SameBitsSameWord(x / 2, y / 2, n - 1);
    }
  }

  /** The parts are the quotient and the remainder by a power of two. */
  lemma {:induction false} PartsMakeWhole(x: nat, k: nat)
    ensures x == Pow2(k) * HighPart(x, k) + LowPart(x, k) && LowPart(x, k) < Pow2(k)
    decreases k
  {
    if k > 0 {
      PartsMakeWhole(x / 2, k - 1);
      assert Pow2(k) * HighPart(x, k) == 2 * (Pow2(k - 1) * HighPart(x / 2, k - 1));
    }
  }

  lemma {:induction false} RaisedIsProduct(x: nat, k: nat)
    ensures Raised(x, k) == x * Pow2(k)
  {
    if k > 0 {
      RaisedIsProduct(x, k - 1);
      assert x * (2 * Pow2(k - 1)) == 2 * (x * Pow2(k - 1));
    }
  }

  /** Or-ing a small number under a raised one adds it. */
  lemma {:induction false} OrOfRaised(x: nat, k: nat, low: nat)
    requires low < Pow2(k)
    ensures Or(Raised(x, k), low) == Raised(x, k) + low
    decreases k
  {
    if k > 0 && low > 0 && Raised(x, k) > 0 {
      assert Raised(x, k) / 2 == Raised(x, k - 1);
      OrOfRaised(x, k - 1, low / 2);
    }
  }

  // Numbers and bit strings

  lemma {:induction false} NumBound(s: seq<bool>)
    ensures Num(s) < Pow2(|s|)
  {
    if s != [] { NumBound(s[1..]); }
  }

  lemma {:induction false} BitOfNum(s: seq<bool>, i: nat)
    requires i < |s|
    ensures BitAt(Num(s), i) == s[i]
    decreases i
  {
    assert Num(s) / 2 == Num(s[1..]);
    if i > 0 { BitOfNum(s[1..], i - 1); }
  }

  lemma BitsOfNum(s: seq<bool>)
    ensures Bits(Num(s), |s|) == s
  {
    forall i | 0 <= i < |s| ensures Bits(Num(s), |s|)[i] == s[i] { BitOfNum(s, i); }
  }

  lemma NumOfBits(x: nat, n: nat)
    requires x < Pow2(n)
    ensures Num(Bits(x, n)) == x
  {
    NumBound(Bits(x, n));
    BitsOfNum(Bits(x, n));
    SameBitsSameWord(Num(Bits(x, n)), x, n);
  }

  /** `low | high << k` puts the bits of `high` right above the `k` bits of `low`. */
  lemma OrShifted(low: nat, k: nat, high: nat, n: nat, width: nat)
    requires low < Pow2(k) && high < Pow2(n) && k < width && k + n <= width
    ensures var r := Or(low, Shl(high, k, width));
            r < Pow2(k + n) && Bits(r, k + n) == Bits(low, k) + Bits(high, n)
  {
    hide BitAt, Or, Shl, Pow2;
    var r := Or(low, Shl(high, k, width));
    forall i: nat
      ensures BitAt(r, i) == if i < k then BitAt(low, i) else i < k + n && BitAt(high, i - k)
    {
      BitOfOr(low, Shl(high, k, width), i);
      BitOfShl(high, k, width, i);
      if i >= k { NoHighBits(low, k, i); }
      if i >= k + n { NoHighBits(high, n, i - k); }
    }
    BoundedByBits(r, k + n);
  }

  lemma HalfOfOnes(k: nat)
    requires k > 0
    ensures (Pow2(k) - 1) / 2 == Pow2(k - 1) - 1 && (Pow2(k) - 1) % 2 == 1
  {
    var p := Pow2(k - 1);
    assert Pow2(k) == 2 * p;
  }

  lemma {:induction false} BitOfOnes(k: nat, i: nat)
    ensures BitAt(Pow2(k) - 1, i) == (i < k)
    decreases k
  {
    if k == 0 {
      BitOfZero(i);
    } else {
      HalfOfOnes(k);
      if i > 0 { BitOfOnes(k - 1, i - 1); }
    }
  }

  lemma {:induction false} LowOfSmall(x: nat, k: nat)
    requires x < Pow2(k)
    ensures LowPart(x, k) == x
    decreases k
  {
    if k > 0 { LowOfSmall(x / 2, k - 1); }
  }

  /** The low `k` bits of enough ones raised by `count`. */
  lemma {:induction false} LowOfRaisedOnes(width: nat, count: nat, k: nat)
    requires count <= k <= width
    ensures LowPart(Raised(Pow2(width) - 1, count), k) == Pow2(k) - Pow2(count)
    decreases k
  {
    if count > 0 {
      assert Raised(Pow2(width) - 1, count) / 2 == Raised(Pow2(width) - 1, count - 1);
      LowOfRaisedOnes(width, count - 1, k - 1);
    } else if k > 0 {
      LowOfOnes(width, k);
    }
  }

  lemma {:induction false} LowOfOnes(width: nat, k: nat)
    requires k <= width
    ensures LowPart(Pow2(width) - 1, k) == Pow2(k) - 1
    decreases k
  {
    if k > 0 {
      HalfOfOnes(width);
      LowOfOnes(width - 1, k - 1);
    }
  }

  /** Masking with `LowOrderOnes(count)` keeps exactly the low `count` bits. */
  lemma Masked(x: nat, count: nat)
    requires count < 64
    ensures And(x, LowOrderOnes(count)) < Pow2(count)
    ensures Bits(And(x, LowOrderOnes(count)), count) == Bits(x, count)
  {
    hide BitAt, And, Pow2;
    var m := And(x, Pow2(count) - 1);
    forall i: nat ensures BitAt(m, i) == (i < count && BitAt(x, i)) {
      BitOfAnd(x, Pow2(count) - 1, i);
      BitOfOnes(count, i);
    }
    BoundedByBits(m, count);
  }
}
