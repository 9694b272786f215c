/**
 IP addresses of both families as lists of segments, the integers they stand for, and the
 wrapping arithmetic on them.
 */
module Addresses {
  import opened Words

  /** IPv4: four segments of eight bits.  IPv6: eight segments of sixteen bits. */
  datatype Family = V4 | V6
  {
    function SegmentCount(): nat { if V4? then 4 else 8 }

    function SegmentBits(): nat { if V4? then 8 else 16 }

    /** One more than the largest segment. */
    function Base(): nat { if V4? then 0x100 else 0x1_0000 }

    /** Bits of the unsigned integer an address converts to. */
    function Width(): nat { if V4? then 32 else 128 }

    /** The number of addresses. */
    function Space(): nat {
      if V4? then 0x1_0000_0000 else 0x1_0000_0000_0000_0000_0000_0000_0000_0000
    }
  }

  type Ip = seq<nat>

  predicate AllBelow(digits: seq<nat>, base: nat)
  {
    forall i :: 0 <= i < |digits| ==> digits[i] < base
  }

  predicate IsIp(f: Family, ip: Ip)
  {
    |ip| == f.SegmentCount() && AllBelow(ip, f.Base())
  }

  // Positional notation, most significant digit first

  function BigEndian(digits: seq<nat>, base: nat): nat
  {
    if digits == [] then 0
    else BigEndian(digits[..|digits| - 1], base) * base + digits[|digits| - 1]
  }

  function Digits(v: nat, n: nat, base: nat): (d: seq<nat>)
    requires base > 0
    ensures |d| == n && AllBelow(d, base)
    decreases n
  {
    if n == 0 then [] else Digits(v / base, n - 1, base) + [v % base]
  }

  function Power(base: nat, n: nat): nat
  {
    if n == 0 then 1 else Power(base, n - 1) * base
  }

  lemma {:induction false} BigEndianBound(digits: seq<nat>, base: nat)
    requires base > 0 && AllBelow(digits, base)
    ensures BigEndian(digits, base) < Power(base, |digits|)
  {
    if digits != [] {
      var n := |digits|;
      BigEndianBound(digits[..n - 1], base);
      var high, p := BigEndian(digits[..n - 1], base), Power(base, n - 1);
      MulMonotone(high + 1, p, base);
      assert high * base + base <= p * base;
    }
  }

  lemma {:induction false} DigitsOfBigEndian(digits: seq<nat>, base: nat)
    requires base > 0 && AllBelow(digits, base)
    ensures Digits(BigEndian(digits, base), |digits|, base) == digits
  {
    if digits != [] {
      var n := |digits|;
      DivModUnique(BigEndian(digits[..n - 1], base), digits[n - 1], base);
      DigitsOfBigEndian(digits[..n - 1], base);
    }
  }

  lemma {:induction false} BigEndianOfDigits(v: nat, n: nat, base: nat)
    requires base > 0 && v < Power(base, n)
    ensures BigEndian(Digits(v, n, base), base) == v
    decreases n
  {
    if n > 0 {
      QuotientBelow(v, Power(base, n - 1), base);
      BigEndianOfDigits(v / base, n - 1, base);
      var d := Digits(v, n, base);
      assert d[..n - 1] == Digits(v / base, n - 1, base) && d[n - 1] == v % base;
      DivModWhole(v, base);
    }
  }

  // The integer an address stands for

  function Value(f: Family, ip: Ip): nat
  {
    BigEndian(ip, f.Base())
  }

  function FromValue(f: Family, v: nat): (ip: Ip)
    ensures IsIp(f, ip)
  {
    Digits(v, f.SegmentCount(), f.Base())
  }

  lemma SpaceIsPower(f: Family)
    ensures f.Space() == Power(f.Base(), f.SegmentCount())
  {
    var b := f.Base();
    assert Power(b, 1) == b;
    assert Power(b, 2) == b * b;
    assert Power(b, 4) == b * b * b * b;
    if f.V6? {
      assert Power(b, 6) == Power(b, 4) * b * b;
      assert Power(b, 8) == Power(b, 6) * b * b;
    }
  }

  lemma ValueBound(f: Family, ip: Ip)
    requires IsIp(f, ip)
    ensures Value(f, ip) < f.Space()
  {
    SpaceIsPower(f);
    BigEndianBound(ip, f.Base());
  }

  lemma ValueOfFromValue(f: Family, v: nat)
    requires v < f.Space()
    ensures Value(f, FromValue(f, v)) == v
  {
    SpaceIsPower(f);
    BigEndianOfDigits(v, f.SegmentCount(), f.Base());
  }

  lemma FromValueOfValue(f: Family, ip: Ip)
    requires IsIp(f, ip)
    ensures FromValue(f, Value(f, ip)) == ip
  {
    DigitsOfBigEndian(ip, f.Base());
  }

  lemma SameValueSameIp(f: Family, a: Ip, b: Ip)
    requires IsIp(f, a) && IsIp(f, b)
    ensures a == b <==> Value(f, a) == Value(f, b)
  {
    FromValueOfValue(f, a);
    FromValueOfValue(f, b);
  }

  // Wrapping arithmetic

  function PlusOne(f: Family, ip: Ip): (r: Ip)
    ensures IsIp(f, r)
  {
    FromValue(f, (Value(f, ip) + 1) % f.Space())
  }

  function MinusOne(f: Family, ip: Ip): (r: Ip)
    ensures IsIp(f, r)
  {
    FromValue(f, (Value(f, ip) + f.Space() - 1) % f.Space())
  }

  function MaxIp(f: Family): (ip: Ip)
    ensures IsIp(f, ip)
  {
    seq(f.SegmentCount(), _ => f.Base() - 1)
  }

  function MinIp(f: Family): (ip: Ip)
    ensures IsIp(f, ip)
  {
    seq(f.SegmentCount(), _ => 0)
  }

  /** The address the very first block start is compared against: one below the maximum. */
  function BeforeFirst(f: Family): (ip: Ip)
    ensures IsIp(f, ip)
  {
    MaxIp(f)[f.SegmentCount() - 1 := f.Base() - 2]
  }

  lemma WrapUp(v: nat, space: nat)
    requires v < space
    ensures (v + 1) % space == if v == space - 1 then 0 else v + 1
  {
    if v < space - 1 { DivModUnique(0, v + 1, space); } else { DivModUnique(1, 0, space); }
  }

  lemma WrapDown(v: nat, space: nat)
    requires v < space
    ensures (v + space - 1) % space == if v == 0 then space - 1 else v - 1
  {
    if v > 0 { DivModUnique(1, v - 1, space); } else { DivModUnique(0, space - 1, space); }
  }

  lemma PlusOneValue(f: Family, ip: Ip)
    requires IsIp(f, ip)
    ensures Value(f, PlusOne(f, ip)) == if Value(f, ip) == f.Space() - 1 then 0 else Value(f, ip) + 1
  {
    hide Value, FromValue, Family.Space;
    ValueBound(f, ip);
    WrapUp(Value(f, ip), f.Space());
    ValueOfFromValue(f, (Value(f, ip) + 1) % f.Space());
  }

  lemma MinusOneValue(f: Family, ip: Ip)
    requires IsIp(f, ip)
    ensures Value(f, MinusOne(f, ip)) == if Value(f, ip) == 0 then f.Space() - 1 else Value(f, ip) - 1
  {
    hide Value, FromValue, Family.Space;
    ValueBound(f, ip);
    WrapDown(Value(f, ip), f.Space());
    ValueOfFromValue(f, (Value(f, ip) + f.Space() - 1) % f.Space());
  }

  /** The two steps undo each other everywhere, the wrap at either end included. */
  lemma StepsInverse(f: Family, ip: Ip)
    requires IsIp(f, ip)
    ensures MinusOne(f, PlusOne(f, ip)) == ip && PlusOne(f, MinusOne(f, ip)) == ip
  {
    PlusOneValue(f, ip);
    MinusOneValue(f, PlusOne(f, ip));
    MinusOneValue(f, ip);
    PlusOneValue(f, MinusOne(f, ip));
    ValueBound(f, ip);
    SameValueSameIp(f, MinusOne(f, PlusOne(f, ip)), ip);
    SameValueSameIp(f, PlusOne(f, MinusOne(f, ip)), ip);
  }

  lemma {:induction false} TopDigits(digits: seq<nat>, base: nat)
    requires base > 0 && forall i :: 0 <= i < |digits| ==> digits[i] == base - 1
    ensures BigEndian(digits, base) == Power(base, |digits|) - 1
  {
    if digits != [] {
      var n := |digits|;
      TopDigits(digits[..n - 1], base);
      assert (Power(base, n - 1) - 1) * base == Power(base, n - 1) * base - base;
    }
  }

  lemma {:induction false} ZeroDigits(digits: seq<nat>, base: nat)
    requires forall i :: 0 <= i < |digits| ==> digits[i] == 0
    ensures BigEndian(digits, base) == 0
  {
    if digits != [] { ZeroDigits(digits[..|digits| - 1], base); }
  }

  lemma EndValues(f: Family)
    ensures Value(f, MinIp(f)) == 0
    ensures Value(f, MaxIp(f)) == f.Space() - 1
    ensures Value(f, BeforeFirst(f)) == f.Space() - 2
  {
    SpaceIsPower(f);
    ZeroDigits(MinIp(f), f.Base());
    TopDigits(MaxIp(f), f.Base());
    var n := f.SegmentCount();
    assert BeforeFirst(f)[..n - 1] == MaxIp(f)[..n - 1];
  }

  // The fold over octets by which the program makes that integer

  function Octets(f: Family, ip: Ip): (o: seq<nat>)
  {
    if f.V4? then ip else SplitSegments(ip)
  }

  /** Each sixteen-bit segment as its high and its low byte. */
  function SplitSegments(segments: seq<nat>): (o: seq<nat>)
    ensures |o| == 2 * |segments|
  {
    if segments == [] then []
    else
      var last := segments[|segments| - 1];
      SplitSegments(segments[..|segments| - 1]) + [last / 256, last % 256]
  }

  lemma {:induction false} SplitSegmentsBelow(segments: seq<nat>)
    requires AllBelow(segments, 0x1_0000)
    ensures AllBelow(SplitSegments(segments), 256)
  {
    if segments != [] { SplitSegmentsBelow(segments[..|segments| - 1]); }
  }

  lemma {:induction false} SplitSegmentsValue(segments: seq<nat>)
    ensures BigEndian(SplitSegments(segments), 256) == BigEndian(segments, 0x1_0000)
  {
    if segments != [] {
      var last := segments[|segments| - 1];
      var front := SplitSegments(segments[..|segments| - 1]);
      SplitSegmentsValue(segments[..|segments| - 1]);
      assert (front + [last / 256, last % 256])[..|front| + 1] == front + [last / 256];
      assert (front + [last / 256])[..|front|] == front;
      assert BigEndian(front + [last / 256], 256) == BigEndian(front, 256) * 256 + last / 256;
    }
  }

  lemma OctetsFacts(f: Family, ip: Ip)
    requires IsIp(f, ip)
    ensures var o := Octets(f, ip);
            8 * |o| == f.Width() && AllBelow(o, 256) && BigEndian(o, 256) == Value(f, ip)
  {
    if f.V6? {
      SplitSegmentsBelow(ip);
      SplitSegmentsValue(ip);
    }
  }

  lemma {:induction false} PowerOfBytes(n: nat)
    ensures Power(256, n) == Pow2(8 * n)
  {
    if n > 0 {
      PowerOfBytes(n - 1);
      Pow2Eight();
      Pow2Add(8 * (n - 1), 8);
    }
  }

  /** Shifting a word up by a byte and or-ing an octet in, in a word wide enough, is one Horner step. */
  lemma OctetStep(octets: seq<nat>, i: nat, width: nat)
    requires AllBelow(octets, 256) && 8 * |octets| == width && i < |octets| && 8 < width
    ensures var v := BigEndian(octets[..i], 256);
            Or(Shl(v, 8, width), octets[i]) == BigEndian(octets[..i + 1], 256)
  {
    hide Or, LowPart, Raised, Pow2;
    var v := BigEndian(octets[..i], 256);
    Pow2Eight();
    RaisedIsProduct(v, 8);
    BigEndianBound(octets[..i], 256);
    PowerOfBytes(i);
    Pow2Add(8 * i, 8);
    Pow2Monotone(8 * i + 8, width);
    LowOfSmall(v * 256, width);
    OrOfRaised(v, 8, octets[i]);
    assert octets[..i + 1][..i] == octets[..i];
  }

  method IntegerFromIp(f: Family, ip: Ip) returns (data: nat)
    requires IsIp(f, ip)
    ensures data == Value(f, ip)
  {
    hide Octets, Or, Shl, Value;
    var octets := Octets(f, ip);
    OctetsFacts(f, ip);
    data := 0;
    for i := 0 to |octets|
      invariant data == BigEndian(octets[..i], 256)
    {
      OctetStep(octets, i, f.Width());
      data := Shl(data, 8, f.Width());
      data := Or(data, octets[i]);
    }
    assert octets[..|octets|] == octets;
  }
}
