/**
 What the bytes of a bit queue stand for.  The queue is a deque of bytes whose first and last
 bytes are partly filled; these functions give the bits it holds, and the lemmas say what
 or-ing into, shifting and dropping bytes does to them.
 */
module QueueBytes {
  import opened Words

  /** All bits of the bytes, front byte first, lowest bit of each byte first. */
  function Flat(bytes: seq<u8>): (s: seq<bool>)
    ensures |s| == 8 * |bytes|
  {
    if bytes == [] then [] else Bits(bytes[0], 8) + Flat(bytes[1..])
  }

  /** Two bytes at least, or the one-byte form that an exact drain leaves behind. */
  predicate Shape(bytes: seq<u8>, front: nat, back: nat)
  {
    front <= 8 && back <= 8 &&
    (|bytes| >= 2 || (|bytes| == 1 && front == 8 && back == 0))
  }

  /** The queued bits: the low bits of the front byte, the whole middle, the low bits of the back byte. */
  function Live(bytes: seq<u8>, front: nat, back: nat): (s: seq<bool>)
    requires Shape(bytes, front, back)
    ensures |s| == 8 * |bytes| - back - front
  {
    if |bytes| == 1 then []
    else Bits(bytes[0], 8 - front) + Flat(bytes[1..|bytes| - 1]) + Bits(bytes[|bytes| - 1], 8 - back)
  }

  /** What lies in the blank part of a byte whose high `blank` bits are unused. */
  function Stray(last: u8, blank: nat): (s: seq<bool>)
    requires blank <= 8
    ensures |s| == blank
  {
    Bits(last, 8)[8 - blank..]
  }

  function Zeros(n: nat): (s: seq<bool>)
    ensures |s| == n && forall i :: 0 <= i < n ==> !s[i]
  {
    seq(n, _ => false)
  }

  /** The low `n` bits of `data`, with `stray` or-ed over the lowest of them. */
  function Merge(data: nat, stray: seq<bool>, n: nat): (s: seq<bool>)
    ensures |s| == n
    ensures forall i :: 0 <= i < n ==> s[i] == (BitAt(data, i) || (i < |stray| && stray[i]))
  {
    seq(n, i requires 0 <= i < n => BitAt(data, i) || (i < |stray| && stray[i]))
  }

  lemma {:induction false} FlatConcat(a: seq<u8>, b: seq<u8>)
    ensures Flat(a + b) == Flat(a) + Flat(b)
  {
    if a == [] {
      assert a + b == b;
    } else {
      assert (a + b)[1..] == a[1..] + b;
      FlatConcat(a[1..], b);
    }
  }

  lemma FlatOne(x: u8)
    ensures Flat([x]) == Bits(x, 8)
  {
  }

  /** With the back byte full, everything after the front byte is whole bytes. */
  lemma LiveBackFull(bytes: seq<u8>, front: nat)
    requires |bytes| >= 2 && front <= 8
    ensures Live(bytes, front, 0) == Bits(bytes[0], 8 - front) + Flat(bytes[1..])
  {
    var n := |bytes|;
    assert bytes[1..] == bytes[1..n - 1] + [bytes[n - 1]];
    FlatConcat(bytes[1..n - 1], [bytes[n - 1]]);
    FlatOne(bytes[n - 1]);
  }

  /** With the back byte blank it contributes nothing. */
  lemma LiveBackBlank(bytes: seq<u8>, front: nat)
    requires |bytes| >= 2 && front <= 8
    ensures Live(bytes, front, 8) == Bits(bytes[0], 8 - front) + Flat(bytes[1..|bytes| - 1])
  {
  }

  predicate MergedByte(before: u8, after: u8, data: nat, full: nat)
    requires full < 8
  {
    forall i | 0 <= i < 8 :: BitAt(after, i) == (BitAt(before, i) || (i >= full && BitAt(data, i - full)))
  }

  /** Or-ing shifted data into a byte leaves its low `full` bits alone and ors the rest. */
  lemma OrIntoByte(byte: u8, data: nat, full: nat)
    requires full < 8
    ensures var r := Or(byte, AsU8(Shl(data, full, 64)));
            r < 256 && MergedByte(byte, r, data, full)
  {
    var shifted := AsU8(Shl(data, full, 64));
    var r := Or(byte, shifted);
    Pow2Eight();
    forall i: nat
      ensures i < 8 ==> BitAt(r, i) == (BitAt(byte, i) || (i >= full && BitAt(data, i - full)))
      ensures i >= 8 ==> !BitAt(r, i)
    {
      BitOfOr(byte, shifted, i);
      BitOfAsU8(Shl(data, full, 64), i);
      BitOfShl(data, full, 64, i);
      if i >= 8 { NoHighBits(byte, 8, i); }
    }
    BoundedByBits(r, 8);
  }

  lemma MergePlain(data: nat, stray: seq<bool>, n: nat)
    requires forall i :: 0 <= i < |stray| && i < n ==> !stray[i]
    ensures Merge(data, stray, n) == Bits(data, n)
  {
  }

  /** Merging in two goes, the second with the data shifted down, is merging in one. */
  lemma MergeShifted(data: nat, stray: seq<bool>, k: nat, n: nat)
    requires |stray| <= k
    ensures Merge(data, stray, k + n) == Merge(data, stray, k) + Bits(HighPart(data, k), n)
  {
    var whole, low, high := Merge(data, stray, k + n), Merge(data, stray, k), Bits(HighPart(data, k), n);
    forall i | 0 <= i < k + n ensures whole[i] == (low + high)[i] {
      if i >= k { BitOfHigh(data, k, i - k); }
    }
  }

  // What a queue amounts to

  /** The queued bits, oldest first, and what lies in the blank part of the back byte. */
  datatype Queue = Queue(live: seq<bool>, stray: seq<bool>)

  /** Blank bits in the back byte once a full one has been followed by a fresh one. */
  function Room(q: Queue): nat { if q.stray == [] then 8 else |q.stray| }

  function Min(a: nat, b: nat): nat { if a < b then a else b }

  /** Blank bits in the back byte after adding `count` bits. */
  function BlankAfter(back: nat, count: nat): (r: nat)
    requires back <= 8
    ensures 1 <= r <= 8
  {
    8 - (8 - back + count) % 8
  }

  /**
   Adding `count` bits: the bits appended are the low bits of the data or-ed with whatever lay
   in the blank of the back byte, and the blank is left holding the bits of that or which come next.
   */
  function Added(q: Queue, data: nat, count: nat): (r: Queue)
    requires |q.stray| <= 8
    ensures |r.stray| == BlankAfter(|q.stray|, count)
  {
    var blank := BlankAfter(|q.stray|, count);
    Queue(q.live + Merge(data, q.stray, count), Merge(data, q.stray, count + blank)[count..])
  }

  /** One or into the back byte. */
  function SomeAdded(q: Queue, data: nat, count: nat): Queue
  {
    var n := Min(count, Room(q));
    Queue(q.live + Merge(data, q.stray, n),
          if n < Room(q) then Merge(data, q.stray, Room(q))[n..] else Zeros(8))
  }

  /** Whole bytes pushed. */
  function BytesAdded(q: Queue, data: nat, count: nat): Queue
  {
    if count < 8 then q else Queue(q.live + Bits(data, 8 * (count / 8)), [])
  }

  /** On a clean queue the low bits of the data are appended; data that fits its count leaves the queue clean. */
  lemma AddedClean(q: Queue, data: nat, count: nat)
    requires |q.stray| <= 8 && q.stray == Zeros(|q.stray|)
    ensures Added(q, data, count).live == q.live + Bits(data, count)
    ensures data < Pow2(count) ==> Added(q, data, count).stray == Zeros(BlankAfter(|q.stray|, count))
  {
    MergePlain(data, q.stray, count);
    if data < Pow2(count) { MergeLeavesNothing(data, q.stray, count, BlankAfter(|q.stray|, count)); }
  }

  lemma AddedInStages(q: Queue, data: nat, count: nat)
    requires |q.stray| <= 8
    ensures var n := Min(count, Room(q));
            var m := 8 * ((count - n) / 8);
            var q1 := SomeAdded(q, data, count);
            var q2 := BytesAdded(q1, HighPart(data, n), count - n);
            && (count - n >= 8 ==> |q1.stray| == 8)
            && count - n - m < Room(q2)
            && Added(q, data, count) == SomeAdded(q2, HighPart(HighPart(data, n), m), count - n - m)
  {
    hide BitAt, Bits, Merge, HighPart;
    if count < Room(q) {
      AddedShort(q, data, count);
      HighOfNone(HighPart(data, count));
    } else {
      AddedLong(q, data, count);
    }
  }

  lemma AddedShort(q: Queue, data: nat, count: nat)
    requires |q.stray| <= 8 && count < Room(q)
    ensures Added(q, data, count) == SomeAdded(SomeAdded(q, data, count), HighPart(data, count), 0)
  {
    var room := Room(q);
    assert BlankAfter(|q.stray|, count) == room - count;
    var q1 := SomeAdded(q, data, count);
    var q2 := SomeAdded(q1, HighPart(data, count), 0);
    assert |q1.stray| == room - count;
    MergeTwice(data, q.stray, count, room);
    assert q2.stray == Merge(HighPart(data, count), q1.stray, room - count);
    assert q2.live == q1.live;
  }

  /** Or-ing what is left of the data once more changes nothing. */
  lemma MergeTwice(data: nat, stray: seq<bool>, k: nat, n: nat)
    requires k <= n
    ensures Merge(HighPart(data, k), Merge(data, stray, n)[k..], n - k) == Merge(data, stray, n)[k..]
  {
    var once := Merge(data, stray, n)[k..];
    var twice := Merge(HighPart(data, k), once, n - k);
    forall i | 0 <= i < n - k ensures twice[i] == once[i] { BitOfHigh(data, k, i); }
  }

  lemma BlankAfterLong(back: nat, room: nat, count: nat)
    requires back <= 8 && room == (if back == 0 then 8 else back) && count >= room
    ensures BlankAfter(back, count) == 8 - (count - room - 8 * ((count - room) / 8))
  {
  }

  lemma AddedLong(q: Queue, data: nat, count: nat)
    requires |q.stray| <= 8 && count >= Room(q)
    ensures var n := Room(q);
            var m := 8 * ((count - n) / 8);
            var q2 := BytesAdded(SomeAdded(q, data, count), HighPart(data, n), count - n);
            Added(q, data, count) == SomeAdded(q2, HighPart(HighPart(data, n), m), count - n - m)
  {
    hide BitAt, HighPart, Bits, Merge, Zeros, BlankAfter, Added, BytesAdded, SomeAdded;
    var n := Room(q);
    var m := 8 * ((count - n) / 8);
    BlankAfterLong(|q.stray|, n, count);
    var q2 := BytesAdded(SomeAdded(q, data, count), HighPart(data, n), count - n);
    AddedInTwo(q, data, n, count);
    AddedInThree(q, data, n, m, count - n - m, q2);
  }

  lemma AddedInTwo(q: Queue, data: nat, n: nat, count: nat)
    requires n == Room(q) && count >= n
    ensures var q2 := BytesAdded(SomeAdded(q, data, count), HighPart(data, n), count - n);
            && q2.live == q.live + Merge(data, q.stray, n) + Bits(HighPart(data, n), 8 * ((count - n) / 8))
            && (q2.stray == [] || q2.stray == Zeros(8))
  {
    hide BitAt, HighPart, Bits, Merge, Zeros;
    if count - n < 8 { assert Bits(HighPart(data, n), 0) == []; }
  }

  lemma AddedInThree(q: Queue, data: nat, n: nat, m: nat, k: nat, q2: Queue)
    requires |q.stray| <= 8 && n == Room(q) && k < 8 && BlankAfter(|q.stray|, n + m + k) == 8 - k
    requires q2.live == q.live + Merge(data, q.stray, n) + Bits(HighPart(data, n), m)
    requires q2.stray == [] || q2.stray == Zeros(8)
    ensures Added(q, data, n + m + k) == SomeAdded(q2, HighPart(HighPart(data, n), m), k)
  {
    hide BitAt, HighPart, Bits, Merge, BlankAfter;
    var high := HighPart(HighPart(data, n), m);
    MergedInThree(data, q.stray, n, m, k);
    MergePlain(high, q2.stray, k);
    MergePlain(high, q2.stray, 8);
    assert q2.live + Bits(high, k) == q.live + Merge(data, q.stray, n + m + k);
  }

  /** A merge taken apart at the end of the blank and at the last whole byte. */
  lemma MergedInThree(data: nat, stray: seq<bool>, n: nat, m: nat, k: nat)
    requires |stray| <= n && k <= 8
    ensures var high := HighPart(HighPart(data, n), m);
            && Merge(data, stray, n + m) == Merge(data, stray, n) + Bits(HighPart(data, n), m)
            && Merge(data, stray, n + m + k) == Merge(data, stray, n + m) + Bits(high, k)
            && Merge(data, stray, n + m + 8)[n + m + k..] == Bits(high, 8)[k..]
  {
    hide BitAt, HighPart, Bits, Merge;
    HighOfHigh(data, n, m);
    MergeShifted(data, stray, n, m);
    MergeShifted(data, stray, n + m, k);
    MergeShifted(data, stray, n + m, 8);
  }

  lemma MergeLeavesNothing(data: nat, stray: seq<bool>, count: nat, blank: nat)
    requires data < Pow2(count) && stray == Zeros(|stray|)
    ensures Merge(data, stray, count + blank)[count..] == Zeros(blank)
  {
    var merged := Merge(data, stray, count + blank);
    forall i | count <= i < |merged| ensures !merged[i] { NoHighBits(data, count, i); }
  }

  // Taking bits

  /** `data` holds the oldest `n` bits of `before`, and `after` is what remains. */
  predicate Drawn(before: seq<bool>, after: seq<bool>, data: nat, n: nat)
  {
    n <= |before| && data < Pow2(n) && Bits(data, n) == before[..n] && after == before[n..]
  }

  /** The same with the bits taken from position `k` on. */
  predicate DrawnAt(before: seq<bool>, after: seq<bool>, k: nat, data: nat, n: nat)
  {
    k + n <= |before| && data < Pow2(n) && Bits(data, n) == before[k..k + n] && after == before[..k] + before[k + n..]
  }

  lemma DrawnAtFront(before: seq<bool>, after: seq<bool>, k: nat, data: nat, n: nat)
    requires DrawnAt(before, after, k, data, n) && (k == 0 || n == 0)
    ensures Drawn(before, after, data, n)
  {
    hide Bits;
    assert before[..k] + before[k..] == before;
  }

  /** The blank part of the back byte was either dropped with its byte or padded with zeros. */
  predicate StrayShrunk(before: seq<bool>, after: seq<bool>)
  {
    after == [] || (|before| <= |after| && after == before + Zeros(|after| - |before|))
  }

  lemma DrawnFirst(before: seq<bool>, after: seq<bool>, data: nat, n: nat)
    requires Drawn(before, after, data, n) && n <= 64
    ensures Drawn(before, after, Or(0, Shl(data, 0, 64)), n)
  {
    Pow2Monotone(n, 64);
    LowOfSmall(data, 64);
  }

  lemma DrawnNext(before: seq<bool>, rest: seq<bool>, after: seq<bool>, low: nat, k: nat, high: nat, n: nat)
    requires Drawn(before, rest, low, k) && Drawn(rest, after, high, n) && k < 64 && k + n <= 64
    ensures Drawn(before, after, Or(low, Shl(high, k, 64)), k + n)
  {
    OrShifted(low, k, high, n, 64);
  }

  /** Bits put above the `k` lower ones, if there are any: a word already full is not shifted by its width. */
  function OrAbove(low: nat, k: nat, high: nat, n: nat): nat
    requires k + n <= 64
  {
    if n > 0 then Or(low, Shl(high, k, 64)) else low
  }

  lemma DrawnAbove(before: seq<bool>, rest: seq<bool>, after: seq<bool>, low: nat, k: nat, high: nat, n: nat)
    requires Drawn(before, rest, low, k) && Drawn(rest, after, high, n) && k + n <= 64
    ensures Drawn(before, after, OrAbove(low, k, high, n), k + n)
  {
    if n > 0 { DrawnNext(before, rest, after, low, k, high, n); }
  }

  lemma DrawnIsNum(before: seq<bool>, after: seq<bool>, data: nat, n: nat)
    requires Drawn(before, after, data, n) && n <= 64
    ensures data == Num(before[..n]) && data < 0x1_0000_0000_0000_0000
  {
    NumOfBits(data, n);
    Pow2Monotone(n, 64);
    Pow2SixtyFour();
  }

  lemma ShrunkZeros(before: seq<bool>, after: seq<bool>)
    requires StrayShrunk(before, after) && before == Zeros(|before|)
    ensures after == Zeros(|after|)
  {
  }

  lemma OnesFitByte(ones: nat, n: nat)
    requires n <= 8 && ones == Pow2(n) - 1
    ensures AsU8(ones) == ones
  {
    Pow2Monotone(n, 8);
    LowOfSmall(ones, 8);
  }

  /** `x & (low_order_ones(n) as u8)`. */
  function MaskByte(x: u8, n: nat): (r: nat)
    requires n <= 8
    ensures r < Pow2(n) && Bits(r, n) == Bits(x, n)
  {
    OnesFitByte(LowOrderOnes(n), n);
    Masked(x, n);
    And(x, AsU8(LowOrderOnes(n)))
  }

  function ShrByte(x: u8, n: nat): (r: u8)
    requires n < 8
    ensures forall i: nat :: BitAt(r, i) == BitAt(x, i + n)
  {
    HighPartSmaller(x, n);
    assert forall i: nat :: BitAt(HighPart(x, n), i) == BitAt(x, i + n) by {
      forall i: nat ensures BitAt(HighPart(x, n), i) == BitAt(x, i + n) { BitOfHigh(x, n, i); }
    }
    Shr(x, n, 8)
  }

  lemma FrontByteNext(bytes: seq<u8>, back: nat)
    requires |bytes| > 2 && back <= 8
    ensures Live(bytes, 8, back) == Live(bytes[1..], 0, back)
  {
    var n := |bytes|;
    assert bytes[1..n - 1] == [bytes[1]] + bytes[2..n - 1];
    assert bytes[1..][1..n - 2] == bytes[2..n - 1];
  }

  lemma ByteShifted(x: u8, back: nat, taken: nat)
    requires taken < 8 && taken <= 8 - back
    ensures var y: u8 := ShrByte(x, taken);
            && Bits(x, taken) == Bits(x, 8 - back)[..taken]
            && Bits(y, 8 - back - taken) == Bits(x, 8 - back)[taken..]
            && Stray(y, back + taken) == Stray(x, back) + Zeros(taken)
  {
    Pow2Eight();
    forall i | 8 <= i < 8 + taken ensures !BitAt(x, i) { NoHighBits(x, 8, i); }
  }

  lemma FrontByteShifted(bytes: seq<u8>, shifted: seq<u8>, front: nat, back: nat, taken: nat)
    requires |bytes| >= 2 && back <= 8 && 1 <= taken <= 8 - front
    requires shifted == bytes[0 := if taken < 8 then ShrByte(bytes[0], taken) else 0]
    ensures Bits(bytes[0], taken) == Live(bytes, front, back)[..taken]
    ensures Live(shifted, front + taken, back) == Live(bytes, front, back)[taken..]
  {
    hide BitAt, Bits, Pow2, Flat, ShrByte, Stray;
    assert shifted[1..|bytes| - 1] == bytes[1..|bytes| - 1];
    if taken < 8 { ByteShifted(bytes[0], front, taken); }
    assert Bits(shifted[0], 8 - front - taken) == Bits(bytes[0], 8 - front)[taken..];
  }

  /** Where the bits of the back byte start among the queued ones. */
  function BackStart(bytes: seq<u8>, front: nat, back: nat): (k: nat)
    requires Shape(bytes, front, back)
    ensures k <= |Live(bytes, front, back)|
  {
    if |bytes| == 1 then 0 else 8 * (|bytes| - 1) - front
  }

  lemma BackByteShifted(bytes: seq<u8>, shifted: seq<u8>, front: nat, back: nat, taken: nat)
    requires Shape(bytes, front, back) && taken < 8 && taken <= 8 - back
    requires taken > 0 ==> |bytes| >= 2
    requires shifted == bytes[|bytes| - 1 := ShrByte(bytes[|bytes| - 1], taken)]
    ensures var live, k := Live(bytes, front, back), BackStart(bytes, front, back);
            && k + taken <= |live| && Bits(bytes[|bytes| - 1], taken) == live[k..k + taken]
            && Live(shifted, front, back + taken) == live[..k] + live[k + taken..]
    ensures Stray(shifted[|bytes| - 1], back + taken) == Stray(bytes[|bytes| - 1], back) + Zeros(taken)
  {
    hide Bits, BitAt, Pow2, Flat, ShrByte, Stray;
    var n, x := |bytes|, bytes[|bytes| - 1];
    ByteShifted(x, back, taken);
    if n >= 2 {
      assert shifted[1..n - 1] == bytes[1..n - 1];
      var ahead := Bits(bytes[0], 8 - front) + Flat(bytes[1..n - 1]);
      assert |ahead| == BackStart(bytes, front, back);
      assert Live(bytes, front, back) == ahead + Bits(x, 8 - back);
    }
  }

  /** Bytes all of whose bits are queued, but for the blank of the last one. */
  function Whole(bytes: seq<u8>, back: nat): seq<bool>
    requires back <= 8
  {
    if bytes == [] then [] else Flat(bytes[..|bytes| - 1]) + Bits(bytes[|bytes| - 1], 8 - back)
  }

  lemma LiveIsWhole(bytes: seq<u8>, front: nat, back: nat)
    requires Shape(bytes, front, back)
    requires front == 0 || front == 8
    ensures Live(bytes, front, back) == if front == 0 then Whole(bytes, back) else Whole(bytes[1..], back)
  {
    var n := |bytes|;
    if front == 0 {
      assert bytes[..n - 1] == [bytes[0]] + bytes[1..n - 1];
    } else if n >= 2 {
      assert bytes[1..][..n - 2] == bytes[1..n - 1];
    }
  }

  lemma WholeSplit(bytes: seq<u8>, back: nat, k: nat)
    requires |bytes| >= 1 && back <= 8 && 8 * k <= 8 * |bytes| - back
    ensures Whole(bytes, back) == Flat(bytes[..k]) + Whole(bytes[k..], back)
  {
    hide BitAt, Bits, Flat;
    var n := |bytes|;
    if k == n {
      assert bytes[..n] == bytes[..n - 1] + [bytes[n - 1]];
      FlatConcat(bytes[..n - 1], [bytes[n - 1]]);
      FlatOne(bytes[n - 1]);
    } else {
      assert bytes[..n - 1] == bytes[..k] + bytes[k..n - 1];
      FlatConcat(bytes[..k], bytes[k..n - 1]);
      assert bytes[k..][..n - k - 1] == bytes[k..n - 1];
      var last := Bits(bytes[n - 1], 8 - back);
      assert Flat(bytes[..k]) + Flat(bytes[k..n - 1]) + last == Flat(bytes[..k]) + (Flat(bytes[k..n - 1]) + last);
    }
  }

  lemma WholeDropped(bytes: seq<u8>, back: nat, k: nat)
    requires |bytes| >= 1 && back <= 8 && 8 * k <= 8 * |bytes| - back
    ensures 8 * k <= |Whole(bytes, back)|
    ensures Whole(bytes, back)[..8 * k] == Flat(bytes[..k])
    ensures Whole(bytes, back)[8 * k..] == Whole(bytes[k..], back)
  {
    WholeSplit(bytes, back, k);
  }

  lemma ByteAbove(bytes: seq<u8>, k: nat, data: nat)
    requires k < |bytes| && 8 * k + 8 <= 64 && data < Pow2(8 * k) && Bits(data, 8 * k) == Flat(bytes[..k])
    ensures var r := Or(data, Shl(bytes[k], 8 * k, 64));
            r < Pow2(8 * k + 8) && Bits(r, 8 * k + 8) == Flat(bytes[..k + 1])
  {
    hide BitAt, Pow2, Or, Shl;
    Pow2Eight();
    OrShifted(data, 8 * k, bytes[k], 8, 64);
    assert bytes[..k + 1] == bytes[..k] + [bytes[k]];
    FlatConcat(bytes[..k], [bytes[k]]);
    FlatOne(bytes[k]);
  }

  /** The lowest byte of a word, as the program masks it out. */
  function LowByte(x: nat): (r: u8)
    ensures Bits(r, 8) == Bits(x, 8)
  {
    Masked(x, 8);
    Pow2Eight();
    And(x, LowOrderOnes(8))
  }

  lemma NextByteAppended(first: seq<u8>, bytes: seq<u8>, next: u8, data: nat, done: nat)
    requires |first| >= 1 && |bytes| >= 1 && Bits(next, 8) == Bits(HighPart(data, done), 8)
    requires Flat(bytes[1..]) == Flat(first[1..]) + Bits(data, done)
    ensures Flat((bytes + [next])[1..]) == Flat(first[1..]) + Bits(data, done + 8)
    ensures Shr(HighPart(data, done), 8, 64) == HighPart(data, done + 8)
  {
    hide BitAt, HighPart, Bits, Merge;
    assert (bytes + [next])[1..] == bytes[1..] + [next];
    FlatConcat(bytes[1..], [next]);
    FlatOne(next);
    MergeShifted(data, [], done, 8);
    MergePlain(data, [], done);
    MergePlain(data, [], done + 8);
    HighOfHigh(data, done, 8);
  }

  lemma MergeZeros(data: nat, a: seq<bool>, b: seq<bool>)
    requires a == b || (a == [] && b == Zeros(|b|))
    ensures forall n: nat :: Merge(data, a, n) == Merge(data, b, n)
  {
  }

  /** The back byte after the or: `added` more bits are live, the remaining blank holds the rest of the merge. */
  lemma BackByteBits(before: u8, after: u8, data: nat, room: nat, added: nat)
    requires 1 <= room <= 8 && added <= room && MergedByte(before, after, data, 8 - room)
    ensures Bits(after, 8 - room + added) == Bits(before, 8 - room) + Merge(data, Stray(before, room), added)
    ensures Stray(after, room - added) == Merge(data, Stray(before, room), room)[added..]
  {
  }

  /** The or into the back byte, as seen on the whole queue. */
  lemma BackByteMerged(bytes: seq<u8>, merged: u8, front: nat, back: nat, data: nat, added: nat)
    requires |bytes| >= 2 && front <= 8 && 1 <= back <= 8 && added <= back
    requires MergedByte(bytes[|bytes| - 1], merged, data, 8 - back)
    ensures var stray, after := Stray(bytes[|bytes| - 1], back), bytes[..|bytes| - 1] + [merged];
            && Live(after, front, back - added) == Live(bytes, front, back) + Merge(data, stray, added)
            && Stray(merged, back - added) == Merge(data, stray, back)[added..]
  {
    hide Bits, BitAt, Flat, Merge, Stray, MergedByte;
    var last := |bytes| - 1;
    BackByteBits(bytes[last], merged, data, back, added);
    assert (bytes[..last] + [merged])[1..last] == bytes[1..last];
  }
}
