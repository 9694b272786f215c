/**
 The compressed stream: what bits a list of records is written as, and what records and
 blocks a bit string is read as.  Records carry a block's start address and its country;
 a start address is written as the segments in which it differs from the one before.
 */
module Format {
  import opened Words
  import opened Addresses

  const COUNTRY_BITS := 9

  datatype Difference = Difference(index: nat, value: nat)

  /** A block start as it travels in the stream. */
  datatype Record = Record(start: Ip, country: nat)

  /** A block of addresses, both ends included. */
  datatype Block = Block(start: Ip, end: Ip, country: nat)

  /** Bits of the difference count and of a segment index. */
  function IndexBits(f: Family): nat { if f.V4? then 2 else 3 }

  // Difference coding

  /** The segments from position `i` on in which `to` differs from `from`. */
  function DifferencesFrom(from: Ip, to: Ip, i: nat): (d: seq<Difference>)
    requires |from| == |to|
    ensures |d| <= if i <= |from| then |from| - i else 0
    decreases |from| - i
  {
    if i >= |from| then []
    else if to[i] == from[i] then DifferencesFrom(from, to, i + 1)
    else [Difference(i, to[i])] + DifferencesFrom(from, to, i + 1)
  }

  function Differences(from: Ip, to: Ip): (d: seq<Difference>)
    requires |from| == |to|
  {
    DifferencesFrom(from, to, 0)
  }

  predicate DifferencesFit(f: Family, d: seq<Difference>)
  {
    forall i :: 0 <= i < |d| ==> d[i].index < f.SegmentCount() && d[i].value < f.Base()
  }

  /** The segments after writing the differences over them. */
  function Applied(segments: Ip, d: seq<Difference>): (r: Ip)
    requires forall i :: 0 <= i < |d| ==> d[i].index < |segments|
    ensures |r| == |segments|
    decreases |d|
  {
    if d == [] then segments else Applied(segments[d[0].index := d[0].value], d[1..])
  }

  lemma {:induction false} DifferencesFromFit(f: Family, from: Ip, to: Ip, i: nat)
    requires IsIp(f, from) && IsIp(f, to)
    ensures DifferencesFit(f, DifferencesFrom(from, to, i))
    ensures DifferencesFrom(from, to, i) == [] <==> (i >= |from| || from[i..] == to[i..])
    decreases |from| - i
  {
    if i < |from| {
      DifferencesFromFit(f, from, to, i + 1);
      assert from[i..] == [from[i]] + from[i + 1..] && to[i..] == [to[i]] + to[i + 1..];
    }
  }

  lemma {:induction false} AppliedFrom(f: Family, from: Ip, to: Ip, i: nat)
    requires IsIp(f, from) && IsIp(f, to) && i <= |from|
    requires from[..i] == to[..i]
    ensures DifferencesFit(f, DifferencesFrom(from, to, i))
    ensures Applied(from, DifferencesFrom(from, to, i)) == to
    decreases |from| - i
  {
    DifferencesFromFit(f, from, to, i);
    if i == |from| {
    } else if to[i] == from[i] {
      assert from[..i + 1] == from[..i] + [from[i]] && to[..i + 1] == to[..i] + [to[i]];
      AppliedFrom(f, from, to, i + 1);
    } else {
      var next := from[i := to[i]];
      assert next[..i + 1] == from[..i] + [to[i]] && to[..i + 1] == to[..i] + [to[i]];
      DifferencesIgnoreFront(from, next, to, i + 1);
      AppliedFrom(f, next, to, i + 1);
      assert DifferencesFrom(from, to, i)[1..] == DifferencesFrom(from, to, i + 1);
    }
  }

  lemma {:induction false} DifferencesIgnoreFront(a: Ip, b: Ip, to: Ip, i: nat)
    requires |a| == |b| == |to| && i <= |a| && a[i..] == b[i..]
    ensures DifferencesFrom(a, to, i) == DifferencesFrom(b, to, i)
    decreases |a| - i
  {
    if i < |a| {
      assert a[i] == a[i..][0] && b[i] == b[i..][0];
      assert a[i + 1..] == a[i..][1..] && b[i + 1..] == b[i..][1..];
      DifferencesIgnoreFront(a, b, to, i + 1);
    }
  }

  /** Applying the differences between two addresses to the first gives the second. */
  lemma DifferencesInvert(f: Family, from: Ip, to: Ip)
    requires IsIp(f, from) && IsIp(f, to)
    ensures DifferencesFit(f, Differences(from, to))
    ensures Applied(from, Differences(from, to)) == to
    ensures |Differences(from, to)| <= f.SegmentCount()
    ensures Differences(from, to) == [] <==> from == to
  {
    AppliedFrom(f, from, to, 0);
    DifferencesFromFit(f, from, to, 0);
    assert from[0..] == from && to[0..] == to;
  }

  /** The positions from `i` on in which two addresses differ. */
  function DifferingFrom(from: Ip, to: Ip, i: nat): (s: set<nat>)
    requires |from| == |to|
  {
    set k: nat | i <= k < |from| && from[k] != to[k]
  }

  function Differing(from: Ip, to: Ip): (s: set<nat>)
    requires |from| == |to|
  {
    DifferingFrom(from, to, 0)
  }

  /** One difference for each position from `i` on that differs, holding the new segment, and no other. */
  predicate ListsDiffering(from: Ip, to: Ip, i: nat, d: seq<Difference>)
    requires |from| == |to|
  {
    && (forall k :: 0 <= k < |d| ==>
          i <= d[k].index < |from| && from[d[k].index] != to[d[k].index] && d[k].value == to[d[k].index])
    && (forall k, m :: 0 <= k < m < |d| ==> d[k].index < d[m].index)
    && (forall k :: i <= k < |from| && from[k] != to[k] ==> Difference(k, to[k]) in d)
  }

  lemma ListsDifferingCons(from: Ip, to: Ip, i: nat, d: seq<Difference>)
    requires |from| == |to| && i < |from| && ListsDiffering(from, to, i + 1, d)
    ensures from[i] == to[i] ==> ListsDiffering(from, to, i, d)
    ensures from[i] != to[i] ==> ListsDiffering(from, to, i, [Difference(i, to[i])] + d)
  {
    var e := [Difference(i, to[i])] + d;
    forall k | i <= k < |from| && from[k] != to[k] ensures Difference(k, to[k]) in e {
      if k == i {
        assert e[0] == Difference(k, to[k]);
      } else {
        var m :| 0 <= m < |d| && d[m] == Difference(k, to[k]);
        assert e[m + 1] == d[m];
      }
    }
  }

  lemma DifferingStep(from: Ip, to: Ip, i: nat)
    requires |from| == |to| && i < |from|
    ensures |DifferingFrom(from, to, i)| == |DifferingFrom(from, to, i + 1)| + if from[i] == to[i] then 0 else 1
  {
    if from[i] == to[i] {
      assert DifferingFrom(from, to, i) == DifferingFrom(from, to, i + 1);
    } else {
      assert DifferingFrom(from, to, i) == {i} + DifferingFrom(from, to, i + 1);
    }
  }

  lemma {:induction false} DifferencesFromExact(from: Ip, to: Ip, i: nat)
    requires |from| == |to|
    ensures ListsDiffering(from, to, i, DifferencesFrom(from, to, i))
    ensures |DifferencesFrom(from, to, i)| == |DifferingFrom(from, to, i)|
    decreases |from| - i
  {
    if i >= |from| {
      assert DifferingFrom(from, to, i) == {};
    } else {
      hide ListsDiffering, DifferingFrom;
      DifferencesFromExact(from, to, i + 1);
      ListsDifferingCons(from, to, i, DifferencesFrom(from, to, i + 1));
      DifferingStep(from, to, i);
    }
  }

  /** The differences are the segments that differ, each once, in order, with the values they change to. */
  lemma DifferencesExact(from: Ip, to: Ip)
    requires |from| == |to|
    ensures ListsDiffering(from, to, 0, Differences(from, to))
    ensures |Differences(from, to)| == |Differing(from, to)|
  {
    DifferencesFromExact(from, to, 0);
  }

  // Writing

  function EncodeDifferences(f: Family, d: seq<Difference>): (bits: seq<bool>)
  {
    if d == [] then []
    else Bits(d[0].index, IndexBits(f)) + Bits(d[0].value, f.SegmentBits()) + EncodeDifferences(f, d[1..])
  }

  /** Difference count minus one, the differences, the country. */
  function RecordBits(f: Family, d: seq<Difference>, country: nat): (bits: seq<bool>)
    requires d != []
  {
    Bits(|d| - 1, IndexBits(f)) + EncodeDifferences(f, d) + Bits(country, COUNTRY_BITS)
  }

  function EncodeRecord(f: Family, prevStart: Ip, r: Record): (bits: seq<bool>)
    requires IsIp(f, prevStart) && IsIp(f, r.start) && prevStart != r.start
  {
    var d := Differences(prevStart, r.start);
    DifferencesInvert(f, prevStart, r.start);
    RecordBits(f, d, r.country)
  }

  /** A record whose country fits its field. */
  predicate WellFormed(f: Family, r: Record)
  {
    IsIp(f, r.start) && r.country < 512
  }

  /** Every start differs from the one before, as each record must hold at least one difference. */
  predicate Writable(f: Family, prevStart: Ip, records: seq<Record>)
    decreases |records|
  {
    IsIp(f, prevStart) &&
    (records == [] ||
     (IsIp(f, records[0].start) && prevStart != records[0].start &&
      Writable(f, records[0].start, records[1..])))
  }

  function EncodeRecords(f: Family, prevStart: Ip, records: seq<Record>): (bits: seq<bool>)
    requires Writable(f, prevStart, records)
    decreases |records|
  {
    if records == [] then []
    else EncodeRecord(f, prevStart, records[0]) + EncodeRecords(f, records[0].start, records[1..])
  }

  lemma {:induction false} EncodeDifferencesSize(f: Family, d: seq<Difference>)
    ensures |EncodeDifferences(f, d)| == |d| * (IndexBits(f) + f.SegmentBits())
  {
    if d != [] { EncodeDifferencesSize(f, d[1..]); }
  }

  /** A record takes 11 + 10k bits (IPv4) or 12 + 19k bits (IPv6) for the k segments in which its start differs. */
  lemma RecordSize(f: Family, prevStart: Ip, r: Record)
    requires IsIp(f, prevStart) && IsIp(f, r.start) && prevStart != r.start
    ensures var k := |Differing(prevStart, r.start)|;
            && 1 <= k <= f.SegmentCount()
            && |EncodeRecord(f, prevStart, r)| == if f.V4? then 11 + 10 * k else 12 + 19 * k
  {
    DifferencesInvert(f, prevStart, r.start);
    DifferencesExact(prevStart, r.start);
    EncodeDifferencesSize(f, Differences(prevStart, r.start));
  }

  /** How many segments change along a list of records, in all. */
  function DifferenceTotal(prevStart: Ip, records: seq<Record>): nat
    requires forall i :: 0 <= i < |records| ==> |records[i].start| == |prevStart|
    decreases |records|
  {
    if records == [] then 0
    else |Differing(prevStart, records[0].start)| + DifferenceTotal(records[0].start, records[1..])
  }

  lemma {:induction false} WritableLengths(f: Family, prevStart: Ip, records: seq<Record>)
    requires Writable(f, prevStart, records)
    ensures forall i :: 0 <= i < |records| ==> |records[i].start| == |prevStart|
    decreases |records|
  {
    if records != [] {
      WritableLengths(f, records[0].start, records[1..]);
      forall i | 0 <= i < |records| ensures |records[i].start| == |prevStart| {
        if i > 0 { assert records[i] == records[1..][i - 1]; }
      }
    }
  }

  /** The exact size of a stream: 11 bits a record and 10 a changed segment (IPv4), 12 and 19 (IPv6). */
  lemma {:induction false} StreamSizeExact(f: Family, prevStart: Ip, records: seq<Record>)
    requires Writable(f, prevStart, records)
    ensures forall i :: 0 <= i < |records| ==> |records[i].start| == |prevStart|
    ensures |EncodeRecords(f, prevStart, records)|
            == if f.V4? then 11 * |records| + 10 * DifferenceTotal(prevStart, records)
               else 12 * |records| + 19 * DifferenceTotal(prevStart, records)
    decreases |records|
  {
    hide EncodeRecord, Differing;
    WritableLengths(f, prevStart, records);
    if records != [] {
      RecordSize(f, prevStart, records[0]);
      StreamSizeExact(f, records[0].start, records[1..]);
    }
  }

  lemma {:induction false} StreamSize(f: Family, prevStart: Ip, records: seq<Record>)
    requires Writable(f, prevStart, records)
    ensures var n := |EncodeRecords(f, prevStart, records)|;
            if f.V4? then 21 * |records| <= n <= 51 * |records| else 31 * |records| <= n <= 164 * |records|
    decreases |records|
  {
    if records != [] {
      RecordSize(f, prevStart, records[0]);
      StreamSize(f, records[0].start, records[1..]);
    }
  }

  // Reading

  /**
   Up to `count` differences.  A field that the stream is too short for is skipped, as is the
   difference it belongs to, and the reader goes on to the next one.
   */
  function ReadDifferences(f: Family, bits: seq<bool>, count: nat): (r: (seq<Difference>, seq<bool>))
    ensures |r.0| <= count && |r.1| <= |bits|
    ensures |r.0| == count ==> |bits| == |r.1| + count * (IndexBits(f) + f.SegmentBits())
    decreases count
  {
    if count == 0 then ([], bits)
    else if |bits| < IndexBits(f) then ReadDifferences(f, bits, count - 1)
    else
      var index, rest := Num(bits[..IndexBits(f)]), bits[IndexBits(f)..];
      if |rest| < f.SegmentBits() then ReadDifferences(f, rest, count - 1)
      else
        var value := Num(rest[..f.SegmentBits()]);
        var (d, left) := ReadDifferences(f, rest[f.SegmentBits()..], count - 1);
        ([Difference(index, value)] + d, left)
  }

  lemma FieldBounds(f: Family)
    ensures Pow2(IndexBits(f)) == f.SegmentCount() && Pow2(f.SegmentBits()) == f.Base() && Pow2(COUNTRY_BITS) == 512
  {
    assert Pow2(4) == 16;
    Pow2Add(4, 4);
    Pow2Add(8, 8);
  }

  lemma {:induction false} ReadDifferencesFit(f: Family, bits: seq<bool>, count: nat)
    ensures DifferencesFit(f, ReadDifferences(f, bits, count).0)
    decreases count
  {
    if count == 0 {
    } else if |bits| < IndexBits(f) {
      ReadDifferencesFit(f, bits, count - 1);
    } else {
      var rest := bits[IndexBits(f)..];
      if |rest| < f.SegmentBits() {
        ReadDifferencesFit(f, rest, count - 1);
      } else {
        ReadDifferencesFit(f, rest[f.SegmentBits()..], count - 1);
        NumBound(bits[..IndexBits(f)]);
        NumBound(rest[..f.SegmentBits()]);
        FieldBounds(f);
      }
    }
  }

  /** Differences are read exactly as written, and all of them exactly when there are bits enough. */
  lemma {:induction false} ReadDifferencesExact(f: Family, bits: seq<bool>, count: nat)
    ensures var (d, rest) := ReadDifferences(f, bits, count);
            && (|d| == count <==> |bits| >= count * (IndexBits(f) + f.SegmentBits()))
            && (|d| == count ==> bits == EncodeDifferences(f, d) + rest)
    decreases count
  {
    if count > 0 && |bits| >= IndexBits(f) + f.SegmentBits() {
      var more := bits[IndexBits(f)..][f.SegmentBits()..];
      ReadDifferencesExact(f, more, count - 1);
      DifferenceRead(f, bits, count);
    }
  }

  lemma DifferenceRead(f: Family, bits: seq<bool>, count: nat)
    requires count > 0 && |bits| >= IndexBits(f) + f.SegmentBits()
    ensures var more := bits[IndexBits(f)..][f.SegmentBits()..];
            var (d, left) := ReadDifferences(f, more, count - 1);
            var (all, rest) := ReadDifferences(f, bits, count);
            && rest == left && |all| == |d| + 1
            && (more == EncodeDifferences(f, d) + left ==> bits == EncodeDifferences(f, all) + left)
  {
    hide Num, Bits;
    var index, rest := bits[..IndexBits(f)], bits[IndexBits(f)..];
    var value, more := rest[..f.SegmentBits()], rest[f.SegmentBits()..];
    BitsOfNum(index);
    BitsOfNum(value);
    var (d, left) := ReadDifferences(f, more, count - 1);
    var all := [Difference(Num(index), Num(value))] + d;
    EncodedCons(f, all[0], d);
    hide EncodeDifferences, ReadDifferences;
    assert bits == index + value + more;
    assert index + value + (EncodeDifferences(f, d) + left) == index + value + EncodeDifferences(f, d) + left;
  }

  lemma EncodedCons(f: Family, first: Difference, d: seq<Difference>)
    ensures EncodeDifferences(f, [first] + d)
            == Bits(first.index, IndexBits(f)) + Bits(first.value, f.SegmentBits()) + EncodeDifferences(f, d)
  {
    hide Bits;
    assert ([first] + d)[1..] == d;
  }

  lemma {:induction false} AppliedIsIp(f: Family, segments: Ip, d: seq<Difference>)
    requires IsIp(f, segments) && DifferencesFit(f, d)
    ensures IsIp(f, Applied(segments, d))
    decreases |d|
  {
    if d != [] { AppliedIsIp(f, segments[d[0].index := d[0].value], d[1..]); }
  }

  /** One record off the front of the stream, and the stream after the attempt. */
  function ReadRecord(f: Family, bits: seq<bool>, prevStart: Ip): (r: (Option<Record>, seq<bool>))
    requires IsIp(f, prevStart)
    ensures |r.1| <= |bits|
    ensures r.0.Some? ==> WellFormed(f, r.0.value) && |bits| >= |r.1| + (if f.V4? then 21 else 31)
  {
    if |bits| < IndexBits(f) then (None, bits)
    else
      var count := Num(bits[..IndexBits(f)]) + 1;
      var (d, rest) := ReadDifferences(f, bits[IndexBits(f)..], count);
      ReadDifferencesFit(f, bits[IndexBits(f)..], count);
      AppliedIsIp(f, prevStart, d);
      if |d| < count then (None, rest)
      else if |rest| < COUNTRY_BITS then (None, rest)
      else
        NumBound(rest[..COUNTRY_BITS]);
        FieldBounds(f);
        assert count * (IndexBits(f) + f.SegmentBits()) >= IndexBits(f) + f.SegmentBits();
        (Some(Record(Applied(prevStart, d), Num(rest[..COUNTRY_BITS]))), rest[COUNTRY_BITS..])
  }

  lemma RecordPieces(f: Family, bits: seq<bool>, d: seq<Difference>, rest: seq<bool>)
    requires d != [] && |bits| >= IndexBits(f) && |rest| >= COUNTRY_BITS && |d| == Num(bits[..IndexBits(f)]) + 1
    requires bits[IndexBits(f)..] == EncodeDifferences(f, d) + rest
    ensures bits == RecordBits(f, d, Num(rest[..COUNTRY_BITS])) + rest[COUNTRY_BITS..]
  {
    hide Num, Bits, EncodeDifferences;
    BitsOfNum(bits[..IndexBits(f)]);
    BitsOfNum(rest[..COUNTRY_BITS]);
    assert bits == bits[..IndexBits(f)] + (EncodeDifferences(f, d) + (rest[..COUNTRY_BITS] + rest[COUNTRY_BITS..]));
  }

  /** The bits there must be for a record to be read. */
  predicate RecordComplete(f: Family, bits: seq<bool>)
  {
    && |bits| >= IndexBits(f)
    && |bits| >= IndexBits(f) + (Num(bits[..IndexBits(f)]) + 1) * (IndexBits(f) + f.SegmentBits()) + COUNTRY_BITS
  }

  /**
   Any bits, well written or not: a record is read exactly when there are as many bits as its count
   calls for, and what is read and what is left together are the bits there were.
   */
  lemma ReadRecordExact(f: Family, bits: seq<bool>, prevStart: Ip)
    requires IsIp(f, prevStart)
    ensures var (r, rest) := ReadRecord(f, bits, prevStart);
            && (r.Some? <==> RecordComplete(f, bits))
            && (r.Some? ==>
                  exists d :: && d != [] && DifferencesFit(f, d)
                              && bits == RecordBits(f, d, r.value.country) + rest
                              && r.value.start == Applied(prevStart, d))
  {
    hide Num, Bits, EncodeDifferences, ReadDifferences, Applied, RecordBits;
    if |bits| >= IndexBits(f) {
      var tail, count := bits[IndexBits(f)..], Num(bits[..IndexBits(f)]) + 1;
      var (d, rest) := ReadDifferences(f, tail, count);
      ReadDifferencesFit(f, tail, count);
      ReadDifferencesExact(f, tail, count);
      if |d| == count && |rest| >= COUNTRY_BITS { RecordPieces(f, bits, d, rest); }
    }
  }

  /** The last difference for a segment decides, and a segment without one stays. */
  lemma {:induction false} AppliedExact(segments: Ip, d: seq<Difference>, i: nat)
    requires i < |segments| && forall k :: 0 <= k < |d| ==> d[k].index < |segments|
    ensures (forall k :: 0 <= k < |d| ==> d[k].index != i) ==> Applied(segments, d)[i] == segments[i]
    ensures forall k :: 0 <= k < |d| && d[k].index == i && (forall m :: k < m < |d| ==> d[m].index != i) ==>
                          Applied(segments, d)[i] == d[k].value
    decreases |d|
  {
    if d != [] {
      var rest := d[1..];
      AppliedExact(segments[d[0].index := d[0].value], rest, i);
      forall k | 0 <= k < |d| && d[k].index == i && (forall m :: k < m < |d| ==> d[m].index != i)
        ensures Applied(segments, d)[i] == d[k].value
      {
        if k > 0 { assert rest[k - 1] == d[k]; }
      }
    }
  }

  /** All the records a stream holds, up to the first that is not complete. */
  function ReadRecords(f: Family, bits: seq<bool>, prevStart: Ip): (r: seq<Record>)
    requires IsIp(f, prevStart)
    ensures forall i :: 0 <= i < |r| ==> WellFormed(f, r[i])
    decreases |bits|
  {
    var (record, rest) := ReadRecord(f, bits, prevStart);
    if record.None? then [] else [record.value] + ReadRecords(f, rest, record.value.start)
  }

  // Reading back what was written

  lemma FieldRead(x: nat, n: nat, tail: seq<bool>)
    requires x < Pow2(n)
    ensures var s := Bits(x, n) + tail;
            |s| >= n && Num(s[..n]) == x && s[n..] == tail
  {
    var s := Bits(x, n) + tail;
    assert s[..n] == Bits(x, n);
    NumOfBits(x, n);
  }

  lemma {:induction false} DifferencesReadBack(f: Family, d: seq<Difference>, tail: seq<bool>)
    requires DifferencesFit(f, d)
    ensures ReadDifferences(f, EncodeDifferences(f, d) + tail, |d|) == (d, tail)
    decreases |d|
  {
    if d == [] {
      assert [] + tail == tail;
    } else {
      hide Num, Bits, BitAt, Pow2;
      FieldBounds(f);
      var afterValue := EncodeDifferences(f, d[1..]) + tail;
      var afterIndex := Bits(d[0].value, f.SegmentBits()) + afterValue;
      var all := Bits(d[0].index, IndexBits(f)) + afterIndex;
      assert EncodeDifferences(f, d) + tail == all;
      FieldRead(d[0].index, IndexBits(f), afterIndex);
      FieldRead(d[0].value, f.SegmentBits(), afterValue);
      DifferencesReadBack(f, d[1..], tail);
      assert d == [d[0]] + d[1..];
    }
  }

  lemma RecordReadBack(f: Family, prevStart: Ip, r: Record, tail: seq<bool>)
    requires IsIp(f, prevStart) && WellFormed(f, r) && prevStart != r.start
    ensures ReadRecord(f, EncodeRecord(f, prevStart, r) + tail, prevStart) == (Some(r), tail)
  {
    hide Num, Bits, BitAt, Pow2, Applied, Differences, EncodeDifferences, ReadDifferences;
    var d := Differences(prevStart, r.start);
    DifferencesInvert(f, prevStart, r.start);
    FieldBounds(f);
    var afterDifferences := Bits(r.country, COUNTRY_BITS) + tail;
    var afterCount := EncodeDifferences(f, d) + afterDifferences;
    assert EncodeRecord(f, prevStart, r) + tail == Bits(|d| - 1, IndexBits(f)) + afterCount;
    FieldRead(|d| - 1, IndexBits(f), afterCount);
    DifferencesReadBack(f, d, afterDifferences);
    FieldRead(r.country, COUNTRY_BITS, tail);
  }

  /** The country field holds an index exactly when it is below 512. */
  lemma CountryFieldExact(country: nat)
    ensures Num(Bits(country, COUNTRY_BITS)) == country <==> country < 512
  {
    FieldBounds(V4);
    NumBound(Bits(country, COUNTRY_BITS));
    if country < 512 { NumOfBits(country, COUNTRY_BITS); }
  }

  lemma NothingToRead(f: Family, prevStart: Ip)
    requires IsIp(f, prevStart)
    ensures ReadRecord(f, [], prevStart) == (None, [])
  {
  }

  /** The stream of any writable list of records whose countries fit reads back as that list. */
  lemma {:induction false} RecordsReadBack(f: Family, prevStart: Ip, records: seq<Record>)
    requires Writable(f, prevStart, records) && forall i :: 0 <= i < |records| ==> records[i].country < 512
    ensures ReadRecords(f, EncodeRecords(f, prevStart, records), prevStart) == records
    decreases |records|
  {
    hide ReadRecord, EncodeRecord;
    var bits := EncodeRecords(f, prevStart, records);
    if records == [] {
      NothingToRead(f, prevStart);
    } else {
      var tail := EncodeRecords(f, records[0].start, records[1..]);
      RecordReadBack(f, prevStart, records[0], tail);
      RecordsReadBack(f, records[0].start, records[1..]);
      assert records == [records[0]] + records[1..];
    }
  }
}
