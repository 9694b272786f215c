/**
 The serializer: one object per address family that turns a stream of blocks into the
 compressed bit stream, filling gaps as it goes.
 */
module Serializers {
  import opened Words
  import opened QueueBytes
  import opened BitQueues
  import opened Addresses
  import opened Format
  import opened Tiling
  import opened Ranges

  function RecordOf(b: Block): Record { Record(b.start, b.country) }

  /** The records under which blocks are written. */
  function RecordsOf(blocks: seq<Block>): (r: seq<Record>)
    ensures |r| == |blocks|
    ensures forall i :: 0 <= i < |r| ==> r[i] == RecordOf(blocks[i])
  {
    seq(|blocks|, i requires 0 <= i < |blocks| => RecordOf(blocks[i]))
  }

  lemma RecordsOfConcat(a: seq<Block>, b: seq<Block>)
    ensures RecordsOf(a + b) == RecordsOf(a) + RecordsOf(b)
  {
  }

  function LastStart(prevStart: Ip, records: seq<Record>): Ip
  {
    if records == [] then prevStart else records[|records| - 1].start
  }

  lemma EncodeNone(f: Family, prevStart: Ip)
    requires Writable(f, prevStart, [])
    ensures EncodeRecords(f, prevStart, []) == []
  {
  }

  lemma EncodeCons(f: Family, prevStart: Ip, r: Record, rest: seq<Record>)
    ensures Writable(f, prevStart, [r] + rest)
            <==> IsIp(f, prevStart) && IsIp(f, r.start) && prevStart != r.start && Writable(f, r.start, rest)
    ensures Writable(f, prevStart, [r] + rest) ==>
              EncodeRecords(f, prevStart, [r] + rest)
              == EncodeRecord(f, prevStart, r) + EncodeRecords(f, r.start, rest)
  {
    hide EncodeRecord;
    assert ([r] + rest)[0] == r && ([r] + rest)[1..] == rest;
  }

  lemma {:induction false} EncodeConcat(f: Family, prevStart: Ip, a: seq<Record>, b: seq<Record>)
    requires Writable(f, prevStart, a) && Writable(f, LastStart(prevStart, a), b)
    ensures Writable(f, prevStart, a + b)
    ensures EncodeRecords(f, prevStart, a + b)
            == EncodeRecords(f, prevStart, a) + EncodeRecords(f, LastStart(prevStart, a), b)
    decreases |a|
  {
    hide EncodeRecord, EncodeRecords, Writable, IsIp;
    if a == [] {
      EncodeNone(f, prevStart);
      assert a + b == b;
    } else {
      var rest := a[1..];
      assert a == [a[0]] + rest && a + b == [a[0]] + (rest + b);
      EncodeCons(f, prevStart, a[0], rest);
      EncodeCons(f, prevStart, a[0], rest + b);
      EncodeConcat(f, a[0].start, rest, b);
      var head, middle, tail := EncodeRecord(f, prevStart, a[0]), EncodeRecords(f, a[0].start, rest),
                                EncodeRecords(f, LastStart(prevStart, a), b);
      assert head + (middle + tail) == (head + middle) + tail;
    }
  }

  lemma EncodeOne(f: Family, prevStart: Ip, r: Record)
    requires IsIp(f, prevStart) && IsIp(f, r.start) && prevStart != r.start
    ensures Writable(f, prevStart, [r])
    ensures EncodeRecords(f, prevStart, [r]) == EncodeRecord(f, prevStart, r)
  {
    assert Writable(f, r.start, [r][1..]);
  }

  /** The stream of a list of blocks, from the address the first start is compared against. */
  function Stream(f: Family, blocks: seq<Block>): seq<bool>
    requires Writable(f, BeforeFirst(f), RecordsOf(blocks))
  {
    EncodeRecords(f, BeforeFirst(f), RecordsOf(blocks))
  }

  /** Writing one more block after those written. */
  lemma StreamExtended(f: Family, blocks: seq<Block>, b: Block)
    requires Writable(f, BeforeFirst(f), RecordsOf(blocks)) && IsIp(f, b.start)
    requires var prev := LastStart(BeforeFirst(f), RecordsOf(blocks)); IsIp(f, prev) && prev != b.start
    ensures Writable(f, BeforeFirst(f), RecordsOf(blocks + [b]))
    ensures Stream(f, blocks + [b])
            == Stream(f, blocks) + EncodeRecord(f, LastStart(BeforeFirst(f), RecordsOf(blocks)), RecordOf(b))
  {
    hide EncodeRecord, EncodeRecords, Writable, BeforeFirst;
    EncodeOne(f, LastStart(BeforeFirst(f), RecordsOf(blocks)), RecordOf(b));
    EncodeConcat(f, BeforeFirst(f), RecordsOf(blocks), [RecordOf(b)]);
    RecordsOfConcat(blocks, [b]);
    assert RecordsOf([b]) == [RecordOf(b)];
  }

  /** Every country index fits the nine bits the format has for it. */
  predicate CountriesFit(blocks: seq<Block>)
  {
    forall i :: 0 <= i < |blocks| ==> blocks[i].country < 512
  }

  // What the queue holds, whatever the country indexes

  function WrittenDifferences(f: Family, q: Queue, d: seq<Difference>): (r: Queue)
    requires |q.stray| <= 8
    ensures |r.stray| <= 8
    decreases |d|
  {
    if d == [] then q
    else
      WrittenDifferences(f, Added(Added(q, d[0].index, IndexBits(f)), d[0].value, f.SegmentBits()), d[1..])
  }

  function WrittenRecord(f: Family, q: Queue, prevStart: Ip, r: Record): (w: Queue)
    requires |q.stray| <= 8 && IsIp(f, prevStart) && IsIp(f, r.start) && prevStart != r.start
    ensures |w.stray| <= 8
  {
    var d := Differences(prevStart, r.start);
    DifferencesInvert(f, prevStart, r.start);
    Added(WrittenDifferences(f, Added(q, |d| - 1, IndexBits(f)), d), r.country, COUNTRY_BITS)
  }

  lemma {:induction false} WritableInit(f: Family, prevStart: Ip, records: seq<Record>)
    requires Writable(f, prevStart, records) && records != []
    ensures var n := |records| - 1;
            && Writable(f, prevStart, records[..n])
            && IsIp(f, LastStart(prevStart, records[..n])) && IsIp(f, records[n].start)
            && LastStart(prevStart, records[..n]) != records[n].start
    decreases |records|
  {
    hide IsIp;
    var n := |records| - 1;
    if n > 0 {
      WritableInit(f, records[0].start, records[1..]);
      assert records[..n][1..] == records[1..][..n - 1];
      assert LastStart(prevStart, records[..n]) == LastStart(records[0].start, records[1..][..n - 1]);
    }
  }

  lemma RecordsOfInit(blocks: seq<Block>)
    requires blocks != []
    ensures RecordsOf(blocks[..|blocks| - 1]) == RecordsOf(blocks)[..|blocks| - 1]
  {
  }

  /** A new queue after the blocks have been written to it. */
  function Written(f: Family, blocks: seq<Block>): (q: Queue)
    requires Writable(f, BeforeFirst(f), RecordsOf(blocks))
    ensures |q.stray| <= 8
    decreases |blocks|
  {
    if blocks == [] then Queue([], Zeros(8))
    else
      var init, last := blocks[..|blocks| - 1], blocks[|blocks| - 1];
      RecordsOfInit(blocks);
      WritableInit(f, BeforeFirst(f), RecordsOf(blocks));
      WrittenRecord(f, Written(f, init), LastStart(BeforeFirst(f), RecordsOf(init)), RecordOf(last))
  }

  /** Writing one more block after those written. */
  lemma WrittenNext(f: Family, blocks: seq<Block>, b: Block)
    requires Writable(f, BeforeFirst(f), RecordsOf(blocks)) && IsIp(f, b.start)
    requires var prev := LastStart(BeforeFirst(f), RecordsOf(blocks)); IsIp(f, prev) && prev != b.start
    ensures Writable(f, BeforeFirst(f), RecordsOf(blocks + [b]))
    ensures Written(f, blocks + [b])
            == WrittenRecord(f, Written(f, blocks), LastStart(BeforeFirst(f), RecordsOf(blocks)), RecordOf(b))
  {
    hide WrittenRecord, Writable, BeforeFirst, EncodeRecord, EncodeRecords;
    StreamExtended(f, blocks, b);
    var all := blocks + [b];
    assert all[..|all| - 1] == blocks && all[|all| - 1] == b;
  }

  predicate IsClean(q: Queue) { q.stray == Zeros(|q.stray|) }

  lemma AddedFits(q: Queue, data: nat, count: nat)
    requires |q.stray| <= 8 && IsClean(q)
    ensures Added(q, data, count).live == q.live + Bits(data, count)
    ensures data < Pow2(count) ==> IsClean(Added(q, data, count))
  {
    AddedClean(q, data, count);
  }

  lemma {:induction false} WrittenDifferencesClean(f: Family, q: Queue, d: seq<Difference>)
    requires |q.stray| <= 8 && IsClean(q) && DifferencesFit(f, d)
    ensures IsClean(WrittenDifferences(f, q, d))
    ensures WrittenDifferences(f, q, d).live == q.live + EncodeDifferences(f, d)
    decreases |d|
  {
    hide Added, IsClean, Bits, Pow2, BlankAfter;
    if d != [] {
      FieldBounds(f);
      AddedFits(q, d[0].index, IndexBits(f));
      var q1 := Added(q, d[0].index, IndexBits(f));
      AddedFits(q1, d[0].value, f.SegmentBits());
      WrittenDifferencesClean(f, Added(q1, d[0].value, f.SegmentBits()), d[1..]);
    }
  }

  lemma WrittenRecordClean(f: Family, q: Queue, prevStart: Ip, r: Record)
    requires |q.stray| <= 8 && IsClean(q) && IsIp(f, prevStart) && IsIp(f, r.start) && prevStart != r.start
    ensures WrittenRecord(f, q, prevStart, r).live == q.live + EncodeRecord(f, prevStart, r)
    ensures r.country < 512 ==> IsClean(WrittenRecord(f, q, prevStart, r))
  {
    hide Added, IsClean, Bits, Pow2, BlankAfter, WrittenDifferences, EncodeDifferences, Differences, Applied;
    var d := Differences(prevStart, r.start);
    DifferencesInvert(f, prevStart, r.start);
    FieldBounds(f);
    AddedFits(q, |d| - 1, IndexBits(f));
    var q1 := Added(q, |d| - 1, IndexBits(f));
    WrittenDifferencesClean(f, q1, d);
    AddedFits(WrittenDifferences(f, q1, d), r.country, COUNTRY_BITS);
  }

  /** While all country indexes fit, the queue holds the stream of the blocks and stays clean. */
  lemma {:induction false} WrittenIsStream(f: Family, blocks: seq<Block>)
    requires Writable(f, BeforeFirst(f), RecordsOf(blocks)) && CountriesFit(blocks)
    ensures Written(f, blocks).live == Stream(f, blocks) && IsClean(Written(f, blocks))
    decreases |blocks|
  {
    hide Written, WrittenRecord, EncodeRecord, Writable, BeforeFirst, IsClean, Stream, RecordsOf, LastStart, IsIp,
         CountriesFit;
    if blocks == [] {
      WrittenNothing(f);
    } else {
      var init, last := blocks[..|blocks| - 1], blocks[|blocks| - 1];
      WritableLast(f, blocks);
      WrittenIsStream(f, init);
      WrittenRecordClean(f, Written(f, init), LastStart(BeforeFirst(f), RecordsOf(init)), RecordOf(last));
      assert blocks == init + [last];
      WrittenNext(f, init, last);
      StreamExtended(f, init, last);
    }
  }

  lemma WrittenNothing(f: Family)
    ensures Writable(f, BeforeFirst(f), RecordsOf([]))
    ensures Written(f, []).live == Stream(f, []) && IsClean(Written(f, []))
  {
    hide BeforeFirst;
    assert RecordsOf([]) == [];
    EncodeNone(f, BeforeFirst(f));
  }

  lemma WritableLast(f: Family, blocks: seq<Block>)
    requires Writable(f, BeforeFirst(f), RecordsOf(blocks)) && CountriesFit(blocks) && blocks != []
    ensures var init, last := blocks[..|blocks| - 1], blocks[|blocks| - 1];
            var prev := LastStart(BeforeFirst(f), RecordsOf(init));
            && Writable(f, BeforeFirst(f), RecordsOf(init)) && CountriesFit(init) && last.country < 512
            && IsIp(f, prev) && IsIp(f, last.start) && prev != last.start
  {
    hide Writable, BeforeFirst, LastStart, IsIp;
    RecordsOfInit(blocks);
    WritableInit(f, BeforeFirst(f), RecordsOf(blocks));
  }

  /** The state in which a serializer refuses no addition: its next address is not its last start. */
  predicate Open(f: Family, prevStart: Ip, prevEnd: Ip)
  {
    PlusOne(f, prevEnd) != prevStart
  }

  class IpSerializer {
    const family: Family
    const bitQueue: BitQueue
    var prevStart: Ip
    var prevEnd: Ip
    var blockCount: nat
    /** Every block written so far, fillers included. */
    ghost var emitted: seq<Block>

    ghost predicate Valid()
      reads this, bitQueue
    {
      && bitQueue.Valid()
      && IsIp(family, prevStart) && IsIp(family, prevEnd)
      && prevStart == LastStart(BeforeFirst(family), RecordsOf(emitted))
      && prevEnd == LastEnd(MaxIp(family), emitted)
      && blockCount == |emitted|
      && Writable(family, BeforeFirst(family), RecordsOf(emitted))
      && bitQueue.View() == Written(family, emitted)
    }

    constructor (f: Family)
      ensures Valid() && family == f && fresh(bitQueue) && emitted == []
    {
      hide BitQueue.View, BitQueue.Valid, BeforeFirst, MaxIp;
      family := f;
      bitQueue := new BitQueue();
      prevStart := BeforeFirst(f);
      prevEnd := MaxIp(f);
      blockCount := 0;
      emitted := [];
    }

    method WriteDifferences(differences: seq<Difference>)
      requires bitQueue.Valid() && DifferencesFit(family, differences)
      modifies bitQueue
      ensures bitQueue.Valid()
      ensures bitQueue.View() == WrittenDifferences(family, old(bitQueue.View()), differences)
    {
      hide BitQueue.View, BitQueue.Valid, Added;
      for i := 0 to |differences|
        invariant bitQueue.Valid()
        invariant WrittenDifferences(family, bitQueue.View(), differences[i..])
                  == WrittenDifferences(family, old(bitQueue.View()), differences)
      {
        assert differences[i..][0] == differences[i] && differences[i..][1..] == differences[i + 1..];
        bitQueue.AddBits(differences[i].index, IndexBits(family));
        bitQueue.AddBits(differences[i].value, family.SegmentBits());
      }
    }

    /** One record's fields.  The difference list is not empty, so its length less one is a count. */
    method WriteRecord(start: Ip, country: u64)
      requires bitQueue.Valid()
      requires IsIp(family, prevStart) && IsIp(family, start) && start != prevStart
      modifies bitQueue
      ensures bitQueue.Valid()
      ensures bitQueue.View() == WrittenRecord(family, old(bitQueue.View()), prevStart, Record(start, country))
    {
      hide BitQueue.View, BitQueue.Valid, Added, WrittenDifferences, Differences, Applied, IsIp;
      DifferencesInvert(family, prevStart, start);
      var differences := Differences(prevStart, start);
      bitQueue.AddBits(|differences| - 1, IndexBits(family));
      WriteDifferences(differences);
      bitQueue.AddBits(country, COUNTRY_BITS);
    }

    /**
     Adds a block, and before it a filler when the block does not start right after the last one.
     The filler starts where the next block is expected, so the recursion goes one level deep.
     */
    method AddIp(start: Ip, end: Ip, country: u64)
      requires Valid() && IsIp(family, start) && IsIp(family, end)
      requires Open(family, prevStart, prevEnd)
      modifies this, bitQueue
      ensures Valid() && prevStart == start && prevEnd == end
      ensures emitted == old(emitted) + Emitted(family, old(prevEnd), Block(start, end, country))
      decreases if start == PlusOne(family, prevEnd) then 0 else 1
    {
      hide BitQueue.View, BitQueue.Valid, WrittenRecord, Written, Writable, PlusOne, MinusOne, BeforeFirst, MaxIp, IsIp;
      var expected := PlusOne(family, prevEnd);
      if start != expected {
        AddIp(expected, MinusOne(family, start), 0);
      }
      WrittenNext(family, emitted, Block(start, end, country));
      WriteRecord(start, country);
      prevStart := start;
      prevEnd := end;
      blockCount := blockCount + 1;
      emitted := emitted + [Block(start, end, country)];
    }

    /** The tail filler, unless the last block reaches the maximum. */
    method Close()
      requires Valid()
      requires prevEnd != MaxIp(family) ==> Open(family, prevStart, prevEnd)
      modifies this, bitQueue
      ensures Valid() && emitted == old(emitted) + Tail(family, old(prevEnd))
    {
      hide BitQueue.View, BitQueue.Valid, Written, Writable, PlusOne, MaxIp, BeforeFirst;
      if prevEnd != MaxIp(family) {
        AddIp(PlusOne(family, prevEnd), MaxIp(family), 0);
      }
    }
  }

  /** The last block written is the last block added. */
  lemma {:induction false} EmittedRunLast(f: Family, prevEnd: Ip, blocks: seq<Block>)
    requires blocks != []
    ensures var e := EmittedRun(f, prevEnd, blocks);
            e != [] && e[|e| - 1] == blocks[|blocks| - 1]
    decreases |blocks|
  {
    if |blocks| > 1 { EmittedRunLast(f, blocks[0].end, blocks[1..]); }
  }

  /** A serializer that has written blocks still open to another or not ending at the maximum is open. */
  lemma OpenAfter(f: Family, blocks: seq<Block>)
    requires blocks != [] ==> IsBlock(f, blocks[|blocks| - 1]) && blocks[|blocks| - 1].end != MaxIp(f)
    ensures Open(f, LastStart(BeforeFirst(f), RecordsOf(EmittedRun(f, MaxIp(f), blocks))),
                 LastEnd(MaxIp(f), blocks))
  {
    hide Value, MaxIp, BeforeFirst, PlusOne, EmittedRun, Family.Space;
    EndValues(f);
    ValueBound(f, BeforeFirst(f));
    if blocks == [] {
      EmittedNone(f);
      PlusOneValue(f, MaxIp(f));
    } else {
      var b := blocks[|blocks| - 1];
      EmittedRunLast(f, MaxIp(f), blocks);
      PlusOneValue(f, b.end);
      SameValueSameIp(f, b.end, MaxIp(f));
    }
  }

  lemma EmittedNone(f: Family)
    ensures EmittedRun(f, MaxIp(f), []) == [] && f.Space() > 2
  {
  }

  /** What a family's serializer hands over. */
  datatype FinalBitQueue = FinalBitQueue(bitQueue: BitQueue, blockCount: nat)

  class CountryBlockSerializer {
    const ipv4: IpSerializer
    const ipv6: IpSerializer
    ghost var added: seq<CountryBlock>

    ghost predicate Valid()
      reads this, ipv4, ipv4.bitQueue, ipv6, ipv6.bitQueue
    {
      && ipv4 != ipv6 && ipv4.bitQueue != ipv6.bitQueue
      && ipv4.Valid() && ipv4.family == V4 && ipv6.Valid() && ipv6.family == V6
      && ipv4.emitted == EmittedRun(V4, MaxIp(V4), BlocksFor(V4, added))
      && ipv6.emitted == EmittedRun(V6, MaxIp(V6), BlocksFor(V6, added))
      && ipv4.prevEnd == LastEnd(MaxIp(V4), BlocksFor(V4, added))
      && ipv6.prevEnd == LastEnd(MaxIp(V6), BlocksFor(V6, added))
    }

    constructor ()
      ensures Valid() && added == []
      ensures fresh(ipv4) && fresh(ipv4.bitQueue) && fresh(ipv6) && fresh(ipv6.bitQueue)
    {
      hide MaxIp, BeforeFirst, Written, Writable, BitQueue.Valid, BitQueue.View;
      ipv4 := new IpSerializer(V4);
      ipv6 := new IpSerializer(V6);
      added := [];
      new;
    }

    ghost predicate OpenFor(f: Family)
      reads this, ipv4, ipv6
    {
      if f.V4? then Open(V4, ipv4.prevStart, ipv4.prevEnd) else Open(V6, ipv6.prevStart, ipv6.prevEnd)
    }

    method Add(b: CountryBlock)
      requires Valid() && b.range.Valid() && b.country.index < 0x1_0000_0000_0000_0000 && OpenFor(b.range.family)
      modifies this, ipv4, ipv4.bitQueue, ipv6, ipv6.bitQueue
      ensures Valid() && added == old(added) + [b]
    {
      hide IpSerializer.Valid, MaxIp, PlusOne, Emitted, EmittedRun, IsIp;
      BlocksForNext(V4, added, b);
      BlocksForNext(V6, added, b);
      EmittedRunNext(b.range.family, MaxIp(b.range.family), BlocksFor(b.range.family, added), ToBlock(b));
      if b.range.family.V4? {
        ipv4.AddIp(b.range.start, b.range.end, b.country.index);
      } else {
        ipv6.AddIp(b.range.start, b.range.end, b.country.index);
      }
      added := added + [b];
    }

    method Finish() returns (final4: FinalBitQueue, final6: FinalBitQueue)
      requires Valid()
      requires ipv4.prevEnd != MaxIp(V4) ==> OpenFor(V4)
      requires ipv6.prevEnd != MaxIp(V6) ==> OpenFor(V6)
      modifies this, ipv4, ipv4.bitQueue, ipv6, ipv6.bitQueue
      ensures Finished(V4, old(added), final4) && Finished(V6, old(added), final6)
      ensures final4.bitQueue == ipv4.bitQueue && final6.bitQueue == ipv6.bitQueue
      ensures final4.bitQueue != final6.bitQueue
    {
      hide MaxIp, BeforeFirst, PlusOne, EmittedRun, IsIp, BlocksFor, Written, Writable, BitQueue.Valid, BitQueue.View;
      ipv4.Close();
      ipv6.Close();
      final4 := FinalBitQueue(ipv4.bitQueue, ipv4.blockCount);
      final6 := FinalBitQueue(ipv6.bitQueue, ipv6.blockCount);
    }
  }

  /** The queue is as writing the family's blocks with their gaps filled leaves it, and the count is theirs. */
  ghost predicate Finished(f: Family, added: seq<CountryBlock>, final: FinalBitQueue)
    reads final.bitQueue
  {
    var all := EmittedAll(f, MaxIp(f), BlocksFor(f, added));
    && Writable(f, BeforeFirst(f), RecordsOf(all))
    && final.blockCount == |all|
    && final.bitQueue.Valid()
    && final.bitQueue.View() == Written(f, all)
  }

  /** Fillers are of country 0, so the blocks written fit exactly if the blocks added do. */
  lemma {:induction false} EmittedAllFit(f: Family, prevEnd: Ip, blocks: seq<Block>)
    ensures CountriesFit(EmittedAll(f, prevEnd, blocks)) <==> CountriesFit(blocks)
    decreases |blocks|
  {
    hide MaxIp, PlusOne, MinusOne, CountriesFit;
    if blocks == [] {
      FitNothing();
      FitConcat(EmittedRun(f, prevEnd, []), Tail(f, prevEnd));
      FitTail(f, prevEnd);
    } else {
      var b, rest := blocks[0], blocks[1..];
      EmittedAllStep(f, prevEnd, blocks);
      EmittedAllFit(f, b.end, rest);
      FitConcat(Emitted(f, prevEnd, b), EmittedAll(f, b.end, rest));
      FitConcat(Filler(f, prevEnd, b.start), [b]);
      FitFiller(f, prevEnd, b.start);
      FitConcat([b], rest);
      assert blocks == [b] + rest;
    }
  }

  lemma FitConcat(x: seq<Block>, y: seq<Block>)
    ensures CountriesFit(x + y) <==> CountriesFit(x) && CountriesFit(y)
  {
    assert forall i :: 0 <= i < |x| ==> (x + y)[i] == x[i];
    assert forall i :: 0 <= i < |y| ==> (x + y)[|x| + i] == y[i];
  }

  lemma FitNothing()
    ensures CountriesFit([])
  {
  }

  lemma FitFiller(f: Family, prevEnd: Ip, start: Ip)
    ensures CountriesFit(Filler(f, prevEnd, start))
  {
  }

  lemma FitTail(f: Family, prevEnd: Ip)
    ensures CountriesFit(Tail(f, prevEnd))
  {
  }

  lemma BlocksForNothing(f: Family)
    ensures BlocksFor(f, []) == []
  {
  }

  lemma BlocksForNext(f: Family, blocks: seq<CountryBlock>, b: CountryBlock)
    ensures BlocksFor(f, blocks + [b])
            == if b.range.family == f then BlocksFor(f, blocks) + [ToBlock(b)] else BlocksFor(f, blocks)
  {
    assert (blocks + [b])[..|blocks|] == blocks;
  }
}
