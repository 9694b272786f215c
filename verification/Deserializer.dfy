/**
 The deserializer: an iterator over the blocks a compressed stream stands for.  A block ends
 right before the next one starts, and the last one ends at the maximum address.
 */
module Deserializers {
  import opened Words
  import opened BitQueues
  import opened Addresses
  import opened Format
  import opened Tiling
  import opened Ranges
  import opened CountryTable
  import opened Serializers
  import opened Packing

  /** The blocks that a list of records delimits. */
  function BlocksOf(f: Family, records: seq<Record>): (r: seq<Block>)
    requires records != []
    ensures |r| == |records|
    decreases |records|
  {
    if |records| == 1 then [Block(records[0].start, MaxIp(f), records[0].country)]
    else [Block(records[0].start, MinusOne(f, records[1].start), records[0].country)] + BlocksOf(f, records[1..])
  }

  /** Each block ends right before the next one starts, wrapping, and the last ends at the maximum. */
  predicate Chained(f: Family, blocks: seq<Block>)
  {
    && blocks != []
    && (forall i :: 0 <= i < |blocks| - 1 ==> PlusOne(f, blocks[i].end) == blocks[i + 1].start)
    && blocks[|blocks| - 1].end == MaxIp(f)
  }

  lemma ChainedCons(f: Family, b: Block, rest: seq<Block>)
    requires Chained(f, rest) && PlusOne(f, b.end) == rest[0].start
    ensures Chained(f, [b] + rest)
  {
    hide PlusOne, MaxIp;
    var blocks := [b] + rest;
    forall i | 0 <= i < |blocks| - 1 ensures PlusOne(f, blocks[i].end) == blocks[i + 1].start {
      if i > 0 { assert blocks[i] == rest[i - 1] && blocks[i + 1] == rest[i]; }
    }
  }

  lemma {:induction false} BlocksOfChained(f: Family, records: seq<Record>)
    requires records != [] && forall i :: 0 <= i < |records| ==> IsIp(f, records[i].start)
    ensures Chained(f, BlocksOf(f, records))
    ensures RecordsOf(BlocksOf(f, records)) == records
    decreases |records|
  {
    hide PlusOne, MinusOne, MaxIp, IsIp;
    if |records| == 1 {
      assert RecordsOf(BlocksOf(f, records)) == [records[0]] == records;
    } else {
      hide Chained;
      var rest := BlocksOf(f, records[1..]);
      var b := Block(records[0].start, MinusOne(f, records[1].start), records[0].country);
      BlocksOfChained(f, records[1..]);
      assert rest[0].start == RecordsOf(rest)[0].start == records[1].start;
      StepsInverse(f, records[1].start);
      ChainedCons(f, b, rest);
      RecordsOfConcat([b], rest);
      assert RecordsOf([b]) == [records[0]];
      assert records == [records[0]] + records[1..];
    }
  }

  /** A stream with n records is at least 21 (IPv4) or 31 (IPv6) bits times n long. */
  lemma {:induction false} ReadRecordsBound(f: Family, bits: seq<bool>, prevStart: Ip)
    requires IsIp(f, prevStart)
    ensures (if f.V4? then 21 else 31) * |ReadRecords(f, bits, prevStart)| <= |bits|
    decreases |bits|
  {
    hide ReadRecord, IsIp;
    var (record, rest) := ReadRecord(f, bits, prevStart);
    if record.Some? { ReadRecordsBound(f, rest, record.value.start); }
  }

  /**
   Whatever the stream, the blocks it is read as chain up to the maximum, there is one for every
   complete record at its front, and their number is bounded by its length.
   */
  lemma AnyStreamChains(f: Family, bits: seq<bool>)
    requires ReadRecords(f, bits, BeforeFirst(f)) != []
    ensures var records := ReadRecords(f, bits, BeforeFirst(f));
            && Chained(f, BlocksOf(f, records))
            && RecordsOf(BlocksOf(f, records)) == records
            && (if f.V4? then 21 else 31) * |BlocksOf(f, records)| <= |bits|
  {
    BlocksOfChained(f, ReadRecords(f, bits, BeforeFirst(f)));
    ReadRecordsBound(f, bits, BeforeFirst(f));
  }

  // Reading back a tiling

  lemma {:induction false} TilingBlocks(f: Family, lo: nat, blocks: seq<Block>)
    requires blocks != [] && Tiles(f, lo, blocks, f.Space())
    ensures BlocksOf(f, RecordsOf(blocks)) == blocks
    decreases |blocks|
  {
    hide Value, PlusOne, MinusOne, MaxIp, Family.Space;
    var b, rest := blocks[0], blocks[1..];
    assert RecordsOf(blocks)[1..] == RecordsOf(rest);
    if rest == [] {
      EndValues(f);
      SameValueSameIp(f, b.end, MaxIp(f));
    } else {
      TilingBlocks(f, Value(f, b.end) + 1, rest);
      MinusOneValue(f, rest[0].start);
      SameValueSameIp(f, b.end, MinusOne(f, rest[0].start));
    }
    assert blocks == [b] + rest;
  }

  lemma {:induction false} TilingWritable(f: Family, prevStart: Ip, lo: nat, blocks: seq<Block>, hi: nat)
    requires Tiles(f, lo, blocks, hi) && IsIp(f, prevStart)
    requires blocks != [] ==> prevStart != blocks[0].start
    ensures Writable(f, prevStart, RecordsOf(blocks))
    decreases |blocks|
  {
    hide Value, IsIp;
    if blocks != [] {
      var b, rest := blocks[0], blocks[1..];
      assert RecordsOf(blocks)[1..] == RecordsOf(rest);
      BlockOrder(f, b);
      TilingWritable(f, b.start, Value(f, b.end) + 1, rest, hi);
    }
  }

  /** A tiling of the whole space can be written, and what is written reads as it exactly if its countries fit. */
  lemma TilingRoundTrip(f: Family, blocks: seq<Block>)
    requires Tiles(f, 0, blocks, f.Space())
    ensures Writable(f, BeforeFirst(f), RecordsOf(blocks))
    ensures blocks != [] && BlocksOf(f, RecordsOf(blocks)) == blocks
    ensures ReadRecords(f, Written(f, blocks).live, BeforeFirst(f)) == RecordsOf(blocks) <==> CountriesFit(blocks)
  {
    hide Value, BeforeFirst, Written, EncodeRecords, ReadRecords, BlocksOf;
    EndValues(f);
    FirstTile(f, blocks);
    TilingWritable(f, BeforeFirst(f), 0, blocks, f.Space());
    TilingBlocks(f, 0, blocks);
    var records := RecordsOf(blocks);
    if CountriesFit(blocks) {
      WrittenIsStream(f, blocks);
      RecordsReadBack(f, BeforeFirst(f), records);
    }
    if ReadRecords(f, Written(f, blocks).live, BeforeFirst(f)) == records {
      forall i | 0 <= i < |blocks| ensures blocks[i].country < 512 {
        assert WellFormed(f, records[i]);
      }
    }
  }

  lemma FirstTile(f: Family, blocks: seq<Block>)
    requires Tiles(f, 0, blocks, f.Space())
    ensures blocks != [] && blocks[0].start != BeforeFirst(f)
  {
    EndValues(f);
  }

  /**
   The codec: the serializer writes a non-empty sorted list as that list with its gaps filled by
   blocks of country 0, which tile the address space, and what it writes is read as those blocks
   exactly when every country index of the list is below 512.
   */
  lemma CodecRoundTrip(f: Family, blocks: seq<Block>)
    requires Sorted(f, blocks) && blocks != []
    ensures var all := EmittedAll(f, MaxIp(f), blocks);
            && all == GapFilled(f, 0, blocks)
            && Tiles(f, 0, all, f.Space())
            && Writable(f, BeforeFirst(f), RecordsOf(all))
            && all != [] && BlocksOf(f, RecordsOf(all)) == all
            && (ReadRecords(f, Written(f, all).live, BeforeFirst(f)) == RecordsOf(all) <==> CountriesFit(blocks))
  {
    hide EmittedAll, GapFilled, Tiles, Writable, Written, ReadRecords, BlocksOf, MaxIp, CountriesFit;
    EmittedIsGapFilled(f, MaxIp(f), 0, blocks);
    GapFilledTiles(f, 0, blocks);
    EmittedAllFit(f, MaxIp(f), blocks);
    TilingRoundTrip(f, GapFilled(f, 0, blocks));
  }

  /** The first index too large: the whole space as one block of country 512 is not read as that. */
  lemma TooLargeCountryMisread(f: Family)
    ensures var blocks := [Block(MinIp(f), MaxIp(f), 512)];
            && Sorted(f, blocks)
            && Writable(f, BeforeFirst(f), RecordsOf(EmittedAll(f, MaxIp(f), blocks)))
            && ReadRecords(f, Written(f, EmittedAll(f, MaxIp(f), blocks)).live, BeforeFirst(f))
               != RecordsOf(EmittedAll(f, MaxIp(f), blocks))
  {
    hide Value, MinIp, MaxIp, BeforeFirst, EmittedAll, GapFilled, Written, Writable, ReadRecords, RecordsOf;
    EndValues(f);
    var blocks := [Block(MinIp(f), MaxIp(f), 512)];
    assert IsBlock(f, blocks[0]) && blocks[1..] == [] && SortedFrom(f, f.Space(), []);
    assert !CountriesFit(blocks) by { assert blocks[0].country == 512; }
    CodecRoundTrip(f, blocks);
  }

  // The iterator

  method ApplyDifferences(f: Family, segments: Ip, differences: seq<Difference>) returns (r: Ip)
    requires IsIp(f, segments) && DifferencesFit(f, differences)
    ensures r == Applied(segments, differences)
  {
    r := segments;
    for i := 0 to |differences|
      invariant |r| == |segments|
      invariant Applied(r, differences[i..]) == Applied(segments, differences)
    {
      assert differences[i..][1..] == differences[i + 1..];
      r := r[differences[i].index := differences[i].value];
    }
    assert differences[|differences|..] == [];
  }

  method TakeDifferences(f: Family, queue: BitQueue, count: nat) returns (differences: seq<Difference>)
    requires queue.Valid()
    modifies queue
    ensures queue.Valid()
    ensures (differences, queue.Contents()) == ReadDifferences(f, old(queue.Contents()), count)
  {
    hide BitQueue.Valid, BitQueue.View, Num, ReadDifferences;
    differences := [];
    ghost var all := ReadDifferences(f, old(queue.Contents()), count);
    for i := 0 to count
      invariant queue.Valid()
      invariant var left := ReadDifferences(f, queue.Contents(), count - i);
                differences + left.0 == all.0 && left.1 == all.1
    {
      ReadDifferencesStep(f, queue.Contents(), count - i);
      var index := queue.TakeBits(IndexBits(f));
      if index.Some? {
        var value := queue.TakeBits(f.SegmentBits());
        if value.Some? {
          differences := differences + [Difference(index.value, value.value)];
        }
      }
    }
    ReadNoDifferences(f, queue.Contents());
    assert differences + [] == differences;
  }

  lemma ReadNoDifferences(f: Family, bits: seq<bool>)
    ensures ReadDifferences(f, bits, 0) == ([], bits)
  {
  }

  lemma ReadDifferencesStep(f: Family, bits: seq<bool>, count: nat)
    requires count > 0
    ensures var k, n := IndexBits(f), f.SegmentBits();
            if |bits| < k then ReadDifferences(f, bits, count) == ReadDifferences(f, bits, count - 1)
            else if |bits[k..]| < n then ReadDifferences(f, bits, count) == ReadDifferences(f, bits[k..], count - 1)
            else
              var left := ReadDifferences(f, bits[k..][n..], count - 1);
              ReadDifferences(f, bits, count) == ([Difference(Num(bits[..k]), Num(bits[k..][..n]))] + left.0, left.1)
  {
    hide Num;
  }

  method TakeRecord(f: Family, queue: BitQueue, prevStart: Ip) returns (record: Option<Record>)
    requires queue.Valid() && IsIp(f, prevStart)
    modifies queue
    ensures queue.Valid()
    ensures (record, queue.Contents()) == ReadRecord(f, old(queue.Contents()), prevStart)
  {
    hide BitQueue.Valid, BitQueue.View, Num, ReadDifferences, Applied, IsIp;
    ghost var bits := queue.Contents();
    var countMinusOne := queue.TakeBits(IndexBits(f));
    if countMinusOne.None? {
      return None;
    }
    var count := countMinusOne.value as nat + 1;
    ReadDifferencesFit(f, queue.Contents(), count);
    var differences := TakeDifferences(f, queue, count);
    if |differences| < count {
      return None;
    }
    var country := queue.TakeBits(COUNTRY_BITS);
    if country.None? {
      return None;
    }
    var start := ApplyDifferences(f, prevStart, differences);
    record := Some(Record(start, country.value));
  }

  class BlockDeserializer {
    const family: Family
    const countries: Countries
    const bitQueue: BitQueue
    var prevRecord: Record
    var empty: bool

    predicate Valid()
      reads this, bitQueue
    {
      bitQueue.Valid() && IsIp(family, prevRecord.start)
    }

    /** The blocks still to be yielded. */
    function Pending(): (r: seq<Block>)
      requires Valid()
      reads this, bitQueue
    {
      if empty then []
      else BlocksOf(family, [prevRecord] + ReadRecords(family, bitQueue.Contents(), prevRecord.start))
    }

    /** A stream without a complete record is an error the program does not survive. */
    constructor (f: Family, data: seq<u64>, count: nat, table: Countries)
      requires count <= WORD_BITS * |data|
      requires ReadRecords(f, Unpacked(data, count), BeforeFirst(f)) != []
      ensures Valid() && fresh(bitQueue) && family == f && countries == table
      ensures Pending() == BlocksOf(f, ReadRecords(f, Unpacked(data, count), BeforeFirst(f)))
    {
      hide BitQueue.Valid, BitQueue.Contents, BitQueue.View, Unpacked, ReadRecord, BlocksOf, IsIp, BeforeFirst;
      var queue := Unpack(data, count);
      ghost var bits := queue.Contents();
      var record := TakeRecord(f, queue, BeforeFirst(f));
      family := f;
      countries := table;
      bitQueue := queue;
      prevRecord := record.value;
      empty := false;
    }

    /**
     Yields the next block.  Once none is pending the answer is none, and nothing changes, ever
     after.  A country the table does not have is an error the program does not survive.
     */
    method Next() returns (block: Option<CountryBlock>)
      requires Valid()
      requires Pending() != [] ==> Pending()[0].country < |countries.list|
      modifies this, bitQueue
      ensures Valid()
      ensures old(Pending()) == [] ==> block == None && Pending() == []
      ensures old(Pending()) != [] ==>
                block == Some(Resolved(family, countries, old(Pending())[0])) && Pending() == old(Pending())[1..]
    {
      hide BitQueue.Valid, BitQueue.Contents, BitQueue.View, ReadRecord, IsIp;
      if empty {
        return None;
      }
      ghost var bits, prev := bitQueue.Contents(), prevRecord;
      var next := TakeRecord(family, bitQueue, prevRecord.start);
      match next
      case Some(nextRecord) =>
        PendingStep(family, prev, nextRecord, ReadRecords(family, bitQueue.Contents(), nextRecord.start));
        var range := IpRange(family, prevRecord.start, MinusOne(family, nextRecord.start));
        block := Some(CountryBlock(range, CountryFromIndex(countries, prevRecord.country).country));
        prevRecord := nextRecord;
      case None =>
        empty := true;
        var range := IpRange(family, prevRecord.start, MaxIp(family));
        block := Some(CountryBlock(range, CountryFromIndex(countries, prevRecord.country).country));
    }
  }

  /** A block with its country looked up in the table. */
  function Resolved(f: Family, countries: Countries, b: Block): CountryBlock
    requires b.country < |countries.list|
  {
    CountryBlock(IpRange(f, b.start, b.end), countries.list[b.country])
  }

  lemma PendingStep(f: Family, prev: Record, next: Record, rest: seq<Record>)
    ensures BlocksOf(f, [prev] + ([next] + rest))
            == [Block(prev.start, MinusOne(f, next.start), prev.country)] + BlocksOf(f, [next] + rest)
  {
    var records := [prev] + ([next] + rest);
    assert records[1..] == [next] + rest;
  }
}
