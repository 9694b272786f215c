/**
 The whole path of the country data: from a database's coded ranges through coalescing, the
 country table, serializing and packing into words, and back through unpacking, decoding and
 searching, to the country of an address.
 */
module EndToEnd {
  import opened Words
  import opened BitQueues
  import opened Addresses
  import opened Format
  import opened Tiling
  import opened Ranges
  import opened CountryTable
  import opened Serializers
  import opened Packing
  import opened Deserializers
  import opened Finders
  import opened Coalescing

  // Serializing a list of blocks of both families

  predicate AllAddable(blocks: seq<CountryBlock>)
  {
    forall i :: 0 <= i < |blocks| ==>
                  blocks[i].range.Valid() && blocks[i].country.index < 0x1_0000_0000_0000_0000
  }

  lemma {:induction false} BlocksForConcat(f: Family, x: seq<CountryBlock>, y: seq<CountryBlock>)
    ensures BlocksFor(f, x + y) == BlocksFor(f, x) + BlocksFor(f, y)
    decreases |y|
  {
    if y == [] {
      assert x + y == x;
    } else {
      var n := |y| - 1;
      assert x + y == (x + y[..n]) + [y[n]] && y == y[..n] + [y[n]];
      BlocksForNext(f, x + y[..n], y[n]);
      BlocksForNext(f, y[..n], y[n]);
      BlocksForConcat(f, x, y[..n]);
    }
  }

  lemma {:induction false} SortedPrefix(f: Family, lo: nat, x: seq<Block>, y: seq<Block>)
    requires SortedFrom(f, lo, x + y)
    ensures SortedFrom(f, lo, x)
    decreases |x|
  {
    hide Value, IsBlock;
    if x != [] {
      assert (x + y)[0] == x[0] && (x + y)[1..] == x[1..] + y;
      SortedPrefix(f, Value(f, x[0].end) + 1, x[1..], y);
    }
  }

  /** While a sorted list still has a block of the family to come, the family's serializer is open to it. */
  lemma OpenToNext(f: Family, blocks: seq<CountryBlock>, i: nat)
    requires i < |blocks| && blocks[i].range.family == f && Sorted(f, BlocksFor(f, blocks))
    ensures var bs := BlocksFor(f, blocks[..i]);
            Open(f, LastStart(BeforeFirst(f), RecordsOf(EmittedRun(f, MaxIp(f), bs))), LastEnd(MaxIp(f), bs))
  {
    hide Value, BeforeFirst, MaxIp, Family.Space, EmittedRun, PlusOne, SortedFrom;
    var bs, b := BlocksFor(f, blocks[..i]), ToBlock(blocks[i]);
    assert blocks == (blocks[..i] + [blocks[i]]) + blocks[i + 1..];
    BlocksForConcat(f, blocks[..i] + [blocks[i]], blocks[i + 1..]);
    BlocksForNext(f, blocks[..i], blocks[i]);
    SortedPrefix(f, 0, bs + [b], BlocksFor(f, blocks[i + 1..]));
    SortedInit(f, 0, bs, b);
    EndValues(f);
    ValueBound(f, b.start);
    OpenAfter(f, bs);
  }

  lemma OpenToFinish(f: Family, bs: seq<Block>)
    requires Sorted(f, bs) && LastEnd(MaxIp(f), bs) != MaxIp(f)
    ensures Open(f, LastStart(BeforeFirst(f), RecordsOf(EmittedRun(f, MaxIp(f), bs))), LastEnd(MaxIp(f), bs))
  {
    hide Value, BeforeFirst, MaxIp, EmittedRun, PlusOne, SortedFrom;
    var n := |bs| - 1;
    assert bs == bs[..n] + [bs[n]];
    SortedInit(f, 0, bs[..n], bs[n]);
    OpenAfter(f, bs);
  }

  method Serialize(blocks: seq<CountryBlock>) returns (final4: FinalBitQueue, final6: FinalBitQueue)
    requires AllAddable(blocks)
    requires Sorted(V4, BlocksFor(V4, blocks)) && Sorted(V6, BlocksFor(V6, blocks))
    ensures fresh(final4.bitQueue) && fresh(final6.bitQueue) && final4.bitQueue != final6.bitQueue
    ensures Finished(V4, blocks, final4) && Finished(V6, blocks, final6)
  {
    hide CountryBlockSerializer.Valid, CountryBlockSerializer.OpenFor, BeforeFirst, MaxIp, EmittedRun, BlocksFor,
         SortedFrom, RecordsOf, Finished, Open, LastEnd;
    var serializer := new CountryBlockSerializer();
    for i := 0 to |blocks|
      invariant serializer.Valid() && serializer.added == blocks[..i]
      invariant fresh(serializer) && fresh(serializer.ipv4) && fresh(serializer.ipv6)
      invariant fresh(serializer.ipv4.bitQueue) && fresh(serializer.ipv6.bitQueue)
    {
      OpenToNext(blocks[i].range.family, blocks, i);
      OpenForExact(serializer, blocks[i].range.family);
      serializer.Add(blocks[i]);
      assert blocks[..i] + [blocks[i]] == blocks[..i + 1];
    }
    assert blocks[..|blocks|] == blocks;
    OpenForExact(serializer, V4);
    OpenForExact(serializer, V6);
    if serializer.ipv4.prevEnd != MaxIp(V4) { OpenToFinish(V4, BlocksFor(V4, blocks)); }
    if serializer.ipv6.prevEnd != MaxIp(V6) { OpenToFinish(V6, BlocksFor(V6, blocks)); }
    final4, final6 := serializer.Finish();
  }

  lemma OpenForExact(s: CountryBlockSerializer, f: Family)
    requires s.Valid()
    ensures var bs := BlocksFor(f, s.added);
            && (s.OpenFor(f) <==> Open(f, LastStart(BeforeFirst(f), RecordsOf(EmittedRun(f, MaxIp(f), bs))),
                                       LastEnd(MaxIp(f), bs)))
            && (if f.V4? then s.ipv4.prevEnd else s.ipv6.prevEnd) == LastEnd(MaxIp(f), bs)
  {
    hide BeforeFirst, MaxIp, EmittedRun, BlocksFor, RecordsOf, PlusOne, Written, BitQueue.Valid, BitQueue.View;
  }

  // From blocks to an answer

  lemma {:induction false} GapFilledKnown(f: Family, countries: Countries, lo: nat, blocks: seq<Block>)
    requires Known(countries, blocks) && countries.list != []
    ensures Known(countries, GapFilled(f, lo, blocks))
    decreases |blocks|
  {
    hide Value, FromValue, MaxIp, Family.Space;
    if blocks != [] { GapFilledKnown(f, countries, Value(f, blocks[0].end) + 1, blocks[1..]); }
  }

  /** The words of a family's finished stream decode to its gap-filled blocks. */
  lemma PackedDecodes(f: Family, countries: Countries, bs: seq<Block>, data: seq<u64>)
    requires Sorted(f, bs) && bs != [] && CountriesFit(bs) && Known(countries, bs) && countries.list != []
    requires var all := EmittedAll(f, MaxIp(f), bs);
             Writable(f, BeforeFirst(f), RecordsOf(all)) && data == Packed(Written(f, all).live)
    ensures var n := |Written(f, EmittedAll(f, MaxIp(f), bs)).live|;
            Decodable(f, countries, data, n) && Decoded(f, data, n) == GapFilled(f, 0, bs)
  {
    hide Value, MaxIp, BeforeFirst, EmittedAll, GapFilled, Written, Packed, Unpacked, ReadRecords, BlocksOf, Known,
         SortedFrom, CountriesFit;
    CodecRoundTrip(f, bs);
    UnpackedOfPacked(Written(f, GapFilled(f, 0, bs)).live);
    GapFilledKnown(f, countries, 0, bs);
  }

  /** What a linear scan of the original blocks says of an address; the sentinel says no country. */
  function Expected(f: Family, countries: Countries, bs: seq<Block>, v: nat): Option<Country>
    requires Known(countries, bs)
  {
    match Scan(f, bs, v)
    case None => None
    case Some(b) =>
      assert forall i :: 0 <= i < |bs| ==> bs[i].country < |countries.list|;
      Answer(countries.list[b.country])
  }

  lemma AnswerIsExpected(f: Family, countries: Countries, bs: seq<Block>, a: IpAddr)
    requires Sorted(f, bs) && Known(countries, bs) && Consistent(countries)
    requires a.family == f && a.Valid()
    ensures Known(countries, GapFilled(f, 0, bs))
    ensures var blocks := ResolvedAll(f, countries, GapFilled(f, 0, bs));
            && Ascending(blocks)
            && ScanBlocks(blocks, a).Some?
            && Answer(ScanBlocks(blocks, a).value.country) == Expected(f, countries, bs, a.Num())
  {
    hide Value, GapFilled, ResolvedAll, Ascending, ScanBlocks, Scan, SortedFrom, Family.Space;
    GapFilledKnown(f, countries, 0, bs);
    GapFilledTiles(f, 0, bs);
    TilesAscending(f, countries, 0, GapFilled(f, 0, bs), f.Space());
    ScanResolved(f, countries, GapFilled(f, 0, bs), a);
    ValueBound(f, a.ip);
    GapFilledMeaning(f, 0, bs, a.Num());
  }

  /**
   Serializing blocks of both families, packing the streams into words, and finding an address in
   a finder made from those words gives what a linear scan of the blocks gives.
   */
  method SerializeAndFind(blocks: seq<CountryBlock>, countries: Countries, a: IpAddr) returns (r: Option<Country>)
    requires AllAddable(blocks) && Consistent(countries) && a.Valid()
    requires forall f: Family :: Sorted(f, BlocksFor(f, blocks)) && BlocksFor(f, blocks) != []
    requires forall f: Family :: Known(countries, BlocksFor(f, blocks)) && CountriesFit(BlocksFor(f, blocks))
    ensures r == Expected(a.family, countries, BlocksFor(a.family, blocks), a.Num())
  {
    hide BlocksFor, SortedFrom, Known, Consistent, EmittedAll, MaxIp, BeforeFirst, Written, Packed, Decodable, Decoded,
         GapFilled, Ascending, ScanBlocks, ResolvedAll, Writable, RecordsOf, Value, Expected, CountriesFit,
         BitQueue.Valid, BitQueue.View;
    var final4, final6 := Serialize(blocks);
    var data4, count4 := Pack(final4.bitQueue);
    var data6, count6 := Pack(final6.bitQueue);
    SomeCountry(countries);
    PackedDecodes(V4, countries, BlocksFor(V4, blocks), data4);
    PackedDecodes(V6, countries, BlocksFor(V6, blocks), data6);
    var finder := NewFinder(countries, data4, count4, data6, count6);
    AnswerIsExpected(a.family, countries, BlocksFor(a.family, blocks), a);
    r := FindCountry(finder, a);
  }

  lemma SomeCountry(countries: Countries)
    requires Consistent(countries)
    ensures countries.list != []
  {
  }

  // From a database's coded ranges to an answer

  /** The table's country for a code; one it does not have becomes an unknown country under the sentinel's index. */
  function CountryFor(countries: Countries, code: string): (c: Country)
    requires Consistent(countries)
    ensures c.index < |countries.list|
    ensures Answer(countries.list[c.index]) == CodeAnswer(countries, code)
  {
    LookupExact(countries, code);
    match CountryFromCode(countries, code)
    case Found(c) => c
    case NotFound => Country(0, "ZZ", "Unknown")
  }

  /** What a lookup by code says; the sentinel and unknown codes say no country. */
  function CodeAnswer(countries: Countries, code: string): Option<Country>
    requires Consistent(countries)
  {
    LookupExact(countries, code);
    match CountryFromCode(countries, code)
    case Found(c) => Answer(c)
    case NotFound => None
  }

  function MakeBlocks(countries: Countries, ranges: seq<Coded>): (r: seq<CountryBlock>)
    requires Consistent(countries)
    ensures |r| == |ranges|
    ensures forall i :: 0 <= i < |r| ==> r[i] == CountryBlock(ranges[i].range, CountryFor(countries, ranges[i].code))
  {
    seq(|ranges|, i requires 0 <= i < |ranges| => CountryBlock(ranges[i].range, CountryFor(countries, ranges[i].code)))
  }

  lemma BlocksForFirst(f: Family, countries: Countries, ranges: seq<Coded>)
    requires Consistent(countries) && ranges != []
    ensures BlocksFor(f, MakeBlocks(countries, ranges))
            == (if ranges[0].range.family == f then [ToBlock(MakeBlocks(countries, ranges)[0])] else [])
               + BlocksFor(f, MakeBlocks(countries, ranges[1..]))
  {
    hide CountryFor, Consistent, BlocksFor, MakeBlocks, ToBlock;
    var all, rest := MakeBlocks(countries, ranges), MakeBlocks(countries, ranges[1..]);
    assert all == [all[0]] + rest;
    BlocksForConcat(f, [all[0]], rest);
    BlocksForNothing(f);
    BlocksForNext(f, [], all[0]);
    assert [] + [all[0]] == [all[0]];
  }

  lemma SortedCons(f: Family, lo: nat, b: Block, rest: seq<Block>)
    requires IsBlock(f, b) && lo <= Value(f, b.start) && SortedFrom(f, Value(f, b.end) + 1, rest)
    ensures SortedFrom(f, lo, [b] + rest)
  {
    assert ([b] + rest)[1..] == rest;
  }

  lemma {:induction false} MadeBlocksSorted(f: Family, countries: Countries, lo: nat, ranges: seq<Coded>)
    requires Consistent(countries)
    requires AllNonEmpty(ranges) && AscendingPerFamily(ranges)
    requires forall i :: 0 <= i < |ranges| && ranges[i].range.family == f ==> lo <= ranges[i].Low()
    ensures SortedFrom(f, lo, BlocksFor(f, MakeBlocks(countries, ranges)))
    ensures Known(countries, BlocksFor(f, MakeBlocks(countries, ranges)))
    decreases |ranges|
  {
    hide Value, CountryFor, Consistent, BlocksFor;
    if ranges == [] {
      NoBlocks(f, countries);
    } else {
      BlocksForFirst(f, countries, ranges);
      var x, rest := ranges[0], ranges[1..];
      assert x.NonEmpty();
      var tail := BlocksFor(f, MakeBlocks(countries, rest));
      if x.range.family == f {
        MadeBlocksSorted(f, countries, x.High() + 1, rest);
        SortedCons(f, lo, ToBlock(MakeBlocks(countries, ranges)[0]), tail);
      } else {
        MadeBlocksSorted(f, countries, lo, rest);
        assert [] + tail == tail;
      }
    }
  }

  lemma {:induction false} MadeBlocksScan(countries: Countries, ranges: seq<Coded>, a: IpAddr)
    requires Consistent(countries)
    ensures var r := Scan(a.family, BlocksFor(a.family, MakeBlocks(countries, ranges)), a.Num());
            match CodeAt(ranges, a)
            case None => r == None
            case Some(code) => r.Some? && r.value.country == CountryFor(countries, code).index
    decreases |ranges|
  {
    hide Value, CountryFor, Consistent, BlocksFor;
    if ranges == [] {
      NoBlocks(a.family, countries);
    } else {
      BlocksForFirst(a.family, countries, ranges);
      MadeBlocksScan(countries, ranges[1..], a);
      var rest := BlocksFor(a.family, MakeBlocks(countries, ranges[1..]));
      if ranges[0].range.family == a.family {
        ScanStep(a.family, ToBlock(MakeBlocks(countries, ranges)[0]), rest, a.Num());
      } else {
        assert [] + rest == rest;
      }
    }
  }

  lemma NoBlocks(f: Family, countries: Countries)
    requires Consistent(countries)
    ensures BlocksFor(f, MakeBlocks(countries, [])) == []
  {
  }

  /** The database has a range of the family. */
  predicate Serves(items: seq<Coded>, f: Family)
  {
    exists i :: 0 <= i < |items| && items[i].range.family == f
  }

  /** A range of a family in the database leaves the family something to serialize. */
  lemma FamilyServed(f: Family, countries: Countries, items: seq<Coded>, i: nat)
    requires Consistent(countries) && AllNonEmpty(items) && i < |items| && items[i].range.family == f
    ensures BlocksFor(f, MakeBlocks(countries, Coalesced(items))) != []
  {
    hide Value, CountryFor, Consistent, BlocksFor, Coalesced;
    var a := IpAddr(f, items[i].range.start);
    assert items[i].NonEmpty() && items[i].Contains(a);
    CodeFound(items, a, i);
    CoalescedKeepsMeaning(items);
    MadeBlocksScan(countries, Coalesced(items), a);
  }

  lemma {:induction false} CodeFound(items: seq<Coded>, a: IpAddr, i: nat)
    requires i < |items| && items[i].Contains(a)
    ensures CodeAt(items, a).Some?
  {
    hide Value;
    if i > 0 { CodeFound(items[1..], a, i - 1); }
  }

  lemma KnownFit(countries: Countries, blocks: seq<Block>)
    requires Known(countries, blocks) && |countries.list| <= 512
    ensures CountriesFit(blocks)
  {
    forall i | 0 <= i < |blocks| ensures blocks[i].country < 512 {
      assert blocks[i].country < |countries.list|;
    }
  }

  lemma PipelineReady(coded: seq<Coded>, pairs: seq<CountryPair>, f: Family)
    requires AllNonEmpty(coded) && AscendingPerFamily(coded) && |NewCountries(pairs).list| <= 512
    requires Serves(coded, f)
    ensures Consistent(NewCountries(pairs))
    ensures var blocks := MakeBlocks(NewCountries(pairs), Coalesced(coded));
            && AllAddable(blocks)
            && Sorted(f, BlocksFor(f, blocks)) && BlocksFor(f, blocks) != []
            && Known(NewCountries(pairs), BlocksFor(f, blocks)) && CountriesFit(BlocksFor(f, blocks))
  {
    hide Value, CountryFor, Consistent, BlocksFor, Coalesced, NewCountries, Known, SortedFrom, CountriesFit;
    NewCountriesConsistent(pairs);
    CoalescedKeepsMeaning(coded);
    MadeBlocksSorted(f, NewCountries(pairs), 0, Coalesced(coded));
    KnownFit(NewCountries(pairs), BlocksFor(f, MakeBlocks(NewCountries(pairs), Coalesced(coded))));
    var i :| 0 <= i < |coded| && coded[i].range.family == f;
    FamilyServed(f, NewCountries(pairs), coded, i);
  }

  lemma PipelineAnswer(coded: seq<Coded>, countries: Countries, a: IpAddr)
    requires AllNonEmpty(coded) && Consistent(countries)
    requires Known(countries, BlocksFor(a.family, MakeBlocks(countries, Coalesced(coded))))
    ensures Expected(a.family, countries, BlocksFor(a.family, MakeBlocks(countries, Coalesced(coded))), a.Num())
            == DatabaseAnswer(coded, countries, a)
  {
    hide Value, Consistent, BlocksFor, Coalesced, MakeBlocks, CodeAt, CodeAnswer, Answer;
    CoalescedKeepsMeaning(coded);
    MadeBlocksScan(countries, Coalesced(coded), a);
  }

  /** What the table says of the code that the database gives the address; no country where it gives none. */
  function DatabaseAnswer(coded: seq<Coded>, countries: Countries, a: IpAddr): Option<Country>
    requires Consistent(countries)
  {
    match CodeAt(coded, a)
    case None => None
    case Some(code) => CodeAnswer(countries, code)
  }

  /**
   A code is answered by its capitals: with the last pair that has them as its code, and with no
   country if there is none or if they are the sentinel's.
   */
  lemma CodeAnsweredExactly(pairs: seq<CountryPair>, code: string)
    ensures Consistent(NewCountries(pairs))
    ensures var r, named := CodeAnswer(NewCountries(pairs), code), WithCode(pairs, Upper(code));
            if Upper(code) == SENTINEL_CODE || named == [] then r == None
            else
              && r.Some? && r.value in NewCountries(pairs).list
              && r.value.iso3166 == Upper(code) && r.value.name == named[|named| - 1].1
  {
    hide NewCountries, WithoutSentinel, InOrder, IndexByCode, WithCode, Upper;
    var c, upper := NewCountries(pairs), Upper(code);
    NewCountriesConsistent(pairs);
    LookupExact(c, code);
    var listed := Emit(c)[1..];
    if upper == SENTINEL_CODE {
      assert c.list[0].iso3166 == upper;
    } else if CountryFromCode(c, code).NotFound? {
      forall j | 0 <= j < |listed| ensures listed[j].0 != upper { assert c.list[j + 1].iso3166 != upper; }
      WithCodeNone(listed, upper);
    } else {
      var k := CountryFromCode(c, code).country.index;
      forall j | k - 1 < j < |listed| ensures listed[j].0 != upper { assert c.list[j + 1].iso3166 != upper; }
      assert k > 0 && listed[k - 1] == (c.list[k].iso3166, c.list[k].name);
      WithCodeLast(listed, upper, k - 1);
    }
  }

  /** The name of a range, as the table would have it. */
  function NameOf(item: Item): string
  {
    if item.name.Some? then item.name.value else "Unknown"
  }

  /** The answer for ranges of a code in capitals: a country of that code, under a name that a range of it has. */
  predicate AnswersCode(items: seq<Item>, code: string, r: Option<Country>)
  {
    if code == SENTINEL_CODE || forall j :: 0 <= j < |items| ==> items[j].code != Some(code) then r == None
    else
      && r.Some? && r.value.iso3166 == code
      && exists j :: 0 <= j < |items| && items[j].code == Some(code) && r.value.name == NameOf(items[j])
  }

  /** The pairs of a code are those of the ranges that have it. */
  lemma PairsWithCode(items: seq<Item>, pairs: seq<CountryPair>, code: string)
    requires forall p :: p in pairs <==> p in PairsOf(items)
    requires code != SENTINEL_CODE
    ensures WithCode(pairs, code) == [] <==> forall j :: 0 <= j < |items| ==> items[j].code != Some(code)
    ensures forall p :: p in WithCode(pairs, code) ==>
              p.0 == code && exists j :: 0 <= j < |items| && items[j].code == Some(code) && p.1 == NameOf(items[j])
  {
    var named := WithCode(pairs, code);
    WithCodeOnly(pairs, code);
    forall p | p in named
      ensures exists j :: 0 <= j < |items| && items[j].code == Some(code) && p.1 == NameOf(items[j])
    {
      WithCodeMember(pairs, p);
      var j :| 0 <= j < |items| && items[j].Pair() == p;
    }
    if named != [] { assert named[0] in named; }
    forall j | 0 <= j < |items| && items[j].code == Some(code) ensures named != [] {
      assert items[j].Pair() in PairsOf(items);
      WithCodeMember(pairs, items[j].Pair());
    }
  }

  lemma {:induction false} WithCodeOnly(pairs: seq<CountryPair>, code: string)
    ensures forall p :: p in WithCode(pairs, code) ==> p.0 == code
  {
    if pairs != [] { WithCodeOnly(pairs[1..], code); }
  }

  /** What a database says of an address, from what it has for the range that holds the address. */
  lemma DatabaseAnsweredExactly(items: seq<Item>, pairs: seq<CountryPair>, a: IpAddr)
    requires AscendingPerFamily(CodedAll(items)) && forall p :: p in pairs <==> p in PairsOf(items)
    ensures Consistent(NewCountries(pairs))
    ensures var r := DatabaseAnswer(CodedAll(items), NewCountries(pairs), a);
            && (r.Some? ==> r.value in NewCountries(pairs).list)
            && ((forall i :: 0 <= i < |items| ==> !items[i].range.Contains(a)) ==> r == None)
            && (forall i :: 0 <= i < |items| && items[i].range.Contains(a) ==>
                  if items[i].code.None? then r == None else AnswersCode(items, Upper(items[i].code.value), r))
  {
    hide CodeAt, NewCountries, Consistent, CodeAnswer, IpRange.Contains, AscendingPerFamily, Upper, AnswersCode,
         PairsOf, WithCode;
    NewCountriesConsistent(pairs);
    var coded := CodedAll(items);
    if forall i :: 0 <= i < |items| ==> !items[i].range.Contains(a) { CodeAtNothing(coded, a); }
    if CodeAt(coded, a).Some? { CodeAnsweredExactly(pairs, CodeAt(coded, a).value); }
    forall i | 0 <= i < |items| && items[i].range.Contains(a)
      ensures var r := DatabaseAnswer(coded, NewCountries(pairs), a);
              if items[i].code.None? then r == None else AnswersCode(items, Upper(items[i].code.value), r)
    {
      CodeAtHolder(coded, a, i);
      if items[i].code.None? {
        SentinelCapitals();
      } else {
        AnsweredByItems(items, pairs, items[i].code.value);
      }
    }
  }

  lemma SentinelCapitals()
    ensures Upper(SENTINEL_CODE) == SENTINEL_CODE
  {
  }

  lemma AnsweredByItems(items: seq<Item>, pairs: seq<CountryPair>, code: string)
    requires forall p :: p in pairs <==> p in PairsOf(items)
    ensures Consistent(NewCountries(pairs))
    ensures AnswersCode(items, Upper(code), CodeAnswer(NewCountries(pairs), code))
  {
    hide NewCountries, Consistent, CodeAnswer, Upper, PairsOf, WithCode;
    CodeAnsweredExactly(pairs, code);
    if Upper(code) != SENTINEL_CODE {
      PairsWithCode(items, pairs, Upper(code));
      var named := WithCode(pairs, Upper(code));
      if named != [] { assert named[|named| - 1] in named; }
    }
  }

  /**
   The program and its generated code as one, for every database whose ranges ascend within each
   family and serve both, and every address.  An address in no range, or in one without a code, is
   answered with no country; one in a range with a code with the country of that code's capitals, under
   a name that a range of that code has, or "Unknown" where it has none.  That is the table's answer for
   the code.  The collected pairs come in any order (`pairs`), and the table used for searching is
   rebuilt from the emitted list.
   */
  method BuildAndFind(items: seq<Item>, pairs: seq<CountryPair>, a: IpAddr) returns (r: Option<Country>)
    requires AllComparable(CodedAll(items)) && AllNonEmpty(CodedAll(items)) && AscendingPerFamily(CodedAll(items))
    requires forall f: Family :: Serves(CodedAll(items), f)
    requires forall p :: p in pairs <==> p in PairsOf(items)
    requires |NewCountries(pairs).list| <= 512 && a.Valid()
    ensures Consistent(NewCountries(pairs))
    ensures r == DatabaseAnswer(CodedAll(items), NewCountries(pairs), a)
    ensures r.Some? ==> r.value in NewCountries(pairs).list
    ensures (forall i :: 0 <= i < |items| ==> !items[i].range.Contains(a)) ==> r == None
    ensures forall i :: 0 <= i < |items| && items[i].range.Contains(a) ==>
              if items[i].code.None? then r == None else AnswersCode(items, Upper(items[i].code.value), r)
  {
    hide Value, Consistent, BlocksFor, Coalesced, NewCountries, Known, SortedFrom, MakeBlocks, CodeAt, DatabaseAnswer,
         Expected, Emit, AllAddable, CountriesFit, CodedAll, PairsOf, Upper, AnswersCode, IpRange.Contains,
         AllComparable, AllNonEmpty, AscendingPerFamily;
    ghost var coded := CodedAll(items);
    var ranges, countryPairs := ExtractData(items);
    NewCountriesConsistent(pairs);
    var countries := NewCountries(pairs);
    var blocks := MakeBlocks(countries, ranges);
    forall f: Family
      ensures AllAddable(blocks) && Sorted(f, BlocksFor(f, blocks)) && BlocksFor(f, blocks) != []
      ensures Known(countries, BlocksFor(f, blocks)) && CountriesFit(BlocksFor(f, blocks))
    {
      PipelineReady(coded, pairs, f);
    }
    PipelineReady(coded, pairs, a.family);
    RebuildSame(pairs);
    var loaded := NewCountries(Emit(countries));
    PipelineAnswer(coded, countries, a);
    r := SerializeAndFind(blocks, loaded, a);
    DatabaseAnsweredExactly(items, pairs, a);
  }
}
