/**
 Finding an address's country: both families' blocks, decoded once, and a binary search in them.
 */
module Finders {
  import opened Words
  import opened Addresses
  import opened Format
  import opened Tiling
  import opened Ranges
  import opened CountryTable
  import opened Packing
  import opened Deserializers

  /** The blocks of one family, each with its country looked up. */
  function ResolvedAll(f: Family, countries: Countries, blocks: seq<Block>): (r: seq<CountryBlock>)
    requires Known(countries, blocks)
    ensures |r| == |blocks|
    ensures forall i :: 0 <= i < |r| ==> r[i] == Resolved(f, countries, blocks[i])
  {
    seq(|blocks|, i requires 0 <= i < |blocks| => Resolved(f, countries, blocks[i]))
  }

  /** Every block's country is in the table. */
  predicate Known(countries: Countries, blocks: seq<Block>)
  {
    forall i :: 0 <= i < |blocks| ==> blocks[i].country < |countries.list|
  }

  method Collect(d: BlockDeserializer) returns (blocks: seq<CountryBlock>)
    requires d.Valid() && Known(d.countries, d.Pending())
    modifies d, d.bitQueue
    ensures blocks == ResolvedAll(d.family, d.countries, old(d.Pending()))
  {
    hide BlockDeserializer.Valid, BlockDeserializer.Pending;
    blocks := [];
    ghost var done := 0;
    var next := d.Next();
    while next.Some?
      invariant d.Valid() && done <= |old(d.Pending())|
      invariant next.Some? ==>
                  && done < |old(d.Pending())|
                  && next.value == Resolved(d.family, d.countries, old(d.Pending())[done])
                  && d.Pending() == old(d.Pending())[done + 1..]
      invariant next.None? ==> done == |old(d.Pending())|
      invariant blocks == ResolvedAll(d.family, d.countries, old(d.Pending())[..done])
      decreases |old(d.Pending())| - done
    {
      blocks := blocks + [next.value];
      done := done + 1;
      next := d.Next();
    }
    assert old(d.Pending())[..done] == old(d.Pending());
  }

  // Searching

  predicate OfFamily(f: Family, blocks: seq<CountryBlock>)
  {
    forall i :: 0 <= i < |blocks| ==> blocks[i].range.family == f
  }

  function Low(b: CountryBlock): nat { Value(b.range.family, b.range.start) }

  function High(b: CountryBlock): nat { Value(b.range.family, b.range.end) }

  /** Non-empty ranges in ascending order without overlap. */
  predicate Ascending(blocks: seq<CountryBlock>)
  {
    && (forall i :: 0 <= i < |blocks| ==> Low(blocks[i]) <= High(blocks[i]))
    && (forall i, j :: 0 <= i < j < |blocks| ==> High(blocks[i]) < Low(blocks[j]))
  }

  function Rank(o: Ordering): int { match o case Less => 0 case Equal => 1 case Greater => 2 }

  /** The comparator the binary search goes by never steps back along an ascending list. */
  lemma OrderingMonotone(blocks: seq<CountryBlock>, a: IpAddr, i: nat, j: nat)
    requires OfFamily(a.family, blocks) && Ascending(blocks) && i <= j < |blocks|
    ensures Rank(OrderingByRange(blocks[i].range, a)) <= Rank(OrderingByRange(blocks[j].range, a))
    ensures OrderingByRange(blocks[i].range, a) == Equal && OrderingByRange(blocks[j].range, a) == Equal ==> i == j
  {
    hide Value;
    assert Low(blocks[i]) <= High(blocks[i]) && Low(blocks[j]) <= High(blocks[j]);
    if i < j { assert High(blocks[i]) < Low(blocks[j]); }
  }

  /** A hit contains the address; on an ascending list a miss means no block does. */
  method BinarySearch(blocks: seq<CountryBlock>, a: IpAddr) returns (r: Option<nat>)
    requires OfFamily(a.family, blocks)
    ensures r.Some? ==> r.value < |blocks| && OrderingByRange(blocks[r.value].range, a) == Equal
    ensures Ascending(blocks) && r.None? ==> forall i :: 0 <= i < |blocks| ==> !blocks[i].range.Contains(a)
  {
    hide Value;
    var lo, hi := 0, |blocks|;
    while lo < hi
      invariant 0 <= lo <= hi <= |blocks|
      invariant Ascending(blocks) ==>
                  forall i :: (0 <= i < lo || hi <= i < |blocks|) ==> !blocks[i].range.Contains(a)
    {
      var mid := lo + (hi - lo) / 2;
      var order := OrderingByRange(blocks[mid].range, a);
      if order == Equal {
        return Some(mid);
      }
      if Ascending(blocks) {
        forall i | 0 <= i < |blocks| && (if order == Less then i <= mid else mid <= i)
          ensures !blocks[i].range.Contains(a)
        {
          if i <= mid { OrderingMonotone(blocks, a, i, mid); } else { OrderingMonotone(blocks, a, mid, i); }
          assert Low(blocks[i]) <= High(blocks[i]);
        }
      }
      if order == Less {
        lo := mid + 1;
      } else {
        hi := mid;
      }
    }
    return None;
  }

  /** The first block, in list order, that holds the address. */
  function ScanBlocks(blocks: seq<CountryBlock>, a: IpAddr): (r: Option<CountryBlock>)
  {
    if blocks == [] then None
    else if blocks[0].range.Contains(a) then Some(blocks[0])
    else ScanBlocks(blocks[1..], a)
  }

  lemma {:induction false} ScanMisses(blocks: seq<CountryBlock>, a: IpAddr)
    requires forall i :: 0 <= i < |blocks| ==> !blocks[i].range.Contains(a)
    ensures ScanBlocks(blocks, a) == None
  {
    if blocks != [] { ScanMisses(blocks[1..], a); }
  }

  lemma {:induction false} ScanHits(blocks: seq<CountryBlock>, a: IpAddr, k: nat)
    requires k < |blocks| && blocks[k].range.Contains(a)
    requires forall i :: 0 <= i < k ==> !blocks[i].range.Contains(a)
    ensures ScanBlocks(blocks, a) == Some(blocks[k])
  {
    if k > 0 { ScanHits(blocks[1..], a, k - 1); }
  }

  /** A country, unless it is the sentinel. */
  function Answer(c: Country): Option<Country>
  {
    if c.iso3166 == SENTINEL_CODE then None else Some(c)
  }

  datatype Finder = Finder(countries: Countries, ipv4: seq<CountryBlock>, ipv6: seq<CountryBlock>)
  {
    function BlocksOfFamily(f: Family): seq<CountryBlock> { if f.V4? then ipv4 else ipv6 }

    predicate Valid()
    {
      Consistent(countries) && OfFamily(V4, ipv4) && OfFamily(V6, ipv6)
    }
  }

  /** On ascending blocks the answer is that of a linear scan, and the sentinel answers as no country. */
  method FindCountry(finder: Finder, a: IpAddr) returns (r: Option<Country>)
    requires finder.Valid()
    ensures Ascending(finder.BlocksOfFamily(a.family)) ==>
              match ScanBlocks(finder.BlocksOfFamily(a.family), a)
              case None => r == None
              case Some(b) => r == Answer(b.country)
  {
    hide Value, Consistent;
    var blocks := finder.BlocksOfFamily(a.family);
    var index := BinarySearch(blocks, a);
    var country;
    match index {
      case Some(k) =>
        country := blocks[k].country;
        if Ascending(blocks) { HitIsScan(blocks, a, k); }
      case None =>
        SentinelListed(finder.countries);
        country := CountryFromCode(finder.countries, SENTINEL_CODE).country;
        if Ascending(blocks) { ScanMisses(blocks, a); }
    }
    r := if country.iso3166 == SENTINEL_CODE then None else Some(country);
  }

  lemma SentinelListed(c: Countries)
    requires Consistent(c)
    ensures Upper(SENTINEL_CODE) == SENTINEL_CODE
    ensures SENTINEL_CODE in c.indexByCode && c.indexByCode[SENTINEL_CODE] < |c.list|
    ensures CountryFromCode(c, SENTINEL_CODE).Found?
    ensures CountryFromCode(c, SENTINEL_CODE).country.iso3166 == SENTINEL_CODE
  {
    assert Upper(SENTINEL_CODE) == SENTINEL_CODE;
    LookupExact(c, SENTINEL_CODE);
    assert c.list[0].iso3166 == SENTINEL_CODE;
  }

  lemma HitIsScan(blocks: seq<CountryBlock>, a: IpAddr, k: nat)
    requires OfFamily(a.family, blocks) && Ascending(blocks) && k < |blocks|
    requires OrderingByRange(blocks[k].range, a) == Equal
    ensures ScanBlocks(blocks, a) == Some(blocks[k])
  {
    hide Value, ScanBlocks;
    assert Low(blocks[k]) <= High(blocks[k]);
    forall i | 0 <= i < k ensures !blocks[i].range.Contains(a) {
      assert High(blocks[i]) < Low(blocks[k]);
    }
    ScanHits(blocks, a, k);
  }

  // The finder over decoded data

  /** The data of one family can be decoded: enough words, a complete record, known countries. */
  predicate Decodable(f: Family, countries: Countries, data: seq<u64>, count: nat)
  {
    && count <= WORD_BITS * |data|
    && ReadRecords(f, Unpacked(data, count), BeforeFirst(f)) != []
    && Known(countries, Decoded(f, data, count))
  }

  function Decoded(f: Family, data: seq<u64>, count: nat): seq<Block>
    requires count <= WORD_BITS * |data|
    requires ReadRecords(f, Unpacked(data, count), BeforeFirst(f)) != []
  {
    BlocksOf(f, ReadRecords(f, Unpacked(data, count), BeforeFirst(f)))
  }

  method NewFinder(countries: Countries, data4: seq<u64>, count4: nat, data6: seq<u64>, count6: nat)
    returns (finder: Finder)
    requires Decodable(V4, countries, data4, count4) && Decodable(V6, countries, data6, count6)
    ensures finder == Finder(countries, ResolvedAll(V4, countries, Decoded(V4, data4, count4)),
                             ResolvedAll(V6, countries, Decoded(V6, data6, count6)))
    ensures OfFamily(V4, finder.ipv4) && OfFamily(V6, finder.ipv6)
  {
    hide BlockDeserializer.Valid, BlockDeserializer.Pending, Unpacked, ReadRecords, BlocksOf, BeforeFirst, Known;
    var d4 := new BlockDeserializer(V4, data4, count4, countries);
    var ipv4 := Collect(d4);
    var d6 := new BlockDeserializer(V6, data6, count6, countries);
    var ipv6 := Collect(d6);
    finder := Finder(countries, ipv4, ipv6);
  }

  // Tilings are ascending

  lemma AscendingCons(b: CountryBlock, rest: seq<CountryBlock>)
    requires Ascending(rest) && Low(b) <= High(b) && forall i :: 0 <= i < |rest| ==> High(b) < Low(rest[i])
    ensures Ascending([b] + rest)
  {
    hide Low, High;
  }

  lemma {:induction false} TilesAscending(f: Family, countries: Countries, lo: nat, blocks: seq<Block>, hi: nat)
    requires Tiles(f, lo, blocks, hi) && Known(countries, blocks)
    ensures Ascending(ResolvedAll(f, countries, blocks))
    ensures forall i :: 0 <= i < |blocks| ==> lo <= Low(ResolvedAll(f, countries, blocks)[i])
    decreases |blocks|
  {
    hide Value, Ascending;
    if blocks == [] {
      NothingAscends();
    } else {
      var b, rest := blocks[0], blocks[1..];
      TilesAscending(f, countries, Value(f, b.end) + 1, rest, hi);
      BlockOrder(f, b);
      var first, tail := Resolved(f, countries, b), ResolvedAll(f, countries, rest);
      assert ResolvedAll(f, countries, blocks) == [first] + tail;
      AscendingCons(first, tail);
    }
  }

  lemma NothingAscends()
    ensures Ascending([])
  {
  }

  /** Scanning resolved blocks is scanning blocks and then resolving. */
  lemma {:induction false} ScanResolved(f: Family, countries: Countries, blocks: seq<Block>, a: IpAddr)
    requires Known(countries, blocks) && a.family == f
    ensures var r := Scan(f, blocks, a.Num());
            ScanBlocks(ResolvedAll(f, countries, blocks), a)
            == if r.None? then None else Some(Resolved(f, countries, r.value))
    decreases |blocks|
  {
    if blocks != [] {
      ScanResolved(f, countries, blocks[1..], a);
      assert ResolvedAll(f, countries, blocks)[1..] == ResolvedAll(f, countries, blocks[1..]);
    }
  }
}
