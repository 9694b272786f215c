/**
 Address ranges of either family, countries, and the comparisons by which ranges are searched
 and joined.
 */
module Ranges {
  import opened Addresses
  import opened Format

  datatype Country = Country(index: nat, iso3166: string, name: string)

  datatype IpAddr = IpAddr(family: Family, ip: Ip)
  {
    predicate Valid() { IsIp(family, ip) }

    /** The integer a valid address stands for. */
    function Num(): nat { Value(family, ip) }
  }

  /** An inclusive range; both ends are of one family by construction. */
  datatype IpRange = IpRange(family: Family, start: Ip, end: Ip)
  {
    predicate Valid() { IsIp(family, start) && IsIp(family, end) }

    predicate Contains(a: IpAddr)
    {
      family == a.family && Value(family, start) <= a.Num() <= Value(family, end)
    }
  }

  datatype CountryBlock = CountryBlock(range: IpRange, country: Country)

  datatype Ordering = Less | Equal | Greater

  function CompareWithRange(examined: nat, low: nat, high: nat): Ordering
  {
    if examined < low then Greater else if examined > high then Less else Equal
  }

  /** Where the range lies as seen from the address; an address of the other family is a caller error. */
  function OrderingByRange(r: IpRange, a: IpAddr): (o: Ordering)
    requires r.family == a.family
    ensures Value(r.family, r.start) <= Value(r.family, r.end) ==> (o == Equal <==> r.Contains(a))
  {
    CompareWithRange(a.Num(), Value(r.family, r.start), Value(r.family, r.end))
  }

  /** The integer after the first address is the second; the maximum has no successor. */
  predicate AreConsecutive(first: IpAddr, second: IpAddr)
    requires first.family == second.family && first.Num() + 1 < first.family.Space()
  {
    second.Num() == first.Num() + 1
  }

  /** Exactly the wrapping successor, below the maximum. */
  lemma ConsecutiveIsPlusOne(first: IpAddr, second: IpAddr)
    requires first.Valid() && second.Valid() && first.family == second.family
    requires first.Num() + 1 < first.family.Space()
    ensures AreConsecutive(first, second) <==> second.ip == PlusOne(first.family, first.ip)
  {
    PlusOneValue(first.family, first.ip);
    SameValueSameIp(first.family, second.ip, PlusOne(first.family, first.ip));
  }

  function ToBlock(b: CountryBlock): Block
  {
    Block(b.range.start, b.range.end, b.country.index)
  }

  /** The blocks of one family, in list order. */
  function BlocksFor(f: Family, blocks: seq<CountryBlock>): (r: seq<Block>)
    decreases |blocks|
  {
    if blocks == [] then []
    else
      var n := |blocks| - 1;
      BlocksFor(f, blocks[..n]) + (if blocks[n].range.family == f then [ToBlock(blocks[n])] else [])
  }
}
