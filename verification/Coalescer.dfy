/**
 Joining the ranges of a country database: consecutive ranges of one country become one range
 before they are serialized.
 */
module Coalescing {
  import opened Words
  import opened Addresses
  import opened Ranges
  import opened CountryTable

  datatype Coded = Coded(code: string, range: IpRange)
  {
    function Low(): nat { Value(range.family, range.start) }

    function High(): nat { Value(range.family, range.end) }

    predicate NonEmpty() { range.Valid() && Low() <= High() }

    predicate Contains(a: IpAddr) { range.Contains(a) }
  }

  /** Same code, same family, and the second starts where the first ends. */
  predicate Joinable(x: Coded, y: Coded)
  {
    x.code == y.code && x.range.family == y.range.family && x.High() + 1 == y.Low()
  }

  /** Comparing same-coded neighbours of two families, or past the maximum, is an error. */
  predicate Comparable(x: Coded, y: Coded)
  {
    x.code == y.code ==> x.range.family == y.range.family && x.High() + 1 < x.range.family.Space()
  }

  predicate AllNonEmpty(items: seq<Coded>)
  {
    forall i :: 0 <= i < |items| ==> items[i].NonEmpty()
  }

  predicate AllComparable(items: seq<Coded>)
  {
    forall i :: 0 <= i < |items| - 1 ==> Comparable(items[i], items[i + 1])
  }

  /** Within each family the ranges ascend without overlap. */
  predicate AscendingPerFamily(items: seq<Coded>)
  {
    forall i, j :: 0 <= i < j < |items| && items[i].range.family == items[j].range.family ==>
                     items[i].High() < items[j].Low()
  }

  predicate NothingToJoin(items: seq<Coded>)
  {
    forall i :: 0 <= i < |items| - 1 ==> !Joinable(items[i], items[i + 1])
  }

  /** The code the list gives an address: that of the first range that holds it. */
  function CodeAt(items: seq<Coded>, a: IpAddr): Option<string>
  {
    if items == [] then None
    else if items[0].Contains(a) then Some(items[0].code)
    else CodeAt(items[1..], a)
  }

  /** The list after one more range has been added to it or joined with its last. */
  function Join(ranges: seq<Coded>, x: Coded): (r: seq<Coded>)
  {
    var n := |ranges|;
    if n > 0 && Joinable(ranges[n - 1], x)
    then ranges[..n - 1] + [Coded(x.code, IpRange(x.range.family, ranges[n - 1].range.start, x.range.end))]
    else ranges + [x]
  }

  function JoinAll(ranges: seq<Coded>, items: seq<Coded>): (r: seq<Coded>)
    decreases |items|
  {
    if items == [] then ranges else JoinAll(Join(ranges, items[0]), items[1..])
  }

  function Coalesced(items: seq<Coded>): (r: seq<Coded>)
  {
    JoinAll([], items)
  }

  class RangeCollector {
    var codedRanges: seq<Coded>

    constructor ()
      ensures codedRanges == []
    {
      codedRanges := [];
    }

    method AddOrCoalesce(code: string, range: IpRange)
      requires codedRanges != [] ==> Comparable(codedRanges[|codedRanges| - 1], Coded(code, range))
      modifies this
      ensures codedRanges == Join(old(codedRanges), Coded(code, range))
    {
      var newRange := None;
      if codedRanges != [] {
        var last := codedRanges[|codedRanges| - 1];
        if last.code == code &&
           AreConsecutive(IpAddr(last.range.family, last.range.end), IpAddr(range.family, range.start)) {
          newRange := Some(IpRange(range.family, last.range.start, range.end));
        }
      }
      if newRange.Some? {
        codedRanges := codedRanges[..|codedRanges| - 1];
        codedRanges := codedRanges + [Coded(code, newRange.value)];
      } else {
        codedRanges := codedRanges + [Coded(code, range)];
      }
    }
  }

  /** The last range collected ends as, and has the code of, the last range added. */
  lemma JoinLast(ranges: seq<Coded>, x: Coded)
    ensures var r := Join(ranges, x);
            && r != []
            && r[|r| - 1].code == x.code && r[|r| - 1].range.family == x.range.family
            && r[|r| - 1].range.end == x.range.end
  {
  }

  /** What the database has for a range; a missing code, or name, is `None`. */
  datatype Item = Item(code: Option<string>, name: Option<string>, range: IpRange)
  {
    /** A range without a code goes under the sentinel's. */
    function AsCoded(): Coded
    {
      Coded(if code.Some? then code.value else SENTINEL_CODE, range)
    }

    /** The table entry the range calls for. */
    function Pair(): CountryPair
    {
      if code.None? then (SENTINEL.iso3166, SENTINEL.name)
      else (code.value, if name.Some? then name.value else "Unknown")
    }
  }

  function CodedAll(items: seq<Item>): (r: seq<Coded>)
    ensures |r| == |items| && forall i :: 0 <= i < |r| ==> r[i] == items[i].AsCoded()
  {
    seq(|items|, i requires 0 <= i < |items| => items[i].AsCoded())
  }

  function PairsOf(items: seq<Item>): (r: set<CountryPair>)
  {
    set i | 0 <= i < |items| :: items[i].Pair()
  }

  /** The joined ranges, and the table entries of all the ranges. */
  method ExtractData(items: seq<Item>) returns (ranges: seq<Coded>, countryPairs: set<CountryPair>)
    requires AllComparable(CodedAll(items))
    ensures ranges == Coalesced(CodedAll(items))
    ensures countryPairs == PairsOf(items)
  {
    hide Value, Comparable, Item.Pair, Item.AsCoded;
    var collector := new RangeCollector();
    countryPairs := {};
    ghost var coded := CodedAll(items);
    for i := 0 to |items|
      invariant JoinAll(collector.codedRanges, coded[i..]) == Coalesced(coded)
      invariant collector.codedRanges != [] ==> i > 0 && LastIs(collector.codedRanges, coded[i - 1])
      invariant countryPairs == PairsOf(items[..i])
    {
      JoinLast(collector.codedRanges, coded[i]);
      if i > 0 { SameLastComparable(collector.codedRanges, coded[i - 1], coded[i]); }
      assert coded[i..][1..] == coded[i + 1..];
      PairsOfNext(items, i);
      countryPairs := countryPairs + {items[i].Pair()};
      collector.AddOrCoalesce(items[i].AsCoded().code, items[i].range);
    }
    assert coded[|coded|..] == [] && items[..|items|] == items;
    ranges := collector.codedRanges;
  }

  lemma PairsOfNext(items: seq<Item>, i: nat)
    requires i < |items|
    ensures PairsOf(items[..i + 1]) == PairsOf(items[..i]) + {items[i].Pair()}
    ensures items[i].AsCoded() == Coded(items[i].AsCoded().code, items[i].range)
  {
    hide Item.Pair;
    var x, y := items[..i], items[..i + 1];
    forall p | p in PairsOf(y) ensures p in PairsOf(x) + {items[i].Pair()} {
      var k :| 0 <= k < |y| && y[k].Pair() == p;
      if k < i { assert x[k] == y[k]; }
    }
    forall p | p in PairsOf(x) + {items[i].Pair()} ensures p in PairsOf(y) {
      if p in PairsOf(x) {
        var k :| 0 <= k < |x| && x[k].Pair() == p;
        assert y[k] == x[k];
      } else {
        assert y[i].Pair() == p;
      }
    }
  }

  predicate LastIs(ranges: seq<Coded>, x: Coded)
    requires ranges != []
  {
    var last := ranges[|ranges| - 1];
    last.code == x.code && last.range.family == x.range.family && last.range.end == x.range.end
  }

  lemma SameLastComparable(ranges: seq<Coded>, x: Coded, y: Coded)
    requires Comparable(x, y)
    ensures ranges != [] && LastIs(ranges, x) ==> Comparable(ranges[|ranges| - 1], y)
  {
  }

  // What joining keeps

  lemma {:induction false} CodeAtConcat(x: seq<Coded>, y: seq<Coded>, a: IpAddr)
    ensures CodeAt(x + y, a) == if CodeAt(x, a).Some? then CodeAt(x, a) else CodeAt(y, a)
  {
    if x == [] {
      assert x + y == y;
    } else {
      assert (x + y)[1..] == x[1..] + y;
      CodeAtConcat(x[1..], y, a);
    }
  }

  /** In an ascending list the range that holds an address gives it its code. */
  lemma {:induction false} CodeAtHolder(items: seq<Coded>, a: IpAddr, i: nat)
    requires AscendingPerFamily(items) && i < |items| && items[i].Contains(a)
    ensures CodeAt(items, a) == Some(items[i].code)
  {
    hide Value;
    if i > 0 {
      var rest := items[1..];
      if items[0].range.family == items[i].range.family { assert items[0].High() < items[i].Low(); }
      assert forall k, m :: 0 <= k < m < |rest| ==> rest[k] == items[k + 1] && rest[m] == items[m + 1];
      CodeAtHolder(rest, a, i - 1);
    }
  }

  lemma {:induction false} CodeAtNothing(items: seq<Coded>, a: IpAddr)
    requires forall i :: 0 <= i < |items| ==> !items[i].Contains(a)
    ensures CodeAt(items, a) == None
  {
    hide Value;
    if items != [] { CodeAtNothing(items[1..], a); }
  }

  lemma CodeAtOne(x: Coded, a: IpAddr)
    ensures CodeAt([x], a) == if x.Contains(a) then Some(x.code) else None
  {
    assert [x][1..] == [];
  }

  lemma JoinMeaning(ranges: seq<Coded>, x: Coded, a: IpAddr)
    requires AllNonEmpty(ranges) && x.NonEmpty()
    ensures CodeAt(Join(ranges, x), a) == CodeAt(ranges + [x], a)
    ensures AllNonEmpty(Join(ranges, x))
  {
    hide Value, CodeAt;
    var n := |ranges|;
    if n > 0 && Joinable(ranges[n - 1], x) {
      var front, last := ranges[..n - 1], ranges[n - 1];
      var joined := Coded(x.code, IpRange(x.range.family, last.range.start, x.range.end));
      assert last.NonEmpty();
      CodeAtConcat(front, [joined], a);
      CodeAtConcat(front, [last] + [x], a);
      CodeAtConcat([last], [x], a);
      CodeAtOne(joined, a);
      CodeAtOne(last, a);
      CodeAtOne(x, a);
      assert ranges + [x] == front + ([last] + [x]);
    }
  }

  lemma {:induction false} JoinAllMeaning(ranges: seq<Coded>, items: seq<Coded>, a: IpAddr)
    requires AllNonEmpty(ranges) && AllNonEmpty(items)
    ensures CodeAt(JoinAll(ranges, items), a) == CodeAt(ranges + items, a)
    ensures AllNonEmpty(JoinAll(ranges, items))
    decreases |items|
  {
    hide Coded.NonEmpty, CodeAt, Join;
    if items == [] {
      assert ranges + [] == ranges;
    } else {
      JoinMeaning(ranges, items[0], a);
      JoinAllMeaning(Join(ranges, items[0]), items[1..], a);
      CodeAtConcat(Join(ranges, items[0]), items[1..], a);
      CodeAtConcat(ranges + [items[0]], items[1..], a);
      assert ranges + items == (ranges + [items[0]]) + items[1..];
    }
  }

  lemma {:induction false} JoinAllNotLonger(ranges: seq<Coded>, items: seq<Coded>)
    ensures |JoinAll(ranges, items)| <= |ranges| + |items|
    decreases |items|
  {
    if items != [] { JoinAllNotLonger(Join(ranges, items[0]), items[1..]); }
  }

  lemma JoinLeavesNothing(ranges: seq<Coded>, x: Coded)
    requires NothingToJoin(ranges)
    ensures NothingToJoin(Join(ranges, x))
  {
    hide Value;
    var n, r := |ranges|, Join(ranges, x);
    forall i | 0 <= i < |r| - 1 ensures !Joinable(r[i], r[i + 1]) {
      if i + 1 < n { assert !Joinable(ranges[i], ranges[i + 1]); }
    }
  }

  lemma {:induction false} JoinAllLeavesNothing(ranges: seq<Coded>, items: seq<Coded>)
    requires NothingToJoin(ranges)
    ensures NothingToJoin(JoinAll(ranges, items))
    decreases |items|
  {
    hide Join, NothingToJoin;
    if items != [] {
      JoinLeavesNothing(ranges, items[0]);
      JoinAllLeavesNothing(Join(ranges, items[0]), items[1..]);
    }
  }

  lemma JoinAscending(ranges: seq<Coded>, x: Coded, rest: seq<Coded>)
    requires AscendingPerFamily(ranges + ([x] + rest)) && AllNonEmpty(ranges)
    ensures AscendingPerFamily(Join(ranges, x) + rest)
  {
    hide Value;
    var n := |ranges|;
    var before, after := ranges + ([x] + rest), Join(ranges, x) + rest;
    if n > 0 && Joinable(ranges[n - 1], x) {
      assert before[n - 1] == ranges[n - 1] && before[n] == x;
      forall i, j | 0 <= i < j < |after| && after[i].range.family == after[j].range.family
        ensures after[i].High() < after[j].Low()
      {
        var i', j' := if i < n - 1 then i else i + 1, if j <= n - 1 then j else j + 1;
        assert before[i'].High() < before[j'].Low();
      }
    } else {
      assert after == before;
    }
  }

  lemma {:induction false} JoinAllAscending(ranges: seq<Coded>, items: seq<Coded>)
    requires AscendingPerFamily(ranges + items) && AllNonEmpty(ranges) && AllNonEmpty(items)
    ensures AscendingPerFamily(JoinAll(ranges, items))
    decreases |items|
  {
    hide Coded.NonEmpty, Join, AscendingPerFamily;
    if items == [] {
      assert ranges + [] == ranges;
    } else {
      assert items == [items[0]] + items[1..];
      JoinAscending(ranges, items[0], items[1..]);
      JoinMeaning(ranges, items[0], IpAddr(V4, []));
      JoinAllAscending(Join(ranges, items[0]), items[1..]);
    }
  }

  /**
   Coalescing changes no address's code, makes the list no longer, leaves no two neighbours to
   join, and keeps an ascending list ascending.
   */
  lemma CoalescedKeepsMeaning(items: seq<Coded>)
    requires AllNonEmpty(items)
    ensures forall a :: CodeAt(Coalesced(items), a) == CodeAt(items, a)
    ensures AllNonEmpty(Coalesced(items)) && NothingToJoin(Coalesced(items)) && |Coalesced(items)| <= |items|
    ensures AscendingPerFamily(items) ==> AscendingPerFamily(Coalesced(items))
  {
    hide CodeAt, JoinAll, Coded.NonEmpty;
    assert [] + items == items;
    forall a ensures CodeAt(Coalesced(items), a) == CodeAt(items, a) { JoinAllMeaning([], items, a); }
    JoinAllMeaning([], items, IpAddr(V4, []));
    JoinAllLeavesNothing([], items);
    JoinAllNotLonger([], items);
    if AscendingPerFamily(items) { JoinAllAscending([], items); }
  }

  // One list per meaning

  predicate OfOneFamily(f: Family, items: seq<Coded>)
  {
    forall i :: 0 <= i < |items| ==> items[i].range.family == f
  }

  predicate Canonical(f: Family, items: seq<Coded>)
  {
    OfOneFamily(f, items) && AllNonEmpty(items) && AscendingPerFamily(items) && NothingToJoin(items)
  }

  ghost predicate SameMeaning(x: seq<Coded>, y: seq<Coded>)
  {
    forall a: IpAddr :: CodeAt(x, a) == CodeAt(y, a)
  }

  /** The address of the family with a given integer. */
  function Addr(f: Family, v: nat): IpAddr { IpAddr(f, FromValue(f, v)) }

  lemma {:induction false} CodeBelow(f: Family, items: seq<Coded>, a: IpAddr)
    requires Canonical(f, items) && (items == [] || a.Num() < items[0].Low())
    ensures CodeAt(items, a) == None
  {
    hide Value, Joinable;
    if items != [] {
      assert items[0].NonEmpty();
      if |items| > 1 { assert items[0].High() < items[1].Low(); }
      CanonicalTail(f, items);
      CodeBelow(f, items[1..], a);
    }
  }

  lemma CanonicalTail(f: Family, items: seq<Coded>)
    requires Canonical(f, items) && items != []
    ensures Canonical(f, items[1..])
  {
    hide Value, Joinable, Coded.NonEmpty;
    var rest := items[1..];
    forall i | 0 <= i < |rest| - 1 ensures !Joinable(rest[i], rest[i + 1]) {
      assert !Joinable(items[i + 1], items[i + 2]);
    }
  }

  /** Of two lists of one meaning, the second does not start above the first. */
  lemma FirstNotAbove(f: Family, x: seq<Coded>, y: seq<Coded>)
    requires Canonical(f, x) && Canonical(f, y) && x != [] && SameMeaning(x, y)
    ensures y != [] && y[0].Low() <= x[0].Low()
  {
    hide Value;
    assert x[0].NonEmpty();
    var a := IpAddr(f, x[0].range.start);
    assert x[0].Contains(a);
    assert CodeAt(x, a) == CodeAt(y, a) == Some(x[0].code);
    if y == [] || a.Num() < y[0].Low() { CodeBelow(f, y, a); }
  }

  /** The address after the first range has another code, or none: else there would be something to join. */
  lemma CodeAfterFirst(f: Family, x: seq<Coded>, a: IpAddr)
    requires Canonical(f, x) && x != [] && a.family == f && a.Num() == x[0].High() + 1
    ensures CodeAt(x, a) != Some(x[0].code)
  {
    hide Value;
    assert !x[0].Contains(a);
    CanonicalTail(f, x);
    if |x| == 1 || a.Num() < x[1].Low() {
      CodeBelow(f, x[1..], a);
    } else {
      assert x[0].High() < x[1].Low() && x[1].NonEmpty();
      assert !Joinable(x[0], x[1]);
      assert x[1..][0].Contains(a);
    }
  }

  /** Of two lists of one meaning and one first start, the second's first range does not end above the first's. */
  lemma FirstEndsNotAbove(f: Family, x: seq<Coded>, y: seq<Coded>)
    requires Canonical(f, x) && Canonical(f, y) && x != [] && y != [] && SameMeaning(x, y)
    requires x[0].Low() == y[0].Low() && x[0].code == y[0].code
    ensures y[0].High() <= x[0].High()
  {
    hide Value, Family.Space, FromValue;
    assert y[0].NonEmpty() && x[0].NonEmpty();
    ValueBound(f, y[0].range.end);
    var v := x[0].High() + 1;
    if v <= y[0].High() {
      ValueOfFromValue(f, v);
      assert y[0].Contains(Addr(f, v));
      assert CodeAt(x, Addr(f, v)) == CodeAt(y, Addr(f, v));
      CodeAfterFirst(f, x, Addr(f, v));
    }
  }

  lemma TailMeaning(f: Family, x: seq<Coded>, y: seq<Coded>)
    requires Canonical(f, x) && Canonical(f, y) && x != [] && y != [] && SameMeaning(x, y) && x[0] == y[0]
    ensures SameMeaning(x[1..], y[1..])
  {
    hide Value;
    CanonicalTail(f, x);
    CanonicalTail(f, y);
    forall a: IpAddr ensures CodeAt(x[1..], a) == CodeAt(y[1..], a) {
      assert CodeAt(x, a) == CodeAt(y, a);
      if x[0].Contains(a) {
        if |x| > 1 { assert x[0].High() < x[1].Low(); }
        if |y| > 1 { assert y[0].High() < y[1].Low(); }
        CodeBelow(f, x[1..], a);
        CodeBelow(f, y[1..], a);
      }
    }
  }

  lemma {:induction false} CanonicalUnique(f: Family, x: seq<Coded>, y: seq<Coded>)
    requires Canonical(f, x) && Canonical(f, y) && SameMeaning(x, y)
    ensures x == y
    decreases |x|
  {
    hide Value, Joinable, CodeAt;
    if x == [] {
      if y != [] { FirstNotAbove(f, y, x); }
    } else {
      FirstNotAbove(f, x, y);
      FirstNotAbove(f, y, x);
      SameFirst(f, x, y);
      TailMeaning(f, x, y);
      CanonicalTail(f, x);
      CanonicalTail(f, y);
      CanonicalUnique(f, x[1..], y[1..]);
      assert x == [x[0]] + x[1..] && y == [y[0]] + y[1..];
    }
  }

  lemma SameFirst(f: Family, x: seq<Coded>, y: seq<Coded>)
    requires Canonical(f, x) && Canonical(f, y) && x != [] && y != [] && SameMeaning(x, y)
    requires x[0].Low() == y[0].Low()
    ensures x[0] == y[0]
  {
    hide Value;
    assert x[0].NonEmpty() && y[0].NonEmpty();
    var a := IpAddr(f, x[0].range.start);
    assert x[0].Contains(a) && y[0].Contains(a);
    assert CodeAt(x, a) == CodeAt(y, a);
    FirstEndsNotAbove(f, x, y);
    FirstEndsNotAbove(f, y, x);
    SameValueSameIp(f, x[0].range.start, y[0].range.start);
    SameValueSameIp(f, x[0].range.end, y[0].range.end);
  }

  lemma {:induction false} JoinAllOfFamily(f: Family, ranges: seq<Coded>, items: seq<Coded>)
    requires OfOneFamily(f, ranges) && OfOneFamily(f, items)
    ensures OfOneFamily(f, JoinAll(ranges, items))
    decreases |items|
  {
    if items != [] { JoinAllOfFamily(f, Join(ranges, items[0]), items[1..]); }
  }

  /**
   Two ascending lists of one family coalesce to the same list exactly when they give every
   address the same code: the result depends on nothing but the map the database stands for.
   */
  lemma CoalescedIsCanonical(f: Family, x: seq<Coded>, y: seq<Coded>)
    requires OfOneFamily(f, x) && OfOneFamily(f, y) && AllNonEmpty(x) && AllNonEmpty(y)
    requires AscendingPerFamily(x) && AscendingPerFamily(y)
    ensures Coalesced(x) == Coalesced(y) <==> SameMeaning(x, y)
  {
    hide CodeAt, JoinAll, Coded.NonEmpty;
    CoalescedKeepsMeaning(x);
    CoalescedKeepsMeaning(y);
    JoinAllOfFamily(f, [], x);
    JoinAllOfFamily(f, [], y);
    if SameMeaning(x, y) {
      CanonicalUnique(f, Coalesced(x), Coalesced(y));
    }
  }
}
