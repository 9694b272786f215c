/**
 Sorted lists of address blocks, the tilings of the address space they are filled up to,
 and what country a list of blocks gives an address.
 */
module Tiling {
  import opened Words
  import opened Addresses
  import opened Format

  predicate IsBlock(f: Family, b: Block)
  {
    IsIp(f, b.start) && IsIp(f, b.end) && Value(f, b.start) <= Value(f, b.end)
  }

  predicate Contains(f: Family, b: Block, v: nat)
  {
    Value(f, b.start) <= v <= Value(f, b.end)
  }

  /** Blocks in ascending order without overlap, none of them below `lo`. */
  predicate SortedFrom(f: Family, lo: nat, blocks: seq<Block>)
    decreases |blocks|
  {
    blocks == [] ||
    (IsBlock(f, blocks[0]) && lo <= Value(f, blocks[0].start) &&
     SortedFrom(f, Value(f, blocks[0].end) + 1, blocks[1..]))
  }

  predicate Sorted(f: Family, blocks: seq<Block>)
  {
    SortedFrom(f, 0, blocks)
  }

  /** Blocks that follow one another without a gap from `lo` up to, not including, `hi`. */
  predicate Tiles(f: Family, lo: nat, blocks: seq<Block>, hi: nat)
    decreases |blocks|
  {
    if blocks == [] then lo == hi
    else IsBlock(f, blocks[0]) && Value(f, blocks[0].start) == lo &&
         Tiles(f, Value(f, blocks[0].end) + 1, blocks[1..], hi)
  }

  /** The first block, in list order, that holds the address. */
  function Scan(f: Family, blocks: seq<Block>, v: nat): (r: Option<Block>)
    ensures r.Some? ==> r.value in blocks && Contains(f, r.value, v)
    decreases |blocks|
  {
    if blocks == [] then None
    else if Contains(f, blocks[0], v) then Some(blocks[0])
    else Scan(f, blocks[1..], v)
  }

  /** The block of country 0 between `lo` and the block's start, if there is room for one. */
  function GapBefore(f: Family, lo: nat, b: Block): seq<Block>
  {
    var first := Value(f, b.start);
    if lo < first then [Block(FromValue(f, lo), FromValue(f, first - 1), 0)] else []
  }

  /** The block of country 0 from `lo` to the end of the address space, if there is room for one. */
  function GapAfter(f: Family, lo: nat): seq<Block>
  {
    if lo < f.Space() then [Block(FromValue(f, lo), MaxIp(f), 0)] else []
  }

  /** The list with every gap, at the head, between blocks and at the tail, made into one block. */
  function GapFilled(f: Family, lo: nat, blocks: seq<Block>): (r: seq<Block>)
    decreases |blocks|
  {
    if blocks == [] then GapAfter(f, lo)
    else GapBefore(f, lo, blocks[0]) + ([blocks[0]] + GapFilled(f, Value(f, blocks[0].end) + 1, blocks[1..]))
  }

  lemma TileStep(f: Family, lo: nat, b: Block, rest: seq<Block>, hi: nat)
    requires IsBlock(f, b) && Value(f, b.start) == lo && Tiles(f, Value(f, b.end) + 1, rest, hi)
    ensures Tiles(f, lo, [b] + rest, hi)
  {
    assert ([b] + rest)[1..] == rest;
  }

  lemma GapBeforeTiles(f: Family, lo: nat, b: Block, rest: seq<Block>, hi: nat)
    requires IsIp(f, b.start) && lo <= Value(f, b.start) && Tiles(f, Value(f, b.start), rest, hi)
    ensures Tiles(f, lo, GapBefore(f, lo, b) + rest, hi)
  {
    hide Value, FromValue, Family.Space, Tiles;
    ValueBound(f, b.start);
    if lo < Value(f, b.start) {
      ValueOfFromValue(f, lo);
      ValueOfFromValue(f, Value(f, b.start) - 1);
      TileStep(f, lo, GapBefore(f, lo, b)[0], rest, hi);
    } else {
      assert [] + rest == rest;
    }
  }

  lemma GapAfterTiles(f: Family, lo: nat)
    requires lo <= f.Space()
    ensures Tiles(f, lo, GapAfter(f, lo), f.Space())
  {
    hide Value, FromValue, Family.Space, MaxIp;
    if lo < f.Space() {
      EndValues(f);
      ValueOfFromValue(f, lo);
      var b := GapAfter(f, lo)[0];
      TileStep(f, lo, b, [], f.Space());
      assert [b] + [] == [b];
    }
  }

  lemma {:induction false} GapFilledTiles(f: Family, lo: nat, blocks: seq<Block>)
    requires SortedFrom(f, lo, blocks) && lo <= f.Space()
    ensures Tiles(f, lo, GapFilled(f, lo, blocks), f.Space())
    decreases |blocks|
  {
    hide Value, FromValue, Family.Space, GapBefore, GapAfter, Tiles;
    if blocks == [] {
      GapAfterTiles(f, lo);
    } else {
      var b, rest := blocks[0], GapFilled(f, Value(f, blocks[0].end) + 1, blocks[1..]);
      ValueBound(f, b.end);
      GapFilledTiles(f, Value(f, b.end) + 1, blocks[1..]);
      TileStep(f, Value(f, b.start), b, rest, f.Space());
      GapBeforeTiles(f, lo, b, [b] + rest, f.Space());
    }
  }

  lemma ScanStep(f: Family, b: Block, rest: seq<Block>, v: nat)
    ensures Scan(f, [b] + rest, v) == if Contains(f, b, v) then Some(b) else Scan(f, rest, v)
  {
    assert ([b] + rest)[1..] == rest;
  }

  /** Nothing below the first block of a sorted list. */
  lemma {:induction false} ScanBelow(f: Family, lo: nat, blocks: seq<Block>, v: nat)
    requires SortedFrom(f, lo, blocks) && v < lo
    ensures Scan(f, blocks, v) == None
    decreases |blocks|
  {
    if blocks != [] { ScanBelow(f, Value(f, blocks[0].end) + 1, blocks[1..], v); }
  }

  /** Looking an address up in a list that starts with a gap, if any, and then a block. */
  lemma ScanPastGap(f: Family, lo: nat, b: Block, rest: seq<Block>, v: nat)
    requires IsIp(f, b.start) && lo <= Value(f, b.start) && lo <= v
    ensures var r := Scan(f, GapBefore(f, lo, b) + ([b] + rest), v);
            if v < Value(f, b.start) then r.Some? && r.value.country == 0
            else r == (if v <= Value(f, b.end) then Some(b) else Scan(f, rest, v))
  {
    hide Value, FromValue, Family.Space, Scan;
    ValueBound(f, b.start);
    ScanStep(f, b, rest, v);
    if lo < Value(f, b.start) {
      ValueOfFromValue(f, lo);
      ValueOfFromValue(f, Value(f, b.start) - 1);
      ScanStep(f, GapBefore(f, lo, b)[0], [b] + rest, v);
    } else {
      assert [] + ([b] + rest) == [b] + rest;
    }
  }

  /** Filling the gaps changes no address's block, and gives country 0 to those that had none. */
  lemma {:induction false} GapFilledMeaning(f: Family, lo: nat, blocks: seq<Block>, v: nat)
    requires SortedFrom(f, lo, blocks) && lo <= v < f.Space()
    ensures var r := Scan(f, GapFilled(f, lo, blocks), v);
            && r.Some?
            && (if Scan(f, blocks, v).Some? then r == Scan(f, blocks, v) else r.value.country == 0)
    decreases |blocks|
  {
    hide Value, FromValue, Family.Space, GapBefore, MaxIp;
    if blocks == [] {
      EndValues(f);
      ValueOfFromValue(f, lo);
    } else {
      var b, rest := blocks[0], GapFilled(f, Value(f, blocks[0].end) + 1, blocks[1..]);
      ScanPastGap(f, lo, b, rest, v);
      if v < Value(f, b.start) {
        ScanBelow(f, Value(f, b.start), blocks, v);
      } else if v > Value(f, b.end) {
        GapFilledMeaning(f, Value(f, b.end) + 1, blocks[1..], v);
      }
    }
  }

  // What the serializer emits

  /** The blocks one addition writes: a filler first if the block does not follow on. */
  function Emitted(f: Family, prevEnd: Ip, b: Block): (r: seq<Block>)
  {
    Filler(f, prevEnd, b.start) + [b]
  }

  function Filler(f: Family, prevEnd: Ip, start: Ip): (r: seq<Block>)
  {
    var expected := PlusOne(f, prevEnd);
    if start == expected then [] else [Block(expected, MinusOne(f, start), 0)]
  }

  function LastEnd(prevEnd: Ip, blocks: seq<Block>): Ip
  {
    if blocks == [] then prevEnd else blocks[|blocks| - 1].end
  }

  /** The blocks written by adding a list. */
  function EmittedRun(f: Family, prevEnd: Ip, blocks: seq<Block>): (r: seq<Block>)
    decreases |blocks|
  {
    if blocks == [] then []
    else Emitted(f, prevEnd, blocks[0]) + EmittedRun(f, blocks[0].end, blocks[1..])
  }

  /** The filler that `finish` adds unless the last block ends at the maximum. */
  function Tail(f: Family, prevEnd: Ip): (r: seq<Block>)
  {
    if prevEnd == MaxIp(f) then [] else [Block(PlusOne(f, prevEnd), MaxIp(f), 0)]
  }

  function EmittedAll(f: Family, prevEnd: Ip, blocks: seq<Block>): (r: seq<Block>)
  {
    EmittedRun(f, prevEnd, blocks) + Tail(f, LastEnd(prevEnd, blocks))
  }

  lemma EmittedAllStep(f: Family, prevEnd: Ip, blocks: seq<Block>)
    requires blocks != []
    ensures EmittedAll(f, prevEnd, blocks)
            == Emitted(f, prevEnd, blocks[0]) + EmittedAll(f, blocks[0].end, blocks[1..])
  {
    assert LastEnd(prevEnd, blocks) == LastEnd(blocks[0].end, blocks[1..]);
  }

  lemma {:induction false} EmittedRunNext(f: Family, prevEnd: Ip, blocks: seq<Block>, b: Block)
    ensures EmittedRun(f, prevEnd, blocks + [b])
            == EmittedRun(f, prevEnd, blocks) + Emitted(f, LastEnd(prevEnd, blocks), b)
    decreases |blocks|
  {
    if blocks == [] {
      assert [] + [b] == [b] && [b][1..] == [];
    } else {
      assert (blocks + [b])[1..] == blocks[1..] + [b];
      assert LastEnd(prevEnd, blocks) == LastEnd(blocks[0].end, blocks[1..]);
      EmittedRunNext(f, blocks[0].end, blocks[1..], b);
    }
  }

  /** `lo` is the address after `prevEnd`, which before the first block is the maximum. */
  predicate Follows(f: Family, prevEnd: Ip, lo: nat, blocks: seq<Block>)
  {
    IsIp(f, prevEnd) &&
    if prevEnd == MaxIp(f) then lo == (if blocks == [] then f.Space() else 0) else lo == Value(f, prevEnd) + 1
  }

  lemma FillerIsGap(f: Family, prevEnd: Ip, lo: nat, b: Block)
    requires Follows(f, prevEnd, lo, [b]) && IsIp(f, b.start) && lo <= Value(f, b.start)
    ensures Filler(f, prevEnd, b.start) == GapBefore(f, lo, b)
  {
    hide Value, FromValue, Family.Space, MaxIp, PlusOne, MinusOne;
    EndValues(f);
    PlusOneValue(f, prevEnd);
    MinusOneValue(f, b.start);
    SameValueSameIp(f, prevEnd, MaxIp(f));
    SameValueSameIp(f, PlusOne(f, prevEnd), b.start);
    FromValueOfValue(f, PlusOne(f, prevEnd));
    FromValueOfValue(f, MinusOne(f, b.start));
  }

  lemma TailIsGap(f: Family, prevEnd: Ip, lo: nat)
    requires Follows(f, prevEnd, lo, [])
    ensures EmittedAll(f, prevEnd, []) == GapAfter(f, lo)
  {
    hide Value, FromValue, Family.Space, MaxIp, PlusOne;
    EndValues(f);
    ValueBound(f, prevEnd);
    PlusOneValue(f, prevEnd);
    SameValueSameIp(f, prevEnd, MaxIp(f));
    FromValueOfValue(f, PlusOne(f, prevEnd));
  }

  /** A block of a sorted list that ends at the maximum is the last one. */
  lemma FollowsNext(f: Family, lo: nat, blocks: seq<Block>)
    requires SortedFrom(f, lo, blocks) && blocks != []
    ensures Follows(f, blocks[0].end, Value(f, blocks[0].end) + 1, blocks[1..])
  {
    EndValues(f);
    if blocks[1..] != [] { ValueBound(f, blocks[1].start); }
  }

  /** Wrapping arithmetic on a sorted list emits exactly the gap-filled list. */
  lemma {:induction false} EmittedIsGapFilled(f: Family, prevEnd: Ip, lo: nat, blocks: seq<Block>)
    requires Follows(f, prevEnd, lo, blocks) && SortedFrom(f, lo, blocks)
    ensures EmittedAll(f, prevEnd, blocks) == GapFilled(f, lo, blocks)
    decreases |blocks|
  {
    hide Value, FromValue, Family.Space, MaxIp, Filler, GapBefore, EmittedAll;
    if blocks == [] {
      TailIsGap(f, prevEnd, lo);
    } else {
      FillerIsGap(f, prevEnd, lo, blocks[0]);
      FollowsNext(f, lo, blocks);
      EmittedAllStep(f, prevEnd, blocks);
      EmittedIsGapFilled(f, blocks[0].end, Value(f, blocks[0].end) + 1, blocks[1..]);
    }
  }

  /** After every addition of a sorted stream the blocks written tile the addresses up to the last end. */
  lemma {:induction false} RunTiles(f: Family, prevEnd: Ip, lo: nat, blocks: seq<Block>)
    requires blocks != [] && Follows(f, prevEnd, lo, blocks) && SortedFrom(f, lo, blocks)
    ensures Tiles(f, lo, EmittedRun(f, prevEnd, blocks), Value(f, LastEnd(prevEnd, blocks)) + 1)
    decreases |blocks|
  {
    hide Value, FromValue, Family.Space, MaxIp, Filler, GapBefore, Tiles;
    var b, rest := blocks[0], EmittedRun(f, blocks[0].end, blocks[1..]);
    var hi := Value(f, LastEnd(prevEnd, blocks)) + 1;
    FillerIsGap(f, prevEnd, lo, b);
    FollowsNext(f, lo, blocks);
    if blocks[1..] == [] {
      TilesNone(f, hi);
    } else {
      RunTiles(f, b.end, Value(f, b.end) + 1, blocks[1..]);
    }
    TileStep(f, Value(f, b.start), b, rest, hi);
    GapBeforeTiles(f, lo, b, [b] + rest, hi);
    assert EmittedRun(f, prevEnd, blocks) == GapBefore(f, lo, b) + ([b] + rest);
  }

  lemma TilesNone(f: Family, hi: nat)
    ensures Tiles(f, hi, [], hi)
  {
  }

  // Growing a sorted list at its end

  lemma {:induction false} SortedInit(f: Family, lo: nat, blocks: seq<Block>, b: Block)
    requires SortedFrom(f, lo, blocks + [b])
    ensures SortedFrom(f, lo, blocks) && IsBlock(f, b) && lo <= Value(f, b.start)
    ensures blocks != [] ==> IsBlock(f, blocks[|blocks| - 1]) && Value(f, blocks[|blocks| - 1].end) < Value(f, b.start)
    decreases |blocks|
  {
    hide IsBlock, Value;
    var all := blocks + [b];
    if blocks != [] {
      assert all[0] == blocks[0] && all[1..] == blocks[1..] + [b];
      SortedInit(f, Value(f, blocks[0].end) + 1, blocks[1..], b);
      assert IsBlock(f, blocks[0]);
      BlockOrder(f, blocks[0]);
    }
  }

  lemma BlockOrder(f: Family, b: Block)
    requires IsBlock(f, b)
    ensures Value(f, b.start) <= Value(f, b.end)
  {
  }
}
