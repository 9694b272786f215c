/**
 The compressed stream as it is kept in generated source code: 64-bit words and a bit count.
 */
module Packing {
  import opened Words
  import opened QueueBytes
  import opened BitQueues

  const WORD_BITS := 64

  function Packed(bits: seq<bool>): (words: seq<nat>)
    decreases |bits|
  {
    if bits == [] then []
    else if |bits| < WORD_BITS then [Num(bits)]
    else [Num(bits[..WORD_BITS])] + Packed(bits[WORD_BITS..])
  }

  /** The first `n` bits of the words; a missing word is an error the program does not survive. */
  function Unpacked(words: seq<nat>, n: nat): (bits: seq<bool>)
    requires n <= WORD_BITS * |words|
    ensures |bits| == n
    decreases n
  {
    if n == 0 then []
    else if n < WORD_BITS then Bits(words[0], n)
    else Bits(words[0], WORD_BITS) + Unpacked(words[1..], n - WORD_BITS)
  }

  predicate AreWords(words: seq<nat>)
  {
    forall i :: 0 <= i < |words| ==> words[i] < 0x1_0000_0000_0000_0000
  }

  /** Just enough words, the unused high bits of the last one zero. */
  predicate Snug(words: seq<nat>, n: nat)
  {
    && AreWords(words)
    && WORD_BITS * |words| < n + WORD_BITS && n <= WORD_BITS * |words|
    && (words != [] ==> words[|words| - 1] < Pow2(n - WORD_BITS * (|words| - 1)))
  }

  lemma WordBound(bits: seq<bool>)
    requires |bits| <= WORD_BITS
    ensures Num(bits) < 0x1_0000_0000_0000_0000
  {
    NumBound(bits);
    Pow2Monotone(|bits|, WORD_BITS);
    Pow2SixtyFour();
  }

  lemma {:induction false} PackedSnug(bits: seq<bool>)
    ensures Snug(Packed(bits), |bits|)
    decreases |bits|
  {
    hide Num, Pow2;
    if bits == [] {
    } else if |bits| < WORD_BITS {
      WordBound(bits);
      NumBound(bits);
    } else {
      var rest := bits[WORD_BITS..];
      WordBound(bits[..WORD_BITS]);
      NumBound(bits[..WORD_BITS]);
      PackedSnug(rest);
      assert |Packed(bits)| == 1 + |Packed(rest)|;
    }
  }

  /** The word count of a packed stream is its bit count over 64, rounded up. */
  lemma PackedSize(bits: seq<bool>)
    ensures |Packed(bits)| == (|bits| + 63) / 64
  {
    PackedSnug(bits);
  }

  lemma {:induction false} UnpackedOfPacked(bits: seq<bool>)
    ensures |bits| <= WORD_BITS * |Packed(bits)|
    ensures Unpacked(Packed(bits), |bits|) == bits
    decreases |bits|
  {
    hide Num, Bits;
    PackedSnug(bits);
    if bits == [] {
    } else if |bits| < WORD_BITS {
      BitsOfNum(bits);
    } else {
      BitsOfNum(bits[..WORD_BITS]);
      UnpackedOfPacked(bits[WORD_BITS..]);
      assert Packed(bits)[1..] == Packed(bits[WORD_BITS..]);
    }
  }

  lemma {:induction false} PackedOfUnpacked(words: seq<nat>, n: nat)
    requires Snug(words, n)
    ensures Packed(Unpacked(words, n)) == words
    decreases n
  {
    hide Num, Bits, Pow2;
    if n == 0 {
    } else if n < WORD_BITS {
      NumOfBits(words[0], n);
      assert words == [words[0]];
    } else {
      Pow2SixtyFour();
      NumOfBits(words[0], WORD_BITS);
      var bits := Unpacked(words, n);
      assert bits[..WORD_BITS] == Bits(words[0], WORD_BITS) && bits[WORD_BITS..] == Unpacked(words[1..], n - WORD_BITS);
      PackedOfUnpacked(words[1..], n - WORD_BITS);
      assert words == [words[0]] + words[1..];
    }
  }

  lemma PackedStep(bits: seq<bool>)
    requires bits != []
    ensures var k := Min(WORD_BITS, |bits|);
            Packed(bits) == [Num(bits[..k])] + Packed(bits[k..])
  {
    hide Num;
    if |bits| < WORD_BITS { assert bits[..|bits|] == bits; }
  }

  /** Drains a queue into words. */
  method Pack(queue: BitQueue) returns (words: seq<u64>, bitCount: nat)
    requires queue.Valid()
    modifies queue
    ensures queue.Valid() && queue.Contents() == []
    ensures words == Packed(old(queue.Contents())) && bitCount == |old(queue.Contents())|
  {
    hide BitQueue.Valid, BitQueue.Contents, BitQueue.View, Packed, Num;
    bitCount := queue.Len();
    words := [];
    var left := bitCount;
    PackedNone();
    while left >= WORD_BITS
      invariant queue.Valid() && left == |queue.Contents()|
      invariant words + Packed(queue.Contents()) == Packed(old(queue.Contents()))
    {
      PackedStep(queue.Contents());
      var word := queue.TakeBits(WORD_BITS);
      words := words + [word.value];
      left := queue.Len();
    }
    if left != 0 {
      PackedStep(queue.Contents());
      var word := queue.TakeBits(left);
      words := words + [word.value];
    }
    assert queue.Contents() == [];
  }

  lemma PackedNone()
    ensures Packed([]) == []
  {
  }

  /** Rebuilds a queue from words. */
  method Unpack(data: seq<u64>, count: nat) returns (queue: BitQueue)
    requires count <= WORD_BITS * |data|
    ensures fresh(queue) && queue.Valid() && queue.Contents() == Unpacked(data, count)
  {
    hide BitQueue.Valid, BitQueue.Contents, BitQueue.View, BitQueue.Clean, Bits, Pow2, Added;
    queue := new BitQueue();
    var countryData: seq<u64>, bitCount: nat := data, count;
    Pow2SixtyFour();
    while bitCount >= WORD_BITS
      invariant fresh(queue) && queue.Valid() && queue.Clean()
      invariant bitCount <= WORD_BITS * |countryData|
      invariant queue.Contents() + Unpacked(countryData, bitCount) == Unpacked(data, count)
    {
      queue.AddBits(countryData[0], WORD_BITS);
      countryData, bitCount := countryData[1..], bitCount - WORD_BITS;
    }
    if bitCount > 0 {
      queue.AddBits(countryData[0], bitCount);
    }
  }
}
