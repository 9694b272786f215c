/**
 Whole runs of a bit queue: every interleaving of additions and takings behaves as a FIFO of
 bits, as long as data fits its bit count, and what happens when it does not.
 */
module QueueRuns {
  import opened Words
  import opened QueueBytes
  import opened BitQueues

  datatype Op = AddOp(data: u64, count: nat) | TakeOp(count: nat)

  predicate Fits(op: Op)
  {
    op.count <= 64 && (op.AddOp? ==> op.data < Pow2(op.count))
  }

  /** The FIFO: what each taking yields, and the bits left at the end. */
  function FifoRun(bits: seq<bool>, ops: seq<Op>): (r: (seq<Option<nat>>, seq<bool>))
    decreases |ops|
  {
    if ops == [] then ([], bits)
    else if ops[0].AddOp? then FifoRun(bits + Bits(ops[0].data, ops[0].count), ops[1..])
    else
      var rest := FifoRun(LeftAfter(bits, ops[0].count), ops[1..]);
      ([Yield(bits, ops[0].count)] + rest.0, rest.1)
  }

  /** What a taking yields: the oldest bits as a number, or nothing if there are too few. */
  function Yield(bits: seq<bool>, n: nat): Option<nat>
  {
    if n <= |bits| then Some(Num(bits[..n])) else None
  }

  function LeftAfter(bits: seq<bool>, n: nat): seq<bool>
  {
    if n <= |bits| then bits[n..] else bits
  }

  /** All the bits the additions of a run bring in. */
  function BitsIn(ops: seq<Op>): seq<bool>
  {
    if ops == [] then []
    else (if ops[0].AddOp? then Bits(ops[0].data, ops[0].count) else []) + BitsIn(ops[1..])
  }

  /** All the bits that the takings of a run yield, each as the low bits of its result. */
  function BitsOut(ops: seq<Op>, results: seq<Option<nat>>): seq<bool>
    decreases |ops|
  {
    if ops == [] then []
    else if ops[0].AddOp? then BitsOut(ops[1..], results)
    else if results == [] then []
    else (if results[0].Some? then Bits(results[0].value, ops[0].count) else []) + BitsOut(ops[1..], results[1..])
  }

  /** Over a run nothing is lost, made up or put out of order: bits out and bits left are bits held and bits in. */
  lemma {:induction false} FifoConserves(bits: seq<bool>, ops: seq<Op>)
    ensures var (results, end) := FifoRun(bits, ops);
            BitsOut(ops, results) + end == bits + BitsIn(ops)
    decreases |ops|
  {
    hide Num, Bits, BitAt;
    if ops == [] {
    } else if ops[0].AddOp? {
      FifoConserves(bits + Bits(ops[0].data, ops[0].count), ops[1..]);
    } else {
      FifoConserves(LeftAfter(bits, ops[0].count), ops[1..]);
      TakingConserves(bits, ops);
    }
  }

  lemma TakingConserves(bits: seq<bool>, ops: seq<Op>)
    requires ops != [] && ops[0].TakeOp?
    requires var left := LeftAfter(bits, ops[0].count);
             var rest := FifoRun(left, ops[1..]);
             BitsOut(ops[1..], rest.0) + rest.1 == left + BitsIn(ops[1..])
    ensures var all := FifoRun(bits, ops);
            BitsOut(ops, all.0) + all.1 == bits + BitsIn(ops)
  {
    hide Num, Bits, BitAt;
    var count, left := ops[0].count, LeftAfter(bits, ops[0].count);
    var rest := FifoRun(left, ops[1..]);
    var out, added := BitsOut(ops[1..], rest.0), BitsIn(ops[1..]);
    assert FifoRun(bits, ops).0[1..] == rest.0;
    assert BitsIn(ops) == added;
    if count <= |bits| {
      BitsOfNum(bits[..count]);
      assert BitsOut(ops, FifoRun(bits, ops).0) == bits[..count] + out;
      Regroup(bits[..count], out, rest.1, left, added);
      assert bits == bits[..count] + left;
    } else {
      assert BitsOut(ops, FifoRun(bits, ops).0) == out;
    }
  }

  lemma Regroup(a: seq<bool>, b: seq<bool>, c: seq<bool>, d: seq<bool>, e: seq<bool>)
    requires b + c == d + e
    ensures (a + b) + c == (a + d) + e
  {
    assert (a + b) + c == a + (b + c);
    assert (a + d) + e == a + (d + e);
  }

  /** The queue, driven by any run whose data fits, answers as the FIFO does. */
  method RunQueue(queue: BitQueue, ops: seq<Op>) returns (results: seq<Option<nat>>)
    requires queue.Valid() && queue.Clean() && forall i :: 0 <= i < |ops| ==> Fits(ops[i])
    modifies queue
    ensures queue.Valid() && queue.Clean()
    ensures (results, queue.Contents()) == FifoRun(old(queue.Contents()), ops)
  {
    hide BitQueue.Valid, BitQueue.View, BitQueue.Clean, Bits, Num, Pow2, FifoRun;
    results := [];
    ghost var all := FifoRun(queue.Contents(), ops);
    for i := 0 to |ops|
      invariant queue.Valid() && queue.Clean()
      invariant var rest := FifoRun(queue.Contents(), ops[i..]);
                results + rest.0 == all.0 && rest.1 == all.1
    {
      FifoStep(queue.Contents(), ops, i);
      if ops[i].AddOp? {
        queue.AddBits(ops[i].data, ops[i].count);
      } else {
        var result := queue.TakeBits(ops[i].count);
        results := results + [result];
      }
    }
    assert ops[|ops|..] == [];
    FifoEnd(queue.Contents());
    assert results + [] == results;
  }

  lemma FifoEnd(bits: seq<bool>)
    ensures FifoRun(bits, []) == ([], bits)
  {
  }

  lemma FifoStep(bits: seq<bool>, ops: seq<Op>, i: nat)
    requires i < |ops|
    ensures ops[i].AddOp? ==>
              FifoRun(bits, ops[i..]) == FifoRun(bits + Bits(ops[i].data, ops[i].count), ops[i + 1..])
    ensures ops[i].TakeOp? ==>
              var rest := FifoRun(LeftAfter(bits, ops[i].count), ops[i + 1..]);
              FifoRun(bits, ops[i..]) == ([Yield(bits, ops[i].count)] + rest.0, rest.1)
  {
    hide Bits, Num;
    assert ops[i..][0] == ops[i] && ops[i..][1..] == ops[i + 1..];
  }

  // Data wider than its bit count

  /** Every later addition to this queue whose data fits appends exactly its data. */
  ghost predicate AppendsExactly(q: Queue)
    requires |q.stray| <= 8
  {
    forall data: nat, count: nat :: data < Pow2(count) ==> Added(q, data, count).live == q.live + Bits(data, count)
  }

  lemma AppendsExactlyIfClean(q: Queue)
    requires |q.stray| <= 8
    ensures AppendsExactly(q) <==> q.stray == Zeros(|q.stray|)
  {
    if q.stray == Zeros(|q.stray|) {
      forall data: nat, count: nat | data < Pow2(count)
        ensures Added(q, data, count).live == q.live + Bits(data, count)
      {
        AddedClean(q, data, count);
      }
    }
    if AppendsExactly(q) {
      assert 0 < Pow2(8);
      var after := Added(q, 0, 8).live;
      assert after == q.live + Bits(0, 8) && after == q.live + Merge(0, q.stray, 8);
      assert after[|q.live|..] == Merge(0, q.stray, 8) == Bits(0, 8);
      forall i | 0 <= i < |q.stray| ensures !q.stray[i] {
        BitOfZero(i);
        assert Merge(0, q.stray, 8)[i] == Bits(0, 8)[i];
      }
    }
  }

  lemma {:induction false} LowPartZero(x: nat, n: nat)
    ensures LowPart(x, n) == 0 <==> Bits(x, n) == Zeros(n)
  {
    var low := LowPart(x, n);
    PartsMakeWhole(x, n);
    forall i | 0 <= i < n ensures BitAt(low, i) == BitAt(x, i) { BitOfLow(x, n, i); }
    assert Bits(low, n) == Bits(x, n);
    forall i | 0 <= i < n ensures !BitAt(0, i) { BitOfZero(i); }
    assert Bits(0, n) == Zeros(n);
    if Bits(x, n) == Zeros(n) { SameBitsSameWord(low, 0, n); }
  }

  /**
   Adding to a clean queue appends the data's low bits whatever the rest of the data, but the
   queue goes on appending exactly what it is given just when the data bits right above the
   count, as many as are then blank in the back byte, are zero.
   */
  lemma OverwideDataExactly(q: Queue, data: nat, count: nat)
    requires |q.stray| <= 8 && q.stray == Zeros(|q.stray|)
    ensures Added(q, data, count).live == q.live + Bits(data, count)
    ensures AppendsExactly(Added(q, data, count))
            <==> LowPart(HighPart(data, count), BlankAfter(|q.stray|, count)) == 0
  {
    hide BitAt, LowPart, HighPart, AppendsExactly;
    var blank := BlankAfter(|q.stray|, count);
    AddedClean(q, data, count);
    AppendsExactlyIfClean(Added(q, data, count));
    LowPartZero(HighPart(data, count), blank);
    MergePlain(data, q.stray, count + blank);
    MergeShifted(data, [], count, blank);
    MergePlain(data, [], count + blank);
    assert Added(q, data, count).stray == Bits(HighPart(data, count), blank);
  }

  /** One bit of the number 3 added to a fresh queue turns the zero added after it into a one. */
  lemma OverwideDataSmears()
    ensures var blankQueue := Queue([], Zeros(8));
            Added(Added(blankQueue, 3, 1), 0, 1).live == [true, true]
  {
    var blankQueue := Queue([], Zeros(8));
    var one := Added(blankQueue, 3, 1);
    assert BitAt(3, 0) && BitAt(3, 1);
    assert one.stray[0];
    assert Added(one, 0, 1).live == [true, true];
  }
}
