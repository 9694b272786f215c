/**
 The bit-level FIFO, with the program's own three fields and its private helpers.
 */
module BitQueues {
  import opened Words
  import opened QueueBytes

  class BitQueue {
    var byteQueue: seq<u8>
    var frontBlank: nat
    var backBlank: nat

    predicate Valid()
      reads this
    {
      Shape(byteQueue, frontBlank, backBlank)
    }

    /** What the fields stand for. */
    function View(): (q: Queue)
      requires Valid()
      reads this
      ensures |q.stray| == backBlank <= 8
    {
      Queue(Live(byteQueue, frontBlank, backBlank), Stray(byteQueue[|byteQueue| - 1], backBlank))
    }

    function Contents(): (s: seq<bool>)
      requires Valid()
      reads this
    {
      View().live
    }

    /** The blank part of the back byte holds only zeros. */
    predicate Clean()
      requires Valid()
      reads this
    {
      View().stray == Zeros(backBlank)
    }

    constructor ()
      ensures Valid() && Clean() && Contents() == [] && View() == Queue([], Zeros(8))
    {
      byteQueue := [0, 0];
      frontBlank := 8;
      backBlank := 8;
      new;
      forall i | 0 <= i < 8 ensures !View().stray[i] { BitOfZero(i); }
    }

    method Len() returns (n: nat)
      requires Valid()
      ensures n == |Contents()|
    {
      n := |byteQueue| * 8 - backBlank - frontBlank;
    }

    method PushBlankIfFull()
      requires Valid()
      modifies this
      ensures Valid() && |byteQueue| >= 2 && frontBlank == old(frontBlank)
      ensures var q := old(View());
              View() == Queue(q.live, if q.stray == [] then Zeros(8) else q.stray)
    {
      if backBlank == 0 {
        if |byteQueue| >= 2 { LiveBackFull(byteQueue, frontBlank); }
        forall i | 0 <= i < 8 ensures !BitAt(0, i) { BitOfZero(i); }
        byteQueue := byteQueue + [0];
        backBlank := 8;
        assert byteQueue[1..|byteQueue| - 1] == old(byteQueue)[1..];
        LiveBackBlank(byteQueue, frontBlank);
      }
    }

    /** The or of the data into the back byte; `added` of its blank bits become live. */
    method OrIntoBackByte(data: nat, added: nat)
      requires Valid() && |byteQueue| >= 2 && 1 <= backBlank && added <= backBlank
      modifies this
      ensures Valid() && |byteQueue| >= 2 && frontBlank == old(frontBlank)
      ensures var q := old(View());
              View() == Queue(q.live + Merge(data, q.stray, added), Merge(data, q.stray, |q.stray|)[added..])
    {
      hide Bits, BitAt, Flat, Merge, HighPart, Pow2, LowPart, Or, And, Raised, Num, Live, Stray, MergedByte;
      var full := 8 - backBlank;
      var last := |byteQueue| - 1;
      OrIntoByte(byteQueue[last], data, full);
      var merged: u8 := Or(byteQueue[last], AsU8(Shl(data, full, 64)));
      BackByteMerged(byteQueue, merged, frontBlank, backBlank, data, added);
      byteQueue := byteQueue[..last] + [merged];
      backBlank := backBlank - added;
    }

    method AddSomeBackBits(data: nat, count: nat) returns (added: nat)
      requires Valid()
      modifies this
      ensures Valid() && |byteQueue| >= 2 && frontBlank == old(frontBlank)
      ensures added == Min(count, Room(old(View())))
      ensures View() == SomeAdded(old(View()), data, count)
    {
      hide Live, Stray, Bits, BitAt, Flat, Merge, HighPart, Num, Pow2, LowPart, Or, Raised;
      PushBlankIfFull();
      MergeZeros(data, old(View()).stray, View().stray);
      added := if count < backBlank then count else backBlank;
      OrIntoBackByte(data, added);
      PushBlankIfFull();
    }

    method AddBackBytes(data: nat, count: nat) returns (added: nat)
      requires Valid() && count <= 64
      requires count >= 8 ==> backBlank == 0 || backBlank == 8
      modifies this
      ensures Valid() && frontBlank == old(frontBlank)
      ensures added == 8 * (count / 8)
      ensures View() == BytesAdded(old(View()), data, count)
    {
      hide Bits, BitAt, Flat, Merge, HighPart, Pow2, LowPart, Or, And, Raised, Num;
      if count < 8 {
        return 0;
      }
      if |byteQueue| >= 2 {
        LiveBackBlank(byteQueue, frontBlank);
        LiveBackFull(byteQueue, frontBlank);
      }
      if backBlank == 8 {
        byteQueue := byteQueue[..|byteQueue| - 1];
        backBlank := 0;
        assert byteQueue[1..] == old(byteQueue)[1..|old(byteQueue)| - 1];
      }
      assert old(Contents()) == Bits(byteQueue[0], 8 - frontBlank) + Flat(byteQueue[1..]);
      added := PushBytes(data, count);
      LiveBackFull(byteQueue, frontBlank);
    }

    /** The loop that pushes whole bytes of the data. */
    method PushBytes(data: nat, count: nat) returns (added: nat)
      requires 8 <= count <= 64 && |byteQueue| >= 1
      modifies this`byteQueue
      ensures |byteQueue| >= 2 && byteQueue[0] == old(byteQueue[0])
      ensures added == 8 * (count / 8)
      ensures Flat(byteQueue[1..]) == old(Flat(byteQueue[1..])) + Bits(data, added)
    {
      hide Bits, BitAt, Flat, Merge, HighPart, Pow2, LowPart, Or, And, Raised, Num;
      var rest, left := data, count;
      HighOfNone(data);
      added := 0;
      ghost var pushed := 0;
      while left >= 8
        invariant added + left == count && added == 8 * pushed
        invariant rest == HighPart(data, added)
        invariant |byteQueue| >= if added == 0 then 1 else 2
        invariant byteQueue[0] == old(byteQueue[0])
        invariant Flat(byteQueue[1..]) == old(Flat(byteQueue[1..])) + Bits(data, added)
      {
        var nextByte := LowByte(rest);
        NextByteAppended(old(byteQueue), byteQueue, nextByte, data, added);
        byteQueue := byteQueue + [nextByte];
        rest := Shr(rest, 8, 64);
        left := left - 8;
        added, pushed := added + 8, pushed + 1;
      }
    }

    /** Appends the low `count` bits of the data, or-ed with whatever the blank of the back byte holds. */
    method AddBits(data: u64, count: nat)
      requires Valid() && count <= 64
      modifies this
      ensures Valid() && |byteQueue| >= 2 && frontBlank == old(frontBlank)
      ensures View() == Added(old(View()), data, count)
      ensures old(Clean()) ==> Contents() == old(Contents()) + Bits(data, count)
      ensures old(Clean()) && data < Pow2(count) ==> Clean()
    {
      hide Live, Stray, Bits, BitAt, Flat, Merge, HighPart, Num, Pow2, LowPart, Or, Raised,
           Added, SomeAdded, BytesAdded;
      AddedInStages(View(), data, count);
      var bitData, bitCount := data, count;
      var initial := AddSomeBackBits(bitData, bitCount);
      bitData, bitCount := Shr(bitData, initial, 64), bitCount - initial;
      var bytes := AddBackBytes(bitData, bitCount);
      bitData, bitCount := Shr(bitData, bytes, 64), bitCount - bytes;
      var final := AddSomeBackBits(bitData, bitCount);
      bitCount := bitCount - final;
      assert bitCount == 0;
      if old(Clean()) { AddedClean(old(View()), data, count); }
    }

    /** The front byte is exhausted, or untouched. */
    predicate FrontSettled()
      reads this
    {
      frontBlank == 0 || (frontBlank == 8 && |byteQueue| <= 2)
    }

    method PopSpentFront()
      requires Valid()
      modifies this
      ensures Valid() && View() == old(View())
      ensures if old(frontBlank == 8 && |byteQueue| > 2) then frontBlank == 0
              else frontBlank == old(frontBlank) && byteQueue == old(byteQueue)
    {
      if frontBlank == 8 && |byteQueue| > 2 {
        FrontByteNext(byteQueue, backBlank);
        byteQueue := byteQueue[1..];
        frontBlank := 0;
      }
    }

    method ShiftFrontByte(taken: nat) returns (data: nat)
      requires Valid() && 1 <= taken <= 8 - frontBlank
      modifies this
      ensures Valid() && View().stray == old(View()).stray
      ensures frontBlank == old(frontBlank) + taken && |byteQueue| == |old(byteQueue)|
      ensures Drawn(old(Contents()), Contents(), data, taken)
    {
      hide Bits, BitAt, Flat, Merge, HighPart, Pow2, LowPart, Or, And, Raised, Num;
      var front := byteQueue[0];
      data := MaskByte(front, taken);
      byteQueue := byteQueue[0 := if taken < 8 then ShrByte(front, taken) else 0];
      FrontByteShifted(old(byteQueue), byteQueue, frontBlank, backBlank, taken);
      frontBlank := frontBlank + taken;
    }

    method TakeSomeFrontBits(count: nat) returns (data: nat, taken: nat)
      requires Valid()
      modifies this
      ensures Valid() && View().stray == old(View()).stray
      ensures taken <= count && taken <= 8 && Drawn(old(Contents()), Contents(), data, taken)
      ensures taken < count ==> FrontSettled()
      ensures old(frontBlank) == 0 && count < 8 ==> taken == count
      ensures old(frontBlank == 8 && |byteQueue| <= 2) ==> taken == 0 && frontBlank == 8 && |byteQueue| <= 2
    {
      hide Live, Stray, Bits, BitAt, Flat, Merge, HighPart, Num, Pow2, LowPart, Or, Raised;
      PopSpentFront();
      taken := Min(count, 8 - frontBlank);
      if taken == 0 {
        return 0, 0;
      }
      data := ShiftFrontByte(taken);
      PopSpentFront();
    }

    method TakeFrontBytes(count: nat) returns (data: nat, taken: nat)
      requires Valid() && count <= 64 && count <= |Contents()|
      requires count >= 8 ==> frontBlank == 0 || frontBlank == 8
      modifies this
      ensures Valid() && View().stray == old(View()).stray
      ensures taken == 8 * (count / 8) && Drawn(old(Contents()), Contents(), data, taken)
      ensures old(FrontSettled()) ==> FrontSettled()
    {
      hide Bits, BitAt, Flat, Merge, HighPart, Pow2, LowPart, Or, And, Raised, Num, Live, Whole, Stray;
      if count < 8 {
        return 0, 0;
      }
      LiveIsWhole(byteQueue, frontBlank, backBlank);
      if frontBlank == 8 {
        byteQueue := byteQueue[1..];
        frontBlank := 0;
      }
      ghost var bytes := byteQueue;
      data, taken := PopBytes(count);
      WholeDropped(bytes, backBlank, count / 8);
      if |byteQueue| < 2 {
        ghost var left := byteQueue;
        byteQueue := [0] + byteQueue;
        frontBlank := 8;
        assert byteQueue[1..] == left;
      }
      LiveIsWhole(byteQueue, frontBlank, backBlank);
    }

    /** The loop that pops whole bytes into the data. */
    method PopBytes(count: nat) returns (data: nat, taken: nat)
      requires count <= 64 && count / 8 <= |byteQueue|
      modifies this`byteQueue
      ensures taken == 8 * (count / 8) && data < Pow2(taken)
      ensures byteQueue == old(byteQueue)[count / 8..]
      ensures Bits(data, taken) == Flat(old(byteQueue)[..count / 8])
    {
      hide Bits, BitAt, Flat, Merge, HighPart, Pow2, LowPart, Or, And, Raised, Num;
      data, taken := 0, 0;
      var left := count;
      ghost var popped := 0;
      while left >= 8
        invariant taken + left == count && taken == 8 * popped && data < Pow2(taken)
        invariant popped <= |old(byteQueue)| && byteQueue == old(byteQueue)[popped..]
        invariant Bits(data, taken) == Flat(old(byteQueue)[..popped])
      {
        var byte := byteQueue[0];
        ByteAbove(old(byteQueue), popped, data);
        byteQueue := byteQueue[1..];
        data := Or(data, Shl(byte, taken, 64));
        left, taken, popped := left - 8, taken + 8, popped + 1;
      }
    }

    method ShiftBackByte(taken: nat) returns (data: nat)
      requires Valid() && taken < 8 && taken <= 8 - backBlank && (taken > 0 ==> |byteQueue| >= 2)
      modifies this
      ensures Valid() && View().stray == old(View()).stray + Zeros(taken)
      ensures DrawnAt(old(Contents()), Contents(), old(BackStart(byteQueue, frontBlank, backBlank)), data, taken)
    {
      hide Bits, BitAt, Flat, Merge, HighPart, Pow2, LowPart, Or, And, Raised, Num, Live, Stray, BackStart;
      var remaining := 8 - backBlank - taken;
      var last := |byteQueue| - 1;
      var back := byteQueue[last];
      data := if remaining < 8 then MaskByte(back, taken) else 0;
      byteQueue := byteQueue[last := ShrByte(back, taken)];
      BackByteShifted(old(byteQueue), byteQueue, frontBlank, backBlank, taken);
      backBlank := backBlank + taken;
    }

    /** Bits of the back byte; a whole byte at once would be shifted out of range. */
    method TakeSomeBackBits(count: nat) returns (data: nat, taken: nat)
      requires Valid() && (count < 8 || backBlank > 0) && (count > 0 ==> |byteQueue| >= 2)
      modifies this
      ensures Valid() && StrayShrunk(old(View()).stray, View().stray)
      ensures taken == Min(count, 8 - old(backBlank))
      ensures DrawnAt(old(Contents()), Contents(), old(BackStart(byteQueue, frontBlank, backBlank)), data, taken)
    {
      hide Live, BackStart, Stray, Bits, BitAt, Flat, Merge, HighPart, Num, Pow2, LowPart, Or, Raised;
      taken := Min(count, 8 - backBlank);
      data := ShiftBackByte(taken);
      PopBlankBack();
    }

    method PopBlankBack()
      requires Valid()
      modifies this
      ensures Valid() && Contents() == old(Contents())
      ensures View().stray == [] || View().stray == old(View()).stray
    {
      if backBlank == 8 && |byteQueue| > 2 {
        LiveBackBlank(byteQueue, frontBlank);
        byteQueue := byteQueue[..|byteQueue| - 1];
        backBlank := 0;
        LiveBackFull(byteQueue, frontBlank);
        assert byteQueue[1..] == old(byteQueue)[1..|byteQueue|];
      }
    }

    /** What is left of the front byte, then whole bytes. */
    method TakeLeadingBits(count: nat) returns (bitData: nat, bitPosition: nat)
      requires Valid() && count <= 64 && count <= |Contents()|
      modifies this
      ensures Valid() && View().stray == old(View()).stray
      ensures bitPosition <= count < bitPosition + 8
      ensures Drawn(old(Contents()), Contents(), bitData, bitPosition)
      ensures bitPosition < count ==> FrontSettled()
    {
      hide Live, Stray, Bits, BitAt, Flat, Merge, HighPart, Num, Pow2, LowPart, Or, Raised;
      var initialData, initialCount := TakeSomeFrontBits(count);
      DrawnFirst(old(Contents()), Contents(), initialData, initialCount);
      bitData, bitPosition := Or(0, Shl(initialData, 0, 64)), initialCount;
      ghost var rest := Contents();
      var byteData, byteCount := TakeFrontBytes(count - initialCount);
      DrawnNext(old(Contents()), rest, Contents(), bitData, bitPosition, byteData, byteCount);
      bitData := Or(bitData, Shl(byteData, bitPosition, 64));
      bitPosition := bitPosition + byteCount;
    }

    /** The last few bits, from the front byte or else from the back byte, put above those taken so far. */
    method TakeTrailingBits(ghost before: seq<bool>, low: nat, position: nat, count: nat) returns (bitData: nat)
      requires Valid() && count < 8 && count <= |Contents()| && position + count <= 64
      requires Drawn(before, Contents(), low, position)
      requires count > 0 ==> FrontSettled()
      modifies this
      ensures Valid() && StrayShrunk(old(View()).stray, View().stray)
      ensures Drawn(before, Contents(), bitData, position + count)
    {
      hide Live, Stray, Bits, BitAt, Flat, Merge, HighPart, Num, Pow2, LowPart, Or, Raised;
      ghost var rest := Contents();
      var frontData, frontCount := TakeSomeFrontBits(count);
      DrawnAbove(before, rest, Contents(), low, position, frontData, frontCount);
      bitData := OrAbove(low, position, frontData, frontCount);
      rest := Contents();
      ghost var start := BackStart(byteQueue, frontBlank, backBlank);
      var backData, backCount := TakeSomeBackBits(count - frontCount);
      DrawnAtFront(rest, Contents(), start, backData, backCount);
      DrawnAbove(before, rest, Contents(), bitData, position + frontCount, backData, backCount);
      bitData := OrAbove(bitData, position + frontCount, backData, backCount);
    }

    /** The oldest `count` bits as a number, or nothing, with nothing changed, when there are too few. */
    method TakeBits(count: nat) returns (r: Option<u64>)
      requires Valid() && count <= 64
      modifies this
      ensures Valid()
      ensures count > |old(Contents())| ==> r == None && View() == old(View())
      ensures count <= |old(Contents())| ==>
                && r == Some(Num(old(Contents())[..count]))
                && Contents() == old(Contents())[count..]
                && StrayShrunk(old(View()).stray, View().stray)
      ensures old(Clean()) ==> Clean()
    {
      hide Bits, BitAt, Flat, Merge, HighPart, Pow2, LowPart, Or, And, Raised, Num, Live, Stray, StrayShrunk;
      var len := Len();
      if count > len {
        return None;
      }
      ghost var before := Contents();
      var bitData, bitPosition := TakeLeadingBits(count);
      bitData := TakeTrailingBits(before, bitData, bitPosition, count - bitPosition);
      DrawnIsNum(before, Contents(), bitData, count);
      if old(Clean()) { ShrunkZeros(old(View()).stray, View().stray); }
      r := Some(bitData);
    }
  }
}
