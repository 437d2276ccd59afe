/** The repair loop that looks for missing blocks below the finalized height. */
module Completeness {
  import opened Ids
  import opened Sets

  const HOLD_ON: nat := 20
  const WINDOW: nat := 3000

  /** Go's subtraction on 64-bit unsigned numbers. */
  function SubUint(a: nat, b: nat): nat
    requires a < UINT && b < UINT
  {
    if a >= b then a - b else a + UINT - b
  }

  /**
   The last block of the window that starts after `latest`: at most WINDOW blocks, inside one table,
   up to the target. Sums and differences wrap around at 64 bits.
   */
  function WindowEnd(latest: nat, target: nat): (end: nat)
    requires latest < target < UINT
    ensures latest < end <= target && end <= latest + 3000
    ensures TableIndex(latest + 1) == TableIndex(end)
  {
    var end := (latest + WINDOW) % UINT;
    WindowCut(latest);
    var end' := if end / SPLIT != (latest + 1) / SPLIT then SubUint(end / SPLIT * SPLIT, 1) else end;
    if end' > target then
      TableBetween(latest + 1, target, end');
      target
    else end'
  }

  lemma TableBetween(lo: nat, n: nat, hi: nat)
    requires lo <= n <= hi && TableIndex(lo) == TableIndex(hi)
    ensures TableIndex(n) == TableIndex(hi)
  {
  }

  /** The end before the target is looked at. */
  lemma WindowCut(latest: nat)
    requires latest + 1 < UINT
    ensures var end := (latest + WINDOW) % UINT;
      var end' := if end / SPLIT != (latest + 1) / SPLIT then SubUint(end / SPLIT * SPLIT, 1) else end;
      latest < end' <= latest + WINDOW && TableIndex(end') == TableIndex(latest + 1)
  {
    if latest + WINDOW >= UINT {
      var end := (latest + WINDOW) % UINT;
      assert end == latest + WINDOW - UINT && end / SPLIT == 0;
    }
  }

  /** No longer window after `latest` has at most 3000 blocks, all of one table and up to the target. */
  lemma WindowIsLongest(latest: nat, target: nat, end: nat)
    requires latest < target < UINT
    requires end <= target && end <= latest + 3000 && end / 1000000 == (latest + 1) / 1000000
    ensures end <= WindowEnd(latest, target)
  {
  }

  /** The numbers from lo up to and not including hi. */
  function Range(lo: nat, hi: nat): (s: set<nat>)
    ensures forall n :: n in s <==> lo <= n < hi
    decreases hi
  {
    if hi <= lo then {} else Range(lo, hi - 1) + {hi - 1}
  }

  lemma {:induction false} RangeSize(lo: nat, hi: nat)
    requires lo <= hi
    ensures |Range(lo, hi)| == hi - lo
    decreases hi - lo
  {
    if lo < hi {
      RangeSize(lo, hi - 1);
    }
  }

  /** The stored numbers of a window are distinct, so their count tells whether one is missing. */
  lemma CountIsExact(stored: set<nat>, lo: nat, hi: nat)
    requires lo <= hi
    ensures |stored * Range(lo, hi)| < hi - lo <==> !(Range(lo, hi) <= stored)
  {
    RangeSize(lo, hi);
    SubsetSize(stored * Range(lo, hi), Range(lo, hi));
    assert Range(lo, hi) <= stored ==> stored * Range(lo, hi) == Range(lo, hi);
  }

  /** The missing numbers from lo up to and not including hi, in ascending order. */
  function Missing(stored: set<nat>, lo: nat, hi: nat): (m: seq<nat>)
    ensures forall n :: n in m <==> lo <= n < hi && n !in stored
    ensures forall i, j | 0 <= i < j < |m| :: m[i] < m[j]
    decreases hi
  {
    if hi <= lo then []
    else
      var before := Missing(stored, lo, hi - 1);
      assert forall i | 0 <= i < |before| :: before[i] in before;
      if hi - 1 in stored then before else before + [hi - 1]
  }

  lemma MissingEmpty(stored: set<nat>, lo: nat, hi: nat)
    ensures hi <= lo ==> Missing(stored, lo, hi) == []
  {
  }

  lemma MissingStep(stored: set<nat>, lo: nat, n: nat)
    requires lo <= n
    ensures Missing(stored, lo, n + 1) == if n in stored then Missing(stored, lo, n) else Missing(stored, lo, n) + [n]
  {
  }

  lemma {:induction false} MissingSplit(stored: set<nat>, lo: nat, mid: nat, hi: nat)
    requires lo <= mid <= hi
    ensures Missing(stored, lo, hi) == Missing(stored, lo, mid) + Missing(stored, mid, hi)
    decreases hi
  {
    if mid < hi {
      MissingSplit(stored, lo, mid, hi - 1);
    }
  }

  /** What was filled outside a stretch does not change what is missing in it. */
  lemma {:induction false} MissingLocal(s1: set<nat>, s2: set<nat>, lo: nat, hi: nat)
    requires forall n | lo <= n < hi :: n in s1 <==> n in s2
    ensures Missing(s1, lo, hi) == Missing(s2, lo, hi)
    decreases hi
  {
    if lo < hi {
      MissingLocal(s1, s2, lo, hi - 1);
    }
  }

  lemma {:induction false} NothingMissing(stored: set<nat>, lo: nat, hi: nat)
    requires Range(lo, hi) <= stored
    ensures Missing(stored, lo, hi) == []
    decreases hi
  {
    if lo < hi {
      assert hi - 1 in Range(lo, hi);
      NothingMissing(stored, lo, hi - 1);
    }
  }

  /** The first block that is checked. */
  function FirstChecked(startBlock: nat): nat {
    if startBlock > 0 then startBlock else 2
  }

  /** Block 2 or the start, and all up to 20 below the height in 64 bits, have joined. */
  ghost predicate RepairAdds(before: set<nat>, after: set<nat>, startBlock: nat, latest: nat) {
    var lo := if startBlock > 0 then startBlock else 2;
    var hi := if latest >= 20 then latest - 20 else latest + 18446744073709551596;
    forall n: nat :: n in after <==> n in before || lo <= n <= hi
  }

  /** The bounds of a repair in numbers. */
  lemma BoundsSpelled(startBlock: nat, latest: nat)
    requires latest < UINT
    ensures FirstChecked(startBlock) == if startBlock > 0 then startBlock else 2
    ensures SubUint(latest, HOLD_ON) == if latest >= 20 then latest - 20 else latest + 18446744073709551596
  {
  }

  lemma RangeAdds(stored: set<nat>, startBlock: nat, latest: nat)
    requires latest < UINT
    ensures RepairAdds(stored, stored + Range(FirstChecked(startBlock), SubUint(latest, HOLD_ON) + 1), startBlock, latest)
  {
    BoundsSpelled(startBlock, latest);
  }

  /** How a repair ends, if it does. */
  datatype Outcome = Completed | Panicked | Endless

  /** Stored blocks and the fills asked for; whether a block can be filled is up to the chain node. */
  class Indexer {
    var stored: set<nat>
    var filled: seq<nat>
    const fillable: nat -> bool

    constructor (stored: set<nat>, fillable: nat -> bool)
      ensures this.stored == stored && filled == [] && this.fillable == fillable
    {
      this.stored, filled, this.fillable := stored, [], fillable;
    }

    /** The block numbers of one table between start and end. */
    function GetBlockNumArr(start: nat, end: nat): set<nat>
      reads this
    {
      set n | n in stored && TableIndex(n) == TableIndex(end) && start <= n <= end
    }

    /** A forced fill: the block is stored unless the node does not give it. */
    method FillBlock(num: nat) returns (ok: bool)
      modifies this
      ensures ok <==> fillable(num)
      ensures ok ==> stored == old(stored) + {num} && filled == old(filled) + [num]
      ensures !ok ==> stored == old(stored) && filled == old(filled)
    {
      ok := fillable(num);
      if ok {
        stored, filled := stored + {num}, filled + [num];
      }
    }

    /** Some block from the first checked one up to the target is neither stored nor given by the node. */
    ghost predicate MustPanic(startBlock: nat, latest: nat)
      requires latest < UINT
      reads this
    {
      exists n | FirstChecked(startBlock) <= n <= SubUint(latest, HOLD_ON) :: n !in stored && !fillable(n)
    }

    /** How the inner loop over a window ends when its missing blocks are asked for. */
    ghost function WindowResult(stored: set<nat>, lo: nat, hi: nat): Outcome {
      if Range(lo, hi + 1) <= stored then Completed
      else if Unfillable(if hi + 1 == UINT then 0 else lo, hi, stored * Range(lo, hi + 1)) then Panicked
      else if hi + 1 == UINT then Endless
      else Completed
    }

    /** How the repair ends: as its first window that does not complete. */
    ghost function RepairResult(stored: set<nat>, latest: nat, target: nat): Outcome
      requires target < UINT
      decreases target - latest
    {
      if latest >= target then Completed
      else
        var end := WindowEnd(latest, target);
        var result := WindowResult(stored, latest + 1, end);
        if result == Completed then RepairResult(stored, end, target) else result
    }

    lemma WindowResultLocal(s1: set<nat>, s2: set<nat>, lo: nat, hi: nat)
      requires forall n | lo <= n <= hi :: n in s1 <==> n in s2
      ensures WindowResult(s1, lo, hi) == WindowResult(s2, lo, hi)
    {
      assert s1 * Range(lo, hi + 1) == s2 * Range(lo, hi + 1);
      assert Range(lo, hi + 1) <= s1 <==> Range(lo, hi + 1) <= s2;
    }

    /**
     The repair in its blocking mode, at any height. It panics at the first block that cannot be
     filled. When it is done, every block from the first checked one up to the target is stored, and
     exactly the missing ones were filled, each once, in ascending order. The target is HOLD_ON below
     the finalized height and wraps around below 0; only the greatest 64-bit number as a target, which
     is the one for height HOLD_ON - 1, can keep it running for ever.
     */
    method CheckCompleteness(startBlock: nat, latest: nat) returns (result: Outcome)
      requires latest < UINT && startBlock < UINT
      modifies this
      ensures old(MustPanic(startBlock, latest)) ==> result == Panicked
      ensures result == old(RepairResult(stored, if startBlock > 0 then startBlock - 1 else 1, SubUint(latest, HOLD_ON)))
      ensures latest + 1 != HOLD_ON ==> (result == Panicked <==> old(MustPanic(startBlock, latest))) && result != Endless
      ensures result == Completed ==> stored == old(stored) + Range(FirstChecked(startBlock), SubUint(latest, HOLD_ON) + 1)
      ensures result == Completed ==> filled == old(filled) + Missing(old(stored), FirstChecked(startBlock), SubUint(latest, HOLD_ON) + 1)
      ensures result == Completed ==> RepairAdds(old(stored), stored, startBlock, latest)
    {
      hide Missing, Range, WindowEnd, TableIndex, WindowResult, RepairAdds;
      var target := SubUint(latest, HOLD_ON);
      ghost var first := FirstChecked(startBlock);
      var latestBlockNum := if startBlock > 0 then startBlock - 1 else 1;
      MissingEmpty(old(stored), first, first);
      MissingEmpty(old(stored), first, target + 1);
      while latestBlockNum < target
        invariant first <= latestBlockNum + 1
        invariant latestBlockNum + 1 == first || latestBlockNum <= target
        invariant stored == old(stored) + Range(first, latestBlockNum + 1)
        invariant filled == old(filled) + Missing(old(stored), first, latestBlockNum + 1)
        invariant forall n | first <= n <= latestBlockNum :: n in old(stored) || fillable(n)
        invariant old(RepairResult(stored, if startBlock > 0 then startBlock - 1 else 1, target)) ==
          RepairResult(old(stored), latestBlockNum, target)
      {
        var endBlockNum := WindowEnd(latestBlockNum, target);
        ghost var here := stored;
        WindowResultLocal(here, old(stored), latestBlockNum + 1, endBlockNum);
        result := CheckWindow(latestBlockNum + 1, endBlockNum);
        if result != Completed {
          return;
        }
        MissingSplit(old(stored), first, latestBlockNum + 1, endBlockNum + 1);
        MissingLocal(old(stored), here, latestBlockNum + 1, endBlockNum + 1);
        latestBlockNum := endBlockNum;
      }
      RangeAdds(old(stored), startBlock, latest);
      return Completed;
    }

    /** One window: nothing is done when as many blocks are stored as it is long. */
    method CheckWindow(lo: nat, hi: nat) returns (result: Outcome)
      requires lo <= hi < UINT && TableIndex(lo) == TableIndex(hi)
      modifies this
      ensures (exists n | lo <= n <= hi :: n !in old(stored) && !fillable(n)) ==> result == Panicked
      ensures hi + 1 < UINT && result == Panicked ==> exists n | lo <= n <= hi :: n !in old(stored) && !fillable(n)
      ensures hi + 1 < UINT ==> result != Endless
      ensures result == WindowResult(old(stored), lo, hi)
      ensures result == Completed ==> stored == old(stored) + Range(lo, hi + 1)
      ensures result == Completed ==> filled == old(filled) + Missing(old(stored), lo, hi + 1)
    {
      hide Missing, Range;
      var fetched := GetBlockNumArr(lo, hi);
      SameTable(lo, hi);
      assert fetched == stored * Range(lo, hi + 1);
      CountIsExact(stored, lo, hi + 1);
      if |fetched| < hi + 1 - lo {
        result := FillWindow(lo, hi, fetched);
      } else {
        NothingMissing(stored, lo, hi + 1);
        result := Completed;
      }
    }

    /**
     The inner loop over one window. At the greatest 64-bit number its condition never fails: the
     counter starts over from 0, and every block not fetched is filled again and again until one
     cannot be.
     */
    method FillWindow(lo: nat, hi: nat, fetched: set<nat>) returns (result: Outcome)
      requires lo <= hi < UINT && fetched == stored * Range(lo, hi + 1)
      modifies this
      ensures result == Panicked <==> Unfillable(if hi + 1 == UINT then 0 else lo, hi, fetched)
      ensures result == Endless ==> hi + 1 == UINT
      ensures result == Completed ==> hi + 1 < UINT
      ensures result == Completed ==> stored == old(stored) + Range(lo, hi + 1)
      ensures result == Completed ==> filled == old(filled) + Missing(old(stored), lo, hi + 1)
    {
      hide Range, Missing;
      MissingLocal(stored, fetched, lo, hi + 1);
      var ok := FillRange(lo, hi, fetched);
      if !ok {
        return Panicked;
      }
      if hi + 1 < UINT {
        return Completed;
      }
      ok := FillRange(0, hi, fetched);
      return if ok then Endless else Panicked;
    }

    /** Some block of the range was not fetched and cannot be filled. */
    ghost predicate Unfillable(lo: nat, hi: nat, fetched: set<nat>) {
      exists n | lo <= n <= hi :: n !in fetched && !fillable(n)
    }

    /** Fills what was not fetched, in order, until a block cannot be. */
    method FillRange(lo: nat, hi: nat, fetched: set<nat>) returns (ok: bool)
      requires lo <= hi
      modifies this
      ensures ok <==> !Unfillable(lo, hi, fetched)
      ensures ok ==> stored == old(stored) + (Range(lo, hi + 1) - fetched)
      ensures ok ==> filled == old(filled) + Missing(fetched, lo, hi + 1)
    {
      hide Missing;
      MissingEmpty(fetched, lo, lo);
      for i := lo to hi + 1
        invariant stored == old(stored) + (Range(lo, i) - fetched)
        invariant filled == old(filled) + Missing(fetched, lo, i)
        invariant forall n | lo <= n < i :: n in fetched || fillable(n)
      {
        MissingStep(fetched, lo, i);
        if i !in fetched {
          ok := FillBlock(i);
          if !ok {
            return false;
          }
        }
      }
      ok := true;
    }
  }

  lemma SameTable(lo: nat, hi: nat)
    requires TableIndex(lo) == TableIndex(hi)
    ensures forall n | lo <= n <= hi :: TableIndex(n) == TableIndex(hi)
  {
  }

  /** Below HOLD_ON the target wraps around and lies above the finalized height. */
  lemma LowHeightWraps(latest: nat)
    requires latest < UINT
    ensures SubUint(latest, HOLD_ON) > latest <==> latest < HOLD_ON
  {
  }

  /**
   With a node that gives the blocks up to its own height, at or above the finalized one, and none
   stored beyond, the repair must panic exactly when the finalized height is below HOLD_ON, the
   wrapped target is above the node's height, and the repair starts by that target.
   */
  lemma PanicsExactly(indexer: Indexer, startBlock: nat, latest: nat, height: nat)
    requires latest < UINT && height >= latest
    requires forall n: nat :: indexer.fillable(n) <==> n <= height
    requires forall n: nat | n in indexer.stored :: n <= height
    ensures indexer.MustPanic(startBlock, latest) <==>
            latest < HOLD_ON && FirstChecked(startBlock) <= SubUint(latest, HOLD_ON) && height < SubUint(latest, HOLD_ON)
  {
    LowHeightWraps(latest);
    var target := SubUint(latest, HOLD_ON);
    if FirstChecked(startBlock) <= target && height < target {
      assert target !in indexer.stored && !indexer.fillable(target);
    }
  }
}
